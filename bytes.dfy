/**
 Byte strings as the rewriter sees them: an opaque sequence of octets (Rust's
 `&[u8]` / `Vec<u8>`), the notion of a pattern occurring at an offset, and the
 overlap relation between two patterns used by the elimination lemmas.
 */
module ByteStrings {

  /** An octet, Rust's `u8`. Only equality is ever used on it. */
  newtype Byte = b: int | 0 <= b < 256

  type Bytes = seq<Byte>

  datatype Option<T> = None | Some(value: T)

  /** Rust byte-string literals (`b"..."`) hold ASCII characters only. */
  predicate IsAscii(s: string) {
    forall i :: 0 <= i < |s| ==> s[i] as int < 128
  }

  /** The bytes of a byte-string literal such as Rust's `b"localhost"`. */
  function Encode(s: string): (r: Bytes)
    requires IsAscii(s)
    ensures |r| == |s|
    ensures forall i :: 0 <= i < |s| ==> r[i] as int == s[i] as int
  {
    seq(|s|, i requires 0 <= i < |s| => s[i] as int as Byte)
  }

  /** `pat` occupies the window of `s` that starts at offset `i`. */
  predicate MatchesAt(s: Bytes, pat: Bytes, i: nat) {
    i + |pat| <= |s| && s[i..i + |pat|] == pat
  }

  ghost predicate Contains(s: Bytes, pat: Bytes) {
    exists i: nat :: MatchesAt(s, pat, i)
  }

  /**
   `p`, laid over `q` so that `p[0]` sits on `q[j]`, agrees with `q` on every
   position the two share.
   */
  ghost predicate AgreesAt(p: Bytes, q: Bytes, j: int) {
    forall t :: 0 <= t < |p| && 0 <= j + t < |q| ==> p[t] == q[j + t]
  }

  /**
   No placement of `p` that shares at least one position with `q` agrees with
   it: an occurrence of `p` can never overlap an occurrence of `q`.
   */
  ghost predicate NoOverlap(p: Bytes, q: Bytes) {
    forall j :: -|p| < j < |q| ==> !AgreesAt(p, q, j)
  }

  /** A cheap sufficient condition: neither pattern's last byte occurs in the other. */
  lemma ForeignLastBytesNoOverlap(p: Bytes, q: Bytes)
    requires |p| > 0 && |q| > 0
    requires p[|p| - 1] !in q && q[|q| - 1] !in p
    ensures NoOverlap(p, q) && NoOverlap(q, p)
  {
    forall j | -|p| < j < |q| ensures !AgreesAt(p, q, j) {
      if j + |p| - 1 < |q| {
        assert p[|p| - 1] != q[j + |p| - 1];
      } else {
        assert q[|q| - 1] != p[|q| - 1 - j];
      }
    }
    forall j | -|q| < j < |p| ensures !AgreesAt(q, p, j) {
      if j + |q| - 1 < |p| {
        assert q[|q| - 1] != p[j + |q| - 1];
      } else {
        assert p[|p| - 1] != q[|p| - 1 - j];
      }
    }
  }

  /** The same with first bytes: neither pattern's first byte occurs in the other. */
  lemma ForeignFirstBytesNoOverlap(p: Bytes, q: Bytes)
    requires |p| > 0 && |q| > 0
    requires p[0] !in q && q[0] !in p
    ensures NoOverlap(p, q) && NoOverlap(q, p)
  {
    forall j | -|p| < j < |q| ensures !AgreesAt(p, q, j) {
      if j >= 0 {
        assert p[0] != q[j];
      } else {
        assert q[0] != p[-j];
      }
    }
    forall j | -|q| < j < |p| ensures !AgreesAt(q, p, j) {
      if j >= 0 {
        assert q[0] != p[j];
      } else {
        assert p[0] != q[-j];
      }
    }
  }

  /**
   Two windows of one buffer, one holding `p` at `k` and one holding `q` at
   `i`, agree wherever they share a position.
   */
  lemma WindowsAgree(s: Bytes, p: Bytes, k: nat, q: Bytes, i: nat)
    requires MatchesAt(s, p, k) && MatchesAt(s, q, i)
    ensures AgreesAt(p, q, k - i)
  {
    forall t | 0 <= t < |p| && 0 <= k - i + t < |q| ensures p[t] == q[k - i + t] {
      assert p[t] == s[k..k + |p|][t] == s[k + t];
      assert q[k - i + t] == s[i..i + |q|][k - i + t] == s[k + t];
    }
  }

  /** Occurrences of two patterns that cannot overlap lie apart in any buffer. */
  lemma OccurrencesApart(s: Bytes, p: Bytes, k: nat, q: Bytes, i: nat)
    requires MatchesAt(s, p, k) && MatchesAt(s, q, i) && NoOverlap(p, q)
    ensures k + |p| <= i || i + |q| <= k
  {
    WindowsAgree(s, p, k, q, i);
  }

  /** An occurrence inside a slice is an occurrence in the whole buffer. */
  lemma SliceOccurrences(s: Bytes, q: Bytes, lo: nat, hi: nat)
    requires lo <= hi <= |s|
    ensures forall i: nat :: MatchesAt(s[lo..hi], q, i) ==> MatchesAt(s, q, lo + i)
  {
    forall i: nat | MatchesAt(s[lo..hi], q, i) ensures MatchesAt(s, q, lo + i) {
      var inner, outer := s[lo..hi][i..i + |q|], s[lo + i..lo + i + |q|];
      forall t | 0 <= t < |q| ensures inner[t] == outer[t] { }
      assert inner == outer;
    }
  }

  /** An occurrence that lies inside a slice is an occurrence in the slice. */
  lemma OccurrenceInSlice(s: Bytes, q: Bytes, lo: nat, hi: nat, i: nat)
    requires lo <= i && i + |q| <= hi <= |s| && MatchesAt(s, q, i)
    ensures MatchesAt(s[lo..hi], q, i - lo)
  {
    var inner, outer := s[lo..hi][i - lo..i - lo + |q|], s[i..i + |q|];
    forall t | 0 <= t < |q| ensures inner[t] == outer[t] { }
    assert inner == outer;
  }

  /** An occurrence in `a` is an occurrence in `a + b`. */
  lemma OccurrenceInPrefix(a: Bytes, b: Bytes, q: Bytes, i: nat)
    requires MatchesAt(a, q, i)
    ensures MatchesAt(a + b, q, i)
  {
    var inner, outer := (a + b)[i..i + |q|], a[i..i + |q|];
    forall t | 0 <= t < |q| ensures inner[t] == outer[t] { }
    assert inner == outer;
  }

  /** An occurrence in `b` is an occurrence in `a + b`, shifted by `|a|`. */
  lemma OccurrenceInSuffix(a: Bytes, b: Bytes, q: Bytes, j: nat)
    requires MatchesAt(b, q, j)
    ensures MatchesAt(a + b, q, |a| + j)
  {
    var inner, outer := (a + b)[|a| + j..|a| + j + |q|], b[j..j + |q|];
    forall t | 0 <= t < |q| ensures inner[t] == outer[t] { }
    assert inner == outer;
  }

  /**
   When `q` cannot overlap a non-empty `r`, every occurrence of `q` in
   `a + r + b` lies wholly inside `a` or wholly inside `b`.
   */
  lemma OccurrencesAvoidReplacement(a: Bytes, r: Bytes, b: Bytes, q: Bytes)
    requires |r| > 0 && NoOverlap(q, r)
    ensures forall i: nat :: MatchesAt(a + r + b, q, i) ==>
      MatchesAt(a, q, i) || (i >= |a| + |r| && MatchesAt(b, q, i - |a| - |r|))
  {
    var s := a + r + b;
    assert MatchesAt(s, r, |a|) by {
      assert s[|a|..|a| + |r|] == r;
    }
    forall i: nat | MatchesAt(s, q, i)
      ensures MatchesAt(a, q, i) || (i >= |a| + |r| && MatchesAt(b, q, i - |a| - |r|))
    {
      OccurrencesApart(s, q, i, r, |a|);
      if i + |q| <= |a| {
        assert s[i..i + |q|] == a[i..i + |q|];
      } else {
        assert s[i..i + |q|] == b[i - |a| - |r|..i - |a| - |r| + |q|];
      }
    }
  }
}
