/**
 One replacement pass: a single left-to-right, non-overlapping scan of a
 buffer that substitutes every occurrence of a pattern. `ReplaceFrom` is the
 reference definition, one byte or one match at a time; `ReplacePass` is the
 source's `while let` loop, which copies whole stretches up to the next match,
 and is proved to compute the same bytes.
 */
module Replace {
  import opened ByteStrings
  import opened Search

  /**
   The output of the scan from offset `i` on: at a match, the replacement,
   and the scan resumes after the matched bytes; otherwise the byte at `i`
   is copied and the scan moves on by one.
   */
  function ReplaceFrom(s: Bytes, pat: Bytes, rep: Bytes, i: nat): Bytes
    requires |pat| > 0 && i <= |s|
    decreases |s| - i
  {
    if MatchesAt(s, pat, i) then rep + ReplaceFrom(s, pat, rep, i + |pat|)
    else if i < |s| then [s[i]] + ReplaceFrom(s, pat, rep, i + 1)
    else []
  }

  /** A whole pass. */
  function ReplaceAll(s: Bytes, pat: Bytes, rep: Bytes): Bytes
    requires |pat| > 0
  {
    ReplaceFrom(s, pat, rep, 0)
  }

  /** The number of matches the scan takes from offset `i` on. */
  function CountFrom(s: Bytes, pat: Bytes, i: nat): nat
    requires |pat| > 0 && i <= |s|
    decreases |s| - i
  {
    if MatchesAt(s, pat, i) then 1 + CountFrom(s, pat, i + |pat|)
    else if i < |s| then CountFrom(s, pat, i + 1)
    else 0
  }

  /** The number of matches of a whole pass; zero exactly when the pattern is absent. */
  function Count(s: Bytes, pat: Bytes): (n: nat)
    requires |pat| > 0
    ensures n == 0 <==> !Contains(s, pat)
  {
    CountZero(s, pat, 0);
    CountFrom(s, pat, 0)
  }

  /** The scan takes no match exactly when no occurrence starts at or after `i`. */
  lemma {:induction false} CountZero(s: Bytes, pat: Bytes, i: nat)
    requires |pat| > 0 && i <= |s|
    ensures CountFrom(s, pat, i) == 0 <==> NoMatchFrom(s, pat, i)
    decreases |s| - i
  {
    if MatchesAt(s, pat, i) {
    } else if i < |s| {
      CountZero(s, pat, i + 1);
      assert NoMatchFrom(s, pat, i + 1) ==> NoMatchFrom(s, pat, i);
    } else {
      forall q: nat | i <= q ensures !MatchesAt(s, pat, q) {
      }
    }
  }

  /**
   `n` copies of `d` added up: the product `n * d`, written so that the
   proofs about a scan stay in linear arithmetic.
   */
  function Scaled(n: nat, d: int): int
  {
    if n == 0 then 0 else d + Scaled(n - 1, d)
  }

  lemma {:induction false} ScaledIsProduct(n: nat, d: int)
    ensures Scaled(n, d) == n * d
  {
    if n > 0 {
      ScaledIsProduct(n - 1, d);
      MulSucc(n - 1, d);
    }
  }

  lemma MulSucc(m: int, d: int)
    ensures (1 + m) * d == d + m * d
  {
  }

  /** The matches of one scan do not overlap: together they take at most the bytes scanned. */
  lemma {:induction false} CountFromBound(s: Bytes, pat: Bytes, i: nat)
    requires |pat| > 0 && i <= |s|
    ensures Scaled(CountFrom(s, pat, i), |pat|) <= |s| - i
    decreases |s| - i
  {
    if MatchesAt(s, pat, i) {
      CountFromBound(s, pat, i + |pat|);
    } else if i < |s| {
      CountFromBound(s, pat, i + 1);
    }
  }

  lemma CountBound(s: Bytes, pat: Bytes)
    requires |pat| > 0
    ensures Count(s, pat) * |pat| <= |s|
  {
    CountFromBound(s, pat, 0);
    ScaledIsProduct(Count(s, pat), |pat|);
  }

  /** Bytes at which no match starts are copied one by one, up to `p`. */
  lemma {:induction false} CopyUpTo(s: Bytes, pat: Bytes, rep: Bytes, i: nat, p: nat)
    requires |pat| > 0 && i <= p <= |s| && NoMatchBetween(s, pat, i, p)
    ensures ReplaceFrom(s, pat, rep, i) == s[i..p] + ReplaceFrom(s, pat, rep, p)
    decreases p - i
  {
    if i < p {
      assert !MatchesAt(s, pat, i);
      CopyUpTo(s, pat, rep, i + 1, p);
      assert s[i..p] == [s[i]] + s[i + 1..p];
      Assoc([s[i]], s[i + 1..p], ReplaceFrom(s, pat, rep, p));
    }
  }

  /** One turn of the source's loop: copy up to the earliest match, emit the replacement, jump past the match. */
  lemma ChunkStep(s: Bytes, pat: Bytes, rep: Bytes, start: nat, p: nat)
    requires |pat| > 0 && start <= |s| && IsFirstFrom(s, pat, start, p)
    ensures ReplaceFrom(s, pat, rep, start) == s[start..p] + rep + ReplaceFrom(s, pat, rep, p + |pat|)
  {
    CopyUpTo(s, pat, rep, start, p);
  }

  /** The loop's exit: with no match left, the rest of the buffer is copied as it is. */
  lemma ChunkEnd(s: Bytes, pat: Bytes, rep: Bytes, start: nat)
    requires |pat| > 0 && start <= |s| && NoMatchFrom(s, pat, start)
    ensures ReplaceFrom(s, pat, rep, start) == s[start..]
  {
    CopyUpTo(s, pat, rep, start, |s|);
    assert !MatchesAt(s, pat, |s|);
  }

  /** The loop at modify.rs lines 24-35 (and 42-52): cursor `start`, accumulator `out`. */
  method ReplacePass(buf: Bytes, pat: Bytes, rep: Bytes) returns (out: Bytes)
    requires |pat| > 0
    ensures out == ReplaceAll(buf, pat, rep)
  {
    out := [];
    var start := 0;
    while true
      invariant start <= |buf|
      invariant out + ReplaceFrom(buf, pat, rep, start) == ReplaceAll(buf, pat, rep)
      decreases |buf| - start
    {
      var pos := Position(buf, start, pat);
      if pos.None? {
        ChunkEnd(buf, pat, rep, start);
        break;
      }
      var p := start + pos.value;
      var out' := out + buf[start..p] + rep;
      PassStep(buf, pat, rep, start, p, out, out');
      out, start := out', p + |pat|;
    }
    out := out + buf[start..];
  }

  lemma PassStep(buf: Bytes, pat: Bytes, rep: Bytes, start: nat, p: nat, out: Bytes, out': Bytes)
    requires |pat| > 0 && start <= |buf| && IsFirstFrom(buf, pat, start, p)
    requires out' == out + buf[start..p] + rep
    ensures out + ReplaceFrom(buf, pat, rep, start) == out' + ReplaceFrom(buf, pat, rep, p + |pat|)
  {
    ChunkStep(buf, pat, rep, start, p);
    Regroup(out, buf[start..p], rep, ReplaceFrom(buf, pat, rep, p + |pat|));
  }

  lemma Assoc(a: Bytes, b: Bytes, c: Bytes)
    ensures a + (b + c) == a + b + c
  {
  }

  lemma SplitAt(s: Bytes, i: nat, k: nat)
    requires i <= k <= |s|
    ensures s[i..] == s[i..k] + s[k..]
  {
  }

  lemma Regroup(a: Bytes, b: Bytes, c: Bytes, d: Bytes)
    ensures a + (b + c + d) == a + b + c + d
  {
  }

  /** The scan of `b` does not depend on what precedes it: a prefix only shifts the cursor. */
  lemma {:induction false} ShiftFrom(a: Bytes, b: Bytes, pat: Bytes, rep: Bytes, i: nat)
    requires |pat| > 0 && i <= |b|
    ensures ReplaceFrom(a + b, pat, rep, |a| + i) == ReplaceFrom(b, pat, rep, i)
    decreases |b| - i
  {
    MatchShifts(a, b, pat, i);
    if MatchesAt(b, pat, i) {
      calc {
        ReplaceFrom(a + b, pat, rep, |a| + i);
        rep + ReplaceFrom(a + b, pat, rep, |a| + (i + |pat|));
        { ShiftFrom(a, b, pat, rep, i + |pat|); }
        rep + ReplaceFrom(b, pat, rep, i + |pat|);
      }
    } else if i < |b| {
      calc {
        ReplaceFrom(a + b, pat, rep, |a| + i);
        { assert (a + b)[|a| + i] == b[i]; }
        [b[i]] + ReplaceFrom(a + b, pat, rep, |a| + (i + 1));
        { ShiftFrom(a, b, pat, rep, i + 1); }
        [b[i]] + ReplaceFrom(b, pat, rep, i + 1);
      }
    }
  }

  /** A window of `b` matches exactly when the same window of `a + b` does. */
  lemma MatchShifts(a: Bytes, b: Bytes, pat: Bytes, i: nat)
    ensures MatchesAt(a + b, pat, |a| + i) <==> MatchesAt(b, pat, i)
  {
    if i + |pat| <= |b| {
      var inner, outer := (a + b)[|a| + i..|a| + i + |pat|], b[i..i + |pat|];
      forall t | 0 <= t < |pat| ensures inner[t] == outer[t] { }
      assert inner == outer;
    }
  }

  /**
   A buffer whose earliest match follows the prefix `a`: the pass copies `a`,
   writes the replacement, and goes on as a pass over what follows the match.
   */
  lemma SplitAtFirstMatch(a: Bytes, pat: Bytes, b: Bytes, rep: Bytes)
    requires |pat| > 0 && NoMatchBetween(a + (pat + b), pat, 0, |a|)
    ensures ReplaceAll(a + (pat + b), pat, rep) == a + (rep + ReplaceAll(b, pat, rep))
  {
    var s := a + (pat + b);
    CopyUpTo(s, pat, rep, 0, |a|);
    PrefixOfConcat(a, pat + b);
    ShiftFrom(a, pat + b, pat, rep, 0);
    ReplaceAtHead(pat, b, rep);
  }

  lemma PrefixOfConcat(a: Bytes, b: Bytes)
    ensures (a + b)[0..|a|] == a
  {
  }

  /** A buffer that starts with the pattern: the replacement, then the pass over the rest. */
  lemma ReplaceAtHead(pat: Bytes, b: Bytes, rep: Bytes)
    requires |pat| > 0
    ensures ReplaceFrom(pat + b, pat, rep, 0) == rep + ReplaceAll(b, pat, rep)
  {
    PrefixOfConcat(pat, b);
    assert MatchesAt(pat + b, pat, 0);
    ShiftFrom(pat, b, pat, rep, 0);
  }

  /** A buffer without the pattern comes out byte for byte as it went in; so does the empty buffer. */
  lemma ReplaceAbsent(s: Bytes, pat: Bytes, rep: Bytes)
    requires |pat| > 0 && !Contains(s, pat)
    ensures ReplaceAll(s, pat, rep) == s
    ensures Count(s, pat) == 0
  {
    ChunkEnd(s, pat, rep, 0);
    assert s[0..] == s;
  }

  /** Replacing a pattern by itself changes nothing: the host skip is never observable. */
  lemma {:induction false} ReplaceSelfFrom(s: Bytes, pat: Bytes, i: nat)
    requires |pat| > 0 && i <= |s|
    ensures ReplaceFrom(s, pat, pat, i) == s[i..]
    decreases |s| - i
  {
    if MatchesAt(s, pat, i) {
      calc {
        ReplaceFrom(s, pat, pat, i);
        s[i..i + |pat|] + ReplaceFrom(s, pat, pat, i + |pat|);
        { ReplaceSelfFrom(s, pat, i + |pat|); }
        s[i..i + |pat|] + s[i + |pat|..];
        { SplitAt(s, i, i + |pat|); }
        s[i..];
      }
    } else if i < |s| {
      calc {
        ReplaceFrom(s, pat, pat, i);
        [s[i]] + ReplaceFrom(s, pat, pat, i + 1);
        { ReplaceSelfFrom(s, pat, i + 1); }
        [s[i]] + s[i + 1..];
        { SplitAt(s, i, i + 1); assert s[i..i + 1] == [s[i]]; }
        s[i..];
      }
    }
  }

  lemma ReplaceSelf(s: Bytes, pat: Bytes)
    requires |pat| > 0
    ensures ReplaceAll(s, pat, pat) == s
  {
    ReplaceSelfFrom(s, pat, 0);
    assert s[0..] == s;
  }

  /** Each match trades `|pat|` bytes for `|rep|` bytes. */
  lemma {:induction false} ReplaceLengthFrom(s: Bytes, pat: Bytes, rep: Bytes, i: nat)
    requires |pat| > 0 && i <= |s|
    ensures |ReplaceFrom(s, pat, rep, i)| == |s| - i + Scaled(CountFrom(s, pat, i), |rep| - |pat|)
    decreases |s| - i
  {
    if MatchesAt(s, pat, i) {
      ReplaceLengthFrom(s, pat, rep, i + |pat|);
    } else if i < |s| {
      ReplaceLengthFrom(s, pat, rep, i + 1);
    }
  }

  lemma ReplaceLength(s: Bytes, pat: Bytes, rep: Bytes)
    requires |pat| > 0
    ensures |ReplaceAll(s, pat, rep)| == |s| + Count(s, pat) * (|rep| - |pat|)
  {
    ReplaceLengthFrom(s, pat, rep, 0);
    ScaledIsProduct(Count(s, pat), |rep| - |pat|);
  }

  /** A pass leaves its input unchanged exactly when the pattern is absent or is its own replacement. */
  lemma ReplaceUnchangedIff(s: Bytes, pat: Bytes, rep: Bytes)
    requires |pat| > 0
    ensures ReplaceAll(s, pat, rep) == s <==> (rep == pat || !Contains(s, pat))
  {
    if rep == pat {
      ReplaceSelf(s, pat);
    } else if !Contains(s, pat) {
      ReplaceAbsent(s, pat, rep);
    } else if |rep| == |pat| {
      var p := FirstMatch(s, pat);
      ReplaceOverwritesFirstMatch(s, pat, rep, p);
      assert s[p..p + |pat|] == pat;
    } else {
      ReplaceLength(s, pat, rep);
      MulNonZero(Count(s, pat), |rep| - |pat|);
    }
  }

  /** The offset of the earliest occurrence of a pattern the buffer holds. */
  lemma FirstMatch(s: Bytes, pat: Bytes) returns (p: nat)
    requires Contains(s, pat)
    ensures IsFirstFrom(s, pat, 0, p)
  {
    var w: nat :| MatchesAt(s, pat, w);
    EarliestExists(s, pat, 0, w);
    p :| IsFirstFrom(s, pat, 0, p);
  }

  /** Where the first match was, the output holds the replacement. */
  lemma ReplaceOverwritesFirstMatch(s: Bytes, pat: Bytes, rep: Bytes, p: nat)
    requires |pat| > 0 && IsFirstFrom(s, pat, 0, p)
    ensures p + |rep| <= |ReplaceAll(s, pat, rep)| && ReplaceAll(s, pat, rep)[p..p + |rep|] == rep
  {
    ChunkStep(s, pat, rep, 0, p);
    var out := s[0..p] + rep + ReplaceFrom(s, pat, rep, p + |pat|);
    assert out[p..p + |rep|] == rep;
  }

  lemma MulNonZero(a: int, b: int)
    requires a != 0 && b != 0
    ensures a * b != 0
  {
  }

  /** After a pass that found the pattern, the replacement occurs in the output. */
  lemma ReplaceIntroduces(s: Bytes, pat: Bytes, rep: Bytes)
    requires |pat| > 0 && Contains(s, pat)
    ensures Contains(ReplaceAll(s, pat, rep), rep)
  {
    var p := FirstMatch(s, pat);
    ReplaceOverwritesFirstMatch(s, pat, rep, p);
    assert MatchesAt(ReplaceAll(s, pat, rep), rep, p);
  }

  /** The bytes the scan copies verbatim (before a match, or after the last) do not hold the pattern. */
  lemma CopiedBytesHoldNoMatch(s: Bytes, pat: Bytes, lo: nat, hi: nat)
    requires |pat| > 0 && lo <= hi <= |s| && NoMatchBetween(s, pat, lo, hi)
    ensures !Contains(s[lo..hi], pat)
  {
    SliceOccurrences(s, pat, lo, hi);
  }

  /** Bytes that do not hold `q` keep not holding it in any slice. */
  lemma SliceKeepsAbsent(s: Bytes, q: Bytes, lo: nat, hi: nat)
    requires lo <= hi <= |s| && !Contains(s, q)
    ensures !Contains(s[lo..hi], q)
  {
    SliceOccurrences(s, q, lo, hi);
  }

  /**
   Full elimination: when the pattern cannot overlap a non-empty replacement,
   no occurrence of the pattern survives the pass.
   */
  lemma {:induction false} ReplaceEliminatesFrom(s: Bytes, pat: Bytes, rep: Bytes, start: nat)
    requires |pat| > 0 && |rep| > 0 && NoOverlap(pat, rep) && start <= |s|
    ensures !Contains(ReplaceFrom(s, pat, rep, start), pat)
    decreases |s| - start
  {
    match FirstFrom(s, pat, start)
    case None =>
      ChunkEnd(s, pat, rep, start);
      CopiedBytesHoldNoMatch(s, pat, start, |s|);
      assert s[start..|s|] == s[start..];
    case Some(p) =>
      ChunkStep(s, pat, rep, start, p);
      CopiedBytesHoldNoMatch(s, pat, start, p);
      ReplaceEliminatesFrom(s, pat, rep, p + |pat|);
      OccurrencesAvoidReplacement(s[start..p], rep, ReplaceFrom(s, pat, rep, p + |pat|), pat);
  }

  lemma ReplaceEliminates(s: Bytes, pat: Bytes, rep: Bytes)
    requires |pat| > 0 && |rep| > 0 && NoOverlap(pat, rep)
    ensures !Contains(ReplaceAll(s, pat, rep), pat)
  {
    ReplaceEliminatesFrom(s, pat, rep, 0);
  }

  /**
   A pass does not create an occurrence of some other byte string `q` that
   cannot overlap its (non-empty) replacement.
   */
  lemma {:induction false} ReplaceKeepsAbsentFrom(s: Bytes, pat: Bytes, rep: Bytes, q: Bytes, start: nat)
    requires |pat| > 0 && |rep| > 0 && NoOverlap(q, rep) && !Contains(s, q) && start <= |s|
    ensures !Contains(ReplaceFrom(s, pat, rep, start), q)
    decreases |s| - start
  {
    match FirstFrom(s, pat, start)
    case None =>
      ChunkEnd(s, pat, rep, start);
      SliceKeepsAbsent(s, q, start, |s|);
      assert s[start..|s|] == s[start..];
    case Some(p) =>
      ChunkStep(s, pat, rep, start, p);
      SliceKeepsAbsent(s, q, start, p);
      ReplaceKeepsAbsentFrom(s, pat, rep, q, p + |pat|);
      OccurrencesAvoidReplacement(s[start..p], rep, ReplaceFrom(s, pat, rep, p + |pat|), q);
  }

  lemma ReplaceKeepsAbsent(s: Bytes, pat: Bytes, rep: Bytes, q: Bytes)
    requires |pat| > 0 && |rep| > 0 && NoOverlap(q, rep) && !Contains(s, q)
    ensures !Contains(ReplaceAll(s, pat, rep), q)
  {
    ReplaceKeepsAbsentFrom(s, pat, rep, q, 0);
  }

  /**
   An occurrence of `q` at or after the cursor that no match of the pattern
   can overlap survives the scan, at offset `j` of the output.
   */
  lemma {:induction false} ReplaceKeepsPresentFrom(s: Bytes, pat: Bytes, rep: Bytes, q: Bytes, start: nat, i: nat)
    returns (j: nat)
    requires |pat| > 0 && NoOverlap(pat, q) && start <= i && MatchesAt(s, q, i)
    ensures MatchesAt(ReplaceFrom(s, pat, rep, start), q, j)
    decreases |s| - start
  {
    match FirstFrom(s, pat, start)
    case None =>
      KeptWithoutMatch(s, pat, rep, q, start, i);
      j := i - start;
    case Some(p) =>
      OccurrencesApart(s, pat, p, q, i);
      if i + |q| <= p {
        KeptBeforeMatch(s, pat, rep, q, start, p, i);
        j := i - start;
      } else {
        var k := ReplaceKeepsPresentFrom(s, pat, rep, q, p + |pat|, i);
        KeptAfterMatch(s, pat, rep, q, start, p, k);
        j := p - start + |rep| + k;
      }
  }

  /** With no match left, every occurrence past the cursor is copied as it is. */
  lemma KeptWithoutMatch(s: Bytes, pat: Bytes, rep: Bytes, q: Bytes, start: nat, i: nat)
    requires |pat| > 0 && start <= i && NoMatchFrom(s, pat, start) && MatchesAt(s, q, i)
    ensures MatchesAt(ReplaceFrom(s, pat, rep, start), q, i - start)
  {
    ChunkEnd(s, pat, rep, start);
    OccurrenceInSlice(s, q, start, |s|, i);
    assert s[start..|s|] == s[start..];
  }

  /** An occurrence in the stretch copied before a match is copied with it. */
  lemma KeptBeforeMatch(s: Bytes, pat: Bytes, rep: Bytes, q: Bytes, start: nat, p: nat, i: nat)
    requires |pat| > 0 && start <= i && i + |q| <= p && IsFirstFrom(s, pat, start, p) && MatchesAt(s, q, i)
    ensures MatchesAt(ReplaceFrom(s, pat, rep, start), q, i - start)
  {
    ChunkStep(s, pat, rep, start, p);
    var copied := s[start..p];
    OccurrenceInSlice(s, q, start, p, i);
    OccurrenceInPrefix(copied, rep, q, i - start);
    OccurrenceInPrefix(copied + rep, ReplaceFrom(s, pat, rep, p + |pat|), q, i - start);
  }

  /** An occurrence in the output of the rest of the scan is an occurrence in the whole output. */
  lemma KeptAfterMatch(s: Bytes, pat: Bytes, rep: Bytes, q: Bytes, start: nat, p: nat, k: nat)
    requires |pat| > 0 && start <= |s| && IsFirstFrom(s, pat, start, p)
    requires MatchesAt(ReplaceFrom(s, pat, rep, p + |pat|), q, k)
    ensures MatchesAt(ReplaceFrom(s, pat, rep, start), q, p - start + |rep| + k)
  {
    ChunkStep(s, pat, rep, start, p);
    OccurrenceInSuffix(s[start..p] + rep, ReplaceFrom(s, pat, rep, p + |pat|), q, k);
  }

  lemma ReplaceKeepsPresent(s: Bytes, pat: Bytes, rep: Bytes, q: Bytes)
    requires |pat| > 0 && NoOverlap(pat, q) && Contains(s, q)
    ensures Contains(ReplaceAll(s, pat, rep), q)
  {
    var i: nat :| MatchesAt(s, q, i);
    var j := ReplaceKeepsPresentFrom(s, pat, rep, q, 0, i);
  }
}
