/**
 The search step of every pass: `buf[start..].windows(n).position(|w| w == pat)`,
 the lowest offset whose window of `|pat|` bytes equals the pattern.
 */
module Search {
  import opened ByteStrings

  /** No window starting at an offset in `[lo, hi)` holds `pat`. */
  ghost predicate NoMatchBetween(s: Bytes, pat: Bytes, lo: nat, hi: nat) {
    forall q: nat :: lo <= q < hi ==> !MatchesAt(s, pat, q)
  }

  /** No window starting at `lo` or later holds `pat`. */
  ghost predicate NoMatchFrom(s: Bytes, pat: Bytes, lo: nat) {
    forall q: nat :: lo <= q ==> !MatchesAt(s, pat, q)
  }

  /** `p` is the earliest occurrence of `pat` at offset `lo` or later. */
  ghost predicate IsFirstFrom(s: Bytes, pat: Bytes, lo: nat, p: nat) {
    lo <= p && MatchesAt(s, pat, p) && NoMatchBetween(s, pat, lo, p)
  }

  /** Any occurrence at `lo` or later has an earliest one. */
  lemma {:induction false} EarliestExists(s: Bytes, pat: Bytes, lo: nat, w: nat)
    requires lo <= w && MatchesAt(s, pat, w)
    ensures exists p: nat :: IsFirstFrom(s, pat, lo, p)
    decreases w - lo
  {
    if MatchesAt(s, pat, lo) {
      assert IsFirstFrom(s, pat, lo, lo);
    } else {
      EarliestExists(s, pat, lo + 1, w);
      var p: nat :| IsFirstFrom(s, pat, lo + 1, p);
      assert IsFirstFrom(s, pat, lo, p);
    }
  }

  /** The earliest occurrence at `lo` or later, if there is one. */
  ghost function FirstFrom(s: Bytes, pat: Bytes, lo: nat): (r: Option<nat>)
    ensures r.Some? ==> IsFirstFrom(s, pat, lo, r.value)
    ensures r.None? ==> NoMatchFrom(s, pat, lo)
  {
    if exists w: nat :: lo <= w && MatchesAt(s, pat, w) then
      var w: nat :| lo <= w && MatchesAt(s, pat, w);
      EarliestExists(s, pat, lo, w);
      var p: nat :| IsFirstFrom(s, pat, lo, p);
      Some(p)
    else
      None
  }

  /**
   The window scan of `buf[start..]`: the offset, counted from `start`, of the
   first window equal to `pat`. `windows(0)` panics, hence the non-empty
   pattern; a buffer shorter than the pattern has no window at all.
   */
  method Position(buf: Bytes, start: nat, pat: Bytes) returns (r: Option<nat>)
    requires |pat| > 0 && start <= |buf|
    ensures r.Some? ==> IsFirstFrom(buf, pat, start, start + r.value)
    ensures r.None? ==> NoMatchFrom(buf, pat, start)
  {
    var i := start;
    while i + |pat| <= |buf|
      invariant start <= i
      invariant NoMatchBetween(buf, pat, start, i)
    {
      if buf[i..i + |pat|] == pat {
        return Some(i - start);
      }
      i := i + 1;
    }
    return None;
  }
}
