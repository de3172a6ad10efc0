/**
 The allocation hint each pass computes before scanning (modify.rs lines
 21-23 and 40-41): `Vec::with_capacity(buf.len() + (replacement.len() -
 pattern.len()))`, in `usize` arithmetic on a 64-bit target. The hint never
 changes the bytes produced, but its arithmetic can make the pass panic.
 */
module Capacity {
  import opened ByteStrings
  import opened Replace

  const UsizeModulus: int := 0x1_0000_0000_0000_0000
  /** `isize::MAX`: no Rust slice is longer, and `Vec::<u8>::with_capacity` panics above it. */
  const IsizeMax: int := 0x7FFF_FFFF_FFFF_FFFF

  /** A length a Rust byte slice can have. */
  predicate IsLength(n: int) {
    0 <= n <= IsizeMax
  }

  /** `Vec::<u8>::with_capacity(cap)` panics with "capacity overflow". */
  predicate WithCapacityPanics(cap: int) {
    cap > IsizeMax
  }

  /**
   The hint as written, with the overflow checks of a debug build: `None` is
   the panic of the subtraction, a replacement shorter than its pattern. The
   addition cannot overflow, as both of its operands are at most
   `isize::MAX`; a hint past that panics in `Vec::with_capacity` instead
   (`WithCapacityPanics`).
   */
  function DebugCapacity(len: nat, patLen: nat, repLen: nat): (r: Option<nat>)
    requires IsLength(len) && IsLength(patLen) && IsLength(repLen)
    ensures r.Some? ==> r.value == len + repLen - patLen && r.value < UsizeModulus
    ensures r.None? <==> repLen < patLen
  {
    if repLen < patLen then None
    else Some(len + (repLen - patLen))
  }

  /** The hint as written, with the wrapping arithmetic of a release build. */
  function ReleaseCapacity(len: nat, patLen: nat, repLen: nat): (r: nat)
    requires IsLength(len) && IsLength(patLen) && IsLength(repLen)
    ensures r < UsizeModulus
  {
    (len + (repLen - patLen) % UsizeModulus) % UsizeModulus
  }

  /**
   As written, a replacement shorter than its pattern panics in a debug build
   for every buffer, and in a release build for every buffer shorter than the
   length difference, whose wrapped hint exceeds `isize::MAX`.
   */
  lemma ShortReplacementPanics(len: nat, patLen: nat, repLen: nat)
    requires IsLength(len) && IsLength(patLen) && IsLength(repLen) && repLen < patLen
    ensures DebugCapacity(len, patLen, repLen).None?
    ensures len + repLen < patLen ==> WithCapacityPanics(ReleaseCapacity(len, patLen, repLen))
  {
    if len + repLen < patLen {
      var d := repLen - patLen;
      assert d % UsizeModulus == d + UsizeModulus;
      assert 0 <= len + d + UsizeModulus < UsizeModulus;
      assert ReleaseCapacity(len, patLen, repLen) == len + d + UsizeModulus;
    }
  }

  /**
   The hint as evidently intended: the buffer length adjusted by one match's
   net change, clamped at zero (`(len + rep).saturating_sub(pat)`); it never
   panics and agrees with the written hint wherever that one does not panic.
   */
  function CapacityHint(len: nat, patLen: nat, repLen: nat): (r: nat)
    ensures r <= len + repLen
    ensures len + repLen <= IsizeMax ==> !WithCapacityPanics(r)
  {
    if len + repLen >= patLen then len + repLen - patLen else 0
  }

  /** Where the written hint does not panic, the intended hint has the same value. */
  lemma CapacityHintAgrees(len: nat, patLen: nat, repLen: nat)
    requires IsLength(len) && IsLength(patLen) && IsLength(repLen)
    ensures DebugCapacity(len, patLen, repLen).Some? ==>
      DebugCapacity(len, patLen, repLen).value == CapacityHint(len, patLen, repLen)
    ensures len + repLen >= patLen ==> ReleaseCapacity(len, patLen, repLen) == CapacityHint(len, patLen, repLen)
  {
    var d := repLen - patLen;
    if len + repLen >= patLen {
      if d < 0 {
        assert d % UsizeModulus == d + UsizeModulus;
        assert (len + d + UsizeModulus) % UsizeModulus == len + d;
      } else {
        assert d % UsizeModulus == d;
        assert (len + d) % UsizeModulus == len + d;
      }
    }
  }

  /** For a buffer with a single match, the intended hint is exactly the length of the pass's output. */
  lemma CapacityHintExactForOneMatch(s: Bytes, pat: Bytes, rep: Bytes)
    requires |pat| > 0 && Count(s, pat) == 1
    ensures CapacityHint(|s|, |pat|, |rep|) == |ReplaceAll(s, pat, rep)|
  {
    ReplaceLength(s, pat, rep);
  }
}
