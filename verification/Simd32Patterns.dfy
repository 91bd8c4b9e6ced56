/** Patterns of at most 32 bytes, compared as one vector of 32 lanes. */
module Simd32Patterns {
  import opened Wrappers
  import opened Bytes
  import opened BytePatterns

  const LANES: nat := 32

  function AndLanes(a: seq<byte>, b: seq<byte>): (r: seq<byte>)
    requires |a| == |b|
    ensures |r| == |a|
    ensures forall i :: 0 <= i < |r| ==> r[i] == And(a[i], b[i])
  {
    seq<byte>(|a|, i requires 0 <= i < |a| => And(a[i], b[i]))
  }

  /** The masked comparison of a vector pattern. */
  predicate EqualLanes(maskedValue: seq<byte>, lanes: seq<byte>, mask: seq<byte>)
    requires |lanes| == |mask|
  {
    maskedValue == AndLanes(lanes, mask)
  }

  /** A boolean mask as bytes: 0xFF keeps a position and 0x00 drops it. */
  function MaskBytes(mask: seq<bool>): (r: seq<byte>)
    ensures |r| == |mask|
    ensures forall i :: 0 <= i < |r| ==> r[i] == if mask[i] then 0xFF else 0x00
  {
    seq<byte>(|mask|, i requires 0 <= i < |mask| => if mask[i] then 0xFF else 0x00)
  }

  datatype Simd32Pattern = Simd32Pattern(
    mask: Option<seq<byte>>,
    maskedValue: seq<byte>,
    trueLen: nat,
    valueBytes: seq<byte>,
    maskBools: Option<seq<bool>>)
  {
    /** The pattern came out of `From`; its cached bytes are what it was made from. */
    predicate Valid() {
      && trueLen == |valueBytes| <= LANES
      && (maskBools.Some? ==> |maskBools.value| == trueLen)
      && this == From(BytePattern(valueBytes, maskBools))
    }

    predicate Matches(buf: seq<byte>)
      requires Valid() && |buf| == LANES
    {
      match mask
      case None => maskedValue == buf
      case Some(m) => EqualLanes(maskedValue, buf, m)
    }
  }

  function WithTrueLen(value: seq<byte>, mask: Option<seq<bool>>, trueLen: nat): Simd32Pattern
    requires |value| == LANES && trueLen <= LANES
    requires mask.Some? ==> |mask.value| == LANES
  {
    var valueBytes := value[..trueLen];
    var maskBools := if mask.Some? then Some(mask.value[..trueLen]) else None;
    var maskSimd := if mask.Some? then Some(MaskBytes(mask.value)) else None;
    var maskedValue := match maskSimd
      case None => value
      case Some(m) => AndLanes(value, m);
    Simd32Pattern(maskSimd, maskedValue, trueLen, valueBytes, maskBools)
  }

  function From(other: BytePattern): Simd32Pattern
    requires other.Valid() && |other.value| <= LANES
  {
    var len := |other.value|;
    if len < LANES then
      var paddedValue := other.value + Zeros(LANES - len);
      var paddedMask := ConcatMasks(other.mask, Some(Falses(LANES - len)), LANES);
      WithTrueLen(paddedValue, paddedMask, len)
    else
      WithTrueLen(other.value, other.mask, LANES)
  }

  /** Padding loses nothing: the cached bytes and mask are the original's, position by position. */
  lemma FromKeepsPattern(p: BytePattern)
    requires p.Valid() && |p.value| <= LANES
    ensures var s := From(p);
            && s.Valid()
            && s.valueBytes == p.value
            && (s.maskBools.Some? ==> |s.maskBools.value| == |p.value|)
            && forall i :: 0 <= i < |p.value| ==> Kept(s.maskBools, i) == Kept(p.mask, i)
  {
    hide AndLanes, MaskBytes;
    var s := From(p);
    assert s.valueBytes == p.value;
    if |p.value| < LANES {
      var pad := Falses(LANES - |p.value|);
      ConcatMasksKept(p.mask, Some(pad), |p.value|, |pad|);
      var padded := ConcatMasks(p.mask, Some(pad), LANES).value;
      assert s.maskBools == Some(padded[..|p.value|]);
      assert ConcatMasks(s.maskBools, Some(pad), LANES).value == padded;
      forall i | 0 <= i < |p.value|
        ensures Kept(s.maskBools, i) == Kept(p.mask, i)
      {
        assert Kept(Some(padded), i) == Kept(p.mask, i);
      }
    } else {
      assert p.mask.Some? ==> p.mask.value[..LANES] == p.mask.value;
    }
  }

  /** Padding a mask keeps what it kept and nothing more. */
  lemma PaddedMask(p: BytePattern)
    requires p.Valid() && |p.value| <= LANES && (|p.value| < LANES || p.mask.Some?)
    ensures var n := |p.value|;
      var padded := if n < LANES then ConcatMasks(p.mask, Some(Falses(LANES - n)), LANES) else p.mask;
      padded.Some? && |padded.value| == LANES
      && forall i :: 0 <= i < LANES ==> padded.value[i] == (i < n && Kept(p.mask, i))
  {
  }

  /** The masked vector comparison agrees with the bytewise one on the window's true bytes. */
  lemma Simd32RefinesBytes(p: BytePattern, window: seq<byte>)
    requires p.Valid() && |p.value| <= LANES && |window| == LANES
    ensures From(p).Valid()
    ensures From(p).Matches(window) <==> p.Matches(window[..|p.value|])
  {
    FromKeepsPattern(p);
    var n := |p.value|;
    if n == LANES && p.mask.None? {
      assert window[..n] == window;
      assert p.Matches(window) <==> p.value == window;
    } else {
      hide From, Simd32Pattern.Matches, BytePattern.Matches;
      MaskedMatchesKept(p, window);
      MatchesKept(p, window[..n]);
    }
  }

  /** A padded or masked vector compares the bytes that the mask keeps. */
  lemma MaskedMatchesKept(p: BytePattern, window: seq<byte>)
    requires p.Valid() && |p.value| <= LANES && |window| == LANES && (|p.value| < LANES || p.mask.Some?)
    ensures From(p).Valid()
    ensures From(p).Matches(window) <==> forall i :: 0 <= i < |p.value| && Kept(p.mask, i) ==> p.value[i] == window[i]
  {
    FromKeepsPattern(p);
    var n, s := |p.value|, From(p);
    var value := if n < LANES then p.value + Zeros(LANES - n) else p.value;
    var mask := if n < LANES then ConcatMasks(p.mask, Some(Falses(LANES - n)), LANES).value else p.mask.value;
    PaddedMask(p);
    assert s.mask == Some(MaskBytes(mask)) && s.maskedValue == AndLanes(value, MaskBytes(mask));
    hide AndLanes, MaskBytes, Kept, ConcatMasks, From, Simd32Pattern.Valid;
    LanesAgree(value, mask, window);
  }

  /** Masked vectors are equal iff the unmasked bytes are equal wherever the mask keeps them. */
  lemma LanesAgree(value: seq<byte>, mask: seq<bool>, window: seq<byte>)
    requires |value| == |mask| == |window|
    ensures AndLanes(value, MaskBytes(mask)) == AndLanes(window, MaskBytes(mask))
        <==> forall i :: 0 <= i < |value| && mask[i] ==> value[i] == window[i]
  {
  }
}
