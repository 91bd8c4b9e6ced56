/** Patterns as the Elixir side holds them: bytes and a mask, compiled to the fastest implementation. */
module PatternStructs {
  import opened Wrappers
  import opened Bytes
  import opened BytePatterns
  import opened ScanPatterns
  import Simd = Simd32Patterns
  import Word = WordPatterns

  datatype PatternType = ByteType | WordType | SimdType

  datatype PatternStruct = PatternStruct(
    pattern: ScanPattern,
    patternType: PatternType,
    bytes: seq<byte>,
    mask: Option<seq<byte>>)
  {
    predicate Valid() {
      pattern.Valid()
    }
  }

  function OptimizePattern(p: BytePattern): (PatternType, ScanPattern)
    requires p.Valid()
  {
    if |p.value| <= 32 then
      (SimdType, SimdPat(Simd.From(p)))
    else if |p.value| % Word.WORD_SIZE == 0 then
      (WordType, WordPat(Word.New(p)))
    else
      (ByteType, BytePat(p))
  }

  function FromBytePattern(p: BytePattern): PatternStruct
    requires p.Valid()
  {
    var mask := if p.mask.Some? then Some(Simd.MaskBytes(p.mask.value)) else None;
    var (patternType, pattern) := OptimizePattern(p);
    PatternStruct(pattern, patternType, p.value, mask)
  }

  function MaskBools(mask: seq<byte>): (r: seq<bool>)
    ensures |r| == |mask| && forall i :: 0 <= i < |r| ==> r[i] == (mask[i] != 0)
  {
    seq(|mask|, i requires 0 <= i < |mask| => mask[i] != 0)
  }

  function BytePatternOf(bytes: seq<byte>, mask: Option<seq<byte>>): (p: BytePattern)
    requires mask.Some? ==> |mask.value| == |bytes|
    ensures p.Valid() && p.value == bytes
  {
    BytePattern(bytes, if mask.Some? then Some(MaskBools(mask.value)) else None)
  }

  function NewScanPattern(bytes: seq<byte>, mask: Option<seq<byte>>): PatternStruct
    requires mask.Some? ==> |mask.value| == |bytes|
  {
    FromBytePattern(BytePatternOf(bytes, mask))
  }

  function ConcatScanPatterns(p0: PatternStruct, p1: PatternStruct): PatternStruct
    requires p0.Valid() && p1.Valid()
  {
    FromBytePattern(p0.pattern.ToBytePattern().Add(p1.pattern.ToBytePattern()))
  }

  /** Two byte patterns that compare the same positions with the same bytes. */
  ghost predicate SamePattern(p: BytePattern, q: BytePattern)
    requires p.Valid() && q.Valid()
  {
    && p.value == q.value
    && forall i :: 0 <= i < |p.value| ==> Kept(p.mask, i) == Kept(q.mask, i)
  }

  /** Optimising changes the window, not what is compared: the pattern converts back to the same bytes. */
  lemma OptimizeKeepsPattern(p: BytePattern)
    requires p.Valid()
    ensures OptimizePattern(p).1.Valid()
    ensures SamePattern(OptimizePattern(p).1.ToBytePattern(), p)
    ensures OptimizePattern(p).1.TrueLen() == |p.value|
    ensures OptimizePattern(p).1.Len() == if |p.value| <= 32 then 32 else |p.value|
  {
    if |p.value| <= 32 {
      Simd.FromKeepsPattern(p);
    }
  }

  lemma SamePatternMatches(p: BytePattern, q: BytePattern, buf: seq<byte>)
    requires p.Valid() && q.Valid() && SamePattern(p, q) && |buf| == |p.value|
    ensures p.Matches(buf) <==> q.Matches(buf)
  {
    MatchesKept(p, buf);
    MatchesKept(q, buf);
  }

  /** An optimised pattern matches a window iff the byte pattern matches the window's true bytes. */
  lemma OptimizeKeepsMeaning(p: BytePattern, window: seq<byte>)
    requires p.Valid()
    requires |window| == if |p.value| <= 32 then 32 else |p.value|
    ensures var optimized := OptimizePattern(p).1;
      optimized.Valid() && optimized.Len() == |window| && (optimized.Matches(window) <==> p.Matches(window[..|p.value|]))
  {
    OptimizeKeepsPattern(p);
    var optimized := OptimizePattern(p).1;
    PatternRefinesBytes(optimized, window);
    SamePatternMatches(optimized.ToBytePattern(), p, window[..|p.value|]);
  }

  /**
    * Concatenation is a homomorphism through optimisation: whatever the implementations and masks,
    * the concatenated pattern matches a window iff its parts match windows that start with the
    * window's bytes up to the seam and from the seam on.
    */
  lemma ConcatIsHomomorphism(
    p0: PatternStruct, p1: PatternStruct, window: seq<byte>, window0: seq<byte>, window1: seq<byte>)
    requires p0.Valid() && p1.Valid()
    requires |window| == (var n := p0.pattern.TrueLen() + p1.pattern.TrueLen(); if n <= 32 then 32 else n)
    requires |window0| == p0.pattern.Len() && |window1| == p1.pattern.Len()
    requires window0[..p0.pattern.TrueLen()] == window[..p0.pattern.TrueLen()]
    requires window1[..p1.pattern.TrueLen()] == window[p0.pattern.TrueLen()..][..p1.pattern.TrueLen()]
    ensures var sum := ConcatScanPatterns(p0, p1).pattern;
      && sum.Valid() && sum.Len() == |window|
      && sum.TrueLen() == p0.pattern.TrueLen() + p1.pattern.TrueLen()
      && (sum.Matches(window) <==> p0.pattern.Matches(window0) && p1.pattern.Matches(window1))
  {
    hide OptimizePattern, Simd.From, Word.New, ConcatMasks, SamePattern, BytePattern.Matches, ScanPattern.Matches;
    var b0, b1 := p0.pattern.ToBytePattern(), p1.pattern.ToBytePattern();
    var n0, n1 := |b0.value|, |b1.value|;
    OptimizeKeepsPattern(b0.Add(b1));
    OptimizeKeepsMeaning(b0.Add(b1), window);
    assert window[..n0 + n1] == window[..n0] + window[n0..][..n1];
    AddMatchesConcatenation(b0, b1, window[..n0], window[n0..][..n1]);
    PatternRefinesBytes(p0.pattern, window0);
    PatternRefinesBytes(p1.pattern, window1);
  }

  /** The bytes and mask kept for display are those of the pattern that is scanned for. */
  lemma StructDescribesPattern(bytes: seq<byte>, mask: Option<seq<byte>>)
    requires mask.Some? ==> |mask.value| == |bytes|
    ensures var s := NewScanPattern(bytes, mask);
      && s.Valid() && s.bytes == bytes && (s.mask.Some? <==> mask.Some?)
      && (s.mask.Some? ==> |s.mask.value| == |bytes| && forall i :: 0 <= i < |bytes| ==>
            s.mask.value[i] == if mask.value[i] != 0 then 0xFF else 0)
      && SamePattern(s.pattern.ToBytePattern(), BytePatternOf(s.bytes, s.mask))
  {
    OptimizeKeepsPattern(BytePatternOf(bytes, mask));
  }

  /** The kind that is shown is the kind that is scanned with: vectors up to 32 bytes, words for whole words, else bytes. */
  lemma PatternTypeIs(bytes: seq<byte>, mask: Option<seq<byte>>)
    requires mask.Some? ==> |mask.value| == |bytes|
    ensures var s := NewScanPattern(bytes, mask);
      && (|bytes| <= 32 <==> s.patternType == SimdType) && (|bytes| <= 32 <==> s.pattern.SimdPat?)
      && (|bytes| > 32 && |bytes| % 8 == 0 <==> s.patternType == WordType) && (s.patternType == WordType <==> s.pattern.WordPat?)
      && (|bytes| > 32 && |bytes| % 8 != 0 <==> s.patternType == ByteType) && (s.patternType == ByteType <==> s.pattern.BytePat?)
  {
  }
}
