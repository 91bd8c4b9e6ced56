/** The scan-pattern interface, its three implementations, and scanning one buffer. */
module ScanPatterns {
  import opened Wrappers
  import opened Bytes
  import opened BytePatterns
  import Simd = Simd32Patterns
  import Word = WordPatterns

  /** The system word size: only every fourth address is a candidate. */
  const ALIGN_SIZE: nat := 4

  /** An address at which a pattern matched and the bytes that matched. */
  datatype ScanMatch = ScanMatch(addr: nat, value: seq<byte>)

  datatype ScanPattern =
    | BytePat(bytes: BytePattern)
    | WordPat(words: Word.WordPattern)
    | SimdPat(simd: Simd.Simd32Pattern)
  {
    predicate Valid() {
      match this
      case BytePat(b) => b.Valid()
      case WordPat(w) => w.Valid()
      case SimdPat(s) => s.Valid()
    }

    /** The length of the windows the pattern is compared with. */
    function Len(): nat {
      match this
      case BytePat(b) => |b.value|
      case WordPat(w) => |w.value| * Word.WORD_SIZE
      case SimdPat(_) => Simd.LANES
    }

    /** The length of the underlying data, without padding. */
    function TrueLen(): nat {
      match this
      case BytePat(b) => |b.value|
      case WordPat(w) => w.trueLen
      case SimdPat(s) => s.trueLen
    }

    function Value(): seq<byte> {
      match this
      case BytePat(b) => b.value
      case WordPat(w) => w.valueBytes
      case SimdPat(s) => s.valueBytes
    }

    function Mask(): Option<seq<bool>> {
      match this
      case BytePat(b) => b.mask
      case WordPat(w) => w.maskBools
      case SimdPat(s) => s.maskBools
    }

    predicate Matches(buf: seq<byte>)
      requires Valid() && |buf| == Len()
    {
      match this
      case BytePat(b) => b.Matches(buf)
      case WordPat(w) => w.Matches(buf)
      case SimdPat(s) => s.Matches(buf)
    }

    /** Converts any pattern back to bytes. */
    function ToBytePattern(): (p: BytePattern)
      requires Valid()
      ensures p.Valid() && |p.value| == TrueLen() <= Len()
    {
      BytePattern(Value(), Mask())
    }
  }

  /** Every implementation compares like its byte pattern, and ignores the padding of its window. */
  lemma PatternRefinesBytes(p: ScanPattern, window: seq<byte>)
    requires p.Valid() && |window| == p.Len()
    ensures p.Matches(window) <==> p.ToBytePattern().Matches(window[..p.TrueLen()])
  {
    match p
    case BytePat(b) =>
      assert window[..p.TrueLen()] == window;
    case WordPat(w) =>
      assert window[..p.TrueLen()] == window;
      Word.WordsRefineBytes(p.ToBytePattern(), window);
    case SimdPat(s) =>
      Simd.Simd32RefinesBytes(p.ToBytePattern(), window);
  }

  /**
    * The reference scan of a buffer from offset `off` on: in address order, every aligned offset
    * that has `room` bytes left in the buffer and whose bytes match `p`.
    */
  function BufferHits(p: BytePattern, room: nat, base: nat, buf: seq<byte>, off: nat): seq<ScanMatch>
    requires p.Valid() && |p.value| <= room && 1 <= room
    decreases |buf| - off
  {
    if off + room > |buf| then
      []
    else
      var candidate := buf[off..][..|p.value|];
      (if p.Matches(candidate) then [ScanMatch(base + off, candidate)] else [])
      + BufferHits(p, room, base, buf, off + ALIGN_SIZE)
  }

  /** What a scan loop has found once it has looked at the window at `off`. */
  ghost function Found(p: ScanPattern, base: nat, buf: seq<byte>, off: nat, before: seq<ScanMatch>): seq<ScanMatch>
    requires p.Valid() && off + p.Len() <= |buf|
  {
    var window := buf[off..][..p.Len()];
    if p.Matches(window) then before + [ScanMatch(base + off, window[..p.TrueLen()])] else before
  }

  /** One iteration of any scan loop follows the reference scan. */
  lemma ScanStep(p: ScanPattern, base: nat, buf: seq<byte>, off: nat, before: seq<ScanMatch>)
    requires p.Valid() && 1 <= p.Len() && off + p.Len() <= |buf|
    ensures before + BufferHits(p.ToBytePattern(), p.Len(), base, buf, off)
         == Found(p, base, buf, off, before) + BufferHits(p.ToBytePattern(), p.Len(), base, buf, off + ALIGN_SIZE)
  {
    var window := buf[off..][..p.Len()];
    PatternRefinesBytes(p, window);
    assert window[..p.TrueLen()] == buf[off..][..p.TrueLen()];
  }

  /** The comparisons inlined in the word-pattern loops are the pattern's own. */
  lemma WordComparison(w: Word.WordPattern, window: seq<byte>)
    requires w.Valid() && |window| == WordPat(w).Len()
    ensures |window| == w.trueLen
    ensures |w.maskedValue| == |Word.Words(window)|
    ensures w.mask.Some? ==> |w.mask.value| == |w.maskedValue|
    ensures w.mask.Some? ==> (WordPat(w).Matches(window) <==> Word.EqualMasked(w.maskedValue, Word.Words(window), w.mask.value))
    ensures w.mask.None? ==> (WordPat(w).Matches(window) <==> Word.EqualWords(w.maskedValue, Word.Words(window)))
  {
  }

  /** Past the last window there is nothing more to find. */
  lemma {:induction false} ScanEnd(p: BytePattern, room: nat, base: nat, buf: seq<byte>, off: nat)
    requires p.Valid() && |p.value| <= room && 1 <= room && off + room > |buf|
    ensures BufferHits(p, room, base, buf, off) == []
  {
  }

  /** The default scan loop, used by byte patterns. */
  method ScanBufferBytes(p: BytePattern, base: nat, buf: seq<byte>) returns (matches: seq<ScanMatch>)
    requires p.Valid() && 1 <= |p.value| <= |buf|
    ensures matches == BufferHits(p, |p.value|, base, buf, 0)
  {
    hide BufferHits, BytePattern.Matches;
    matches := [];
    var wordOffset := 0;
    while wordOffset * ALIGN_SIZE + |p.value| <= |buf|
      invariant matches + BufferHits(p, |p.value|, base, buf, wordOffset * ALIGN_SIZE)
             == BufferHits(p, |p.value|, base, buf, 0)
      decreases |buf| - wordOffset
    {
      var checkSlice := buf[wordOffset * ALIGN_SIZE..][..|p.value|];
      ScanStep(BytePat(p), base, buf, wordOffset * ALIGN_SIZE, matches);
      assert checkSlice[..|p.value|] == checkSlice;
      if p.Matches(checkSlice) {
        matches := matches + [ScanMatch(base + wordOffset * ALIGN_SIZE, checkSlice)];
      }
      wordOffset := wordOffset + 1;
    }
    ScanEnd(p, |p.value|, base, buf, wordOffset * ALIGN_SIZE);
  }

  /** The scan loop of masked word patterns. */
  method ScanBufferMaskedWords(w: Word.WordPattern, mask: seq<Word.word>, base: nat, buf: seq<byte>)
    returns (matches: seq<ScanMatch>)
    requires w.Valid() && 1 <= WordPat(w).Len() <= |buf|
    requires w.mask == Some(mask)
    ensures matches == BufferHits(WordPat(w).ToBytePattern(), WordPat(w).Len(), base, buf, 0)
  {
    hide BufferHits, BytePattern.Matches, ScanPattern.Matches, Word.EqualMasked, Word.Words, Word.New;
    var patternLen := WordPat(w).Len();
    ghost var p := WordPat(w).ToBytePattern();
    matches := [];
    var wordOffset := 0;
    while wordOffset * ALIGN_SIZE + patternLen <= |buf|
      invariant matches + BufferHits(p, patternLen, base, buf, wordOffset * ALIGN_SIZE)
             == BufferHits(p, patternLen, base, buf, 0)
      decreases |buf| - wordOffset
    {
      var checkSlice := buf[wordOffset * ALIGN_SIZE..][..patternLen];
      ScanStep(WordPat(w), base, buf, wordOffset * ALIGN_SIZE, matches);
      WordComparison(w, checkSlice);
      if Word.EqualMasked(w.maskedValue, Word.Words(checkSlice), mask) {
        matches := matches + [ScanMatch(base + wordOffset * ALIGN_SIZE, checkSlice[..w.trueLen])];
      }
      wordOffset := wordOffset + 1;
    }
    ScanEnd(p, patternLen, base, buf, wordOffset * ALIGN_SIZE);
  }

  /** The scan loop of unmasked word patterns. */
  method ScanBufferPlainWords(w: Word.WordPattern, base: nat, buf: seq<byte>) returns (matches: seq<ScanMatch>)
    requires w.Valid() && 1 <= WordPat(w).Len() <= |buf|
    requires w.mask == None
    ensures matches == BufferHits(WordPat(w).ToBytePattern(), WordPat(w).Len(), base, buf, 0)
  {
    hide BufferHits, BytePattern.Matches, ScanPattern.Matches, Word.EqualWords, Word.Words, Word.New;
    var patternLen := WordPat(w).Len();
    ghost var p := WordPat(w).ToBytePattern();
    matches := [];
    var wordOffset := 0;
    while wordOffset * ALIGN_SIZE + patternLen <= |buf|
      invariant matches + BufferHits(p, patternLen, base, buf, wordOffset * ALIGN_SIZE)
             == BufferHits(p, patternLen, base, buf, 0)
      decreases |buf| - wordOffset
    {
      var checkSlice := buf[wordOffset * ALIGN_SIZE..][..patternLen];
      ScanStep(WordPat(w), base, buf, wordOffset * ALIGN_SIZE, matches);
      WordComparison(w, checkSlice);
      if Word.EqualWords(w.maskedValue, Word.Words(checkSlice)) {
        matches := matches + [ScanMatch(base + wordOffset * ALIGN_SIZE, checkSlice[..w.trueLen])];
      }
      wordOffset := wordOffset + 1;
    }
    ScanEnd(p, patternLen, base, buf, wordOffset * ALIGN_SIZE);
  }

  /** The comparisons inlined in the vector-pattern loops are the pattern's own. */
  lemma SimdComparison(s: Simd.Simd32Pattern, window: seq<byte>)
    requires s.Valid() && |window| == SimdPat(s).Len()
    ensures s.trueLen <= |window|
    ensures s.mask.Some? ==> |s.mask.value| == |window|
    ensures s.mask.Some? ==> (SimdPat(s).Matches(window) <==> Simd.EqualLanes(s.maskedValue, window, s.mask.value))
    ensures s.mask.None? ==> (SimdPat(s).Matches(window) <==> s.maskedValue == window)
  {
  }

  /** The scan loop of masked vector patterns. */
  method ScanBufferMaskedSimd(s: Simd.Simd32Pattern, mask: seq<byte>, base: nat, buf: seq<byte>)
    returns (matches: seq<ScanMatch>)
    requires s.Valid() && 1 <= SimdPat(s).Len() <= |buf|
    requires s.mask == Some(mask)
    ensures matches == BufferHits(SimdPat(s).ToBytePattern(), SimdPat(s).Len(), base, buf, 0)
  {
    hide BufferHits, BytePattern.Matches, ScanPattern.Matches, ScanPattern.Len, Simd.EqualLanes, Simd.From,
         Simd.Simd32Pattern.Valid;
    var patternLen := SimdPat(s).Len();
    ghost var p := SimdPat(s).ToBytePattern();
    matches := [];
    var wordOffset := 0;
    while wordOffset * ALIGN_SIZE + patternLen <= |buf|
      invariant matches + BufferHits(p, patternLen, base, buf, wordOffset * ALIGN_SIZE)
             == BufferHits(p, patternLen, base, buf, 0)
      decreases |buf| - wordOffset
    {
      var checkSlice := buf[wordOffset * ALIGN_SIZE..][..patternLen];
      ScanStep(SimdPat(s), base, buf, wordOffset * ALIGN_SIZE, matches);
      SimdComparison(s, checkSlice);
      if Simd.EqualLanes(s.maskedValue, checkSlice, mask) {
        matches := matches + [ScanMatch(base + wordOffset * ALIGN_SIZE, checkSlice[..s.trueLen])];
      }
      wordOffset := wordOffset + 1;
    }
    ScanEnd(p, patternLen, base, buf, wordOffset * ALIGN_SIZE);
  }

  /** The scan loop of unmasked vector patterns. */
  method ScanBufferPlainSimd(s: Simd.Simd32Pattern, base: nat, buf: seq<byte>) returns (matches: seq<ScanMatch>)
    requires s.Valid() && 1 <= SimdPat(s).Len() <= |buf|
    requires s.mask == None
    ensures matches == BufferHits(SimdPat(s).ToBytePattern(), SimdPat(s).Len(), base, buf, 0)
  {
    hide BufferHits, BytePattern.Matches, ScanPattern.Matches, ScanPattern.Len, Simd.From, Simd.Simd32Pattern.Valid;
    var patternLen := SimdPat(s).Len();
    ghost var p := SimdPat(s).ToBytePattern();
    matches := [];
    var wordOffset := 0;
    while wordOffset * ALIGN_SIZE + patternLen <= |buf|
      invariant matches + BufferHits(p, patternLen, base, buf, wordOffset * ALIGN_SIZE)
             == BufferHits(p, patternLen, base, buf, 0)
      decreases |buf| - wordOffset
    {
      var checkSlice := buf[wordOffset * ALIGN_SIZE..][..patternLen];
      ScanStep(SimdPat(s), base, buf, wordOffset * ALIGN_SIZE, matches);
      SimdComparison(s, checkSlice);
      if s.maskedValue == checkSlice {
        matches := matches + [ScanMatch(base + wordOffset * ALIGN_SIZE, checkSlice[..s.trueLen])];
      }
      wordOffset := wordOffset + 1;
    }
    ScanEnd(p, patternLen, base, buf, wordOffset * ALIGN_SIZE);
  }

  /** Scans a buffer with whichever loop the pattern's implementation has. */
  method ScanBuffer(p: ScanPattern, base: nat, buf: seq<byte>) returns (matches: seq<ScanMatch>)
    requires p.Valid() && 1 <= p.Len() <= |buf|
    ensures matches == BufferHits(p.ToBytePattern(), p.Len(), base, buf, 0)
  {
    hide BufferHits;
    match p {
      case BytePat(b) => matches := ScanBufferBytes(b, base, buf);
      case WordPat(w) =>
        match w.mask {
          case Some(mask) => matches := ScanBufferMaskedWords(w, mask, base, buf);
          case None => matches := ScanBufferPlainWords(w, base, buf);
        }
      case SimdPat(s) =>
        match s.mask {
          case Some(mask) => matches := ScanBufferMaskedSimd(s, mask, base, buf);
          case None => matches := ScanBufferPlainSimd(s, base, buf);
        }
    }
  }
}
