/** Compiling a query's masked struct to a scan pattern, and correcting the matches' addresses. */
module Queries {
  import opened Wrappers
  import opened Bytes
  import opened BytePatterns
  import opened ScanPatterns
  import opened AddressRanges
  import opened NaiveScan
  import opened ChunkedScan
  import opened ScanExactness
  import opened PatternStructs

  /** The index of the first 0xFF. */
  function FindIndex(mask: seq<byte>): Option<nat> {
    if mask == [] then
      None
    else if mask[0] == 0xFF then
      Some(0)
    else
      match FindIndex(mask[1..])
      case None => None
      case Some(i) => Some(i + 1)
  }

  function Reverse(mask: seq<byte>): (r: seq<byte>)
    ensures |r| == |mask|
  {
    if mask == [] then [] else Reverse(mask[1..]) + [mask[0]]
  }

  datatype Trimmed = Trimmed(bytes: seq<byte>, mask: seq<byte>, offset: nat)

  /** Cuts a masked struct down to the span of its significant bytes; `None` where there are none. */
  function TruncateSignificantBytes(bytes: seq<byte>, mask: seq<byte>): Option<Trimmed>
    requires |bytes| == |mask|
  {
    match (FindIndex(mask), FindIndex(Reverse(mask)))
    case (Some(first), Some(fromEnd)) =>
      FindIndexBounds(mask);
      FindIndexBounds(Reverse(mask));
      var last := |mask| - 1 - fromEnd;
      assert first <= last by { ReverseAt(mask, fromEnd); }
      var len := last - first + 1;
      Some(Trimmed(bytes[first..first + len], mask[first..first + len], first))
    case _ => None
  }

  lemma {:induction false} FindIndexBounds(mask: seq<byte>)
    ensures match FindIndex(mask)
      case None => 0xFF !in mask
      case Some(i) => i < |mask| && mask[i] == 0xFF && 0xFF !in mask[..i]
  {
    if mask != [] && mask[0] != 0xFF {
      FindIndexBounds(mask[1..]);
      match FindIndex(mask)
      case None =>
      case Some(i) =>
        assert mask[..i] == [mask[0]] + mask[1..][..i - 1];
    }
  }

  lemma {:induction false} ReverseAt(mask: seq<byte>, i: nat)
    requires i < |mask|
    ensures Reverse(mask)[i] == mask[|mask| - 1 - i]
  {
    if i < |mask| - 1 {
      ReverseAt(mask[1..], i);
    }
  }

  /** Trimming keeps exactly the stretch from the first to the last 0xFF. */
  lemma TruncateSpans(bytes: seq<byte>, mask: seq<byte>)
    requires |bytes| == |mask|
    ensures match TruncateSignificantBytes(bytes, mask)
      case None => 0xFF !in mask
      case Some(t) =>
        && 1 <= |t.bytes| == |t.mask| && t.offset + |t.bytes| <= |mask|
        && t.bytes == bytes[t.offset..][..|t.bytes|] && t.mask == mask[t.offset..][..|t.mask|]
        && t.mask[0] == 0xFF && t.mask[|t.mask| - 1] == 0xFF
        && 0xFF !in mask[..t.offset] && 0xFF !in mask[t.offset + |t.mask|..]
  {
    FindIndexBounds(mask);
    FindIndexBounds(Reverse(mask));
    match (FindIndex(mask), FindIndex(Reverse(mask)))
    case (Some(first), Some(fromEnd)) =>
      var last := |mask| - 1 - fromEnd;
      ReverseAt(mask, fromEnd);
      forall i | last < i < |mask|
        ensures mask[i] != 0xFF
      {
        ReverseAt(mask, |mask| - 1 - i);
        assert Reverse(mask)[|mask| - 1 - i] in Reverse(mask)[..fromEnd];
      }
      assert first <= last;
    case (None, Some(fromEnd)) =>
      ReverseAt(mask, fromEnd);
    case (Some(first), None) =>
      ReverseAt(mask, |mask| - 1 - first);
    case (None, None) =>
  }

  /** The pattern to scan for, and how far into the struct it starts. */
  function QueryToScanPattern(bytes: seq<byte>, mask: seq<byte>): (r: Option<(PatternStruct, nat)>)
    requires |bytes| == |mask|
  {
    TruncateSpans(bytes, mask);
    match TruncateSignificantBytes(bytes, mask)
    case None => None
    case Some(t) =>
      var finalMask := if forall i :: 0 <= i < |t.mask| ==> t.mask[i] == 0xFF then None else Some(t.mask);
      Some((NewScanPattern(t.bytes, finalMask), t.offset))
  }

  /** A query compiles to a pattern exactly if any byte is significant. */
  lemma PatternIffSignificant(bytes: seq<byte>, mask: seq<byte>)
    requires |bytes| == |mask|
    ensures QueryToScanPattern(bytes, mask).Some? <==> 0xFF in mask
  {
    TruncateSpans(bytes, mask);
  }

  /** Memory holds the query's struct at `b`: every byte that the mask keeps agrees. */
  ghost predicate QueryMatches(memory: nat -> byte, bytes: seq<byte>, mask: seq<byte>, b: int)
    requires |bytes| == |mask|
  {
    forall i :: 0 <= i < |mask| && mask[i] != 0 ==> b + i >= 0 && memory(b + i) == bytes[i]
  }

  function FirstSignificant(mask: seq<byte>): nat {
    match FindIndex(mask)
    case None => |mask|
    case Some(i) => i
  }

  function LastSignificant(mask: seq<byte>): int {
    match FindIndex(Reverse(mask))
    case None => -1
    case Some(i) => |mask| - 1 - i
  }

  /** Every mask byte that keeps anything lies between the first and the last 0xFF. */
  predicate MaskSpanned(mask: seq<byte>) {
    forall i :: 0 <= i < |mask| && mask[i] != 0 ==> FirstSignificant(mask) <= i <= LastSignificant(mask)
  }

  /** The mask of the compiled pattern in its place in the struct: nothing outside the span, whole bytes inside. */
  function ScannedMask(mask: seq<byte>): (r: seq<byte>)
    ensures |r| == |mask|
  {
    var first, last := FirstSignificant(mask), LastSignificant(mask);
    seq<byte>(|mask|, i requires 0 <= i < |mask| => if first <= i <= last && mask[i] != 0 then 0xFF else 0)
  }

  /** What a spanned mask keeps is scanned for. */
  lemma SpannedIsScanned(memory: nat -> byte, bytes: seq<byte>, mask: seq<byte>, b: int)
    requires |bytes| == |mask| && MaskSpanned(mask)
    ensures QueryMatches(memory, bytes, ScannedMask(mask), b) <==> QueryMatches(memory, bytes, mask, b)
  {
    hide FirstSignificant, LastSignificant;
    assert forall i :: 0 <= i < |mask| ==> (ScannedMask(mask)[i] != 0 <==> mask[i] != 0);
  }

  /** How a query compiles: the trimmed stretch, its mask unless it keeps everything, and the pattern. */
  lemma QueryCompiles(bytes: seq<byte>, mask: seq<byte>) returns (t: Trimmed, finalMask: Option<seq<byte>>, s: PatternStruct)
    requires |bytes| == |mask| && QueryToScanPattern(bytes, mask).Some?
    ensures QueryToScanPattern(bytes, mask) == Some((s, t.offset))
    ensures TruncateSignificantBytes(bytes, mask) == Some(t)
    ensures 1 <= |t.bytes| == |t.mask| && t.offset + |t.bytes| <= |bytes|
    ensures t.bytes == bytes[t.offset..][..|t.bytes|] && t.mask == mask[t.offset..][..|t.mask|]
    ensures 0xFF !in mask[..t.offset] && 0xFF !in mask[t.offset + |t.mask|..]
    ensures t.mask[0] == 0xFF && t.mask[|t.mask| - 1] == 0xFF
    ensures finalMask == if forall i :: 0 <= i < |t.mask| ==> t.mask[i] == 0xFF then None else Some(t.mask)
    ensures s == NewScanPattern(t.bytes, finalMask) && s.Valid()
    ensures SamePattern(s.pattern.ToBytePattern(), BytePatternOf(t.bytes, finalMask))
    ensures s.pattern.TrueLen() == |t.bytes|
    ensures s.pattern.Len() == if |t.bytes| <= 32 then 32 else |t.bytes|
  {
    hide Reverse, FindIndex, TruncateSignificantBytes, OptimizePattern, SamePattern, BytePatternOf, ScanPattern.Valid,
         ScanPattern.ToBytePattern, ScanPattern.Len, ScanPattern.TrueLen, BytePattern.Valid;
    TruncateSpans(bytes, mask);
    t := TruncateSignificantBytes(bytes, mask).value;
    finalMask := if forall i :: 0 <= i < |t.mask| ==> t.mask[i] == 0xFF then None else Some(t.mask);
    s := NewScanPattern(t.bytes, finalMask);
    NewPatternIs(t.bytes, finalMask);
  }

  lemma NewPatternIs(bytes: seq<byte>, mask: Option<seq<byte>>)
    requires mask.Some? ==> |mask.value| == |bytes|
    ensures var s := NewScanPattern(bytes, mask);
      && s.Valid() && SamePattern(s.pattern.ToBytePattern(), BytePatternOf(bytes, mask))
      && s.pattern.TrueLen() == |bytes| && s.pattern.Len() == if |bytes| <= 32 then 32 else |bytes|
  {
    hide OptimizePattern;
    OptimizeKeepsPattern(BytePatternOf(bytes, mask));
  }

  /** The compiled pattern at `a` compares what the trimmed struct says. */
  lemma CompiledPatternMatches(s: PatternStruct, t: Trimmed, finalMask: Option<seq<byte>>, reader: Reader, a: nat)
    requires |t.bytes| == |t.mask|
    requires finalMask == if forall i :: 0 <= i < |t.mask| ==> t.mask[i] == 0xFF then None else Some(t.mask)
    requires s.Valid() && SamePattern(s.pattern.ToBytePattern(), BytePatternOf(t.bytes, finalMask))
    ensures |s.pattern.ToBytePattern().value| == |t.bytes|
    ensures s.pattern.ToBytePattern().Matches(reader.Read(a, |t.bytes|)) <==> TrimmedMatches(t, reader, a)
  {
    hide ScanPattern.Valid, ScanPattern.Matches, BytePattern.Matches;
    var p := BytePatternOf(t.bytes, finalMask);
    SamePatternMatches(s.pattern.ToBytePattern(), p, reader.Read(a, |t.bytes|));
    TrimmedWindow(t, finalMask, reader, a);
  }

  ghost predicate TrimmedMatches(t: Trimmed, reader: Reader, a: nat)
    requires |t.bytes| == |t.mask|
  {
    forall j :: 0 <= j < |t.mask| && t.mask[j] != 0 ==> reader.memory(a + j) == t.bytes[j]
  }

  lemma TrimmedWindow(t: Trimmed, finalMask: Option<seq<byte>>, reader: Reader, a: nat)
    requires |t.bytes| == |t.mask|
    requires finalMask == if forall i :: 0 <= i < |t.mask| ==> t.mask[i] == 0xFF then None else Some(t.mask)
    ensures BytePatternOf(t.bytes, finalMask).Matches(reader.Read(a, |t.bytes|)) <==> TrimmedMatches(t, reader, a)
  {
  }

  /** Comparing the trimmed stretch is comparing what the struct's mask keeps inside the span. */
  lemma TrimmedIsScanned(t: Trimmed, bytes: seq<byte>, mask: seq<byte>, reader: Reader, a: nat)
    requires |t.bytes| == |t.mask| && |bytes| == |mask| && t.offset + |t.bytes| <= |bytes|
    requires t.bytes == bytes[t.offset..][..|t.bytes|] && t.mask == mask[t.offset..][..|t.mask|]
    requires t.offset == FirstSignificant(mask) && t.offset + |t.bytes| - 1 == LastSignificant(mask)
    ensures TrimmedMatches(t, reader, a) <==> QueryMatches(reader.memory, bytes, ScannedMask(mask), a - t.offset)
  {
    hide FirstSignificant, LastSignificant;
    var scanned := ScannedMask(mask);
    if QueryMatches(reader.memory, bytes, scanned, a - t.offset) {
      forall j | 0 <= j < |t.mask| && t.mask[j] != 0
        ensures reader.memory(a + j) == t.bytes[j]
      {
        assert scanned[t.offset + j] != 0;
      }
    }
  }

  /** Trimming cuts at the first and the last 0xFF. */
  lemma TrimmedSpan(t: Trimmed, bytes: seq<byte>, mask: seq<byte>)
    requires |bytes| == |mask| && TruncateSignificantBytes(bytes, mask) == Some(t)
    ensures t.offset == FirstSignificant(mask) && t.offset + |t.bytes| - 1 == LastSignificant(mask)
  {
    FindIndexBounds(mask);
    FindIndexBounds(Reverse(mask));
    ReverseAt(mask, FindIndex(Reverse(mask)).value);
    var first, last := FirstSignificant(mask), LastSignificant(mask);
    assert first <= last;
    assert t.bytes == bytes[first..first + (last - first + 1)];
  }

  /**
    * Compilation preserves meaning, whatever the mask: the pattern matches at `a` iff memory at `a - offset`
    * holds what the struct's mask keeps between its first and its last 0xFF.
    */
  lemma CompilationPreservesMeaning(
    bytes: seq<byte>, mask: seq<byte>, s: PatternStruct, offset: nat, reader: Reader, a: nat)
    requires |bytes| == |mask|
    requires QueryToScanPattern(bytes, mask) == Some((s, offset))
    ensures s.Valid()
    ensures s.pattern.ToBytePattern().Matches(reader.Read(a, s.pattern.TrueLen()))
        <==> QueryMatches(reader.memory, bytes, ScannedMask(mask), a - offset)
  {
    hide QueryToScanPattern, NewScanPattern, ScanPattern.Valid, BytePattern.Matches, QueryMatches, TrimmedMatches,
         SamePattern, ScanPattern.TrueLen, ScanPattern.Value, ScanPattern.Mask, ScanPattern.ToBytePattern,
         TruncateSignificantBytes, FirstSignificant, LastSignificant, BytePatternOf;
    var t, finalMask, compiled := QueryCompiles(bytes, mask);
    CompiledPatternMatches(s, t, finalMask, reader, a);
    TrimmedSpan(t, bytes, mask);
    TrimmedIsScanned(t, bytes, mask, reader, a);
  }

  /** Memory that holds the struct's trimmed stretch at its offset from 0 and disagrees everywhere else. */
  function TrimmedOnly(t: Trimmed, bytes: seq<byte>): nat -> byte {
    (x: nat) =>
      if t.offset <= x < t.offset + |t.bytes| then
        t.bytes[x - t.offset]
      else if x < |bytes| then
        (if bytes[x] == 0 then 1 else 0)
      else
        0
  }

  /** A kept byte outside the span is not scanned for, so memory that disagrees there is found all the same. */
  lemma UnspannedIsLost(bytes: seq<byte>, mask: seq<byte>, s: PatternStruct, offset: nat, reader: Reader) returns (other: Reader)
    requires |bytes| == |mask| && !MaskSpanned(mask)
    requires QueryToScanPattern(bytes, mask) == Some((s, offset)) && s.Valid()
    ensures s.pattern.ToBytePattern().Matches(other.Read(offset, s.pattern.TrueLen()))
    ensures !QueryMatches(other.memory, bytes, mask, 0)
  {
    hide QueryToScanPattern, NewScanPattern, ScanPattern.Valid, BytePattern.Matches,
         SamePattern, ScanPattern.TrueLen, ScanPattern.Value, ScanPattern.Mask, ScanPattern.ToBytePattern,
         TruncateSignificantBytes, FirstSignificant, LastSignificant, BytePatternOf;
    var t, finalMask, compiled := QueryCompiles(bytes, mask);
    other := reader.(memory := TrimmedOnly(t, bytes));
    CompiledPatternMatches(s, t, finalMask, other, offset);
    var i :| 0 <= i < |mask| && mask[i] != 0 && !(FirstSignificant(mask) <= i <= LastSignificant(mask));
    TrimmedSpan(t, bytes, mask);
    assert other.memory(i) != bytes[i];
  }

  /** Trimming is exact if and only if the mask keeps nothing outside its span. */
  lemma CompilationExactIff(bytes: seq<byte>, mask: seq<byte>, s: PatternStruct, offset: nat)
    requires |bytes| == |mask|
    requires QueryToScanPattern(bytes, mask) == Some((s, offset)) && s.Valid()
    ensures MaskSpanned(mask) <==> forall reader: Reader, a: nat ::
      (s.pattern.ToBytePattern().Matches(reader.Read(a, s.pattern.TrueLen()))
       <==> QueryMatches(reader.memory, bytes, mask, a - offset))
  {
    hide QueryToScanPattern, BytePattern.Matches, QueryMatches, ScanPattern.Valid;
    if MaskSpanned(mask) {
      forall reader: Reader, a: nat
        ensures s.pattern.ToBytePattern().Matches(reader.Read(a, s.pattern.TrueLen()))
            <==> QueryMatches(reader.memory, bytes, mask, a - offset)
      {
        CompilationPreservesMeaning(bytes, mask, s, offset, reader, a);
        SpannedIsScanned(reader.memory, bytes, mask, a - offset);
      }
    } else {
      var other := UnspannedIsLost(bytes, mask, s, offset, Reader(0, x => 0, r => false, r => []));
      assert !QueryMatches(other.memory, bytes, mask, offset - offset);
    }
  }

  /** A mask of 0x00 and 0xFF bytes, as schemas produce, keeps nothing outside its span. */
  lemma PlainMaskSpanned(mask: seq<byte>)
    requires forall i :: 0 <= i < |mask| ==> mask[i] == 0 || mask[i] == 0xFF
    ensures MaskSpanned(mask)
  {
    hide FindIndex, Reverse;
    FindIndexBounds(mask);
    FindIndexBounds(Reverse(mask));
    forall i | 0 <= i < |mask| && mask[i] != 0
      ensures FirstSignificant(mask) <= i <= LastSignificant(mask)
    {
      var last := |mask| - 1 - i;
      ReverseAt(mask, last);
      assert Reverse(mask)[last] == 0xFF;
    }
  }

  /** A mask of 0x00 and 0xFF bytes is scanned for as it is. */
  lemma PlainMaskScanned(mask: seq<byte>)
    requires forall i :: 0 <= i < |mask| ==> mask[i] == 0 || mask[i] == 0xFF
    ensures ScannedMask(mask) == mask
  {
    hide FirstSignificant, LastSignificant;
    PlainMaskSpanned(mask);
  }

  /** The addresses a query yields for the matches of its pattern. */
  function StructAddresses(matches: seq<ScanMatch>, offset: nat): (addrs: seq<int>)
    ensures |addrs| == |matches|
  {
    seq(|matches|, i requires 0 <= i < |matches| => matches[i].addr - offset)
  }

  /** A struct that a query should find: its window is aligned, readable and inside the range. */
  ghost predicate QueryHit(job: Job, bytes: seq<byte>, mask: seq<byte>, offset: nat, b: int)
    requires job.Valid() && |bytes| == |mask|
  {
    && job.range.start <= b + offset <= job.range.end - job.room
    && (b + offset) % ALIGN_SIZE == 0
    && Known(job.Snapshot(), b + offset, job.room)
    && QueryMatches(job.reader.memory, bytes, mask, b)
  }

  /**
    * The matches of the compiled pattern in any view of memory, moved back by the offset, are the aligned
    * addresses in bounds at which memory holds what is scanned for and the view has room.
    */
  lemma {:induction false} HitsFindStructs(
    p: BytePattern, room: nat, view: View, lo: nat, hi: int, reader: Reader,
    bytes: seq<byte>, mask: seq<byte>, s: PatternStruct, offset: nat, b: int)
    requires p.Valid() && |p.value| <= room && |bytes| == |mask|
    requires QueryToScanPattern(bytes, mask) == Some((s, offset)) && s.Valid() && p == s.pattern.ToBytePattern()
    requires lo <= b + offset < hi && Known(view, b + offset, room) ==>
               BytesAt(view, b + offset, |p.value|) == reader.Read(b + offset, |p.value|)
    ensures b in StructAddresses(Hits(p, room, view, lo, hi), offset) <==>
      && lo <= b + offset < hi && Candidate(lo, b + offset) && Known(view, b + offset, room)
      && QueryMatches(reader.memory, bytes, ScannedMask(mask), b)
  {
    hide Hits, QueryToScanPattern, ScanPattern.Valid, BytePattern.Matches, QueryMatches, ScannedMask;
    var matches := Hits(p, room, view, lo, hi);
    if lo <= b + offset < hi {
      CompilationPreservesMeaning(bytes, mask, s, offset, reader, b + offset);
    }
    if b in StructAddresses(matches, offset) {
      var i :| 0 <= i < |matches| && matches[i].addr - offset == b;
      HitsExact(p, room, view, lo, hi, matches[i]);
    }
    if lo <= b + offset < hi && Known(view, b + offset, room) {
      var m := ScanMatch(b + offset, BytesAt(view, b + offset, |p.value|));
      HitsExact(p, room, view, lo, hi, m);
      if m in matches {
        var i :| 0 <= i < |matches| && matches[i] == m;
        assert StructAddresses(matches, offset)[i] == b;
      }
    }
  }

  lemma SnapshotBytes(job: Job, a: nat)
    requires job.Valid() && Known(job.Snapshot(), a, job.room)
    ensures BytesAt(job.Snapshot(), a, |job.p.value|) == job.reader.Read(a, |job.p.value|)
  {
  }

  /** The naive matches, moved back by the offset, are exactly the structs that are scanned for. */
  lemma NaiveFindsStructs(
    job: Job, bytes: seq<byte>, mask: seq<byte>, s: PatternStruct, offset: nat, b: int)
    requires job.Valid() && |bytes| == |mask|
    requires QueryToScanPattern(bytes, mask) == Some((s, offset)) && s.Valid()
    requires job.p == s.pattern.ToBytePattern()
    ensures b in StructAddresses(job.Naive(), offset) <==> QueryHit(job, bytes, ScannedMask(mask), offset, b)
  {
    hide Hits, QueryToScanPattern, ScanPattern.Valid, BytePattern.Matches, QueryMatches, ScannedMask;
    var start, end := job.range.start, job.range.end - job.room + 1;
    if start <= b + offset < end && Known(job.Snapshot(), b + offset, job.room) {
      SnapshotBytes(job, b + offset);
    }
    HitsFindStructs(job.p, job.room, job.Snapshot(), start, end, job.reader, bytes, mask, s, offset, b);
    AlignedCandidate(start, b + offset);
  }

  /** From an aligned start on, the candidates are the aligned addresses. */
  lemma AlignedCandidate(start: int, a: int)
    requires start % ALIGN_SIZE == 0
    ensures Candidate(start, a) <==> a % ALIGN_SIZE == 0
  {
  }

  lemma StructAddressesAscend(job: Job, offset: nat)
    requires job.Valid()
    ensures var addrs := StructAddresses(job.Naive(), offset);
      forall i, j :: 0 <= i < j < |addrs| ==> addrs[i] < addrs[j]
  {
    HitsAscending(job.p, job.room, job.Snapshot(), job.range.start, job.range.end - job.room + 1);
  }

  /** What a query over one range of memory yields. */
  ghost predicate QueryAnswer(job: Job, bytes: seq<byte>, mask: seq<byte>, offset: nat, addrs: seq<int>)
    requires |bytes| == |mask|
  {
    && job.Valid()
    && (forall b :: b in addrs <==> QueryHit(job, bytes, mask, offset, b))
    && (forall i, j :: 0 <= i < j < |addrs| ==> addrs[i] < addrs[j])
  }

  lemma ScanAnswersQuery(
    job: Job, bytes: seq<byte>, mask: seq<byte>, s: PatternStruct, offset: nat, matches: seq<ScanMatch>)
    requires |bytes| == |mask|
    requires QueryToScanPattern(bytes, mask) == Some((s, offset)) && s.Valid()
    requires job.p == s.pattern.ToBytePattern()
    requires BlockScanned(job, job.range, matches) && Guard(job)
    ensures QueryAnswer(job, bytes, ScannedMask(mask), offset, StructAddresses(matches, offset))
  {
    StructAddressesAscend(job, offset);
    forall b: int
      ensures b in StructAddresses(job.Naive(), offset) <==> QueryHit(job, bytes, ScannedMask(mask), offset, b)
    {
      NaiveFindsStructs(job, bytes, mask, s, offset, b);
    }
  }
}
