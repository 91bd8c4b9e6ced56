/** What a query finds in one block of memory: from the values given for fields to the addresses that come back. */
module QueryBlocks {
  import opened Wrappers
  import opened Bytes
  import opened BytePatterns
  import opened ScanPatterns
  import opened AddressRanges
  import opened NaiveScan
  import opened ChunkedScan
  import opened ScanExactness
  import opened PatternStructs
  import opened Scanners
  import opened Queries
  import opened QueryStreams
  import opened SchemaLayouts
  import opened SchemaCodecs
  import opened MaskedBytes
  import opened QueryExactness

  /** The block is scanned without tripping one of the scanner's assertions. */
  ghost predicate CanScanBlock(m: Masked, scanner: Scanner, block: AddressRange)
    requires |m.bytes| == |m.mask|
  {
    match QueryToScanPattern(m.bytes, m.mask)
    case None => true
    case Some((s, _)) =>
      && s.Valid()
      && var job := BlockJob(s, scanner, block);
         job.Valid() && job.room <= job.readSize && PatternFitsLast(job)
  }

  /** The structs that come back when the process's memory is `memory`; `None` where no pattern compiles. */
  ghost function Found(
    m: Masked, scanner: Scanner, block: AddressRange, memory: nat -> byte, stale: seq<byte>): Option<seq<int>>
    requires |m.bytes| == |m.mask| && CanScanBlock(m, scanner, block) && |stale| == scanner.readSize
  {
    match QueryToScanPattern(m.bytes, m.mask)
    case None => None
    case Some((s, offset)) =>
      Some(StructAddresses(ScanResult(WithMemory(BlockJob(s, scanner, block), memory), stale), offset))
  }

  /** If a scan takes several reads, the last one does not succeed right after a failed one. */
  ghost predicate GuardedBlock(m: Masked, scanner: Scanner, block: AddressRange)
    requires |m.bytes| == |m.mask| && CanScanBlock(m, scanner, block)
  {
    match QueryToScanPattern(m.bytes, m.mask)
    case None => true
    case Some((s, _)) =>
      var job := BlockJob(s, scanner, block);
      job.range.Size() > job.readSize ==> Guard(job)
  }

  /** The read of the byte's chunk succeeds. */
  ghost predicate ByteRead(scanner: Scanner, block: AddressRange, x: nat)
    requires block.Valid() && scanner.readSize > 0
  {
    Readable(scanner.process.fails, block, scanner.readSize, x)
  }

  /** A struct of `n` bytes at `b` lies aligned inside the block, and all of it can be read. */
  ghost predicate Place(scanner: Scanner, block: AddressRange, n: nat, b: nat)
    requires block.Valid() && scanner.readSize > 0
  {
    && block.start <= b && b + n <= block.end && b % ALIGN_SIZE == 0
    && forall x: nat :: b <= x < b + n ==> ByteRead(scanner, block, x)
  }

  /** A window of `room` bytes at `a` is scanned: it lies in the tail for one read, and can be read for several. */
  ghost predicate Reached(scanner: Scanner, block: AddressRange, room: int, a: nat)
    requires block.Valid() && scanner.readSize > 0
  {
    if block.Size() <= scanner.readSize then
      a + room <= block.start + scanner.readSize
    else
      && a + room <= block.end
      && forall x: nat :: a <= x < a + room ==> ByteRead(scanner, block, x)
  }

  /**
    * Whatever memory and the buffer hold, of the aligned structs in the block that can be read exactly those
    * with all the values given are found.
    */
  ghost predicate FindsStructs(m: Masked, given: seq<Assignment>, scanner: Scanner, block: AddressRange)
    requires |m.bytes| == |m.mask| && CanScanBlock(m, scanner, block) && block.Valid() && scanner.readSize > 0
  {
    forall memory: nat -> byte, stale: seq<byte> :: |stale| == scanner.readSize ==>
      FoundAreGiven(Found(m, scanner, block, memory, stale), given, scanner, block, |m.bytes|, memory)
  }

  ghost predicate FoundAreGiven(
    found: Option<seq<int>>, given: seq<Assignment>, scanner: Scanner, block: AddressRange, n: nat, memory: nat -> byte)
    requires block.Valid() && scanner.readSize > 0
  {
    found.Some? && forall b: nat :: Place(scanner, block, n, b) ==> (b in found.value <==> AllHaveValue(memory, b, given))
  }

  /** How many bytes the compiled pattern needs from its first significant byte on. */
  function WindowSize(mask: seq<byte>): int {
    var span := LastSignificant(mask) - FirstSignificant(mask) + 1;
    if span <= 32 then 32 else span
  }

  /**
    * What a caller can tell from the query, the block and the reads that fail: something is significant, and
    * if a struct can be anywhere, every given byte is pinned as it is scanned for, the first significant byte
    * is as aligned as the struct, and each struct's window is scanned.
    */
  ghost predicate AlwaysFinds(given: seq<Assignment>, mask: seq<byte>, scanner: Scanner, block: AddressRange)
    requires WellGiven(given) && block.Valid() && scanner.readSize > 0
  {
    && 0xFF in mask
    && forall b: nat :: Place(scanner, block, |mask|, b) ==>
         && ExactQuery(given, ScannedMask(mask))
         && FirstSignificant(mask) % ALIGN_SIZE == 0
         && Reached(scanner, block, WindowSize(mask), b + FirstSignificant(mask))
  }

  // What is found at one address.

  /** The scan reaches a window: in the tail of a single read, and in a longer range if it can be read. */
  ghost predicate InReach(job: Job, a: nat)
    requires job.Valid()
  {
    if job.range.Size() <= job.readSize then
      a + job.room <= job.range.start + job.readSize
    else
      Known(job.Snapshot(), a, job.room)
  }

  /** A struct that can be read is found iff its window is aligned, scanned, and matches. */
  lemma FoundIff(job: Job, stale: seq<byte>, bytes: seq<byte>, mask: seq<byte>, s: PatternStruct, offset: nat, b: nat)
    requires job.Valid() && job.room <= job.readSize && |stale| == job.readSize && PatternFitsLast(job)
    requires job.range.Size() > job.readSize ==> Guard(job)
    requires |bytes| == |mask| && QueryToScanPattern(bytes, mask) == Some((s, offset)) && s.Valid()
    requires job.p == s.pattern.ToBytePattern() && offset + |job.p.value| <= |bytes|
    requires |bytes| > 0 && Known(job.Snapshot(), b, |bytes|)
    ensures b in StructAddresses(ScanResult(job, stale), offset) <==>
      && (b + offset) % ALIGN_SIZE == 0 && InReach(job, b + offset)
      && QueryMatches(job.reader.memory, bytes, ScannedMask(mask), b)
  {
    hide Hits, Readable, Known, QueryToScanPattern, ScanPattern.Valid, BytePattern.Matches, QueryMatches, ScannedMask,
         PatternFitsLast, Guard, StructAddresses;
    KnownInside(job, b, |bytes|);
    FirstIsRead(job, b, |bytes|);
    if job.range.Size() <= job.readSize {
      var start, end := job.range.start, job.range.start + job.readSize - job.room + 1;
      if b + offset < end {
        TailWindow(job, stale, b + offset);
      }
      HitsFindStructs(job.p, job.room, StaleView(job, stale), start, end, job.reader, bytes, mask, s, offset, b);
      AlignedCandidate(start, b + offset);
    } else {
      LongRangeExact(job, stale);
      if Known(job.Snapshot(), b + offset, job.room) {
        KnownInside(job, b + offset, job.room);
      }
      NaiveFindsStructs(job, bytes, mask, s, offset, b);
    }
  }

  lemma FirstIsRead(job: Job, b: nat, n: nat)
    requires job.Valid() && n > 0 && Known(job.Snapshot(), b, n)
    ensures job.range.Size() <= job.readSize ==> !job.reader.fails(job.range)
  {
    assert job.Snapshot()(b).Some?;
    assert job.Known(b);
  }

  /** A window of the tail whose own bytes lie in the range. */
  lemma TailWindow(job: Job, stale: seq<byte>, a: nat)
    requires job.Valid() && |stale| == job.readSize
    requires job.range.start <= a && a + job.room <= job.range.start + job.readSize && a + |job.p.value| <= job.range.end
    ensures Known(StaleView(job, stale), a, job.room)
    ensures BytesAt(StaleView(job, stale), a, |job.p.value|) == job.reader.Read(a, |job.p.value|)
  {
  }

  // Where nothing is found.

  /** Every reported address is aligned, also those that are too low after a failed read. */
  lemma ReportedAligned(job: Job, stale: seq<byte>, m: ScanMatch)
    requires job.Valid() && |stale| == job.readSize && m in ScanResult(job, stale)
    ensures m.addr % ALIGN_SIZE == 0
  {
    hide Hits, Readable;
    if job.range.Size() <= job.readSize {
      var start := job.range.start;
      HitsAligned(job.p, job.room, StaleView(job, stale), start, start + job.readSize - job.room + 1);
    } else {
      var c, head, end := LastStart(job.range, job.readSize), HeadSize(job.room), job.range.end - job.room + 1;
      LastStartIsChunkStart(job);
      ChunkStartSplits(job, c, c);
      Aligned(c, head);
      HitsAligned(job.p, job.room, job.Snapshot(), job.range.start, c - head);
      HitsAligned(job.p, job.room, job.Snapshot(), c, end);
      HitsAligned(job.p, job.room, job.Snapshot(), c - head, end);
      MovedAligned(job.Matches(c, end), head);
    }
  }

  predicate AllAligned(matches: seq<ScanMatch>) {
    forall m :: m in matches ==> m.addr % ALIGN_SIZE == 0
  }

  lemma {:induction false} HitsAligned(p: BytePattern, room: nat, view: View, a: nat, b: int)
    requires p.Valid() && |p.value| <= room && a % ALIGN_SIZE == 0
    ensures AllAligned(Hits(p, room, view, a, b))
  {
    hide Hits, BytePattern.Matches;
    forall m | m in Hits(p, room, view, a, b)
      ensures m.addr % ALIGN_SIZE == 0
    {
      HitsExact(p, room, view, a, b, m);
      Aligned(m.addr - a, a);
    }
  }

  lemma MovedAligned(matches: seq<ScanMatch>, shift: nat)
    requires AllAligned(matches) && shift % ALIGN_SIZE == 0
    ensures AllAligned(Moved(matches, shift))
  {
    forall m | m in Moved(matches, shift)
      ensures m.addr % ALIGN_SIZE == 0
    {
      var i :| 0 <= i < |matches| && Moved(matches, shift)[i] == m;
      assert matches[i] in matches;
      Aligned(matches[i].addr, shift);
    }
  }

  /** With a first significant byte that is not aligned, no aligned struct is ever found, whichever reads fail. */
  lemma MisalignedNeverFound(job: Job, stale: seq<byte>, offset: nat, b: int)
    requires job.Valid() && |stale| == job.readSize
    requires offset % ALIGN_SIZE != 0 && b % ALIGN_SIZE == 0
    ensures b !in StructAddresses(ScanResult(job, stale), offset)
  {
    hide ScanResult;
    var matches := ScanResult(job, stale);
    if b in StructAddresses(matches, offset) {
      var i :| 0 <= i < |matches| && matches[i].addr - offset == b;
      ReportedAligned(job, stale, matches[i]);
      Aligned(matches[i].addr, b);
    }
  }

  /** The compiled pattern's offset and window from the mask. */
  lemma QueryWindow(bytes: seq<byte>, mask: seq<byte>)
    requires |bytes| == |mask|
    ensures QueryToScanPattern(bytes, mask).Some? <==> 0xFF in mask
    ensures QueryToScanPattern(bytes, mask).Some? ==>
      var (s, offset) := QueryToScanPattern(bytes, mask).value;
      && s.Valid() && offset == FirstSignificant(mask) && s.pattern.Len() == WindowSize(mask)
      && offset + |s.pattern.ToBytePattern().value| <= |bytes|
  {
    hide QueryToScanPattern, TruncateSignificantBytes, SamePattern, FirstSignificant, LastSignificant, ScanPattern.Valid,
         ScanPattern.Len;
    PatternIffSignificant(bytes, mask);
    if QueryToScanPattern(bytes, mask).Some? {
      var t, finalMask, s := QueryCompiles(bytes, mask);
      TrimmedSpan(t, bytes, mask);
    }
  }

  /** What is known of a range, by the reads that fail. */
  lemma KnownIsRead(job: Job, scanner: Scanner, block: AddressRange, a: nat, n: nat)
    requires job.Valid() && block == job.range && scanner.readSize == job.readSize && scanner.process.fails == job.reader.fails
    requires 1 <= n
    ensures Known(job.Snapshot(), a, n) <==>
      && block.start <= a && a + n <= block.end
      && forall x: nat :: a <= x < a + n ==> ByteRead(scanner, block, x)
  {
    if Known(job.Snapshot(), a, n) {
      KnownInside(job, a, n);
      forall x: nat | a <= x < a + n
        ensures ByteRead(scanner, block, x)
      {
        assert job.Snapshot()(x).Some?;
        assert job.Known(x);
      }
    } else {
      var x: nat :| a <= x < a + n && job.Snapshot()(x).None?;
      assert !job.Known(x);
      assert block.start <= x < block.end ==> !ByteRead(scanner, block, x);
    }
  }

  /** One struct that can be read, for one content of memory. */
  lemma PlaceFoundIff(m: Masked, scanner: Scanner, block: AddressRange, memory: nat -> byte, stale: seq<byte>, b: nat)
    requires |m.bytes| == |m.mask| && CanScanBlock(m, scanner, block) && GuardedBlock(m, scanner, block)
    requires 0xFF in m.mask && |stale| == scanner.readSize && block.Valid() && scanner.readSize > 0
    requires Place(scanner, block, |m.bytes|, b)
    ensures Found(m, scanner, block, memory, stale).Some?
    ensures b in Found(m, scanner, block, memory, stale).value <==>
      && FirstSignificant(m.mask) % ALIGN_SIZE == 0
      && Reached(scanner, block, WindowSize(m.mask), b + FirstSignificant(m.mask))
      && QueryMatches(memory, m.bytes, ScannedMask(m.mask), b)
  {
    hide QueryToScanPattern, ScanPattern.Valid, ScanPattern.Len, QueryMatches, ScannedMask, FirstSignificant, WindowSize,
         ScanResult, StructAddresses, Readable, Known;
    QueryWindow(m.bytes, m.mask);
    var (s, offset) := QueryToScanPattern(m.bytes, m.mask).value;
    var job := WithMemory(BlockJob(s, scanner, block), memory);
    assert job.Valid() && PatternFitsLast(job) && (job.range.Size() > job.readSize ==> Guard(job));
    KnownIsRead(job, scanner, block, b, |m.bytes|);
    KnownIsRead(job, scanner, block, b + offset, job.room);
    FoundIff(job, stale, m.bytes, m.mask, s, offset, b);
    AlignedCandidate(b, offset + b);
  }

  lemma FoundSome(m: Masked, scanner: Scanner, block: AddressRange, memory: nat -> byte, stale: seq<byte>)
    requires |m.bytes| == |m.mask| && CanScanBlock(m, scanner, block) && |stale| == scanner.readSize
    ensures Found(m, scanner, block, memory, stale).Some? <==> 0xFF in m.mask
  {
    hide QueryToScanPattern, ScanPattern.Valid, ScanResult, StructAddresses;
    PatternIffSignificant(m.bytes, m.mask);
  }

  // When everything is found.

  /** The condition suffices ... */
  lemma AlwaysFound(
    fields: seq<Field>, entries: seq<Entry>, custom: Option<seq<byte>>, m: Masked, scanner: Scanner, block: AddressRange)
    requires ValidType(Embed(fields)) && Distinct(entries) && ToMaskedBytes(fields, entries, custom) == Ok(m)
    requires |m.bytes| == |m.mask| && CanScanBlock(m, scanner, block) && GuardedBlock(m, scanner, block)
    requires block.Valid() && scanner.readSize > 0
    requires WellGiven(Given(fields, entries)) && AlwaysFinds(Given(fields, entries), m.mask, scanner, block)
    ensures FindsStructs(m, Given(fields, entries), scanner, block)
  {
    hide ToMaskedBytes, ValidType, Given, CanScanBlock, GuardedBlock, Found, ExactQuery, FirstSignificant, WindowSize,
         ScannedMask, QueryMatches, AllHaveValue, Place, Reached, Within;
    var given, scanned := Given(fields, entries), ScannedMask(m.mask);
    ScannedWithin(m.mask);
    forall memory: nat -> byte, stale: seq<byte> | |stale| == scanner.readSize
      ensures FoundAreGiven(Found(m, scanner, block, memory, stale), given, scanner, block, |m.bytes|, memory)
    {
      FoundSome(m, scanner, block, memory, stale);
      forall b: nat | Place(scanner, block, |m.bytes|, b)
        ensures b in Found(m, scanner, block, memory, stale).value <==> AllHaveValue(memory, b, given)
      {
        PlaceFoundIff(m, scanner, block, memory, stale, b);
        QueryExactIff(fields, entries, custom, m, scanned, b);
        assert TellsExactly(m.bytes, scanned, given, b);
      }
    }
  }

  /** A struct that is not found although it has all the values given. */
  lemma PlantedMissed(m: Masked, given: seq<Assignment>, scanner: Scanner, block: AddressRange, b: nat)
    requires |m.bytes| == |m.mask| && CanScanBlock(m, scanner, block) && GuardedBlock(m, scanner, block)
    requires AllCompiled(m, given) && 0xFF in m.mask && block.Valid() && scanner.readSize > 0
    requires Place(scanner, block, |m.bytes|, b)
    requires FirstSignificant(m.mask) % ALIGN_SIZE == 0 ==>
               !Reached(scanner, block, WindowSize(m.mask), b + FirstSignificant(m.mask))
    ensures !FindsStructs(m, given, scanner, block)
  {
    hide CanScanBlock, GuardedBlock, Found, FirstSignificant, WindowSize, Reached, QueryMatches, AllHaveValue, Place,
         AllCompiled, Changed;
    var memory, stale := Changed(m.bytes, b, |m.bytes|, 0), Zeros(scanner.readSize);
    PlantedHasValues(m, given, b);
    PlaceFoundIff(m, scanner, block, memory, stale, b);
    assert !FoundAreGiven(Found(m, scanner, block, memory, stale), given, scanner, block, |m.bytes|, memory);
  }

  /** A query that is misjudged at one place is misjudged in the block. */
  lemma InexactMissed(m: Masked, given: seq<Assignment>, scanner: Scanner, block: AddressRange, b: nat)
    requires |m.bytes| == |m.mask| && CanScanBlock(m, scanner, block) && GuardedBlock(m, scanner, block)
    requires 0xFF in m.mask && block.Valid() && scanner.readSize > 0
    requires Place(scanner, block, |m.bytes|, b)
    requires FirstSignificant(m.mask) % ALIGN_SIZE == 0
    requires Reached(scanner, block, WindowSize(m.mask), b + FirstSignificant(m.mask))
    requires !TellsExactly(m.bytes, ScannedMask(m.mask), given, b)
    ensures !FindsStructs(m, given, scanner, block)
  {
    hide CanScanBlock, GuardedBlock, Found, FirstSignificant, WindowSize, Reached, QueryMatches, AllHaveValue, Place, ScannedMask;
    var memory: nat -> byte :| QueryMatches(memory, m.bytes, ScannedMask(m.mask), b) != AllHaveValue(memory, b, given);
    var stale := Zeros(scanner.readSize);
    PlaceFoundIff(m, scanner, block, memory, stale, b);
    assert !FoundAreGiven(Found(m, scanner, block, memory, stale), given, scanner, block, |m.bytes|, memory);
  }

  /** ... and is needed. */
  lemma NotAlwaysFound(
    fields: seq<Field>, entries: seq<Entry>, custom: Option<seq<byte>>, m: Masked, scanner: Scanner, block: AddressRange)
    requires ValidType(Embed(fields)) && Distinct(entries) && ToMaskedBytes(fields, entries, custom) == Ok(m)
    requires |m.bytes| == |m.mask| && CanScanBlock(m, scanner, block) && GuardedBlock(m, scanner, block)
    requires block.Valid() && scanner.readSize > 0
    requires WellGiven(Given(fields, entries)) && !AlwaysFinds(Given(fields, entries), m.mask, scanner, block)
    ensures !FindsStructs(m, Given(fields, entries), scanner, block)
  {
    hide ToMaskedBytes, ValidType, Given, CanScanBlock, GuardedBlock, Found, ExactQuery, FirstSignificant, WindowSize,
         ScannedMask, QueryMatches, AllHaveValue, Place, Reached, Within, TellsExactly, AllCompiled, WellGiven, Assigns;
    QueryGives(fields, entries, custom, m);
    var given, scanned := Given(fields, entries), ScannedMask(m.mask);
    if 0xFF !in m.mask {
      FoundSome(m, scanner, block, x => 0, Zeros(scanner.readSize));
      assert !FoundAreGiven(Found(m, scanner, block, x => 0, Zeros(scanner.readSize)), given, scanner, block, |m.bytes|, x => 0);
    } else {
      var first := FirstSignificant(m.mask);
      var b: nat :| Place(scanner, block, |m.mask|, b) && !(
        ExactQuery(given, scanned) && first % ALIGN_SIZE == 0 && Reached(scanner, block, WindowSize(m.mask), b + first));
      if first % ALIGN_SIZE == 0 && Reached(scanner, block, WindowSize(m.mask), b + first) {
        ScannedWithin(m.mask);
        QueryExactIff(fields, entries, custom, m, scanned, b);
        InexactMissed(m, given, scanner, block, b);
      } else {
        PlantedMissed(m, given, scanner, block, b);
      }
    }
  }

  /**
    * End to end, whichever reads fail: of the aligned structs in a guarded block that can be read, a query
    * returns exactly those with all the values given, whatever memory and the buffer hold, if and only if
    * something is significant and, should a struct be able to be anywhere, every given byte is pinned as it is
    * scanned for, the first significant byte is aligned, and each struct's window is scanned.
    */
  lemma QueryFindsIff(
    fields: seq<Field>, entries: seq<Entry>, custom: Option<seq<byte>>, m: Masked, scanner: Scanner, block: AddressRange)
    requires ValidType(Embed(fields)) && Distinct(entries) && ToMaskedBytes(fields, entries, custom) == Ok(m)
    requires |m.bytes| == |m.mask| && CanScanBlock(m, scanner, block) && GuardedBlock(m, scanner, block)
    requires block.Valid() && scanner.readSize > 0
    ensures WellGiven(Given(fields, entries))
    ensures FindsStructs(m, Given(fields, entries), scanner, block)
        <==> AlwaysFinds(Given(fields, entries), m.mask, scanner, block)
  {
    hide ToMaskedBytes, ValidType, Given, CanScanBlock, GuardedBlock, FindsStructs, AlwaysFinds, WellGiven;
    QueryGives(fields, entries, custom, m);
    if AlwaysFinds(Given(fields, entries), m.mask, scanner, block) {
      AlwaysFound(fields, entries, custom, m, scanner, block);
    } else {
      NotAlwaysFound(fields, entries, custom, m, scanner, block);
    }
  }

  /** In a guarded block the scanned windows are those that can be read inside it. */
  lemma ReachedIsKnown(job: Job, scanner: Scanner, block: AddressRange, b: nat, n: nat, offset: nat)
    requires job.Valid() && job.room <= job.readSize && Guard(job)
    requires block == job.range && scanner.readSize == job.readSize && scanner.process == job.reader
    requires Place(scanner, block, n, b) && 1 <= n && offset % ALIGN_SIZE == 0
    requires Reached(scanner, block, job.room, b + offset)
    ensures b + offset + job.room <= block.end && Known(job.Snapshot(), b + offset, job.room)
  {
    hide Readable, Known;
    KnownIsRead(job, scanner, block, b, n);
    KnownIsRead(job, scanner, block, b + offset, job.room);
    if block.Size() <= scanner.readSize {
      FirstIsRead(job, b, n);
      Aligned(b, offset);
      Aligned(b + offset, block.start);
      CandidateBound(b + offset - block.start, job.readSize - job.room);
      forall x: nat | b + offset <= x < b + offset + job.room
        ensures ByteRead(scanner, block, x)
      {
        OneRead(scanner, block, x);
      }
    }
  }

  lemma OneRead(scanner: Scanner, block: AddressRange, x: nat)
    requires block.Valid() && scanner.readSize > 0 && block.Size() <= scanner.readSize && !scanner.process.fails(block)
    ensures ByteRead(scanner, block, x)
  {
  }

  /**
    * Over guarded blocks, where the comparison is exact, what a query streams tells of every aligned struct
    * that can be read and whose window is scanned in some block whether it has all the values given.
    */
  lemma {:induction false} StreamTells(
    m: Masked, given: seq<Assignment>, s: PatternStruct, offset: nat,
    scanner: Scanner, blocks: seq<AddressRange>, i: nat, b: nat)
    requires |m.bytes| == |m.mask| && QueryToScanPattern(m.bytes, m.mask) == Some((s, offset)) && s.Valid()
    requires ValidJobs(s, scanner, blocks) && scanner.readSize > 0 && 1 <= s.pattern.Len() <= scanner.readSize
    requires forall k :: 0 <= k < |blocks| ==> blocks[k].Valid()
    requires AllGuarded(s, scanner, blocks) && i < |blocks| && Place(scanner, blocks[i], |m.bytes|, b)
    requires TellsExactly(m.bytes, ScannedMask(m.mask), given, b) && FirstSignificant(m.mask) % ALIGN_SIZE == 0
    requires Reached(scanner, blocks[i], WindowSize(m.mask), b + FirstSignificant(m.mask))
    ensures b in Answers(s, scanner, blocks, |blocks|, offset) <==> AllHaveValue(scanner.process.memory, b, given)
  {
    hide QueryToScanPattern, ScanPattern.Valid, ScanPattern.Len, FirstSignificant, WindowSize, ScannedMask, QueryMatches,
         AllHaveValue, Place, Reached, Known, Guard, Answers;
    var job, scanned, memory := BlockJob(s, scanner, blocks[i]), ScannedMask(m.mask), scanner.process.memory;
    QueryWindow(m.bytes, m.mask);
    assert QueryMatches(memory, m.bytes, scanned, b) <==> AllHaveValue(memory, b, given);
    AnswersAreDescribed(s, scanner, blocks, |blocks|, m.bytes, m.mask, offset, b);
    PlaceIsAligned(scanner, blocks[i], |m.bytes|, b);
    ReachedIsKnown(job, scanner, blocks[i], b, |m.bytes|, offset);
    Aligned(b, offset);
  }

  lemma PlaceIsAligned(scanner: Scanner, block: AddressRange, n: nat, b: nat)
    requires block.Valid() && scanner.readSize > 0 && Place(scanner, block, n, b)
    ensures block.start <= b && b % ALIGN_SIZE == 0
  {
  }
}
