/** Running a query over a process's blocks of memory. */
module QueryStreams {
  import opened Wrappers
  import opened Bytes
  import opened ScanPatterns
  import opened AddressRanges
  import opened ChunkedScan
  import opened ScanBuffers
  import opened ScanExactness
  import opened PatternStructs
  import opened Queries
  import opened Scanners

  function BlockJob(s: PatternStruct, scanner: Scanner, block: AddressRange): Job
    requires s.Valid()
  {
    JobOf(s.pattern, scanner.process, block, scanner.readSize)
  }

  /** What scanning the blocks for a pattern asks of the thread's buffer and of the blocks. */
  ghost predicate CanScan(local: ThreadBuffer, scanner: Scanner, blocks: seq<AddressRange>, pattern: ScanPattern)
    reads local, local.cell, if local.cell != null then {local.cell.buf} else {}
  {
    var used := local.Attached(scanner);
    && local.Valid() && scanner.readSize > 0 && scanner.readSize % ALIGN_SIZE == 0 && used.readSize > 0
    && pattern.Valid() && 1 <= pattern.Len() <= used.readSize
    && ((local.cell != null && local.cell.buf.tailSize == local.cell.readSize) || HeadSize(pattern.Len()) + used.readSize != 4)
    && forall i :: 0 <= i < |blocks| ==> Scannable(pattern, blocks[i], used)
  }

  ghost predicate AllGuarded(s: PatternStruct, scanner: Scanner, blocks: seq<AddressRange>)
    requires s.Valid() && scanner.readSize > 0 && 1 <= s.pattern.Len() <= scanner.readSize
    requires forall i :: 0 <= i < |blocks| ==> blocks[i].Valid()
  {
    forall i :: 0 <= i < |blocks| ==> Guard(BlockJob(s, scanner, blocks[i]))
  }

  ghost predicate ValidJobs(s: PatternStruct, scanner: Scanner, blocks: seq<AddressRange>)
    requires s.Valid()
  {
    forall i :: 0 <= i < |blocks| ==> BlockJob(s, scanner, blocks[i]).Valid()
  }

  /** The answers of the first `n` blocks one after the other: each block's naive matches moved back by the offset. */
  ghost function Answers(s: PatternStruct, scanner: Scanner, blocks: seq<AddressRange>, n: nat, offset: nat): seq<int>
    requires s.Valid() && n <= |blocks| && ValidJobs(s, scanner, blocks)
  {
    if n == 0 then
      []
    else
      Answers(s, scanner, blocks, n - 1, offset) + StructAddresses(BlockJob(s, scanner, blocks[n - 1]).Naive(), offset)
  }

  /** A struct that the query describes, in one of the first `n` blocks. */
  ghost predicate Described(
    s: PatternStruct, scanner: Scanner, blocks: seq<AddressRange>, n: nat,
    bytes: seq<byte>, mask: seq<byte>, offset: nat, b: int)
    requires s.Valid() && |bytes| == |mask| && n <= |blocks| && ValidJobs(s, scanner, blocks)
  {
    exists i :: 0 <= i < n && QueryHit(BlockJob(s, scanner, blocks[i]), bytes, mask, offset, b)
  }

  /** The answers are exactly the structs described in any of the blocks. */
  lemma {:induction false} AnswersAreDescribed(
    s: PatternStruct, scanner: Scanner, blocks: seq<AddressRange>, n: nat,
    bytes: seq<byte>, mask: seq<byte>, offset: nat, b: int)
    requires s.Valid() && |bytes| == |mask| && n <= |blocks| && ValidJobs(s, scanner, blocks)
    requires QueryToScanPattern(bytes, mask) == Some((s, offset))
    ensures b in Answers(s, scanner, blocks, n, offset)
        <==> Described(s, scanner, blocks, n, bytes, ScannedMask(mask), offset, b)
  {
    hide QueryHit, QueryToScanPattern, ScannedMask, Job.Naive, Job.Valid, StructAddresses, ScanPattern.Valid;
    if n > 0 {
      AnswersAreDescribed(s, scanner, blocks, n - 1, bytes, mask, offset, b);
      NaiveFindsStructs(BlockJob(s, scanner, blocks[n - 1]), bytes, mask, s, offset, b);
    }
  }

  /** The blocks' matches one after the other, moved back by the offset. */
  function MovedBack(parts: seq<seq<ScanMatch>>, offset: nat): seq<int> {
    if parts == [] then [] else MovedBack(parts[..|parts| - 1], offset) + StructAddresses(parts[|parts| - 1], offset)
  }

  ghost predicate PartsScanned(s: PatternStruct, scanner: Scanner, blocks: seq<AddressRange>, parts: seq<seq<ScanMatch>>)
    requires s.Valid()
  {
    |parts| == |blocks| && forall i :: 0 <= i < |parts| ==> BlockScanned(BlockJob(s, scanner, blocks[i]), blocks[i], parts[i])
  }

  /** What is streamed, whether the blocks are guarded or not: what scanning each block yields, in order. */
  ghost predicate Streamed(s: PatternStruct, scanner: Scanner, blocks: seq<AddressRange>, offset: nat, addrs: seq<int>)
    requires s.Valid()
  {
    exists parts :: PartsScanned(s, scanner, blocks, parts) && addrs == MovedBack(parts, offset)
  }

  lemma {:induction false} MovedBackHas(parts: seq<seq<ScanMatch>>, offset: nat, b: int)
    ensures b in MovedBack(parts, offset) <==> exists i :: 0 <= i < |parts| && b in StructAddresses(parts[i], offset)
  {
    if parts != [] {
      MovedBackHas(parts[..|parts| - 1], offset, b);
    }
  }

  /** If all blocks are guarded, these are their answers. */
  lemma {:induction false} GuardedAnswers(
    s: PatternStruct, scanner: Scanner, blocks: seq<AddressRange>, parts: seq<seq<ScanMatch>>, n: nat, offset: nat)
    requires s.Valid() && ValidJobs(s, scanner, blocks) && PartsScanned(s, scanner, blocks, parts) && n <= |blocks|
    requires scanner.readSize > 0 && 1 <= s.pattern.Len() <= scanner.readSize
    requires forall i :: 0 <= i < |blocks| ==> blocks[i].Valid()
    requires AllGuarded(s, scanner, blocks)
    ensures MovedBack(parts[..n], offset) == Answers(s, scanner, blocks, n, offset)
  {
    hide ScanResult, ShortScanned, Guard, ScanPattern.Valid, ScanPattern.Len, Job.Valid, Job.Naive, StructAddresses;
    if n > 0 {
      GuardedAnswers(s, scanner, blocks, parts, n - 1, offset);
      assert parts[..n][..n - 1] == parts[..n - 1];
      assert BlockScanned(BlockJob(s, scanner, blocks[n - 1]), blocks[n - 1], parts[n - 1]);
    }
  }

  /** A block whose answer has all structs described in it: it is guarded, or takes at most one read that succeeds. */
  ghost predicate Complete(s: PatternStruct, scanner: Scanner, block: AddressRange)
    requires s.Valid() && BlockJob(s, scanner, block).Valid() && 1 <= s.pattern.Len() <= scanner.readSize
  {
    Guard(BlockJob(s, scanner, block)) || (block.Size() <= scanner.readSize && !scanner.process.fails(block))
  }

  /** An address that a block's scan reports for a struct that is not described in it. */
  ghost predicate Spurious(s: PatternStruct, scanner: Scanner, block: AddressRange, offset: nat, b: int)
    requires s.Valid() && BlockJob(s, scanner, block).Valid() && 1 <= s.pattern.Len() <= scanner.readSize
  {
    && !Guard(BlockJob(s, scanner, block))
    && (block.Size() <= scanner.readSize ==> !scanner.process.fails(block) && b + offset + s.pattern.Len() > block.end)
  }

  /** A struct that is described in a complete block. */
  ghost predicate Owed(
    s: PatternStruct, scanner: Scanner, blocks: seq<AddressRange>, bytes: seq<byte>, mask: seq<byte>, offset: nat, b: int)
    requires s.Valid() && |bytes| == |mask| && ValidJobs(s, scanner, blocks) && 1 <= s.pattern.Len() <= scanner.readSize
  {
    exists i :: 0 <= i < |blocks|
      && Complete(s, scanner, blocks[i]) && QueryHit(BlockJob(s, scanner, blocks[i]), bytes, mask, offset, b)
  }

  /** An address that is described in a block, or reported by one that is not guarded. */
  ghost predicate Explained(
    s: PatternStruct, scanner: Scanner, blocks: seq<AddressRange>, bytes: seq<byte>, mask: seq<byte>, offset: nat, b: int)
    requires s.Valid() && |bytes| == |mask| && ValidJobs(s, scanner, blocks) && 1 <= s.pattern.Len() <= scanner.readSize
  {
    || (exists i :: 0 <= i < |blocks| && QueryHit(BlockJob(s, scanner, blocks[i]), bytes, mask, offset, b))
    || (exists i :: 0 <= i < |blocks| && Spurious(s, scanner, blocks[i], offset, b))
  }

  /** One block. */
  lemma BlockPart(
    s: PatternStruct, scanner: Scanner, block: AddressRange, part: seq<ScanMatch>,
    bytes: seq<byte>, mask: seq<byte>, offset: nat, b: int)
    requires s.Valid() && |bytes| == |mask| && QueryToScanPattern(bytes, mask) == Some((s, offset))
    requires 1 <= s.pattern.Len() <= scanner.readSize
    requires BlockScanned(BlockJob(s, scanner, block), block, part)
    ensures BlockJob(s, scanner, block).Valid()
    ensures Complete(s, scanner, block) && QueryHit(BlockJob(s, scanner, block), bytes, ScannedMask(mask), offset, b) ==>
      b in StructAddresses(part, offset)
    ensures b in StructAddresses(part, offset) ==>
      || QueryHit(BlockJob(s, scanner, block), bytes, ScannedMask(mask), offset, b)
      || Spurious(s, scanner, block, offset, b)
  {
    hide QueryHit, QueryToScanPattern, ScannedMask, Job.Naive, Job.Valid, ScanPattern.Valid, ScanPattern.Len, Guard, ScanResult;
    var job := BlockJob(s, scanner, block);
    NaiveFindsStructs(job, bytes, mask, s, offset, b);
    if block.Size() <= scanner.readSize && !scanner.process.fails(block) {
      PrefixAddresses(job.Naive(), part, offset, b);
    }
  }

  /** Addresses of a prefix come first; another one is of a match behind it. */
  lemma PrefixAddresses(front: seq<ScanMatch>, all: seq<ScanMatch>, offset: nat, b: int)
    requires front <= all
    ensures b in StructAddresses(front, offset) ==> b in StructAddresses(all, offset)
    ensures b in StructAddresses(all, offset) && b !in StructAddresses(front, offset) ==>
      exists m :: m in all[|front|..] && m.addr - offset == b
  {
    var rest := all[|front|..];
    assert StructAddresses(all, offset) == StructAddresses(front, offset) + StructAddresses(rest, offset);
    if b in StructAddresses(rest, offset) {
      var i :| 0 <= i < |rest| && rest[i].addr - offset == b;
      assert rest[i] in rest;
    }
  }

  /**
    * What is streamed holds every struct described in a complete block, guarded or not; anything else in it is
    * from a block that is not guarded, and if that takes at most one read, from a window past the block's end.
    */
  lemma StreamedHas(
    s: PatternStruct, scanner: Scanner, blocks: seq<AddressRange>, addrs: seq<int>,
    bytes: seq<byte>, mask: seq<byte>, offset: nat, b: int)
    requires s.Valid() && |bytes| == |mask| && QueryToScanPattern(bytes, mask) == Some((s, offset))
    requires 1 <= s.pattern.Len() <= scanner.readSize && ValidJobs(s, scanner, blocks)
    requires Streamed(s, scanner, blocks, offset, addrs)
    ensures Owed(s, scanner, blocks, bytes, ScannedMask(mask), offset, b) ==> b in addrs
    ensures b in addrs ==> Explained(s, scanner, blocks, bytes, ScannedMask(mask), offset, b)
  {
    hide QueryHit, QueryToScanPattern, ScannedMask, Job.Valid, ScanPattern.Valid, ScanPattern.Len, BlockScanned, Complete,
         Spurious, StructAddresses, MovedBack;
    var parts :| PartsScanned(s, scanner, blocks, parts) && addrs == MovedBack(parts, offset);
    MovedBackHas(parts, offset, b);
    forall i | 0 <= i < |blocks|
      ensures Complete(s, scanner, blocks[i]) && QueryHit(BlockJob(s, scanner, blocks[i]), bytes, ScannedMask(mask), offset, b)
        ==> b in StructAddresses(parts[i], offset)
      ensures b in StructAddresses(parts[i], offset) ==>
        || QueryHit(BlockJob(s, scanner, blocks[i]), bytes, ScannedMask(mask), offset, b)
        || Spurious(s, scanner, blocks[i], offset, b)
    {
      BlockPart(s, scanner, blocks[i], parts[i], bytes, mask, offset, b);
    }
  }

  lemma PartsAreScanned(
    s: PatternStruct, scanner: Scanner, blocks: seq<AddressRange>, results: seq<ChunkScanResult>, parts: seq<seq<ScanMatch>>)
    requires s.Valid() && |results| == |blocks| == |parts|
    requires forall i :: 0 <= i < |blocks| ==>
      parts[i] == results[i].matches && BlockScanned(BlockJob(s, scanner, blocks[i]), results[i].range, results[i].matches)
    ensures PartsScanned(s, scanner, blocks, parts) && ValidJobs(s, scanner, blocks)
  {
    hide ScanResult, ShortScanned, Job.Naive, Job.Valid, Guard;
  }

  lemma {:induction false} StreamedIs(
    s: PatternStruct, scanner: Scanner, blocks: seq<AddressRange>, parts: seq<seq<ScanMatch>>,
    bytes: seq<byte>, mask: seq<byte>, offset: nat, addrs: seq<int>)
    requires s.Valid() && |bytes| == |mask| && QueryToScanPattern(bytes, mask) == Some((s, offset))
    requires scanner.readSize > 0 && 1 <= s.pattern.Len() <= scanner.readSize && ValidJobs(s, scanner, blocks)
    requires forall i :: 0 <= i < |blocks| ==> blocks[i].Valid()
    requires PartsScanned(s, scanner, blocks, parts) && addrs == MovedBack(parts, offset)
    ensures Streamed(s, scanner, blocks, offset, addrs)
    ensures forall b :: Owed(s, scanner, blocks, bytes, ScannedMask(mask), offset, b) ==> b in addrs
    ensures forall b :: b in addrs ==> Explained(s, scanner, blocks, bytes, ScannedMask(mask), offset, b)
    ensures AllGuarded(s, scanner, blocks) ==>
      && addrs == Answers(s, scanner, blocks, |blocks|, offset)
      && forall b :: b in addrs <==> Described(s, scanner, blocks, |blocks|, bytes, ScannedMask(mask), offset, b)
  {
    hide QueryHit, QueryToScanPattern, ScannedMask, Job.Valid, ScanPattern.Valid, ScanPattern.Len, PartsScanned, Owed, Explained,
         MovedBack, Answers, Described;
    forall b: int
      ensures Owed(s, scanner, blocks, bytes, ScannedMask(mask), offset, b) ==> b in addrs
      ensures b in addrs ==> Explained(s, scanner, blocks, bytes, ScannedMask(mask), offset, b)
    {
      StreamedHas(s, scanner, blocks, addrs, bytes, mask, offset, b);
    }
    if AllGuarded(s, scanner, blocks) {
      GuardedAnswers(s, scanner, blocks, parts, |blocks|, offset);
      assert |parts| == |blocks| && parts[..|blocks|] == parts by { PartsSize(s, scanner, blocks, parts); }
      forall b: int
        ensures b in addrs <==> Described(s, scanner, blocks, |blocks|, bytes, ScannedMask(mask), offset, b)
      {
        AnswersAreDescribed(s, scanner, blocks, |blocks|, bytes, mask, offset, b);
      }
    }
  }

  lemma PartsSize(s: PatternStruct, scanner: Scanner, blocks: seq<AddressRange>, parts: seq<seq<ScanMatch>>)
    requires s.Valid() && PartsScanned(s, scanner, blocks, parts)
    ensures |parts| == |blocks|
  {
  }

  /**
    * Compiles a query, scans the blocks for it, and subtracts the pattern's offset from every match. Whether
    * the blocks are guarded or not, this is what scanning each block yields, in the order of the blocks; if all are
    * guarded, these are the structs that are scanned for in any block.
    */
  method StreamQuery(
    local: ThreadBuffer, scanner: Scanner, blocks: seq<AddressRange>, bytes: seq<byte>, mask: seq<byte>)
    returns (addrs: Option<seq<int>>)
    requires |bytes| == |mask|
    requires QueryToScanPattern(bytes, mask).Some? ==>
               CanScan(local, scanner, blocks, QueryToScanPattern(bytes, mask).value.0.pattern)
    modifies local, local.cell, if local.cell != null then {local.cell.buf.buf} else {}
    ensures addrs.None? <==> 0xFF !in mask
    ensures addrs.Some? ==>
              && QueryToScanPattern(bytes, mask).Some?
              && var (s, offset) := QueryToScanPattern(bytes, mask).value;
                 var used := old(local.Attached(scanner));
                 && s.Valid() && 1 <= s.pattern.Len() <= used.readSize && ValidJobs(s, used, blocks)
                 && (forall i :: 0 <= i < |blocks| ==> blocks[i].Valid())
                 && Streamed(s, used, blocks, offset, addrs.value)
                 && (forall b :: Owed(s, used, blocks, bytes, ScannedMask(mask), offset, b) ==> b in addrs.value)
                 && (forall b :: b in addrs.value ==> Explained(s, used, blocks, bytes, ScannedMask(mask), offset, b))
                 && (AllGuarded(s, used, blocks) ==>
                       && addrs.value == Answers(s, used, blocks, |blocks|, offset)
                       && forall b :: b in addrs.value <==>
                            Described(s, used, blocks, |blocks|, bytes, ScannedMask(mask), offset, b))
  {
    hide BlockScanned, Guard, QueryHit, PatternFits, QueryToScanPattern, Job.Valid, Job.Naive, ScannedMask, Owed, Explained,
         StructAddresses, Answers, Described;
    PatternIffSignificant(bytes, mask);
    match QueryToScanPattern(bytes, mask) {
      case None =>
        addrs := None;
      case Some((s, offset)) =>
        ghost var used := local.Attached(scanner);
        var results := ScanBlocks(local, scanner, blocks, s.pattern);
        ghost var parts := seq(|results|, i requires 0 <= i < |results| => results[i].matches);
        PartsAreScanned(s, used, blocks, results, parts);
        var all: seq<int> := [];
        for i := 0 to |results|
          invariant all == MovedBack(parts[..i], offset)
        {
          assert parts[..i + 1][..i] == parts[..i];
          all := all + StructAddresses(results[i].matches, offset);
        }
        assert parts[..|parts|] == parts;
        StreamedIs(s, used, blocks, parts, bytes, mask, offset, all);
        addrs := Some(all);
    }
  }
}
