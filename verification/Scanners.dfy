/** Scanning many blocks of memory with the buffer that each thread keeps between scans. */
module Scanners {
  import opened Bytes
  import opened BytePatterns
  import opened ScanPatterns
  import opened AddressRanges
  import opened ScanStates
  import opened NaiveScan
  import opened ChunkedScan
  import opened ScanBuffers
  import opened ScanExactness
  import opened ScanProcesses
  import Simd = Simd32Patterns

  /** A scanner reads one process, so many bytes at a time. */
  datatype Scanner = Scanner(process: Reader, readSize: nat)

  /** A thread's buffer: made by the first scan on the thread and kept for every later one, whichever scanner runs it. */
  class ThreadBuffer {
    var cell: Buffer?

    constructor ()
      ensures cell == null
    {
      cell := null;
    }

    ghost predicate Valid()
      reads this, cell, if cell != null then {cell.buf} else {}
    {
      cell != null ==> cell.Valid()
    }

    /** What a scan through this buffer reads: the process of the scanner that made it. */
    ghost function Attached(scanner: Scanner): Scanner
      reads this, cell
    {
      if cell == null then scanner else Scanner(cell.reader, cell.readSize)
    }

    /** The buffer of the thread; a new one only if there is none. */
    method Obtain(scanner: Scanner) returns (buffer: Buffer)
      requires Valid() && scanner.readSize > 0 && scanner.readSize % ALIGN_SIZE == 0
      modifies this
      ensures Valid() && cell == buffer
      ensures Scanner(buffer.reader, buffer.readSize) == old(Attached(scanner))
      ensures if old(cell) == null then
                fresh(buffer) && fresh(buffer.buf) && fresh(buffer.buf.buf) && buffer.buf.tailSize == 2
              else
                buffer == old(cell)
    {
      if cell == null {
        cell := new Buffer(scanner.process, scanner.readSize);
      }
      buffer := cell;
    }
  }

  /** A block that can be scanned without tripping one of the scanner's assertions. */
  ghost predicate Scannable(pattern: ScanPattern, block: AddressRange, scanner: Scanner)
    requires pattern.Valid() && 1 <= pattern.Len() && scanner.readSize > 0
  {
    && block.Valid() && block.start % ALIGN_SIZE == 0
    && PatternFits(pattern.Len(), Start(block, scanner.readSize), scanner.process.fails)
  }

  /**
    * Scans the blocks one after the other. Whatever patterns and ranges the thread's buffer was used
    * for before, and whatever the earlier blocks left in it, each block of at least one read has the
    * matches that a new buffer would give, each shorter block has the naive matches and perhaps some that run
    * past its end, and each guarded block exactly the naive ones, of the process that the buffer is attached to.
    */
  method ScanBlocks(local: ThreadBuffer, scanner: Scanner, blocks: seq<AddressRange>, pattern: ScanPattern)
    returns (results: seq<ChunkScanResult>)
    requires local.Valid() && scanner.readSize > 0 && scanner.readSize % ALIGN_SIZE == 0
    requires pattern.Valid() && 1 <= pattern.Len() <= local.Attached(scanner).readSize
    requires || (local.cell != null && local.cell.buf.tailSize == local.cell.readSize)
             || HeadSize(pattern.Len()) + local.Attached(scanner).readSize != 4
    requires local.cell != null ==> local.cell.readSize > 0
    requires forall i :: 0 <= i < |blocks| ==> Scannable(pattern, blocks[i], local.Attached(scanner))
    modifies local, local.cell, if local.cell != null then {local.cell.buf.buf} else {}
    ensures local.Valid() && local.Attached(scanner) == old(local.Attached(scanner))
    ensures local.cell == old(local.cell) || fresh(local.cell)
    ensures blocks != [] ==> local.cell != null
    ensures local.cell != null ==>
              fresh(local.cell.buf.buf) || (old(local.cell) != null && local.cell.buf.buf == old(local.cell.buf.buf))
    ensures |results| == |blocks|
    ensures var used := old(local.Attached(scanner));
      forall i :: 0 <= i < |blocks| ==>
        && results[i].pattern == pattern.ToBytePattern()
        && BlockScanned(JobOf(pattern, used.process, blocks[i], used.readSize), results[i].range, results[i].matches)
  {
    hide BlockScanned, ScanResult, PatternFits;
    ghost var used, room := local.Attached(scanner), pattern.Len();
    results := [];
    for i := 0 to |blocks|
      invariant local.Valid() && local.Attached(scanner) == used
      invariant local.cell == old(local.cell) || fresh(local.cell)
      invariant i > 0 ==> local.cell != null
      invariant local.cell == null ==> HeadSize(room) + used.readSize != 4
      invariant local.cell != null ==>
        fresh(local.cell.buf.buf) || (old(local.cell) != null && local.cell.buf.buf == old(local.cell.buf.buf))
      invariant local.cell != null ==>
        local.cell.buf.tailSize == local.cell.readSize || HeadSize(room) + used.readSize != 4
      invariant |results| == i
      invariant forall j :: 0 <= j < i ==>
        && results[j].pattern == pattern.ToBytePattern()
        && BlockScanned(JobOf(pattern, used.process, blocks[j], used.readSize), results[j].range, results[j].matches)
    {
      assert Scannable(pattern, blocks[i], used);
      var buffer := local.Obtain(scanner);
      ghost var job := JobOf(pattern, used.process, blocks[i], used.readSize);
      ghost var stale := buffer.StaleTail(HeadSize(room));
      var result := buffer.FullScan(pattern, blocks[i], false);
      FullScanScansBlock(job, stale, result.matches);
      results := results + [result];
    }
  }

  /** Whether the thread's buffer reads the scanner's own process. */
  predicate OwnProcess(local: ThreadBuffer, scanner: Scanner)
    reads local, local.cell
  {
    local.cell == null || local.cell.reader.process == scanner.process.process
  }

  /**
    * Scanning a guarded block with a readable window answers for the scanner's own process, whatever the
    * processes' memories hold, if and only if the thread's buffer is new or was made for that process.
    */
  lemma ScansOwnIff(local: ThreadBuffer, scanner: Scanner, readers: Readers, pattern: ScanPattern, block: AddressRange, a: nat)
    requires local.Valid() && local.Attached(scanner).readSize > 0
    requires readers(local.Attached(scanner).process.process) == local.Attached(scanner).process
    requires pattern.Valid() && 1 <= pattern.TrueLen() && 1 <= pattern.Len() <= local.Attached(scanner).readSize
    requires local.Attached(scanner).readSize % ALIGN_SIZE == 0
    requires Scannable(pattern, block, local.Attached(scanner))
    requires var job := JobOf(pattern, local.Attached(scanner).process, block, local.Attached(scanner).readSize);
      Guard(job) && Sees(job, readers, job.reader.process, a)
    ensures var job := JobOf(pattern, local.Attached(scanner).process, block, local.Attached(scanner).readSize);
      AlwaysOwn(job, readers, job.reader.process, scanner.process.process) <==> OwnProcess(local, scanner)
  {
    hide AlwaysOwn, Sees, Guard, PatternFits, PatternFitsLast;
    var job := JobOf(pattern, local.Attached(scanner).process, block, local.Attached(scanner).readSize);
    PatternFitsIff(job);
    assert job.(reader := readers(job.reader.process)) == job;
    ScansOwnProcessIff(job, readers, job.reader.process, scanner.process.process);
    assert job.p.value != [];
  }

  /** A process that holds 7 at address 0 and nothing else, or nothing at all; every read succeeds. */
  function Holder(process: nat, byte0: byte): Reader {
    Reader(process, x => if x == 0 then byte0 else 0, r => false, r => [])
  }

  function Sevens(): ScanPattern {
    SimdPat(Simd.From(Exactly([7])))
  }

  const BLOCK := AddressRange(0, 32)

  lemma SevensPattern()
    ensures Sevens().Valid() && Sevens().Len() == 32
    ensures var p := Sevens().ToBytePattern();
      p.value == [7] && forall b: byte :: p.Matches([b]) <==> b == 7
  {
    Simd.FromKeepsPattern(Exactly([7]));
    var p := Sevens().ToBytePattern();
    assert Kept(p.mask, 0);
    forall b: byte
      ensures p.Matches([b]) <==> b == 7
    {
      hide BytePattern.Matches;
      MatchesKept(p, [b]);
      assert [b][0] == b;
    }
  }

  lemma SevensFit(reader: Reader)
    requires !reader.fails(BLOCK)
    ensures Sevens().Valid() && Sevens().Len() == 32
    ensures var job := JobOf(Sevens(), reader, BLOCK, 32);
      job.Valid() && Guard(job) && Scannable(Sevens(), BLOCK, Scanner(reader, 32))
    ensures var job := JobOf(Sevens(), reader, BLOCK, 32);
      ScanMatch(0, [7]) in job.Naive() <==> reader.memory(0) == 7
  {
    SevensPattern();
    hide Sevens, ScanPattern.Valid, ScanPattern.ToBytePattern, ScanPattern.Len, BytePattern.Matches, Hits;
    var job := JobOf(Sevens(), reader, BLOCK, 32);
    PatternFitsIff(job);
    SevensFound(job);
  }

  lemma SevensFound(job: Job)
    requires job.Valid() && job.room == job.readSize == 32 && job.range == BLOCK && !job.reader.fails(BLOCK)
    requires job.p.value == [7] && forall b: byte :: job.p.Matches([b]) <==> b == 7
    ensures ScanMatch(0, [7]) in job.Naive() <==> job.reader.memory(0) == 7
  {
    hide Hits, BytePattern.Matches;
    HitsExact(job.p, job.room, job.Snapshot(), 0, 1, ScanMatch(0, [7]));
    assert forall x: nat :: x < 32 ==> job.Known(x);
    assert BytesAt(job.Snapshot(), 0, 1) == [job.reader.memory(0)];
  }

  /** Two processes, scanned one after the other on one thread: the second scan reports the first process's match. */
  method ScanTwoProcesses() returns (second: seq<ChunkScanResult>)
    ensures |second| == 1 && ScanMatch(0, [7]) in second[0].matches
    ensures JobOf(Sevens(), Holder(1, 0), BLOCK, 32).Valid()
    ensures ScanMatch(0, [7]) !in JobOf(Sevens(), Holder(1, 0), BLOCK, 32).Naive()
  {
    var local := new ThreadBuffer();
    SevensFit(Holder(0, 7));
    SevensFit(Holder(1, 0));
    hide Guard, Job.Naive, Scannable;
    var first := ScanBlocks(local, Scanner(Holder(0, 7), 32), [BLOCK], Sevens());
    second := ScanBlocks(local, Scanner(Holder(1, 0), 32), [BLOCK], Sevens());
    assert BlockScanned(JobOf(Sevens(), Holder(0, 7), BLOCK, 32), second[0].range, second[0].matches);
  }
}
