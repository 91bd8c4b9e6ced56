/** The scan buffer: reads a range into a Boros one chunk at a time and scans each chunk. */
module ScanBuffers {
  import opened Wrappers
  import opened Bytes
  import opened BytePatterns
  import opened ScanPatterns
  import opened AddressRanges
  import opened ScanStates
  import opened NaiveScan
  import opened ChunkedScan
  import opened BorosBuffers

  datatype ChunkScanResult = ChunkScanResult(pattern: BytePattern, range: AddressRange, matches: seq<ScanMatch>)

  function JobOf(pattern: ScanPattern, reader: Reader, range: AddressRange, readSize: nat): Job
    requires pattern.Valid()
  {
    Job(pattern.ToBytePattern(), pattern.Len(), reader, range, readSize)
  }

  lemma JobIsValid(pattern: ScanPattern, reader: Reader, range: AddressRange, readSize: nat)
    requires pattern.Valid() && 1 <= pattern.Len() && range.Valid() && range.start % ALIGN_SIZE == 0
    requires readSize > 0 && readSize % ALIGN_SIZE == 0 && HeadSize(pattern.Len()) <= readSize
    ensures JobOf(pattern, reader, range, readSize).Valid()
  {
  }

  /** How many bytes a chunk's scan looks at. */
  function SliceSize(state: ScanState, head: nat): nat
    requires state.Valid()
  {
    match state.status
    case Begin => state.readSize
    case Middle(skippedLast) => if skippedLast then state.readSize else head + state.readSize
    case Last(skippedLast) => if skippedLast then state.bufRange.Size() else head + state.bufRange.Size()
    case End => 0
  }

  /** No chunk that is read successfully is too small for the pattern. */
  ghost predicate PatternFits(room: nat, state: ScanState, fails: AddressRange -> bool)
    requires state.Valid() && room >= 1
  {
    forall s :: s in Run(state, fails) && s.Valid() && !fails(s.bufRange) ==> room <= SliceSize(s, HeadSize(room))
  }

  /** What a scan returns: everything, or for a lazy scan what is decided by the first chunk with matches. */
  ghost function Returned(job: Job, stale: seq<byte>, lazy: bool): seq<ScanMatch>
    requires job.Valid() && |stale| == job.readSize
  {
    if lazy then LazyResult(job, stale) else ScanResult(job, stale)
  }

  /** The last chunk decides the rest, lazily or not. */
  lemma {:induction false} LastReturns(
    job: Job, state: ScanState, head: seq<byte>, found: seq<ScanMatch>, stale: seq<byte>)
    requires job.Valid() && |stale| == job.readSize && Progress(job, state, head, found)
    requires NextChunk(state, job.reader.fails(state.bufRange)).status == End
    ensures LazyFrom(job, state.bufRange.start, stale) == ScanResult(job, stale)
  {
  }

  /** Whether a lazy scan goes on after a chunk depends on what has been found. */
  lemma {:induction false} LazyStep(
    job: Job, before: ScanState, state: ScanState, head: seq<byte>, found: seq<ScanMatch>, stale: seq<byte>)
    requires job.Valid() && |stale| == job.readSize
    requires before.Valid() && before.status != End && before.readSize == job.readSize
    requires job.range.start <= before.bufRange.start
    requires state == NextChunk(before, job.reader.fails(before.bufRange))
    requires before.bufRange == AddressRange(before.bufRange.start, Min(job.range.end, before.bufRange.start + job.readSize))
    requires Progress(job, state, head, found)
    ensures job.range.start <= state.bufRange.start
    ensures LazyFrom(job, before.bufRange.start, stale)
         == if found != [] then found else LazyFrom(job, state.bufRange.start, stale)
  {
    hide Hits, ScanResult;
  }

  /** What the loop invariant says about the next read. */
  lemma ReadyToRead(job: Job, state: ScanState, head: seq<byte>, found: seq<ScanMatch>)
    requires job.Valid() && Progress(job, state, head, found)
    requires PatternFits(job.room, state, job.reader.fails)
    ensures state.Valid() && state.status != End && state.readSize == job.readSize
    ensures state.bufRange.Size() <= job.readSize
    ensures state.bufRange == AddressRange(state.bufRange.start, Min(job.range.end, state.bufRange.start + job.readSize))
    ensures state.status.Last? || state.status == Middle(false) ==> |head| <= state.bufRange.start
    ensures !job.reader.fails(state.bufRange) ==> job.room <= SliceSize(state, |head|)
    ensures PatternFits(job.room, NextChunk(state, job.reader.fails(state.bufRange)), job.reader.fails)
  {
  }

  lemma NextRemembersSkip(state: ScanState, skipped: bool)
    requires state.Valid() && state.status != End
    ensures var next := NextChunk(state, skipped).status;
      next == End || ((next.Middle? || next.Last?) && next.skipped == skipped)
  {
  }

  lemma StartProgress(job: Job, head: seq<byte>)
    requires job.Valid() && |head| == HeadSize(job.room)
    ensures Progress(job, Start(job.range, job.readSize), head, [])
  {
  }

  class Buffer {
    var buf: Boros
    var reader: Reader
    const readSize: nat

    ghost predicate Valid()
      reads this, buf
    {
      && buf.Valid()
      && readSize % ALIGN_SIZE == 0
      && (buf.tailSize == readSize || (buf.headSize == 2 && buf.tailSize == 2))
    }

    constructor (reader: Reader, readSize: nat)
      requires readSize % ALIGN_SIZE == 0
      ensures Valid() && fresh(buf) && fresh(buf.buf)
      ensures this.reader == reader && this.readSize == readSize
      ensures buf.headSize == 2 && buf.tailSize == 2
    {
      this.buf := new Boros(2, 2);
      this.reader := reader;
      this.readSize := readSize;
    }

    /** Reads a chunk into the tail; `None` if the read fails. */
    method LoadChunk(state: ScanState) returns (loaded: Option<nat>)
      requires Valid() && state.Valid() && state.bufRange.Size() <= buf.tailSize
      modifies buf.buf
      ensures buf.Head() == old(buf.Head())
      ensures |buf.Tail()| == buf.tailSize
      ensures loaded == if reader.fails(state.bufRange) then None else Some(state.bufRange.Size())
      ensures loaded.Some? ==>
                buf.Tail() == reader.Read(state.bufRange.start, state.bufRange.Size())
                              + old(buf.Tail())[state.bufRange.Size()..]
    {
      var n := state.bufRange.Size();
      buf.WriteTail(reader.Fill(state.bufRange, buf.Tail()[..n]));
      loaded := if reader.fails(state.bufRange) then None else Some(n);
    }

    method ScanChunk(state: ScanState, pattern: ScanPattern) returns (matches: seq<ScanMatch>)
      requires Valid() && state.Valid() && state.status != End
      requires state.status.Last? || state.status == Middle(false) ==> buf.headSize <= state.bufRange.start
      requires state.bufRange.Size() <= buf.tailSize
      requires pattern.Valid() && 1 <= pattern.Len() <= |Slice(state, buf.Head(), buf.Tail()).1|
      ensures var (baseAddr, slice) := Slice(state, buf.Head(), buf.Tail());
        matches == BufferHits(pattern.ToBytePattern(), pattern.Len(), baseAddr, slice, 0)
    {
      hide BufferHits, HeadSize;
      var baseAddr: nat, slice;
      match state.status {
        case Begin =>
          baseAddr, slice := state.bufRange.start, buf.Tail();
        case Middle(skippedLast) =>
          if skippedLast {
            baseAddr, slice := state.bufRange.start, buf.Tail();
          } else {
            baseAddr, slice := state.bufRange.start - buf.headSize, buf.Full();
          }
        case Last(skippedLast) =>
          if skippedLast {
            baseAddr, slice := state.bufRange.start - buf.headSize, buf.Tail()[..state.bufRange.Size()];
          } else {
            baseAddr, slice :=
              state.bufRange.start - buf.headSize, buf.Full()[..buf.headSize + state.bufRange.Size()];
          }
      }
      assert (baseAddr, slice) == Slice(state, buf.Head(), buf.Tail());
      matches := ScanBuffer(pattern, baseAddr, slice);
    }

    method ReadChunk(state: ScanState, pattern: ScanPattern) returns (skipped: bool, matches: seq<ScanMatch>)
      requires Valid() && state.Valid() && state.status != End && state.readSize == buf.tailSize
      requires state.status.Last? || state.status == Middle(false) ==> buf.headSize <= state.bufRange.start
      requires state.bufRange.Size() <= buf.tailSize
      requires pattern.Valid() && 1 <= pattern.Len()
      requires !reader.fails(state.bufRange) ==> pattern.Len() <= SliceSize(state, buf.headSize)
      modifies buf.buf
      ensures buf.Head() == old(buf.Head())
      ensures skipped == reader.fails(state.bufRange)
      ensures skipped ==> matches == []
      ensures !skipped ==>
                && buf.Tail() == reader.Read(state.bufRange.start, state.bufRange.Size())
                                 + old(buf.Tail())[state.bufRange.Size()..]
                && var (baseAddr, slice) := Slice(state, buf.Head(), buf.Tail());
                   matches == BufferHits(pattern.ToBytePattern(), pattern.Len(), baseAddr, slice, 0)
    {
      var loaded := LoadChunk(state);
      match loaded {
        case Some(_) =>
          matches := ScanChunk(state, pattern);
          skipped := false;
        case None =>
          skipped, matches := true, [];
      }
    }

    /** What the tail holds when a scan with the given head size starts. */
    ghost function StaleTail(headSize: nat): (stale: seq<byte>)
      requires Valid() && (buf.tailSize == readSize || headSize + readSize != 4)
      reads this, buf, buf.buf
      ensures |stale| == readSize
    {
      if buf.Size() == headSize + readSize then buf.Tail() else Zeros(readSize)
    }

    /**
      * Makes the buffer's head fit the pattern, keeping the old buffer if its total size is right. That
      * gives the right head and tail unless the buffer is the initial one and just as long.
      */
    method FitHead(headSize: nat)
      requires Valid() && headSize <= readSize
      modifies this
      ensures Valid() && reader == old(reader)
      ensures fresh(buf) || buf == old(buf)
      ensures fresh(buf.buf) || buf.buf == old(buf.buf)
      ensures buf.headSize == headSize && buf.tailSize == readSize <==>
                old(buf.tailSize == readSize || headSize + readSize != 4)
      ensures old(buf.tailSize == readSize || headSize + readSize != 4) ==> buf.Tail() == old(StaleTail(headSize))
    {
      if buf.Size() != headSize + readSize {
        buf := new Boros(headSize, readSize);
      }
    }

    /** Scans a whole range; a lazy scan stops at the first chunk with matches. */
    method FullScan(pattern: ScanPattern, scanRange: AddressRange, lazy: bool) returns (result: ChunkScanResult)
      requires Valid() && readSize > 0 && pattern.Valid() && 1 <= pattern.Len()
      requires scanRange.Valid() && scanRange.start % ALIGN_SIZE == 0
      requires HeadSize(pattern.Len()) <= readSize
      requires buf.tailSize == readSize || HeadSize(pattern.Len()) + readSize != 4
      requires PatternFits(pattern.Len(), Start(scanRange, readSize), reader.fails)
      modifies this, buf.buf
      ensures Valid() && reader == old(reader) && buf.tailSize == readSize
      ensures fresh(buf) || buf == old(buf)
      ensures fresh(buf.buf) || buf.buf == old(buf.buf)
      ensures result.pattern == pattern.ToBytePattern() && result.range == scanRange
      ensures result.matches
           == Returned(JobOf(pattern, reader, scanRange, readSize), old(StaleTail(HeadSize(pattern.Len()))), lazy)
    {
      var (paddedPatternSize, _) := AlignedPatternSize(pattern.Len());
      var headSize := paddedPatternSize - ALIGN_SIZE;
      FitHead(headSize);
      var matches := ScanChunks(pattern, scanRange, lazy);
      result := ChunkScanResult(BytePattern(pattern.Value(), pattern.Mask()), scanRange, matches);
    }

    /** Moves the tail's end to the head, unless the last read was skipped. */
    method KeepTailEnd(state: ScanState)
      requires Valid() && buf.tailSize == readSize
      modifies buf.buf
      ensures buf.Tail() == old(buf.Tail())
      ensures buf.Head() ==
                if state.status == End || (!state.status.Begin? && state.status.skipped) then
                  old(buf.Head())
                else
                  old(buf.Tail())[readSize - buf.headSize..]
    {
      match state.status {
        case Begin =>
          buf.SwallowTail();
        case Middle(skippedLast) =>
          if !skippedLast {
            buf.SwallowTail();
          }
        case Last(skippedLast) =>
          if !skippedLast {
            buf.SwallowTail();
          }
        case End =>
      }
    }

    /** The scan loop: read a chunk, collect its matches, move on. */
    method ScanChunks(pattern: ScanPattern, scanRange: AddressRange, lazy: bool) returns (results: seq<ScanMatch>)
      requires Valid() && readSize > 0 && pattern.Valid() && 1 <= pattern.Len()
      requires scanRange.Valid() && scanRange.start % ALIGN_SIZE == 0
      requires buf.headSize == HeadSize(pattern.Len()) && buf.tailSize == readSize
      requires PatternFits(pattern.Len(), Start(scanRange, readSize), reader.fails)
      modifies buf.buf
      ensures results == Returned(JobOf(pattern, reader, scanRange, readSize), old(buf.Tail()), lazy)
    {
      hide Hits, BufferHits, Progress, PatternFits, ScanResult, LazyFrom, NextChunk, Slice, Job.Valid, ScanPattern.Valid,
           ScanPattern.Len, ScanPattern.ToBytePattern, BytePattern.Valid, HeadSize, Boros.Head, Boros.Tail;
      ghost var job, stale := JobOf(pattern, reader, scanRange, readSize), buf.Tail();
      JobIsValid(pattern, reader, scanRange, readSize);
      results := [];
      var state := Start(scanRange, readSize);
      StartProgress(job, buf.Head());
      while true
        invariant state.Valid() && Progress(job, state, buf.Head(), results)
        invariant state.status.Begin? ==> buf.Tail() == stale
        invariant PatternFits(pattern.Len(), state, reader.fails)
        invariant job.range.start <= state.bufRange.start
        invariant lazy ==> results == [] && LazyResult(job, stale) == LazyFrom(job, state.bufRange.start, stale)
        decreases state.ReadsLeft()
      {
        ghost var head, found, before, tailBefore := buf.Head(), results, state, buf.Tail();
        ReadyToRead(job, state, head, found);
        var skipped, chunkResults := ReadChunk(state, pattern);
        results := results + chunkResults;
        ghost var tail := buf.Tail();
        assert ChunkScanned(job, before, head, tailBefore, tail, chunkResults);
        state := NextChunk(state, skipped);
        if state.status == End {
          ScanEnds(job, before, head, found, tailBefore, tail, chunkResults, stale);
          LastReturns(job, before, head, found, stale);
          break;
        }
        NextRemembersSkip(before, skipped);
        KeepTailEnd(state);
        ScanGoesOn(job, before, head, found, tailBefore, tail, chunkResults, buf.Head());
        LazyStep(job, before, state, buf.Head(), results, stale);
        if lazy && |results| > 0 {
          break;
        }
      }
    }

    /** The first match of a lazy scan. */
    method FindOne(pattern: ScanPattern, scanRange: AddressRange) returns (first: Option<ScanMatch>)
      requires Valid() && readSize > 0 && pattern.Valid() && 1 <= pattern.Len()
      requires scanRange.Valid() && scanRange.start % ALIGN_SIZE == 0
      requires HeadSize(pattern.Len()) <= readSize
      requires buf.tailSize == readSize || HeadSize(pattern.Len()) + readSize != 4
      requires PatternFits(pattern.Len(), Start(scanRange, readSize), reader.fails)
      modifies this, buf.buf
      ensures Valid() && reader == old(reader)
      ensures fresh(buf) || buf == old(buf)
      ensures fresh(buf.buf) || buf.buf == old(buf.buf)
      ensures var whole := ScanResult(JobOf(pattern, reader, scanRange, readSize), old(StaleTail(HeadSize(pattern.Len()))));
        first == if whole == [] then None else Some(whole[0])
    {
      ghost var job := JobOf(pattern, reader, scanRange, readSize);
      LazyIsPrefix(job, job.range.start, StaleTail(HeadSize(pattern.Len())));
      var result := FullScan(pattern, scanRange, true);
      first := if |result.matches| > 0 then Some(result.matches[0]) else None;
    }
  }
}
