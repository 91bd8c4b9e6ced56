/** When the chunked scan equals the naive one, and how it differs when it does not. */
module ScanExactness {
  import opened Wrappers
  import opened Bytes
  import opened BytePatterns
  import opened ScanPatterns
  import opened AddressRanges
  import opened ScanStates
  import opened NaiveScan
  import opened ChunkedScan
  import opened ScanBuffers

  /** Where the last window of a buffer of `size` bytes ends. */
  function LastWindowEnd(room: nat, size: nat): nat
    requires room <= size
  {
    (size - room) / ALIGN_SIZE * ALIGN_SIZE + room
  }

  lemma LastWindow(room: nat, size: nat)
    requires room <= size
    ensures room <= LastWindowEnd(room, size) <= size < LastWindowEnd(room, size) + ALIGN_SIZE
    ensures (LastWindowEnd(room, size) - room) % ALIGN_SIZE == 0
  {
  }

  lemma CandidateBound(k: nat, m: nat)
    requires k % ALIGN_SIZE == 0
    ensures k <= m <==> k / ALIGN_SIZE <= m / ALIGN_SIZE
  {
  }

  function LastChunk(job: Job): AddressRange
    requires job.range.Valid() && job.readSize > 0
  {
    AddressRange(LastStart(job.range, job.readSize), job.range.end)
  }

  function ChunkBeforeLast(job: Job): AddressRange
    requires job.range.Valid() && job.readSize > 0 && job.range.Size() > job.readSize
  {
    AddressRange(LastStart(job.range, job.readSize) - job.readSize, LastStart(job.range, job.readSize))
  }

  /**
    * The chunked scan is exact unless the whole range takes less than one read, so that windows reach
    * past its end, or the last of several reads succeeds right after a failed one, so that its
    * matches are reported at addresses that are too low.
    */
  predicate Guard(job: Job)
    requires job.range.Valid() && job.readSize > 0 && 1 <= job.room <= job.readSize
  {
    if job.range.Size() <= job.readSize then
      job.reader.fails(job.range) || LastWindowEnd(job.room, job.readSize) <= job.range.Size()
    else
      || job.reader.fails(LastChunk(job))
      || !job.reader.fails(ChunkBeforeLast(job))
      || HeadSize(job.room) == 0
  }

  lemma {:induction false} LaterChunkStarts(job: Job, c: nat)
    requires job.Valid() && job.ChunkStart(c) && (c < job.range.end || c == job.range.start)
    ensures job.ChunkStart(LastStart(AddressRange(c, job.range.end), job.readSize))
    decreases job.range.end - c
  {
    if job.range.end - c > job.readSize {
      LaterChunkStarts(job, c + job.readSize);
    }
  }

  lemma {:induction false} LastStartIsChunkStart(job: Job)
    requires job.Valid()
    ensures job.ChunkStart(LastStart(job.range, job.readSize))
  {
    LaterChunkStarts(job, job.range.start);
  }

  lemma MovedByZero(ms: seq<ScanMatch>)
    ensures Moved(ms, 0) == ms
  {
  }

  /** A range of several reads: the guard makes the scan exact. */
  lemma LongRangeExact(job: Job, stale: seq<byte>)
    requires job.Valid() && job.room <= job.readSize && |stale| == job.readSize
    requires job.range.Size() > job.readSize && Guard(job)
    requires PatternFitsLast(job)
    ensures ScanResult(job, stale) == job.Naive()
  {
    hide Hits;
    var c, head := LastStart(job.range, job.readSize), HeadSize(job.room);
    LastStartIsChunkStart(job);
    ChunkStartSplits(job, c, c);
    var whole := job.Matches(job.range.start, EndCandidate(job, c));
    assert job.Naive() == whole;
    if c - head <= job.range.end - job.room + 1 {
      ChunkAdds(job, c);
      if job.reader.fails(LastChunk(job)) {
        FailedChunkHasNoMatches(job, c);
      } else if job.reader.fails(ChunkBeforeLast(job)) {
        MovedByZero(job.Matches(c, job.range.end - job.room + 1));
      }
    } else {
      Aligned(c, head);
      Aligned(c - head, job.range.start);
      HitsRoundUp(job.p, job.room, job.Snapshot(), job.range.start, job.range.end - job.room + 1, c - head);
      assert whole == job.Matches(job.range.start, c - head);
    }
  }

  /** The last of several chunks is large enough for the pattern if it is read. */
  predicate PatternFitsLast(job: Job)
    requires job.range.Valid() && job.readSize > 0 && job.room >= 1
  {
    job.range.Size() > job.readSize && !job.reader.fails(LastChunk(job)) ==>
      job.room <= LastChunk(job).Size() + (if job.reader.fails(ChunkBeforeLast(job)) then 0 else HeadSize(job.room))
  }

  /** The first aligned candidate from `b` on, or the range's start. */
  function RoundUp(start: nat, b: int): (cut: nat)
    ensures start <= cut && b <= cut && (cut - start) % ALIGN_SIZE == 0
    ensures if b <= start then cut == start else cut < b + ALIGN_SIZE
  {
    if b <= start then start else start + (b - start + 3) / ALIGN_SIZE * ALIGN_SIZE
  }

  /** The naive matches are those that the stale tail shows before the range runs out of windows. */
  lemma NaiveInTail(job: Job, stale: seq<byte>)
    requires job.Valid() && job.room <= job.readSize && |stale| == job.readSize
    requires job.range.Size() <= job.readSize && !job.reader.fails(job.range)
    ensures var start := job.range.start;
      job.Naive() == Hits(job.p, job.room, StaleView(job, stale), start, RoundUp(start, job.range.end - job.room + 1))
  {
    var start, b := job.range.start, job.range.end - job.room + 1;
    var view := StaleView(job, stale);
    if start < b {
      forall x: nat | start <= x < b + job.room - 1
        ensures view(x) == job.Snapshot()(x)
      {
        assert job.Known(x);
      }
      HitsSameView(job.p, job.room, view, job.Snapshot(), start, b);
      HitsRoundUp(job.p, job.room, view, start, b, RoundUp(start, b));
    }
  }

  /** A range of at most one read: the matches inside it come first, and the others run past its end. */
  lemma ShortRangeOverruns(job: Job, stale: seq<byte>)
    requires job.Valid() && job.room <= job.readSize && |stale| == job.readSize
    requires job.range.Size() <= job.readSize && !job.reader.fails(job.range)
    ensures job.Naive() <= ScanResult(job, stale)
    ensures forall m :: m in ScanResult(job, stale)[|job.Naive()|..] ==> m.addr + job.room > job.range.end
  {
    hide Hits, RoundUp;
    var start, b, c := job.range.start, job.range.end - job.room + 1, job.range.start + job.readSize - job.room + 1;
    var view, cut := StaleView(job, stale), RoundUp(start, b);
    NaiveInTail(job, stale);
    if cut <= c {
      HitsSplit(job.p, job.room, view, start, cut, c);
      var rest := Hits(job.p, job.room, view, cut, c);
      forall m | m in rest
        ensures m.addr + job.room > job.range.end
      {
        HitsExact(job.p, job.room, view, cut, c, m);
      }
    } else {
      HitsRoundUp(job.p, job.room, view, start, c, cut);
    }
  }

  /** A range of at most one read is scanned exactly if no window of the tail runs past its end. */
  lemma ShortRangeExact(job: Job, stale: seq<byte>)
    requires job.Valid() && job.room <= job.readSize && |stale| == job.readSize
    requires job.range.Size() <= job.readSize && Guard(job)
    ensures ScanResult(job, stale) == job.Naive()
  {
    hide Hits;
    if job.reader.fails(job.range) {
      FailedChunkHasNoMatches(job, job.range.start);
    } else {
      ShortRangeOverruns(job, stale);
      var all, n := ScanResult(job, stale), |job.Naive()|;
      if n < |all| {
        var m := all[n];
        assert m in all[n..];
        var start := job.range.start;
        HitsExact(job.p, job.room, StaleView(job, stale), start, start + job.readSize - job.room + 1, m);
        assert false;
      }
    }
  }

  lemma ExactWhenGuarded(job: Job, stale: seq<byte>)
    requires job.Valid() && job.room <= job.readSize && |stale| == job.readSize
    requires PatternFitsLast(job) && Guard(job)
    ensures ScanResult(job, stale) == job.Naive()
  {
    if job.range.Size() <= job.readSize {
      ShortRangeExact(job, stale);
    } else {
      LongRangeExact(job, stale);
    }
  }

  /** Memory that is all zero but for `bytes` at `a`. */
  function MemoryWith(bytes: seq<byte>, a: nat): nat -> byte {
    x => if a <= x < a + |bytes| then bytes[x - a] else 0
  }

  function WithMemory(job: Job, memory: nat -> byte): Job {
    job.(reader := job.reader.(memory := memory))
  }

  ghost predicate Exact(job: Job, memory: nat -> byte, stale: seq<byte>)
    requires job.Valid() && |stale| == job.readSize
  {
    ScanResult(WithMemory(job, memory), stale) == WithMemory(job, memory).Naive()
  }

  /** A planted pattern is found. */
  lemma {:induction false} PlantedIsHit(p: BytePattern, room: nat, view: View, a: nat, lo: nat, hi: int)
    requires p.Valid() && |p.value| <= room
    requires lo <= a < hi && (a - lo) % ALIGN_SIZE == 0
    requires Known(view, a, room) && forall x: nat :: a <= x < a + |p.value| ==> view(x) == Some(p.value[x - a])
    ensures ScanMatch(a, p.value) in Hits(p, room, view, lo, hi)
  {
    hide Hits, BytePattern.Matches;
    assert BytesAt(view, a, |p.value|) == p.value;
    PatternMatchesItself(p);
    HitsExact(p, room, view, lo, hi, ScanMatch(a, p.value));
  }

  lemma MovedContains(ms: seq<ScanMatch>, shift: nat, m: ScanMatch)
    requires m in ms && m.addr >= shift
    ensures ScanMatch(m.addr - shift, m.value) in Moved(ms, shift)
  {
    var i :| 0 <= i < |ms| && ms[i] == m;
    assert Moved(ms, shift)[i] == ScanMatch(m.addr - shift, m.value);
  }

  /** No naive match starts where nothing could be read. */
  lemma UnknownIsNoMatch(job: Job, m: ScanMatch)
    requires job.Valid() && !job.Known(m.addr)
    ensures m !in job.Naive()
  {
    HitsExact(job.p, job.room, job.Snapshot(), job.range.start, job.range.end - job.room + 1, m);
    assert job.Snapshot()(m.addr) == None;
  }

  /** After a failed read, a pattern at the start of the last chunk is reported a head's length too low. */
  lemma ShiftedIsReported(job: Job, stale: seq<byte>)
    requires job.Valid() && job.room <= job.readSize && |stale| == job.readSize
    requires job.range.Size() > job.readSize && !Guard(job) && PatternFitsLast(job)
    ensures var c := LastStart(job.range, job.readSize);
      ScanMatch(c - HeadSize(job.room), job.p.value) in ScanResult(WithMemory(job, MemoryWith(job.p.value, c)), stale)
  {
    hide Hits, Readable;
    var c, head := LastStart(job.range, job.readSize), HeadSize(job.room);
    var bad := WithMemory(job, MemoryWith(job.p.value, c));
    LastStartIsChunkStart(bad);
    forall x: nat | c <= x < c + job.room
      ensures bad.Known(x)
    {
      ChunkKnown(bad, c, x);
    }
    PlantedIsHit(job.p, job.room, bad.Snapshot(), c, c, job.range.end - job.room + 1);
    MovedContains(bad.Matches(c, job.range.end - job.room + 1), head, ScanMatch(c, job.p.value));
    assert ScanMatch(c - head, job.p.value) in LastChunkResult(bad);
  }

  /** After a failed read the last chunk's matches are moved, and there are none in the head in front of it. */
  lemma ShiftedParts(job: Job, stale: seq<byte>)
    requires job.Valid() && job.room <= job.readSize && |stale| == job.readSize
    requires job.range.Size() > job.readSize && PatternFitsLast(job)
    requires !job.reader.fails(LastChunk(job)) && job.reader.fails(ChunkBeforeLast(job))
    ensures var c, end := LastStart(job.range, job.readSize), job.range.end - job.room + 1;
      && job.Naive() == job.Matches(job.range.start, c) + job.Matches(c, end)
      && ScanResult(job, stale) == job.Matches(job.range.start, c) + Moved(job.Matches(c, end), HeadSize(job.room))
  {
    hide Hits, Readable, Moved, Job.Snapshot;
    var c, head, end := LastStart(job.range, job.readSize), HeadSize(job.room), job.range.end - job.room + 1;
    LastStartIsChunkStart(job);
    ChunkStartSplits(job, c, c);
    Aligned(c, head);
    NoMatchesAcrossFailure(job, c);
    MatchesSplit(job, job.range.start, c - head, c);
    MatchesSplit(job, job.range.start, c, end);
  }

  /**
    * What is returned after a failed read before the last chunk: the naive matches one for one, those of the last
    * chunk a head's length too low.
    */
  lemma ShiftedResult(job: Job, stale: seq<byte>)
    requires job.Valid() && job.room <= job.readSize && |stale| == job.readSize
    requires job.range.Size() > job.readSize && PatternFitsLast(job)
    requires !job.reader.fails(LastChunk(job)) && job.reader.fails(ChunkBeforeLast(job))
    ensures |ScanResult(job, stale)| == |job.Naive()|
    ensures forall i :: 0 <= i < |job.Naive()| ==>
      && ScanResult(job, stale)[i].value == job.Naive()[i].value
      && ScanResult(job, stale)[i].addr
         == job.Naive()[i].addr - if job.Naive()[i].addr < LastStart(job.range, job.readSize) then 0 else HeadSize(job.room)
  {
    hide Hits, Readable, Moved, Job.Snapshot, ScanResult, Job.Matches, Job.Naive;
    var c, end := LastStart(job.range, job.readSize), job.range.end - job.room + 1;
    LastStartIsChunkStart(job);
    ChunkStartSplits(job, c, c);
    ShiftedParts(job, stale);
    MatchBounds(job, job.range.start, c);
    MatchBounds(job, c, end);
    AppendMoved(job.Matches(job.range.start, c), job.Matches(c, end), HeadSize(job.room), c);
  }

  lemma AppendMoved(early: seq<ScanMatch>, late: seq<ScanMatch>, head: nat, c: nat)
    requires forall i :: 0 <= i < |early| ==> early[i].addr < c
    requires forall i :: 0 <= i < |late| ==> c <= late[i].addr && head <= c
    ensures forall i :: 0 <= i < |early + late| ==>
      && (early + Moved(late, head))[i].value == (early + late)[i].value
      && (early + Moved(late, head))[i].addr == (early + late)[i].addr - if (early + late)[i].addr < c then 0 else head
  {
  }

  lemma MatchBounds(job: Job, a: nat, b: int)
    requires job.Valid()
    ensures forall i :: 0 <= i < |job.Matches(a, b)| ==> a <= job.Matches(a, b)[i].addr < b
  {
    hide Hits;
    forall i | 0 <= i < |job.Matches(a, b)|
      ensures a <= job.Matches(a, b)[i].addr < b
    {
      HitsExact(job.p, job.room, job.Snapshot(), a, b, job.Matches(a, b)[i]);
    }
  }

  /** Nothing could be read there. */
  lemma SkippedBeforeLastIsInexact(job: Job, stale: seq<byte>)
    requires job.Valid() && job.room <= job.readSize && |stale| == job.readSize
    requires job.range.Size() > job.readSize && !Guard(job) && PatternFitsLast(job)
    ensures !Exact(job, MemoryWith(job.p.value, LastStart(job.range, job.readSize)), stale)
  {
    hide Hits, Readable, ScanResult;
    var c, head := LastStart(job.range, job.readSize), HeadSize(job.room);
    var bad := WithMemory(job, MemoryWith(job.p.value, c));
    ShiftedIsReported(job, stale);
    LastStartIsChunkStart(bad);
    ChunkKnown(bad, c - job.readSize, c - head);
    UnknownIsNoMatch(bad, ScanMatch(c - head, job.p.value));
  }

  /** When a window of the tail runs past the range, what was in the tail before can show through. */
  lemma ShortRangeIsInexact(job: Job) returns (memory: nat -> byte, stale: seq<byte>)
    requires job.Valid() && job.room <= job.readSize
    requires job.range.Size() <= job.readSize && !Guard(job)
    ensures |stale| == job.readSize && !Exact(job, memory, stale)
  {
    hide Hits, LastWindowEnd, HeadSize, Readable, BytePattern.Matches;
    LastWindow(job.room, job.readSize);
    var w := LastWindowEnd(job.room, job.readSize) - job.room;
    var a, bytes := job.range.start + w, job.p.value;
    memory := MemoryWith(bytes, a);
    stale := seq<byte>(job.readSize, i requires 0 <= i < job.readSize => if w <= i < w + |bytes| then bytes[i - w] else 0);
    var bad := WithMemory(job, memory);
    PlantedIsHit(job.p, job.room, StaleView(bad, stale), a, job.range.start, job.range.start + job.readSize - job.room + 1);
    HitsExact(job.p, job.room, bad.Snapshot(), job.range.start, job.range.end - job.room + 1, ScanMatch(a, bytes));
  }

  /**
    * The chunked scan returns the naive scan's matches, whatever memory holds and whatever was in
    * the buffer before, exactly when the guard holds.
    */
  lemma ChunkedScanExactIff(job: Job)
    requires job.Valid() && job.room <= job.readSize && PatternFitsLast(job)
    ensures Guard(job)
        <==> forall memory: nat -> byte, stale: seq<byte> :: |stale| == job.readSize ==> Exact(job, memory, stale)
  {
    if Guard(job) {
      forall memory: nat -> byte, stale: seq<byte> | |stale| == job.readSize
        ensures Exact(job, memory, stale)
      {
        ExactWhenGuarded(WithMemory(job, memory), stale);
      }
    } else if job.range.Size() <= job.readSize {
      var memory, stale := ShortRangeIsInexact(job);
    } else {
      SkippedBeforeLastIsInexact(job, Zeros(job.readSize));
    }
  }

  // What callers rely on.

  lemma {:induction false} LastChunkIsLast(range: AddressRange, readSize: nat)
    requires range.Valid() && readSize > 0
    ensures var chunks := Chunks(range, readSize);
      chunks[|chunks| - 1] == AddressRange(LastStart(range, readSize), range.end)
    ensures |Chunks(range, readSize)| > 1 <==> range.Size() > readSize
    decreases range.Size()
  {
    if range.Size() > readSize {
      LastChunkIsLast(AddressRange(range.start + readSize, range.end), readSize);
    }
  }

  /** For patterns no longer than one read, only the last of several chunks can be too small. */
  lemma PatternFitsIff(job: Job)
    requires job.Valid() && job.room <= job.readSize
    ensures PatternFits(job.room, Start(job.range, job.readSize), job.reader.fails) <==> PatternFitsLast(job)
  {
    hide Run, NextChunk, PatternFits;
    var run := Run(Start(job.range, job.readSize), job.reader.fails);
    LastState(job, run);
    EarlierChunksFit(job, run);
    LastFitsIff(job, run);
  }

  /** The state at the last chunk. */
  lemma LastState(job: Job, run: seq<ScanState>)
    requires job.Valid() && run == Run(Start(job.range, job.readSize), job.reader.fails)
    ensures run != [] && run[|run| - 1].Valid() && run[|run| - 1].bufRange == LastChunk(job)
    ensures job.range.Size() <= job.readSize ==> |run| == 1
    ensures job.range.Size() > job.readSize ==> run[|run| - 1].status == Last(job.reader.fails(ChunkBeforeLast(job)))
  {
    hide Run, Chunks, NextChunk;
    var chunks := Chunks(job.range, job.readSize);
    RunReadsChunks(Start(job.range, job.readSize), job.reader.fails);
    LastChunkIsLast(job.range, job.readSize);
    ChunksTile(job.range, job.readSize);
    var n := |run|;
    assert run[n - 1] in run;
    RunIsValid(Start(job.range, job.readSize), job.reader.fails, run[n - 1]);
    if n > 1 {
      assert chunks[n - 2] == ChunkBeforeLast(job);
    }
  }

  /** If the earlier chunks fit, all chunks do exactly if the last one does. */
  lemma LastFitsIff(job: Job, run: seq<ScanState>)
    requires job.Valid() && run == Run(Start(job.range, job.readSize), job.reader.fails) && run != []
    requires run[|run| - 1].Valid()
    requires forall s :: s in run && s != run[|run| - 1] ==> s.Valid() && job.room <= SliceSize(s, HeadSize(job.room))
    ensures PatternFits(job.room, Start(job.range, job.readSize), job.reader.fails) <==>
      (!job.reader.fails(run[|run| - 1].bufRange) ==> job.room <= SliceSize(run[|run| - 1], HeadSize(job.room)))
  {
  }

  lemma {:induction false} RunIsValid(state: ScanState, fails: AddressRange -> bool, s: ScanState)
    requires state.Valid() && s in Run(state, fails)
    ensures s.Valid()
    ensures s.scanRange == state.scanRange && s.readSize == state.readSize
    decreases state.ReadsLeft()
  {
    if s != state {
      RunIsValid(NextChunk(state, fails(state.bufRange)), fails, s);
    }
  }

  lemma EarlierChunksFit(job: Job, run: seq<ScanState>)
    requires job.Valid() && job.room <= job.readSize
    requires run == Run(Start(job.range, job.readSize), job.reader.fails)
    ensures forall s :: s in run && s != run[|run| - 1] ==> s.Valid() && job.room <= SliceSize(s, HeadSize(job.room))
    ensures |run| == 1 ==> job.room <= SliceSize(run[0], HeadSize(job.room))
  {
    hide Run, Chunks, NextChunk;
    RunReadsChunks(Start(job.range, job.readSize), job.reader.fails);
    forall s | s in run && s != run[|run| - 1]
      ensures s.Valid() && job.room <= SliceSize(s, HeadSize(job.room))
    {
      var i :| 0 <= i < |run| - 1 && run[i] == s;
      RunIsValid(Start(job.range, job.readSize), job.reader.fails, s);
    }
  }

  /** The range's memory, all of it readable. */
  ghost function WholeRange(memory: nat -> byte, range: AddressRange): View {
    x => if range.start <= x < range.end then Some(memory(x)) else None
  }

  lemma KnownInside(job: Job, a: nat, n: nat)
    requires job.Valid() && 1 <= n && Known(job.Snapshot(), a, n)
    ensures job.range.start <= a && a + n <= job.range.end
  {
    var last: nat := a + n - 1;
    assert job.Snapshot()(a).Some? && job.Snapshot()(last).Some?;
    assert job.Known(a) && job.Known(last);
  }

  /** No read fails, so every byte of the range is known. */
  ghost predicate AllKnown(job: Job)
    requires job.Valid()
  {
    forall x: nat :: job.range.start <= x < job.range.end ==> job.Known(x)
  }

  lemma NoFailureAllKnown(job: Job)
    requires job.Valid()
    requires forall c :: c in Chunks(job.range, job.readSize) ==> !job.reader.fails(c)
    ensures AllKnown(job)
  {
    forall x: nat | job.range.start <= x < job.range.end
      ensures job.Known(x)
    {
      ReadableChunks(job.reader.fails, job.range, job.readSize, x);
    }
  }

  /** With no failed read, the naive scan sees all of the range, however it is cut into reads. */
  lemma NaiveSeesEverything(job: Job)
    requires job.Valid()
    requires forall c :: c in Chunks(job.range, job.readSize) ==> !job.reader.fails(c)
    ensures job.Naive()
         == Hits(job.p, job.room, WholeRange(job.reader.memory, job.range), job.range.start, job.range.end - job.room + 1)
  {
    hide Hits, Chunks, Readable;
    NoFailureAllKnown(job);
    var whole := WholeRange(job.reader.memory, job.range);
    forall x: nat | job.range.start <= x < job.range.end
      ensures job.Snapshot()(x) == whole(x)
    {
      assert job.Known(x);
    }
    HitsSameView(job.p, job.room, job.Snapshot(), whole, job.range.start, job.range.end - job.room + 1);
  }

  /** Where every chunk can be read, a range of aligned ends and at least one read is scanned exactly. */
  lemma AllReadIsGuarded(job: Job)
    requires job.Valid() && job.room <= job.readSize <= job.range.Size()
    requires forall c :: c in Chunks(job.range, job.readSize) ==> !job.reader.fails(c)
    requires job.range.end % ALIGN_SIZE == 0
    ensures Guard(job) && PatternFitsLast(job)
  {
    hide Chunks, Readable, LastWindowEnd, HeadSize, LastStart, Job.ChunkStart;
    LastChunksAreChunks(job);
    LastWindow(job.room, job.readSize);
    if job.range.Size() > job.readSize {
      var c := LastStart(job.range, job.readSize);
      LastStartIsChunkStart(job);
      ChunkStartSplits(job, c, c);
      Aligned(job.range.end, c);
    }
  }

  lemma LastChunksAreChunks(job: Job)
    requires job.Valid()
    ensures LastChunk(job) in Chunks(job.range, job.readSize)
    ensures if job.range.Size() > job.readSize then
              ChunkBeforeLast(job) in Chunks(job.range, job.readSize)
            else
              LastChunk(job) == job.range
  {
    hide Chunks;
    LastChunkIsLast(job.range, job.readSize);
    var chunks := Chunks(job.range, job.readSize);
    if job.range.Size() > job.readSize {
      ChunksTile(job.range, job.readSize);
      assert ChunkBeforeLast(job) == chunks[|chunks| - 2];
    }
  }

  /** Chunked equals naive: the read size does not show. */
  lemma ReadSizeDoesNotShow(job: Job, stale: seq<byte>)
    requires job.Valid() && job.room <= job.readSize <= job.range.Size() && |stale| == job.readSize
    requires forall c :: c in Chunks(job.range, job.readSize) ==> !job.reader.fails(c)
    requires job.range.end % ALIGN_SIZE == 0
    ensures PatternFits(job.room, Start(job.range, job.readSize), job.reader.fails)
    ensures ScanResult(job, stale)
         == Hits(job.p, job.room, WholeRange(job.reader.memory, job.range), job.range.start, job.range.end - job.room + 1)
  {
    hide Hits, Chunks, Run, PatternFits, PatternFitsLast, Guard, ScanResult, WholeRange;
    AllReadIsGuarded(job);
    PatternFitsIff(job);
    ExactWhenGuarded(job, stale);
    NaiveSeesEverything(job);
  }

  lemma {:induction false} ChunkNotEmpty(range: AddressRange, readSize: nat, c: AddressRange)
    requires range.Valid() && readSize > 0 && range.Size() > 0
    requires c in Chunks(range, readSize)
    ensures c.start < c.end
  {
    ChunksTile(range, readSize);
  }

  /** A window of the naive scan touches no failed chunk. */
  lemma NaiveTouchesNoFailedChunk(job: Job, m: ScanMatch, c: AddressRange)
    requires job.Valid() && m in job.Naive()
    requires c in Chunks(job.range, job.readSize) && job.reader.fails(c)
    ensures m.addr + job.room <= c.start || c.end <= m.addr
  {
    hide Hits, Chunks, Readable;
    HitsExact(job.p, job.room, job.Snapshot(), job.range.start, job.range.end - job.room + 1, m);
    ChunkNotEmpty(job.range, job.readSize, c);
    if c.start < m.addr + job.room && m.addr < c.end {
      var x := if c.start < m.addr then m.addr else c.start;
      assert job.Snapshot()(x).Some?;
      assert job.Known(x);
      assert c in Chunks(job.range, job.readSize) && c.start <= x < c.end;
      ReadableChunks(job.reader.fails, job.range, job.readSize, x);
    }
  }

  /** The first of the matches found is the least matching address. */
  lemma FirstIsLeast(job: Job, stale: seq<byte>, m: ScanMatch)
    requires job.Valid() && job.room <= job.readSize && |stale| == job.readSize
    requires PatternFitsLast(job) && Guard(job)
    requires IsHit(job.p, job.room, job.Snapshot(), job.range.start, job.range.end - job.room + 1, m)
    ensures ScanResult(job, stale) != [] && ScanResult(job, stale)[0].addr <= m.addr
  {
    ExactWhenGuarded(job, stale);
    HitsExact(job.p, job.room, job.Snapshot(), job.range.start, job.range.end - job.room + 1, m);
    HitsAscending(job.p, job.room, job.Snapshot(), job.range.start, job.range.end - job.room + 1);
  }

  /** A range of at most one read: nothing if the read fails, else first the naive matches, then some that run past the end. */
  ghost predicate ShortScanned(job: Job, matches: seq<ScanMatch>)
    requires job.Valid()
  {
    if job.reader.fails(job.range) then
      matches == []
    else
      job.Naive() <= matches && forall m :: m in matches[|job.Naive()|..] ==> m.addr + job.room > job.range.end
  }

  /**
    * What scanning one block yields: the specified result for what the buffer held before, which shows only in
    * a block shorter than one read, and there only past its end; and the naive matches if the block is guarded.
    */
  ghost predicate BlockScanned(job: Job, range: AddressRange, matches: seq<ScanMatch>) {
    && job.Valid() && job.room <= job.readSize
    && range == job.range
    && (exists stale: seq<byte> :: |stale| == job.readSize && matches == ScanResult(job, stale))
    && (job.readSize <= range.Size() ==> matches == ScanResult(job, Zeros(job.readSize)))
    && (range.Size() <= job.readSize ==> ShortScanned(job, matches))
    && (Guard(job) ==> matches == job.Naive())
  }

  lemma FullScanScansBlock(job: Job, stale: seq<byte>, matches: seq<ScanMatch>)
    requires job.Valid() && job.room <= job.readSize && |stale| == job.readSize
    requires PatternFits(job.room, Start(job.range, job.readSize), job.reader.fails)
    requires matches == ScanResult(job, stale)
    ensures BlockScanned(job, job.range, matches)
  {
    hide Hits;
    PatternFitsIff(job);
    if Guard(job) {
      ExactWhenGuarded(job, stale);
    }
    if job.range.Size() <= job.readSize && !job.reader.fails(job.range) {
      ShortRangeOverruns(job, stale);
    }
    if job.readSize <= job.range.Size() {
      StaleDoesNotShow(job, stale, Zeros(job.readSize));
    }
  }
}
