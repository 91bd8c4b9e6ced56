/** What a chunked scan of one range returns, and why each chunk adds exactly its own matches. */
module ChunkedScan {
  import opened Wrappers
  import opened Bytes
  import opened BytePatterns
  import opened ScanPatterns
  import opened AddressRanges
  import opened ScanStates
  import opened NaiveScan

  /** The length rounded up to the word size, and the padding that takes. */
  function AlignedPatternSize(len: nat): (size: (nat, nat))
    ensures size.0 % ALIGN_SIZE == 0 && len <= size.0 < len + ALIGN_SIZE && size.0 == len + size.1
  {
    var pad := (ALIGN_SIZE - len % ALIGN_SIZE) % ALIGN_SIZE;
    (len + pad, pad)
  }

  /** How many bytes of the previous chunk a match in the next one may reach back into. */
  function HeadSize(len: nat): (head: nat)
    requires len >= 1
    ensures head % ALIGN_SIZE == 0 && head < len <= head + ALIGN_SIZE
  {
    AlignedPatternSize(len).0 - ALIGN_SIZE
  }

  /** Whether the read of the chunk that holds address `x` succeeds. */
  ghost predicate Readable(fails: AddressRange -> bool, range: AddressRange, readSize: nat, x: nat)
    requires range.Valid() && readSize > 0
    decreases range.Size()
  {
    if range.Size() <= readSize then
      !fails(range)
    else if x < range.start + readSize then
      !fails(AddressRange(range.start, range.start + readSize))
    else
      Readable(fails, AddressRange(range.start + readSize, range.end), readSize, x)
  }

  lemma {:induction false} ReadableChunks(fails: AddressRange -> bool, range: AddressRange, readSize: nat, x: nat)
    requires range.Valid() && readSize > 0
    requires range.start <= x < range.end
    ensures Readable(fails, range, readSize, x)
        <==> forall c :: c in Chunks(range, readSize) && c.start <= x < c.end ==> !fails(c)
    decreases range.Size()
  {
    var chunks := Chunks(range, readSize);
    if range.Size() > readSize {
      var first := AddressRange(range.start, range.start + readSize);
      var rest := AddressRange(range.start + readSize, range.end);
      assert chunks == [first] + Chunks(rest, readSize);
      if x < first.end {
        forall c | c in Chunks(rest, readSize)
          ensures c.start >= first.end
        {
          ChunksStartLater(rest, readSize, c);
        }
        assert chunks[0] == first;
      } else {
        ReadableChunks(fails, rest, readSize, x);
      }
    } else {
      assert chunks[0] == range;
    }
  }

  lemma {:induction false} ChunksStartLater(range: AddressRange, readSize: nat, c: AddressRange)
    requires range.Valid() && readSize > 0
    requires c in Chunks(range, readSize)
    ensures c.start >= range.start
    decreases range.Size()
  {
    if range.Size() > readSize && c != Chunks(range, readSize)[0] {
      ChunksStartLater(AddressRange(range.start + readSize, range.end), readSize, c);
    }
  }

  /** Where the last chunk starts. */
  function LastStart(range: AddressRange, readSize: nat): (c: nat)
    requires range.Valid() && readSize > 0
    ensures range.start <= c <= range.end <= c + readSize
    ensures range.Size() > readSize ==> range.start + readSize <= c < range.end
    decreases range.Size()
  {
    if range.Size() <= readSize then
      range.start
    else
      LastStart(AddressRange(range.start + readSize, range.end), readSize)
  }

  /** One scan: a pattern that needs `room` bytes per window, a range, and how it is read. */
  datatype Job = Job(p: BytePattern, room: nat, reader: Reader, range: AddressRange, readSize: nat) {

    ghost predicate Valid() {
      && p.Valid() && |p.value| <= room && 1 <= room
      && range.Valid() && range.start % ALIGN_SIZE == 0
      && readSize > 0 && readSize % ALIGN_SIZE == 0
      && HeadSize(room) <= readSize
    }

    ghost predicate Known(x: nat)
      requires Valid()
    {
      range.start <= x < range.end && Readable(reader.fails, range, readSize, x)
    }

    /** The range's memory, unknown where a chunk could not be read. */
    ghost function Snapshot(): View
      requires Valid()
    {
      x => if Known(x) then Some(reader.memory(x)) else None
    }

    ghost function Matches(a: nat, b: int): seq<ScanMatch>
      requires Valid()
    {
      Hits(p, room, Snapshot(), a, b)
    }

    /** The matches a scan should return: every aligned match that touches no failed chunk. */
    ghost function Naive(): seq<ScanMatch>
      requires Valid()
    {
      Matches(range.start, range.end - room + 1)
    }

    /** `c` is where a chunk starts: whole reads lead up to it. */
    ghost predicate ChunkStart(c: int)
      requires Valid()
      decreases c - range.start
    {
      c == range.start || (range.start + readSize <= c < range.end && ChunkStart(c - readSize))
    }

    ghost function ChunkAt(c: nat): (chunk: AddressRange)
      requires Valid() && range.start <= c <= range.end
      ensures chunk.Valid()
    {
      AddressRange(c, Min(range.end, c + readSize))
    }
  }

  lemma Aligned(a: int, b: int)
    requires a % ALIGN_SIZE == 0 && b % ALIGN_SIZE == 0
    ensures (a + b) % ALIGN_SIZE == 0 && (a - b) % ALIGN_SIZE == 0
  {
  }

  /** From where a chunk starts, the rest of the range is chunked as if scanned on its own. */
  lemma {:induction false} ChunkStartSplits(job: Job, c: nat, x: nat)
    requires job.Valid() && job.ChunkStart(c) && c <= x
    ensures c % ALIGN_SIZE == 0 && job.range.start <= c <= job.range.end
    ensures Readable(job.reader.fails, job.range, job.readSize, x)
         == Readable(job.reader.fails, AddressRange(c, job.range.end), job.readSize, x)
    ensures LastStart(job.range, job.readSize) == LastStart(AddressRange(c, job.range.end), job.readSize)
    decreases c
  {
    if c != job.range.start {
      ChunkStartSplits(job, c - job.readSize, x);
      Aligned(c - job.readSize, job.readSize);
    }
  }

  /** The bytes of the chunk at `c` are known iff its read succeeds. */
  lemma {:induction false} ChunkKnown(job: Job, c: nat, x: nat)
    requires job.Valid() && job.ChunkStart(c)
    requires c <= x < Min(job.range.end, c + job.readSize)
    ensures job.Known(x) <==> !job.reader.fails(AddressRange(c, Min(job.range.end, c + job.readSize)))
  {
    ChunkStartSplits(job, c, x);
  }

  /** Where the candidates that the chunk at `c` decides begin. */
  ghost function FirstCandidate(job: Job, c: nat): (a: nat)
    requires job.Valid() && (c == job.range.start || job.range.start + job.readSize <= c)
    ensures job.range.start <= a
  {
    if c == job.range.start then c else c - HeadSize(job.room)
  }

  /** Where they end: before the next chunk's, or at the last address with room for a window. */
  ghost function EndCandidate(job: Job, c: nat): int
    requires job.Valid() && job.range.start <= c <= job.range.end
  {
    if c + job.readSize < job.range.end then c + job.readSize - HeadSize(job.room) else job.range.end - job.room + 1
  }

  /** A failed chunk decides no candidate: all of them touch it. */
  lemma {:induction false} FailedChunkHasNoMatches(job: Job, c: nat)
    requires job.Valid() && job.ChunkStart(c)
    requires job.reader.fails(job.ChunkAt(c))
    ensures job.Matches(FirstCandidate(job, c), EndCandidate(job, c)) == []
  {
    var a, b := FirstCandidate(job, c), EndCandidate(job, c);
    forall x: nat | a <= x < b
      ensures !Known(job.Snapshot(), x, job.room)
    {
      var y := if x < c then c else x;
      ChunkKnown(job, c, y);
      assert x <= y < x + job.room && c <= y < job.ChunkAt(c).end;
      assert job.Snapshot()(y) == None;
    }
    HitsUnknown(job.p, job.room, job.Snapshot(), a, b);
  }

  /** After a failed chunk, no candidate starts before the chunk at `c`. */
  lemma NoMatchesAcrossFailure(job: Job, c: nat)
    requires job.Valid() && job.ChunkStart(c)
    requires job.range.start + job.readSize <= c && job.ChunkStart(c - job.readSize)
    requires job.reader.fails(job.ChunkAt(c - job.readSize))
    ensures job.Matches(c - HeadSize(job.room), c) == []
  {
    var a := c - HeadSize(job.room);
    forall x: nat | a <= x < c
      ensures !Known(job.Snapshot(), x, job.room)
    {
      ChunkKnown(job, c - job.readSize, x);
      assert job.Snapshot()(x) == None;
    }
    HitsUnknown(job.p, job.room, job.Snapshot(), a, c);
  }

  /** Scanning a buffer that holds the readable memory from `base` to `end` finds the naive matches. */
  lemma ReadableBufferMatches(job: Job, base: nat, end: nat)
    requires job.Valid() && base <= end <= job.range.end
    requires forall x: nat :: base <= x < end ==> job.Known(x)
    ensures BufferHits(job.p, job.room, base, job.reader.Read(base, end - base), 0)
         == job.Matches(base, end - job.room + 1)
  {
    hide Hits, BufferHits;
    BufferHitsAreHits(job.p, job.room, job.Snapshot(), base, job.reader.Read(base, end - base), 0);
  }

  /** The same, when the last candidate is bounded by where the next chunk's candidates start. */
  lemma {:induction false} ReadableChunkMatches(job: Job, base: nat, end: nat)
    requires job.Valid() && base <= end <= job.range.end
    requires base % ALIGN_SIZE == 0 && end % ALIGN_SIZE == 0
    requires forall x: nat :: base <= x < end ==> job.Known(x)
    ensures BufferHits(job.p, job.room, base, job.reader.Read(base, end - base), 0)
         == job.Matches(base, end - HeadSize(job.room))
  {
    hide Hits, BufferHits;
    ReadableBufferMatches(job, base, end);
    Aligned(end, base);
    Aligned(end - base, HeadSize(job.room));
    HitsRoundUp(job.p, job.room, job.Snapshot(), base, end - job.room + 1, end - HeadSize(job.room));
    assert job.Matches(base, end - job.room + 1) == job.Matches(base, end - HeadSize(job.room));
  }

  lemma MatchesSplit(job: Job, a: nat, b: nat, c: int)
    requires job.Valid() && a <= b <= c
    requires a % ALIGN_SIZE == 0 && b % ALIGN_SIZE == 0
    ensures job.Matches(a, c) == job.Matches(a, b) + job.Matches(b, c)
  {
    Aligned(b, a);
    HitsSplit(job.p, job.room, job.Snapshot(), a, b, c);
  }

  // What one scan returns.

  /** The memory a range shorter than one read leaves in the tail, followed by what was there before. */
  ghost function StaleView(job: Job, stale: seq<byte>): View
    requires job.Valid() && |stale| == job.readSize
  {
    x =>
      if job.range.start <= x < job.range.end then
        Some(job.reader.memory(x))
      else if job.range.end <= x < job.range.start + job.readSize then
        Some(stale[x - job.range.start])
      else
        None
  }

  /** Matches reported at addresses that are `shift` too low. */
  ghost function Moved(ms: seq<ScanMatch>, shift: nat): (r: seq<ScanMatch>)
    ensures |r| == |ms|
  {
    seq(|ms|, i requires 0 <= i < |ms| =>
      ScanMatch(if ms[i].addr >= shift then ms[i].addr - shift else 0, ms[i].value))
  }

  /** What the last of several chunks adds. After a failed read its matches are reported `HeadSize` too low. */
  ghost function LastChunkResult(job: Job): seq<ScanMatch>
    requires job.Valid() && job.range.Size() > job.readSize
  {
    var c := LastStart(job.range, job.readSize);
    if job.reader.fails(job.ChunkAt(c)) then
      []
    else if job.reader.fails(job.ChunkAt(c - job.readSize)) then
      Moved(job.Matches(c, job.range.end - job.room + 1), HeadSize(job.room))
    else
      job.Matches(c - HeadSize(job.room), job.range.end - job.room + 1)
  }

  /** What a full scan returns when the buffer's tail held `stale` before. */
  ghost function ScanResult(job: Job, stale: seq<byte>): seq<ScanMatch>
    requires job.Valid() && |stale| == job.readSize
  {
    if job.range.Size() <= job.readSize then
      if job.reader.fails(job.range) then
        []
      else
        Hits(job.p, job.room, StaleView(job, stale), job.range.start, job.range.start + job.readSize - job.room + 1)
    else
      job.Matches(job.range.start, LastStart(job.range, job.readSize) - HeadSize(job.room))
      + LastChunkResult(job)
  }

  /** A range no longer than one read: the scan covers the whole tail. */
  lemma {:induction false} ShortRangeResult(job: Job, stale: seq<byte>, tail: seq<byte>)
    requires job.Valid() && |stale| == job.readSize && job.room <= job.readSize
    requires job.range.Size() <= job.readSize && !job.reader.fails(job.range)
    requires tail == job.reader.Read(job.range.start, job.range.Size()) + stale[job.range.Size()..]
    ensures BufferHits(job.p, job.room, job.range.start, tail, 0) == ScanResult(job, stale)
  {
    hide Hits, BufferHits, BytePattern.Matches, Readable;
    BufferHitsAreHits(job.p, job.room, StaleView(job, stale), job.range.start, tail, 0);
  }

  /** Moving the base address moves the matches. */
  lemma {:induction false} BufferHitsMoved(
    p: BytePattern, room: nat, base: nat, shift: nat, buf: seq<byte>, off: nat)
    requires p.Valid() && |p.value| <= room && 1 <= room && shift <= base
    ensures BufferHits(p, room, base - shift, buf, off) == Moved(BufferHits(p, room, base, buf, off), shift)
    decreases |buf| - off
  {
    if off + room <= |buf| {
      BufferHitsMoved(p, room, base, shift, buf, off + ALIGN_SIZE);
    }
  }

  /** A chunk read after a failed one, or first: only its own bytes are scanned. */
  lemma TailScanMatches(job: Job, c: nat)
    requires job.Valid() && job.ChunkStart(c) && c + job.readSize < job.range.end
    requires !job.reader.fails(job.ChunkAt(c))
    requires c != job.range.start ==> job.range.start + job.readSize <= c && job.ChunkStart(c - job.readSize)
                                      && job.reader.fails(job.ChunkAt(c - job.readSize))
    ensures BufferHits(job.p, job.room, c, job.reader.Read(c, job.readSize), 0)
         == job.Matches(FirstCandidate(job, c), EndCandidate(job, c))
  {
    hide Hits, BufferHits;
    var head := HeadSize(job.room);
    forall x: nat | c <= x < c + job.readSize
      ensures job.Known(x)
    {
      ChunkKnown(job, c, x);
    }
    ChunkStartSplits(job, c, c);
    Aligned(c, job.readSize);
    ReadableChunkMatches(job, c, c + job.readSize);
    assert BufferHits(job.p, job.room, c, job.reader.Read(c, job.readSize), 0)
        == job.Matches(c, c + job.readSize - head);
    if c != job.range.start {
      NoMatchesAcrossFailure(job, c);
      Aligned(c, head);
      MatchesSplit(job, c - head, c, c + job.readSize - head);
      assert job.Matches(c - head, c + job.readSize - head) == job.Matches(c, c + job.readSize - head);
    }
  }

  /** Two chunks read one after the other are known from the first one's last bytes on. */
  lemma ReachBackKnown(job: Job, c: nat)
    requires job.Valid() && job.ChunkStart(c) && c < job.range.end
    requires job.range.start + job.readSize <= c && job.ChunkStart(c - job.readSize)
    requires !job.reader.fails(job.ChunkAt(c - job.readSize)) && !job.reader.fails(job.ChunkAt(c))
    ensures forall x: nat :: c - HeadSize(job.room) <= x < job.ChunkAt(c).end ==> job.Known(x)
  {
    forall x: nat | c - HeadSize(job.room) <= x < job.ChunkAt(c).end
      ensures job.Known(x)
    {
      ChunkKnown(job, if x < c then c - job.readSize else c, x);
    }
  }

  /** A chunk read after a successful one: the scan reaches back over the previous chunk's last bytes. */
  lemma FullScanMatches(job: Job, c: nat)
    requires job.Valid() && job.ChunkStart(c) && c < job.range.end
    requires job.range.start + job.readSize <= c && job.ChunkStart(c - job.readSize)
    requires !job.reader.fails(job.ChunkAt(c - job.readSize)) && !job.reader.fails(job.ChunkAt(c))
    ensures var base, end := c - HeadSize(job.room), job.ChunkAt(c).end;
      BufferHits(job.p, job.room, base, job.reader.Read(base, end - base), 0) == job.Matches(base, EndCandidate(job, c))
  {
    hide Hits, BufferHits, Readable;
    var base, end := c - HeadSize(job.room), job.ChunkAt(c).end;
    ReachBackKnown(job, c);
    if c + job.readSize < job.range.end {
      ChunkStartSplits(job, c, c);
      Aligned(c, HeadSize(job.room));
      Aligned(c, job.readSize);
      ReadableChunkMatches(job, base, end);
      assert EndCandidate(job, c) == end - HeadSize(job.room);
    } else {
      ReadableBufferMatches(job, base, end);
      assert EndCandidate(job, c) == end - job.room + 1;
    }
    assert BufferHits(job.p, job.room, base, job.reader.Read(base, end - base), 0) == job.Matches(base, EndCandidate(job, c));
  }

  /** The matches of the chunks before `c`, and those that the chunk at `c` decides. */
  lemma {:induction false} ChunkAdds(job: Job, c: nat)
    requires job.Valid() && job.ChunkStart(c)
    requires c == job.range.start || job.range.start + job.readSize <= c
    requires FirstCandidate(job, c) <= EndCandidate(job, c)
    ensures job.Matches(job.range.start, EndCandidate(job, c))
         == job.Matches(job.range.start, c - HeadSize(job.room))
            + job.Matches(FirstCandidate(job, c), EndCandidate(job, c))
  {
    var first := FirstCandidate(job, c);
    assert job.Matches(job.range.start, job.range.start - HeadSize(job.room)) == [];
    hide Hits;
    if c != job.range.start {
      ChunkStartSplits(job, c, c);
      Aligned(c, HeadSize(job.room));
    }
    MatchesSplit(job, job.range.start, first, EndCandidate(job, c));
    assert job.Matches(job.range.start, first) == job.Matches(job.range.start, c - HeadSize(job.room)) by {
      if c == job.range.start {
        assert job.Matches(first, first) == [];
      }
    }
  }

  // One iteration of the scan loop.

  /** The base address and the slice of the buffer that a chunk's scan uses. */
  function Slice(state: ScanState, head: seq<byte>, tail: seq<byte>): (nat, seq<byte>)
    requires state.Valid() && state.status != End
    requires state.status.Last? || state.status == Middle(false) ==> |head| <= state.bufRange.start
    requires state.bufRange.Size() <= |tail|
  {
    match state.status
    case Begin => (state.bufRange.start, tail)
    case Middle(skippedLast) =>
      if skippedLast then
        (state.bufRange.start, tail)
      else
        (state.bufRange.start - |head|, head + tail)
    case Last(skippedLast) =>
      if skippedLast then
        (state.bufRange.start - |head|, tail[..state.bufRange.Size()])
      else
        (state.bufRange.start - |head|, (head + tail)[..|head| + state.bufRange.Size()])
  }

  /** The loop invariant: `found` is what the chunks before the current one decide. */
  ghost predicate Progress(job: Job, state: ScanState, head: seq<byte>, found: seq<ScanMatch>)
    requires job.Valid()
  {
    var c := state.bufRange.start;
    && state.Valid() && state.status != End
    && state.scanRange == job.range && state.readSize == job.readSize
    && job.ChunkStart(c)
    && state.bufRange == AddressRange(c, Min(job.range.end, c + job.readSize))
    && |head| == HeadSize(job.room)
    && (state.status.Begin? <==> c == job.range.start)
    && (state.status.Middle? ==> c + job.readSize < job.range.end)
    && (state.status.Last? ==> job.range.end <= c + job.readSize)
    && (!state.status.Begin? ==> state.status.skipped == job.reader.fails(AddressRange(c - job.readSize, c)))
    && (!state.status.Begin? && !state.status.skipped ==> head == job.reader.Read(c - |head|, |head|))
    && found == job.Matches(job.range.start, c - HeadSize(job.room))
  }

  /** What reading and scanning the current chunk leaves behind. */
  ghost predicate ChunkScanned(
    job: Job, state: ScanState, head: seq<byte>, stale: seq<byte>, tail: seq<byte>, results: seq<ScanMatch>)
    requires job.Valid() && state.Valid()
  {
    && |stale| == |tail| == job.readSize
    && state.status != End
    && (state.status.Last? || state.status == Middle(false) ==> |head| <= state.bufRange.start)
    && state.bufRange.Size() <= job.readSize
    && if job.reader.fails(state.bufRange) then
         results == []
       else
         && tail == job.reader.Read(state.bufRange.start, state.bufRange.Size()) + stale[state.bufRange.Size()..]
         && results == BufferHits(job.p, job.room, Slice(state, head, tail).0, Slice(state, head, tail).1, 0)
  }

  lemma ReadJoins(reader: Reader, a: nat, m: nat, n: nat)
    ensures reader.Read(a, m) + reader.Read(a + m, n) == reader.Read(a, m + n)
  {
  }

  /** A chunk before the last adds the matches it decides. */
  lemma ChunkAddsMatches(
    job: Job, state: ScanState, head: seq<byte>, found: seq<ScanMatch>,
    stale: seq<byte>, tail: seq<byte>, results: seq<ScanMatch>)
    requires job.Valid() && Progress(job, state, head, found)
    requires ChunkScanned(job, state, head, stale, tail, results)
    requires state.bufRange.start + job.readSize < job.range.end
    ensures found + results == job.Matches(job.range.start, state.bufRange.start + job.readSize - |head|)
  {
    hide Hits, BufferHits;
    var c := state.bufRange.start;
    ChunkAdds(job, c);
    assert !job.reader.fails(state.bufRange) ==> tail == job.reader.Read(c, job.readSize) by {
      assert stale[job.readSize..] == [];
    }
    if job.reader.fails(state.bufRange) {
      FailedChunkHasNoMatches(job, c);
    } else if state.status == Middle(false) {
      ReadJoins(job.reader, c - |head|, |head|, job.readSize);
      FullScanMatches(job, c);
    } else {
      TailScanMatches(job, c);
    }
  }

  /** The last chunk completes the result. */
  lemma LastChunkCompletes(
    job: Job, state: ScanState, head: seq<byte>, found: seq<ScanMatch>,
    stale: seq<byte>, tail: seq<byte>, results: seq<ScanMatch>)
    requires job.Valid() && Progress(job, state, head, found)
    requires ChunkScanned(job, state, head, stale, tail, results)
    requires job.range.end <= state.bufRange.start + job.readSize
    requires !job.reader.fails(state.bufRange) && state.status.Begin? ==> job.room <= job.readSize
    ensures found + results == ScanResult(job, stale)
  {
    var c := state.bufRange.start;
    assert c == job.range.start ==> found == [];
    hide Hits, BufferHits;
    ChunkStartSplits(job, c, c);
    if state.status.Begin? {
      assert state.bufRange == job.range;
      if !job.reader.fails(job.range) {
        ShortRangeResult(job, stale, tail);
      }
      assert found + results == results;
    } else {
      assert c == LastStart(job.range, job.readSize);
      LastChunkScanned(job, state, head, stale, tail, results);
    }
  }

  lemma LastChunkScanned(
    job: Job, state: ScanState, head: seq<byte>, stale: seq<byte>, tail: seq<byte>, results: seq<ScanMatch>)
    requires job.Valid() && Progress(job, state, head, job.Matches(job.range.start, state.bufRange.start - HeadSize(job.room)))
    requires ChunkScanned(job, state, head, stale, tail, results)
    requires state.status.Last? && state.bufRange.start == LastStart(job.range, job.readSize)
    requires job.range.Size() > job.readSize
    ensures results == LastChunkResult(job)
  {
    hide Hits, BufferHits;
    var c, size := state.bufRange.start, state.bufRange.Size();
    if !job.reader.fails(state.bufRange) {
      assert tail[..size] == job.reader.Read(c, size);
      if state.status.skipped {
        BufferHitsMoved(job.p, job.room, c, |head|, tail[..size], 0);
        forall x: nat | c <= x < job.range.end
          ensures job.Known(x)
        {
          ChunkKnown(job, c, x);
        }
        ReadableBufferMatches(job, c, job.range.end);
      } else {
        ReadJoins(job.reader, c - |head|, |head|, size);
        assert (head + tail)[..|head| + size] == head + tail[..size];
        FullScanMatches(job, c);
      }
    }
  }

  /** The loop goes on as the state machine does, with the tail's end as the new head after a good read. */
  lemma ScanGoesOn(
    job: Job, state: ScanState, head: seq<byte>, found: seq<ScanMatch>,
    stale: seq<byte>, tail: seq<byte>, results: seq<ScanMatch>, nextHead: seq<byte>)
    requires job.Valid() && Progress(job, state, head, found)
    requires ChunkScanned(job, state, head, stale, tail, results)
    requires NextChunk(state, job.reader.fails(state.bufRange)).status != End
    requires nextHead == if job.reader.fails(state.bufRange) then head else tail[job.readSize - |head|..]
    ensures Progress(job, NextChunk(state, job.reader.fails(state.bufRange)), nextHead, found + results)
  {
    hide Hits, BufferHits;
    var c := state.bufRange.start;
    assert c + job.readSize < job.range.end;
    ChunkAddsMatches(job, state, head, found, stale, tail, results);
    if !job.reader.fails(state.bufRange) {
      assert nextHead == job.reader.Read(c + job.readSize - |head|, |head|);
    }
  }

  /** The machine ends after the last chunk, and then the result is complete. */
  lemma ScanEnds(
    job: Job, state: ScanState, head: seq<byte>, found: seq<ScanMatch>,
    before: seq<byte>, tail: seq<byte>, results: seq<ScanMatch>, stale: seq<byte>)
    requires job.Valid() && Progress(job, state, head, found)
    requires ChunkScanned(job, state, head, before, tail, results)
    requires NextChunk(state, job.reader.fails(state.bufRange)).status == End
    requires !job.reader.fails(state.bufRange) && state.status.Begin? ==> job.room <= job.readSize
    requires |stale| == job.readSize && (state.status.Begin? ==> before == stale)
    ensures found + results == ScanResult(job, stale)
  {
    hide Hits, BufferHits;
    LastChunkCompletes(job, state, head, found, before, tail, results);
    ChunkStartSplits(job, state.bufRange.start, state.bufRange.start);
  }

  /** What has been found before any later chunk is a prefix of the result. */
  lemma {:induction false} FoundIsPrefix(job: Job, c: nat, stale: seq<byte>)
    requires job.Valid() && |stale| == job.readSize
    requires job.ChunkStart(c) && job.range.start + job.readSize <= c < job.range.end
    ensures job.Matches(job.range.start, c - HeadSize(job.room)) <= ScanResult(job, stale)
  {
    hide Hits;
    var head, last := HeadSize(job.room), LastStart(job.range, job.readSize);
    ChunkStartSplits(job, c, c);
    Aligned(c, head);
    MatchesSplit(job, job.range.start, c - head, last - head);
  }

  // What a lazy scan returns.

  /** From the chunk at `c` on: all that is decided once a chunk has brought the first matches. */
  ghost function LazyFrom(job: Job, c: nat, stale: seq<byte>): seq<ScanMatch>
    requires job.Valid() && |stale| == job.readSize && job.range.start <= c
    decreases job.range.end - c
  {
    if job.range.end <= c + job.readSize then
      ScanResult(job, stale)
    else
      var found := job.Matches(job.range.start, c + job.readSize - HeadSize(job.room));
      if found != [] then found else LazyFrom(job, c + job.readSize, stale)
  }

  ghost function LazyResult(job: Job, stale: seq<byte>): seq<ScanMatch>
    requires job.Valid() && |stale| == job.readSize
  {
    LazyFrom(job, job.range.start, stale)
  }

  /** A lazy result is a prefix of the full one, and empty only if that is. */
  lemma {:induction false} LazyIsPrefix(job: Job, c: nat, stale: seq<byte>)
    requires job.Valid() && |stale| == job.readSize && job.range.start <= c && job.ChunkStart(c)
    ensures LazyFrom(job, c, stale) <= ScanResult(job, stale)
    ensures LazyFrom(job, c, stale) == [] ==> ScanResult(job, stale) == []
    decreases job.range.end - c
  {
    hide Hits, ScanResult;
    if c + job.readSize < job.range.end {
      FoundIsPrefix(job, c + job.readSize, stale);
      LazyIsPrefix(job, c + job.readSize, stale);
    }
  }

  /** Nothing is decided before a chunk if nothing is decided before a later one. */
  lemma {:induction false} NothingEarlier(job: Job, d: nat, c: nat)
    requires job.Valid() && job.ChunkStart(d) && job.ChunkStart(c) && d <= c
    requires job.Matches(job.range.start, c - HeadSize(job.room)) == []
    ensures job.Matches(job.range.start, d - HeadSize(job.room)) == []
  {
    hide Hits, Readable;
    if d < c && job.range.start <= d - HeadSize(job.room) {
      ChunkStartSplits(job, d, d);
      Aligned(d, HeadSize(job.room));
      MatchesSplit(job, job.range.start, d - HeadSize(job.room), c - HeadSize(job.room));
    } else if d < c {
      NoCandidates(job, d - HeadSize(job.room));
    }
  }

  lemma NoCandidates(job: Job, b: int)
    requires job.Valid() && b <= job.range.start
    ensures job.Matches(job.range.start, b) == []
  {
  }

  /** While the chunks decide no match, a lazy scan goes on. */
  lemma {:induction false} LazyGoesOn(job: Job, c: nat, stale: seq<byte>)
    requires job.Valid() && |stale| == job.readSize && job.ChunkStart(c) && (c < job.range.end || c == job.range.start)
    requires job.Matches(job.range.start, c - HeadSize(job.room)) == []
    ensures LazyResult(job, stale) == LazyFrom(job, c, stale)
    decreases c
  {
    hide Hits, ScanResult, Readable;
    if c != job.range.start {
      NothingEarlier(job, c - job.readSize, c);
      LazyGoesOn(job, c - job.readSize, stale);
    }
  }

  /** A lazy scan returns all matches decided up to the first chunk that brings any, and none of a later chunk. */
  lemma {:induction false} LazyStopsAtChunk(job: Job, c: nat, stale: seq<byte>)
    requires job.Valid() && |stale| == job.readSize && job.ChunkStart(c) && c + job.readSize < job.range.end
    requires job.Matches(job.range.start, c - HeadSize(job.room)) == []
    requires job.Matches(job.range.start, c + job.readSize - HeadSize(job.room)) != []
    ensures Ascending(LazyResult(job, stale))
    ensures forall m :: m in LazyResult(job, stale) <==>
      IsHit(job.p, job.room, job.Snapshot(), job.range.start, c + job.readSize - HeadSize(job.room), m)
  {
    hide Hits, ScanResult, Readable, IsHit, Ascending;
    LazyGoesOn(job, c, stale);
    var end := c + job.readSize - HeadSize(job.room);
    HitsAscending(job.p, job.room, job.Snapshot(), job.range.start, end);
    forall m
      ensures m in job.Matches(job.range.start, end) <==> IsHit(job.p, job.room, job.Snapshot(), job.range.start, end, m)
    {
      HitsExact(job.p, job.room, job.Snapshot(), job.range.start, end, m);
    }
  }

  /** If only the last chunk is left to bring matches, a lazy scan returns what a full one does. */
  lemma {:induction false} LazyIsFull(job: Job, stale: seq<byte>)
    requires job.Valid() && |stale| == job.readSize && job.ChunkStart(LastStart(job.range, job.readSize))
    requires job.range.Size() > job.readSize ==>
               job.Matches(job.range.start, LastStart(job.range, job.readSize) - HeadSize(job.room)) == []
    ensures LazyResult(job, stale) == ScanResult(job, stale)
  {
    hide Hits, ScanResult, Readable;
    if job.range.Size() > job.readSize {
      LazyGoesOn(job, LastStart(job.range, job.readSize), stale);
    }
  }

  /** Two buffers that held different bytes return the same matches for a range of at least one read. */
  lemma StaleDoesNotShow(job: Job, stale: seq<byte>, other: seq<byte>)
    requires job.Valid() && |stale| == |other| == job.readSize <= job.range.Size()
    ensures ScanResult(job, stale) == ScanResult(job, other)
  {
    if job.range.Size() == job.readSize {
      HitsSameView(job.p, job.room, StaleView(job, stale), StaleView(job, other),
                   job.range.start, job.range.start + job.readSize - job.room + 1);
    }
  }

  lemma {:induction false} StaleDoesNotShowLazily(job: Job, c: nat, stale: seq<byte>, other: seq<byte>)
    requires job.Valid() && |stale| == |other| == job.readSize <= job.range.Size() && job.range.start <= c
    ensures LazyFrom(job, c, stale) == LazyFrom(job, c, other)
    decreases job.range.end - c
  {
    hide ScanResult;
    StaleDoesNotShow(job, stale, other);
    if c + job.readSize < job.range.end {
      StaleDoesNotShowLazily(job, c + job.readSize, stale, other);
    }
  }
}
