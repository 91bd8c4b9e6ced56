/** The state machine that walks a scan through a range one read at a time. */
module ScanStates {
  import opened AddressRanges

  /** `skipped` records whether the read before this one failed. */
  datatype ScanStatus = Begin | Middle(skipped: bool) | Last(skipped: bool) | End

  datatype ScanState = ScanState(
    bufRange: AddressRange,
    readSize: nat,
    scanRange: AddressRange,
    status: ScanStatus)
  {
    predicate Valid() {
      && bufRange.Valid()
      && scanRange.start <= bufRange.start
      && bufRange.end <= scanRange.end
      && readSize > 0
    }

    /** Decreases with every read. */
    function ReadsLeft(): nat
      requires Valid()
    {
      match status
      case Begin => 2 + (scanRange.end - bufRange.end)
      case Middle(_) => 2 + (scanRange.end - bufRange.end)
      case Last(_) => 1
      case End => 0
    }
  }

  function Min(a: nat, b: nat): nat {
    if a <= b then a else b
  }

  function Start(scanRange: AddressRange, readSize: nat): (state: ScanState)
    requires scanRange.Valid() && readSize > 0
    ensures state.Valid()
  {
    ScanState(
      AddressRange(scanRange.start, Min(scanRange.end, scanRange.start + readSize)),
      readSize,
      scanRange,
      Begin)
  }

  function NextChunk(state: ScanState, skippedLast: bool): (next: ScanState)
    requires state.Valid()
    ensures next.Valid()
    ensures state.status != End ==> next.ReadsLeft() < state.ReadsLeft()
  {
    match state.status
    case Begin => Advance(state, skippedLast)
    case Middle(_) => Advance(state, skippedLast)
    case Last(_) => state.(status := End)
    case End => state
  }

  function Advance(state: ScanState, skippedLast: bool): (next: ScanState)
    requires state.Valid()
  {
    var newStart := state.bufRange.end;
    var bytesTillEnd := state.scanRange.end - state.bufRange.end;
    var (newEnd, newStatus) :=
      if bytesTillEnd == 0 then
        (state.scanRange.end, End)
      else if bytesTillEnd <= state.readSize then
        (state.scanRange.end, Last(skippedLast))
      else
        (newStart + state.readSize, Middle(skippedLast));
    state.(bufRange := AddressRange(newStart, newEnd), status := newStatus)
  }

  /** The reads that cover a range: consecutive, all but the last exactly `readSize` long. */
  function Chunks(range: AddressRange, readSize: nat): (chunks: seq<AddressRange>)
    requires range.Valid() && readSize > 0
    ensures |chunks| > 0
    decreases range.Size()
  {
    if range.Size() <= readSize then
      [range]
    else
      [AddressRange(range.start, range.start + readSize)]
      + Chunks(AddressRange(range.start + readSize, range.end), readSize)
  }

  /** The states the machine goes through before it ends, given which reads fail. */
  ghost function Run(state: ScanState, fails: AddressRange -> bool): seq<ScanState>
    requires state.Valid()
    decreases state.ReadsLeft()
  {
    if state.status == End then [] else [state] + Run(NextChunk(state, fails(state.bufRange)), fails)
  }

  /** Chunks tile their range without gaps or overlaps, in order. */
  lemma {:induction false} ChunksTile(range: AddressRange, readSize: nat)
    requires range.Valid() && readSize > 0
    ensures var chunks := Chunks(range, readSize);
            && chunks[0].start == range.start
            && chunks[|chunks| - 1].end == range.end
            && (forall i :: 0 <= i < |chunks| ==> chunks[i].Valid())
            && (forall i :: 0 < i < |chunks| ==> chunks[i].start == chunks[i - 1].end)
            && (forall i :: 0 <= i < |chunks| - 1 ==> chunks[i].end - chunks[i].start == readSize)
            && chunks[|chunks| - 1].end - chunks[|chunks| - 1].start <= readSize
            && (range.Size() > 0 ==> chunks[|chunks| - 1].start < range.end)
    decreases range.Size()
  {
    if range.Size() > readSize {
      var first, left := AddressRange(range.start, range.start + readSize), AddressRange(range.start + readSize, range.end);
      var rest := Chunks(left, readSize);
      ChunksTile(left, readSize);
      assert Chunks(range, readSize) == [first] + rest;
      hide Chunks;
      assert forall i :: 0 < i < |[first] + rest| ==> ([first] + rest)[i] == rest[i - 1];
    }
  }

  /** There are max(1, ceil(size / readSize)) chunks. */
  lemma {:induction false} ChunkCount(range: AddressRange, readSize: nat)
    requires range.Valid() && readSize > 0
    ensures var n := |Chunks(range, readSize)|;
            (n - 1) * readSize <= range.Size() <= n * readSize
    ensures range.Size() > 0 ==> (|Chunks(range, readSize)| - 1) * readSize < range.Size()
    ensures range.Size() == 0 ==> |Chunks(range, readSize)| == 1
    decreases range.Size()
  {
    if range.Size() > readSize {
      var rest := AddressRange(range.start + readSize, range.end);
      ChunkCount(rest, readSize);
      var n := |Chunks(rest, readSize)|;
      assert n * readSize == (n - 1) * readSize + readSize;
      assert (n + 1) * readSize == n * readSize + readSize;
    }
  }

  /**
    * The machine reads exactly the chunks, in order, whichever reads fail; it remembers whether the
    * read before failed, and it is in its last state exactly at the last of several chunks.
    */
  lemma {:induction false} RunReadsChunks(state: ScanState, fails: AddressRange -> bool)
    requires state.Valid() && state.status != End
    requires !state.status.Last? ==> state.bufRange.end == Min(state.scanRange.end, state.bufRange.start + state.readSize)
    requires state.status.Last? ==>
               state.bufRange.end == state.scanRange.end <= state.bufRange.start + state.readSize
    requires state.status.Middle? ==> state.bufRange.end < state.scanRange.end
    ensures var run := Run(state, fails);
            var chunks := Chunks(AddressRange(state.bufRange.start, state.scanRange.end), state.readSize);
            && |run| == |chunks|
            && run[0] == state
            && (forall i :: 0 <= i < |run| ==> run[i].bufRange == chunks[i])
            && (forall i :: 0 < i < |run| - 1 ==> run[i].status == Middle(fails(chunks[i - 1])))
            && (forall i :: 0 < i == |run| - 1 ==> run[i].status == Last(fails(chunks[i - 1])))
    decreases state.ReadsLeft()
  {
    var next := NextChunk(state, fails(state.bufRange));
    var run, rest := Run(state, fails), Run(next, fails);
    assert run == [state] + rest;
    var left := AddressRange(state.bufRange.start, state.scanRange.end);
    if next.status == End {
      assert Chunks(left, state.readSize) == [left];
    } else {
      RunReadsChunks(next, fails);
      var restChunks := Chunks(AddressRange(next.bufRange.start, next.scanRange.end), next.readSize);
      assert Chunks(left, state.readSize) == [state.bufRange] + restChunks;
      forall i | 0 < i < |run|
        ensures run[i] == rest[i - 1] && Chunks(left, state.readSize)[i] == restChunks[i - 1]
      {
      }
    }
  }
}
