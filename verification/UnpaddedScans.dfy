/** When a scan finds every match that a pattern's own bytes have, although its windows are padded. */
module UnpaddedScans {
  import opened Wrappers
  import opened Bytes
  import opened BytePatterns
  import opened ScanPatterns
  import opened AddressRanges
  import opened NaiveScan
  import opened ChunkedScan
  import opened ScanExactness

  /** How many readable bytes a match of the pattern's own bytes needs: all of them, and at least one. */
  function OwnRoom(p: BytePattern): (n: nat)
    ensures n >= 1 && n >= |p.value|
  {
    if p.value == [] then 1 else |p.value|
  }

  /** All aligned matches of the pattern's own bytes in what could be read of the range. */
  ghost function Unpadded(job: Job): seq<ScanMatch>
    requires job.Valid()
  {
    Hits(job.p, OwnRoom(job.p), job.Snapshot(), job.range.start, job.range.end - OwnRoom(job.p) + 1)
  }

  /** Wherever the pattern's own bytes can be read, there is room for the padded window too. */
  ghost predicate RoomEverywhere(job: Job)
    requires job.Valid()
  {
    forall a: nat :: Candidate(job.range.start, a) && Known(job.Snapshot(), a, OwnRoom(job.p)) ==>
      Known(job.Snapshot(), a, job.room)
  }

  /**
    * Padding costs no match: a range of at most one read is scanned to the end of the tail, which must be
    * as far as the pattern's own bytes go in the range; in a longer range no padded window may lack room.
    */
  ghost predicate PaddingFits(job: Job)
    requires job.Valid() && job.room <= job.readSize
  {
    var size, own := job.range.Size(), OwnRoom(job.p);
    if size <= job.readSize then
      job.reader.fails(job.range) || (own <= size && (job.readSize - job.room) / ALIGN_SIZE == (size - own) / ALIGN_SIZE)
    else
      Guard(job) && RoomEverywhere(job)
  }

  ghost predicate FindsUnpadded(job: Job, memory: nat -> byte, stale: seq<byte>)
    requires job.Valid() && |stale| == job.readSize
  {
    ScanResult(WithMemory(job, memory), stale) == Unpadded(WithMemory(job, memory))
  }

  /** What is known does not depend on what memory holds. */
  lemma SameKnown(job: Job, memory: nat -> byte, a: nat, n: nat)
    requires job.Valid()
    ensures WithMemory(job, memory).Valid()
    ensures Known(WithMemory(job, memory).Snapshot(), a, n) <==> Known(job.Snapshot(), a, n)
  {
    var with := WithMemory(job, memory);
    forall x: nat
      ensures with.Snapshot()(x).Some? <==> job.Snapshot()(x).Some?
    {
      assert with.Known(x) <==> job.Known(x);
    }
  }

  lemma SamePadding(job: Job, memory: nat -> byte)
    requires job.Valid() && job.room <= job.readSize && PaddingFits(job) && PatternFitsLast(job)
    ensures WithMemory(job, memory).Valid()
    ensures PatternFitsLast(WithMemory(job, memory)) && PaddingFits(WithMemory(job, memory))
  {
    hide Known;
    var with := WithMemory(job, memory);
    forall a: nat
      ensures Known(with.Snapshot(), a, job.room) <==> Known(job.Snapshot(), a, job.room)
      ensures Known(with.Snapshot(), a, OwnRoom(job.p)) <==> Known(job.Snapshot(), a, OwnRoom(job.p))
    {
      SameKnown(job, memory, a, job.room);
      SameKnown(job, memory, a, OwnRoom(job.p));
    }
  }

  /** With room everywhere the naive scan misses nothing. */
  lemma NaiveIsUnpadded(job: Job)
    requires job.Valid() && RoomEverywhere(job)
    ensures job.Naive() == Unpadded(job)
  {
    hide Hits;
    var own, view := OwnRoom(job.p), job.Snapshot();
    var start, b, c := job.range.start, job.range.end - job.room + 1, job.range.end - own + 1;
    forall x: nat | start <= x && Candidate(start, x)
      ensures Visible(view, job.room, b, x) <==> Visible(view, own, c, x)
    {
      if Visible(view, own, c, x) {
        KnownInside(job, x, job.room);
      }
    }
    HitsSameSight(job.p, job.room, view, b, own, view, c, start);
  }

  /** The tail and the pattern's own bytes go equally far. */
  lemma ShortRangeUnpadded(job: Job, stale: seq<byte>)
    requires job.Valid() && job.room <= job.readSize && |stale| == job.readSize
    requires job.range.Size() <= job.readSize && PaddingFits(job)
    ensures ScanResult(job, stale) == Unpadded(job)
  {
    hide Hits, Readable;
    var own, view, known := OwnRoom(job.p), StaleView(job, stale), job.Snapshot();
    var start, b, c := job.range.start, job.range.start + job.readSize - job.room + 1, job.range.end - own + 1;
    if job.reader.fails(job.range) {
      forall x: nat | start <= x < c
        ensures !Known(known, x, own)
      {
        ChunkKnown(job, start, x);
        assert known(x) == None;
      }
      HitsUnknown(job.p, own, known, start, c);
    } else {
      forall x: nat | start <= x && Candidate(start, x)
        ensures Visible(view, job.room, b, x) <==> Visible(known, own, c, x)
        ensures Visible(view, job.room, b, x) ==> BytesAt(view, x, |job.p.value|) == BytesAt(known, x, |job.p.value|)
      {
        CandidateBound(x - start, job.readSize - job.room);
        CandidateBound(x - start, job.range.Size() - own);
        if x < b {
          WindowSame(job, stale, x);
        }
      }
      HitsSameSight(job.p, job.room, view, b, own, known, c, start);
    }
  }

  /** Inside the range, the tail holds what the naive scan sees. */
  lemma WindowSame(job: Job, stale: seq<byte>, a: nat)
    requires job.Valid() && job.room <= job.readSize && |stale| == job.readSize
    requires job.range.Size() <= job.readSize && !job.reader.fails(job.range)
    requires job.range.start <= a && a + job.room <= job.range.start + job.readSize && a + OwnRoom(job.p) <= job.range.end
    ensures Known(StaleView(job, stale), a, job.room) && Known(job.Snapshot(), a, OwnRoom(job.p))
    ensures BytesAt(StaleView(job, stale), a, |job.p.value|) == BytesAt(job.Snapshot(), a, |job.p.value|)
  {
    forall x: nat | a <= x < a + OwnRoom(job.p)
      ensures job.Snapshot()(x) == StaleView(job, stale)(x) == Some(job.reader.memory(x))
    {
      assert job.Known(x);
    }
  }

  // The failing half: one planted pattern.

  function PlantedTail(p: BytePattern, size: nat, w: nat): (stale: seq<byte>)
    ensures |stale| == size
  {
    seq<byte>(size, i requires 0 <= i < size => MemoryWith(p.value, w)(i))
  }

  /** A pattern that lies at `a`, in the range or past it, is found if the tail has room ... */
  lemma PlantedInTail(job: Job, a: nat)
    requires job.Valid() && job.room <= job.readSize
    requires job.range.Size() <= job.readSize && !job.reader.fails(job.range)
    requires job.range.start <= a && Candidate(job.range.start, a)
    ensures var with := WithMemory(job, MemoryWith(job.p.value, a));
      var stale := PlantedTail(job.p, job.readSize, a - job.range.start);
      ScanMatch(a, job.p.value) in ScanResult(with, stale) <==> a + job.room <= job.range.start + job.readSize
  {
    hide Hits, Readable, Known, HitAt, PlantedTail, StaleView;
    var start, m := job.range.start, ScanMatch(a, job.p.value);
    var with, stale := WithMemory(job, MemoryWith(job.p.value, a)), PlantedTail(job.p, job.readSize, a - start);
    HitsExact(job.p, job.room, StaleView(with, stale), start, start + job.readSize - job.room + 1, m);
    if a + job.room <= start + job.readSize {
      PlantedView(job, a);
      PlantedIsHit(job.p, job.room, StaleView(with, stale), a, start, start + job.readSize - job.room + 1);
    }
  }

  lemma PlantedView(job: Job, a: nat)
    requires job.Valid() && job.range.Size() <= job.readSize
    requires job.range.start <= a && a + job.room <= job.range.start + job.readSize
    ensures var with := WithMemory(job, MemoryWith(job.p.value, a));
      var stale := PlantedTail(job.p, job.readSize, a - job.range.start);
      && Known(StaleView(with, stale), a, job.room)
      && forall x: nat :: a <= x < a + |job.p.value| ==> StaleView(with, stale)(x) == Some(job.p.value[x - a])
  {
    hide Readable;
    var start := job.range.start;
    var with, stale := WithMemory(job, MemoryWith(job.p.value, a)), PlantedTail(job.p, job.readSize, a - start);
    forall x: nat | a <= x < a + job.room
      ensures StaleView(with, stale)(x) == Some(with.reader.memory(x))
    {
      var i: nat := x - start;
      assert stale[i] == MemoryWith(job.p.value, a - start)(i);
    }
  }

  /** ... and should be if the range has. */
  lemma PlantedInRange(job: Job, a: nat)
    requires job.Valid() && job.range.start <= a && Candidate(job.range.start, a)
    requires a + OwnRoom(job.p) <= job.range.end ==> Known(job.Snapshot(), a, OwnRoom(job.p))
    ensures ScanMatch(a, job.p.value) in Unpadded(WithMemory(job, MemoryWith(job.p.value, a)))
        <==> a + OwnRoom(job.p) <= job.range.end
  {
    hide Hits, Readable;
    var own := OwnRoom(job.p);
    var with := WithMemory(job, MemoryWith(job.p.value, a));
    HitsExact(job.p, own, with.Snapshot(), job.range.start, job.range.end - own + 1, ScanMatch(a, job.p.value));
    if a + own <= job.range.end {
      SameKnown(job, with.reader.memory, a, own);
      KnownHolds(with, a, own);
      PlantedIsHit(job.p, own, with.Snapshot(), a, job.range.start, job.range.end - own + 1);
    }
  }

  lemma KnownHolds(job: Job, a: nat, n: nat)
    requires job.Valid() && Known(job.Snapshot(), a, n)
    ensures forall x: nat :: a <= x < a + n ==> job.Snapshot()(x) == Some(job.reader.memory(x))
  {
  }

  lemma ShortRangeKnown(job: Job, a: nat, n: nat)
    requires job.Valid() && job.range.Size() <= job.readSize && !job.reader.fails(job.range)
    requires job.range.start <= a && a + n <= job.range.end
    ensures Known(job.Snapshot(), a, n)
  {
    forall x: nat | a <= x < a + n
      ensures job.Snapshot()(x).Some?
    {
      assert job.Known(x);
    }
  }

  lemma ShortRangeMisses(job: Job) returns (memory: nat -> byte, stale: seq<byte>)
    requires job.Valid() && job.room <= job.readSize
    requires job.range.Size() <= job.readSize && !PaddingFits(job)
    ensures |stale| == job.readSize && !FindsUnpadded(job, memory, stale)
  {
    hide ScanResult, Unpadded;
    var start, size, own := job.range.start, job.range.Size(), OwnRoom(job.p);
    var inTail, inRange := (job.readSize - job.room) / ALIGN_SIZE, if own <= size then (size - own) / ALIGN_SIZE else -1;
    var a := start + ALIGN_SIZE * if inTail < inRange then inRange else inTail;
    PlantedInTail(job, a);
    if a + own <= job.range.end {
      ShortRangeKnown(job, a, own);
    }
    PlantedInRange(job, a);
    memory, stale := MemoryWith(job.p.value, a), PlantedTail(job.p, job.readSize, a - start);
  }

  /** A candidate without room for the padded window is not reported, whatever is there. */
  lemma LongRangeMisses(job: Job, stale: seq<byte>, a: nat)
    requires job.Valid() && job.room <= job.readSize && |stale| == job.readSize
    requires job.range.Size() > job.readSize && PatternFitsLast(job) && Guard(job)
    requires Candidate(job.range.start, a) && Known(job.Snapshot(), a, OwnRoom(job.p)) && !Known(job.Snapshot(), a, job.room)
    ensures !FindsUnpadded(job, MemoryWith(job.p.value, a), stale)
  {
    hide Hits, Readable, ScanResult, Known, Unpadded;
    var with, m := WithMemory(job, MemoryWith(job.p.value, a)), ScanMatch(a, job.p.value);
    KnownInside(job, a, OwnRoom(job.p));
    PlantedInRange(job, a);
    SameKnown(job, with.reader.memory, a, job.room);
    ExactWhenGuarded(with, stale);
    HitsExact(job.p, job.room, with.Snapshot(), job.range.start, job.range.end - job.room + 1, m);
  }

  /** Shifted matches are reported where the pattern's own bytes could not be read. */
  lemma ShiftedIsNoMatch(job: Job, stale: seq<byte>)
    requires job.Valid() && job.room <= job.readSize && |stale| == job.readSize
    requires job.range.Size() > job.readSize && !Guard(job) && PatternFitsLast(job)
    ensures !FindsUnpadded(job, MemoryWith(job.p.value, LastStart(job.range, job.readSize)), stale)
  {
    hide Hits, Readable, ScanResult;
    var c, head, own := LastStart(job.range, job.readSize), HeadSize(job.room), OwnRoom(job.p);
    var bad, reported := WithMemory(job, MemoryWith(job.p.value, c)), ScanMatch(c - head, job.p.value);
    ShiftedIsReported(job, stale);
    LastStartIsChunkStart(bad);
    ChunkKnown(bad, c - job.readSize, c - head);
    assert bad.Snapshot()(c - head) == None;
    HitsExact(job.p, own, bad.Snapshot(), job.range.start, job.range.end - own + 1, reported);
  }

  /**
    * The scan finds exactly the matches of the pattern's own bytes, whatever memory holds and whatever was
    * in the buffer before, if and only if padding fits.
    */
  lemma UnpaddedExactIff(job: Job)
    requires job.Valid() && job.room <= job.readSize && PatternFitsLast(job)
    ensures PaddingFits(job)
        <==> forall memory: nat -> byte, stale: seq<byte> :: |stale| == job.readSize ==> FindsUnpadded(job, memory, stale)
  {
    hide Guard, RoomEverywhere, PatternFitsLast, ScanResult, Unpadded;
    if PaddingFits(job) {
      forall memory: nat -> byte, stale: seq<byte> | |stale| == job.readSize
        ensures FindsUnpadded(job, memory, stale)
      {
        var with := WithMemory(job, memory);
        SamePadding(job, memory);
        if job.range.Size() <= job.readSize {
          ShortRangeUnpadded(with, stale);
        } else {
          ExactWhenGuarded(with, stale);
          NaiveIsUnpadded(with);
        }
      }
    } else if job.range.Size() <= job.readSize {
      var memory, stale := ShortRangeMisses(job);
    } else if Guard(job) {
      var a := WithoutRoom(job);
      LongRangeMisses(job, Zeros(job.readSize), a);
    } else {
      ShiftedIsNoMatch(job, Zeros(job.readSize));
    }
  }

  lemma WithoutRoom(job: Job) returns (a: nat)
    requires job.Valid() && !RoomEverywhere(job)
    ensures Candidate(job.range.start, a) && Known(job.Snapshot(), a, OwnRoom(job.p)) && !Known(job.Snapshot(), a, job.room)
  {
    a :| Candidate(job.range.start, a) && Known(job.Snapshot(), a, OwnRoom(job.p)) && !Known(job.Snapshot(), a, job.room);
  }

  /** Where everything can be read, only the last candidate of the range counts. */
  lemma AllReadRoomIff(job: Job)
    requires job.Valid() && job.room <= job.range.Size()
    requires AllKnown(job)
    ensures RoomEverywhere(job)
        <==> (job.range.Size() - job.room) / ALIGN_SIZE == (job.range.Size() - OwnRoom(job.p)) / ALIGN_SIZE
  {
    var start, size, own := job.range.start, job.range.Size(), OwnRoom(job.p);
    var last := start + (size - own) / ALIGN_SIZE * ALIGN_SIZE;
    CandidateBound(last - start, size - own);
    CandidateBound(last - start, size - job.room);
    assert Candidate(start, last) && Known(job.Snapshot(), last, own);
    if RoomEverywhere(job) {
      KnownInside(job, last, job.room);
    }
    if (size - job.room) / ALIGN_SIZE == (size - own) / ALIGN_SIZE {
      forall a: nat | Candidate(start, a) && Known(job.Snapshot(), a, own)
        ensures Known(job.Snapshot(), a, job.room)
      {
        KnownInside(job, a, own);
        CandidateBound(a - start, size - own);
        CandidateBound(a - start, size - job.room);
      }
    }
  }

  /** A one-byte pattern in a range of two reads, all of them good. */
  function SevenJob(memory: nat -> byte): Job {
    Job(BytePattern([7], None), 32, Reader(0, memory, r => false, r => []), AddressRange(0, 64), 32)
  }

  lemma SevenJobGuarded(memory: nat -> byte)
    ensures SevenJob(memory).Valid() && Guard(SevenJob(memory)) && PatternFitsLast(SevenJob(memory))
    ensures SevenJob(memory).Known(60)
  {
    assert LastStart(AddressRange(32, 64), 32) == 32;
  }

  /** The guard holds, and the match four bytes before the end of the range is missed. */
  lemma PaddingHidesMatch(memory: nat -> byte, stale: seq<byte>)
    requires memory(60) == 7 && |stale| == 32
    ensures var job := SevenJob(memory);
      && job.Valid() && Guard(job) && PatternFitsLast(job)
      && ScanMatch(60, [7]) in Unpadded(job) && ScanMatch(60, [7]) !in ScanResult(job, stale)
  {
    SevenJobGuarded(memory);
    hide Hits, ScanResult, Guard, PatternFitsLast, Readable;
    var job := SevenJob(memory);
    ExactWhenGuarded(job, stale);
    HitsExact(job.p, 32, job.Snapshot(), 0, 33, ScanMatch(60, [7]));
    PlantedIsHit(job.p, 1, job.Snapshot(), 60, 0, 64);
  }
}
