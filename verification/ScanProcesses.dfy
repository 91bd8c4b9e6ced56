/** When a scan of one process, made through a buffer attached to another, still answers for the first. */
module ScanProcesses {
  import opened Bytes
  import opened BytePatterns
  import opened ScanPatterns
  import opened AddressRanges
  import opened NaiveScan
  import opened ChunkedScan
  import opened ScanExactness

  /** What every process's memory holds, by process and address. */
  type Memories = (nat, nat) -> byte

  /** How reads of each process behave, whatever its memory holds. */
  type Readers = nat -> Reader

  /** The job done on process `id`. */
  function JobOn(job: Job, readers: Readers, memories: Memories, id: nat): Job {
    job.(reader := readers(id).(memory := (x: nat) => memories(id, x)))
  }

  /** A window at `a` that a scan of process `id` can see; what memory holds does not matter. */
  ghost predicate Sees(job: Job, readers: Readers, id: nat, a: nat)
    requires job.Valid()
  {
    && job.range.start <= a <= job.range.end - job.room
    && (a - job.range.start) % ALIGN_SIZE == 0
    && forall x: nat :: a <= x < a + job.room ==> Readable(readers(id).fails, job.range, job.readSize, x)
  }

  lemma SeesIsKnown(job: Job, readers: Readers, memories: Memories, id: nat, a: nat)
    requires job.Valid()
    requires job.range.start <= a <= job.range.end - job.room && (a - job.range.start) % ALIGN_SIZE == 0
    ensures JobOn(job, readers, memories, id).Valid()
    ensures Sees(job, readers, id, a) <==> Known(JobOn(job, readers, memories, id).Snapshot(), a, job.room)
  {
    var on := JobOn(job, readers, memories, id);
    forall x: nat | a <= x < a + job.room
      ensures on.Snapshot()(x).Some? <==> Readable(readers(id).fails, job.range, job.readSize, x)
    {
      assert on.Known(x) <==> Readable(readers(id).fails, job.range, job.readSize, x);
    }
  }

  /** Scanning process `used` gives the naive matches of process `own`, whatever both hold. */
  ghost predicate AlwaysOwn(job: Job, readers: Readers, used: nat, own: nat)
    requires job.Valid()
  {
    forall memories: Memories, stale: seq<byte> :: |stale| == job.readSize ==>
      ScanResult(JobOn(job, readers, memories, used), stale) == JobOn(job, readers, memories, own).Naive()
  }

  /** Nothing to tell two processes apart by: no window is seen, or the pattern has no bytes and the same windows are. */
  ghost predicate SameSight(job: Job, readers: Readers, used: nat, own: nat)
    requires job.Valid()
  {
    forall a: nat :: Sees(job, readers, used, a) || Sees(job, readers, own, a) ==>
      job.p.value == [] && Sees(job, readers, used, a) && Sees(job, readers, own, a)
  }

  /** A match of the naive scan on one process. */
  lemma OnHit(job: Job, readers: Readers, memories: Memories, id: nat, m: ScanMatch)
    requires job.Valid()
    ensures JobOn(job, readers, memories, id).Valid()
    ensures m in JobOn(job, readers, memories, id).Naive() ==>
      && Sees(job, readers, id, m.addr) && |m.value| == |job.p.value|
      && forall i :: 0 <= i < |m.value| ==> m.value[i] == memories(id, m.addr + i)
    ensures (Sees(job, readers, id, m.addr) && m.value == job.p.value
             && forall i :: 0 <= i < |m.value| ==> m.value[i] == memories(id, m.addr + i)) ==>
              m in JobOn(job, readers, memories, id).Naive()
  {
    hide Hits, Readable;
    var on := JobOn(job, readers, memories, id);
    HitsExact(on.p, on.room, on.Snapshot(), on.range.start, on.range.end - on.room + 1, m);
    if on.range.start <= m.addr <= on.range.end - on.room && (m.addr - on.range.start) % ALIGN_SIZE == 0 {
      SeesIsKnown(job, readers, memories, id, m.addr);
      if Sees(job, readers, id, m.addr) {
        assert forall i :: 0 <= i < |job.p.value| ==>
          BytesAt(on.Snapshot(), m.addr, |job.p.value|)[i] == memories(id, m.addr + i);
        if m.value == job.p.value && forall i :: 0 <= i < |m.value| ==> m.value[i] == memories(id, m.addr + i) {
          assert BytesAt(on.Snapshot(), m.addr, |job.p.value|) == m.value;
          PatternMatchesItself(job.p);
        }
      }
    }
  }

  lemma SameSightSameMatches(job: Job, readers: Readers, memories: Memories, used: nat, own: nat)
    requires job.Valid() && SameSight(job, readers, used, own)
    ensures JobOn(job, readers, memories, used).Naive() == JobOn(job, readers, memories, own).Naive()
  {
    hide Readable;
    var v, w := JobOn(job, readers, memories, used).Snapshot(), JobOn(job, readers, memories, own).Snapshot();
    var start, end := job.range.start, job.range.end - job.room + 1;
    forall x: nat | start <= x && Candidate(start, x)
      ensures Visible(v, job.room, end, x) <==> Visible(w, job.room, end, x)
      ensures Visible(v, job.room, end, x) ==> BytesAt(v, x, |job.p.value|) == BytesAt(w, x, |job.p.value|)
    {
      if x < end {
        SeesIsKnown(job, readers, memories, used, x);
        SeesIsKnown(job, readers, memories, own, x);
      }
    }
    HitsSameSight(job.p, job.room, v, end, job.room, w, end, start);
  }

  /** A process's byte where only process `id` holds the pattern, at `a`; all others differ from its first byte. */
  function PlantedByte(p: BytePattern, id: nat, a: nat, other: nat, x: nat): byte {
    if other == id then MemoryWith(p.value, a)(x) else if p.value != [] && p.value[0] == 0 then 1 else 0
  }

  function PlantedIn(p: BytePattern, id: nat, a: nat): Memories {
    (other: nat, x: nat) => PlantedByte(p, id, a, other, x)
  }

  /** A match that only one of two processes has. */
  lemma TellsApart(job: Job, readers: Readers, used: nat, own: nat) returns (memories: Memories)
    requires job.Valid() && used != own && !SameSight(job, readers, used, own)
    ensures JobOn(job, readers, memories, used).Naive() != JobOn(job, readers, memories, own).Naive()
  {
    hide Job.Naive, Sees;
    var a: nat :| (Sees(job, readers, used, a) || Sees(job, readers, own, a))
      && !(job.p.value == [] && Sees(job, readers, used, a) && Sees(job, readers, own, a));
    var m := ScanMatch(a, job.p.value);
    var id := if Sees(job, readers, used, a) then used else own;
    memories := PlantedIn(job.p, id, a);
    assert forall i :: 0 <= i < |m.value| ==> m.value[i] == memories(id, a + i);
    OnHit(job, readers, memories, used, m);
    OnHit(job, readers, memories, own, m);
    assert m.value != [] ==> m.value[0] != memories(used + own - id, a + 0);
  }

  /**
    * A guarded scan through a buffer that is attached to process `used` answers for process `own`, whatever
    * the memory of both holds, exactly if they are the same process or there is nothing to tell them apart by.
    */
  lemma ScansOwnProcessIff(job: Job, readers: Readers, used: nat, own: nat)
    requires job.Valid() && job.room <= job.readSize
    requires Guard(job.(reader := readers(used))) && PatternFitsLast(job.(reader := readers(used)))
    ensures AlwaysOwn(job, readers, used, own) <==> used == own || SameSight(job, readers, used, own)
  {
    hide SameSight, Readable, ScanResult, Job.Naive, Guard, PatternFitsLast;
    forall memories: Memories, stale: seq<byte> | |stale| == job.readSize
      ensures ScanResult(JobOn(job, readers, memories, used), stale) == JobOn(job, readers, memories, used).Naive()
    {
      SameGuard(job, readers, memories, used);
      ExactWhenGuarded(JobOn(job, readers, memories, used), stale);
    }
    if used == own || SameSight(job, readers, used, own) {
      forall memories: Memories
        ensures JobOn(job, readers, memories, used).Naive() == JobOn(job, readers, memories, own).Naive()
      {
        if used != own {
          SameSightSameMatches(job, readers, memories, used, own);
        }
      }
    } else {
      var memories := TellsApart(job, readers, used, own);
      assert ScanResult(JobOn(job, readers, memories, used), Zeros(job.readSize))
          == JobOn(job, readers, memories, used).Naive();
    }
  }

  /** The guard looks at the reads that fail, not at the memory. */
  lemma SameGuard(job: Job, readers: Readers, memories: Memories, id: nat)
    requires job.Valid() && job.room <= job.readSize
    ensures Guard(JobOn(job, readers, memories, id)) == Guard(job.(reader := readers(id)))
    ensures PatternFitsLast(JobOn(job, readers, memories, id)) == PatternFitsLast(job.(reader := readers(id)))
  {
  }
}
