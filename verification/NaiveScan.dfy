/** The scan that the chunked scanner is meant to equal: look at every aligned address in turn. */
module NaiveScan {
  import opened Wrappers
  import opened Bytes
  import opened BytePatterns
  import opened ScanPatterns

  /** The bytes a scan can see; `None` where memory could not be read. */
  type View = nat -> Option<byte>

  ghost predicate Known(view: View, a: nat, n: nat) {
    forall x: nat :: a <= x < a + n ==> view(x).Some?
  }

  ghost function BytesAt(view: View, a: nat, n: nat): (bs: seq<byte>)
    requires Known(view, a, n)
    ensures |bs| == n && forall i: nat :: i < n ==> bs[i] == view(a + i).value
  {
    seq<byte>(n, i requires 0 <= i < n => view(a + i).value)
  }

  /** A match of `p` at `a`, with `room` readable bytes from `a` on. */
  ghost predicate HitAt(p: BytePattern, room: nat, view: View, a: nat)
    requires p.Valid() && |p.value| <= room
  {
    Known(view, a, room) && p.Matches(BytesAt(view, a, |p.value|))
  }

  /** All matches at the addresses `a`, `a + 4`, `a + 8`, ... below `b`, in address order. */
  ghost function Hits(p: BytePattern, room: nat, view: View, a: nat, b: int): seq<ScanMatch>
    requires p.Valid() && |p.value| <= room
    decreases b - a
  {
    if a >= b then
      []
    else
      (if HitAt(p, room, view, a) then [ScanMatch(a, BytesAt(view, a, |p.value|))] else [])
      + Hits(p, room, view, a + ALIGN_SIZE, b)
  }

  /** The matches of `Hits` lie on its candidate addresses and are what memory holds there. */
  ghost predicate IsHit(p: BytePattern, room: nat, view: View, a: nat, b: int, m: ScanMatch)
    requires p.Valid() && |p.value| <= room
  {
    && a <= m.addr < b
    && (m.addr - a) % ALIGN_SIZE == 0
    && HitAt(p, room, view, m.addr)
    && m.value == BytesAt(view, m.addr, |p.value|)
  }

  ghost predicate Ascending(ms: seq<ScanMatch>) {
    forall i, j :: 0 <= i < j < |ms| ==> ms[i].addr < ms[j].addr
  }

  /** `Hits` finds exactly the aligned matches ... */
  lemma {:induction false} HitsExact(p: BytePattern, room: nat, view: View, a: nat, b: int, m: ScanMatch)
    requires p.Valid() && |p.value| <= room
    ensures m in Hits(p, room, view, a, b) <==> IsHit(p, room, view, a, b, m)
    decreases b - a
  {
    if a < b {
      HitsExact(p, room, view, a + ALIGN_SIZE, b, m);
      assert (m.addr - (a + ALIGN_SIZE)) % ALIGN_SIZE == (m.addr - a) % ALIGN_SIZE;
      assert IsHit(p, room, view, a, b, m) <==>
        (m.addr == a && IsHit(p, room, view, a, b, m)) || IsHit(p, room, view, a + ALIGN_SIZE, b, m);
    }
  }

  /** ... once each and in address order. */
  lemma {:induction false} HitsAscending(p: BytePattern, room: nat, view: View, a: nat, b: int)
    requires p.Valid() && |p.value| <= room
    ensures Ascending(Hits(p, room, view, a, b))
    decreases b - a
  {
    if a < b {
      var rest := Hits(p, room, view, a + ALIGN_SIZE, b);
      HitsAscending(p, room, view, a + ALIGN_SIZE, b);
      forall i | 0 <= i < |rest|
        ensures a < rest[i].addr
      {
        HitsExact(p, room, view, a + ALIGN_SIZE, b, rest[i]);
      }
    }
  }

  /** Neighbouring stretches of candidates add up: no gap and no duplicate. */
  lemma {:induction false} HitsSplit(p: BytePattern, room: nat, view: View, a: nat, b: nat, c: int)
    requires p.Valid() && |p.value| <= room
    requires a <= b <= c && (b - a) % ALIGN_SIZE == 0
    ensures Hits(p, room, view, a, c) == Hits(p, room, view, a, b) + Hits(p, room, view, b, c)
    decreases b - a
  {
    if a < b {
      HitsSplit(p, room, view, a + ALIGN_SIZE, b, c);
    }
  }

  /** Only the aligned bound matters. */
  lemma {:induction false} HitsRoundUp(p: BytePattern, room: nat, view: View, a: nat, b: int, c: int)
    requires p.Valid() && |p.value| <= room
    requires b <= c < b + ALIGN_SIZE && (c - a) % ALIGN_SIZE == 0
    ensures Hits(p, room, view, a, b) == Hits(p, room, view, a, c)
    decreases c - a
  {
    if a < c {
      HitsRoundUp(p, room, view, a + ALIGN_SIZE, b, c);
    }
  }

  /** Where every candidate runs into an unreadable byte there are no matches. */
  lemma {:induction false} HitsUnknown(p: BytePattern, room: nat, view: View, a: nat, b: int)
    requires p.Valid() && |p.value| <= room
    requires forall x: nat :: a <= x < b ==> !Known(view, x, room)
    ensures Hits(p, room, view, a, b) == []
    decreases b - a
  {
    if a < b {
      assert !Known(view, a, room);
      HitsUnknown(p, room, view, a + ALIGN_SIZE, b);
    }
  }

  /** Matches depend on nothing but the bytes seen. */
  lemma {:induction false} HitsSameView(p: BytePattern, room: nat, v: View, w: View, a: nat, b: int)
    requires p.Valid() && |p.value| <= room
    requires forall x: nat :: a <= x < b + room - 1 ==> v(x) == w(x)
    ensures Hits(p, room, v, a, b) == Hits(p, room, w, a, b)
    decreases b - a
  {
    if a < b {
      HitSameView(p, room, v, w, a);
      HitsSameView(p, room, v, w, a + ALIGN_SIZE, b);
    }
  }

  lemma HitSameView(p: BytePattern, room: nat, v: View, w: View, a: nat)
    requires p.Valid() && |p.value| <= room
    requires forall x: nat :: a <= x < a + room ==> v(x) == w(x)
    ensures Known(v, a, room) == Known(w, a, room)
    ensures Known(v, a, room) ==> BytesAt(v, a, |p.value|) == BytesAt(w, a, |p.value|)
    ensures HitAt(p, room, v, a) == HitAt(p, room, w, a)
  {
  }

  predicate Candidate(a: int, x: int) {
    (x - a) % ALIGN_SIZE == 0
  }

  /** A candidate below `b` with `room` known bytes. */
  ghost predicate Visible(view: View, room: nat, b: int, x: nat) {
    x < b && Known(view, x, room)
  }

  /** Scans that see the same candidates and the same bytes there match alike, whatever their room and bounds. */
  lemma {:induction false} HitsSameSight(
    p: BytePattern, room: nat, v: View, b: int, other: nat, w: View, c: int, a: nat)
    requires p.Valid() && |p.value| <= room && |p.value| <= other
    requires forall x: nat :: a <= x && Candidate(a, x) ==>
      && (Visible(v, room, b, x) <==> Visible(w, other, c, x))
      && (Visible(v, room, b, x) ==> BytesAt(v, x, |p.value|) == BytesAt(w, x, |p.value|))
    ensures Hits(p, room, v, a, b) == Hits(p, other, w, a, c)
    decreases (if b < c then c else b) - a
  {
    if a < b || a < c {
      assert Candidate(a, a);
      assert forall x: nat :: Candidate(a + ALIGN_SIZE, x) ==> Candidate(a, x);
      HitsSameSight(p, room, v, b, other, w, c, a + ALIGN_SIZE);
    }
  }

  lemma BufferWindowIsView(p: BytePattern, room: nat, view: View, base: nat, buf: seq<byte>, off: nat)
    requires p.Valid() && |p.value| <= room && off + room <= |buf|
    requires forall x: nat :: base <= x < base + |buf| ==> view(x) == Some(buf[x - base])
    ensures Known(view, base + off, room)
    ensures BytesAt(view, base + off, |p.value|) == buf[off..][..|p.value|]
  {
  }

  /** Scanning a buffer is scanning the addresses it was filled from. */
  lemma {:induction false} BufferHitsAreHits(
    p: BytePattern, room: nat, view: View, base: nat, buf: seq<byte>, off: nat)
    requires p.Valid() && |p.value| <= room && 1 <= room
    requires forall x: nat :: base <= x < base + |buf| ==> view(x) == Some(buf[x - base])
    ensures BufferHits(p, room, base, buf, off) == Hits(p, room, view, base + off, base + |buf| - room + 1)
    decreases |buf| - off
  {
    hide BytePattern.Matches;
    if off + room <= |buf| {
      BufferWindowIsView(p, room, view, base, buf, off);
      BufferHitsAreHits(p, room, view, base, buf, off + ALIGN_SIZE);
    }
  }

  /** Every pattern matches some window: its own value, whatever pads it. */
  lemma PatternMatchesItself(p: BytePattern)
    requires p.Valid()
    ensures p.Matches(p.value)
  {
  }
}
