/** Merging a process's memory regions. */
module Regions {
  import opened Wrappers
  import opened Bytes
  import opened AddressRanges
  import opened Sorting

  datatype State = Free | Committed | Reserved

  datatype Region = Region(base: nat, range: AddressRange, memType: byte, state: State, perms: byte) {

    /** What two regions must share to be merged. */
    function Class(): (byte, State, byte) {
      (memType, state, perms)
    }

    predicate CanMerge(other: Region) {
      && Overlaps(range, other.range)
      && memType == other.memType
      && state == other.state
      && perms == other.perms
    }
  }

  predicate ContainsRange(r: AddressRange, other: AddressRange) {
    r.start <= other.start && r.end >= other.end
  }

  predicate Overlaps(r: AddressRange, other: AddressRange) {
    || ContainsRange(r, other)
    || (r.start <= other.end && r.end >= other.end)
    || (r.start <= other.start && r.end >= other.start)
  }

  function Hull(r: AddressRange, other: AddressRange): AddressRange {
    AddressRange(
      if r.start <= other.start then r.start else other.start,
      if r.end >= other.end then r.end else other.end)
  }

  function Start(r: Region): int {
    r.range.start
  }

  // Merging.

  /** The first region of `out` that `next` can be merged with. */
  function Position(next: Region, out: seq<Region>): (p: Option<nat>)
    ensures p.Some? ==> p.value < |out| && next.CanMerge(out[p.value])
    ensures forall i :: 0 <= i < (if p.Some? then p.value else |out|) ==> !next.CanMerge(out[i])
  {
    if out == [] then
      None
    else if next.CanMerge(out[0]) then
      Some(0)
    else
      match Position(next, out[1..])
      case None =>
        assert forall i :: 1 <= i < |out| ==> out[i] == out[1..][i - 1];
        None
      case Some(i) =>
        assert forall j :: 1 <= j < i + 1 ==> out[j] == out[1..][j - 1];
        Some(i + 1)
  }

  /** One iteration of the merge loop. */
  function Absorb(out: seq<Region>, next: Region): seq<Region> {
    match Position(next, out)
    case Some(i) => out[i := out[i].(range := Hull(next.range, out[i].range))]
    case None => out + [next]
  }

  /** The merge loop after `n` regions. */
  function MergePrefix(sorted: seq<Region>, n: nat): seq<Region>
    requires n <= |sorted|
  {
    if n == 0 then [] else Absorb(MergePrefix(sorted, n - 1), sorted[n - 1])
  }

  function Merge(blocks: seq<Region>): seq<Region> {
    MergePrefix(SortBy(Start, blocks), |SortBy(Start, blocks)|)
  }

  /** Merges regions by growing the first mergeable region of the output or appending a new one. */
  method MergeBlocks(blocks: seq<Region>) returns (out: seq<Region>)
    ensures out == Merge(blocks)
  {
    var sorted := SortBy(Start, blocks);
    out := [];
    for n := 0 to |sorted|
      invariant out == MergePrefix(sorted, n)
    {
      var next := sorted[n];
      var ind := 0;
      while ind < |out| && !next.CanMerge(out[ind])
        invariant 0 <= ind <= |out|
        invariant forall i :: 0 <= i < ind ==> !next.CanMerge(out[i])
      {
        ind := ind + 1;
      }
      if ind < |out| {
        out := out[ind := out[ind].(range := Hull(next.range, out[ind].range))];
      } else {
        out := out + [next];
      }
    }
  }

  // What merging keeps.

  type Kind = (byte, State, byte)

  predicate AllValid(rs: seq<Region>) {
    forall i :: 0 <= i < |rs| ==> rs[i].range.Valid()
  }

  /** Whether a range holds an address, counting in either its start or its end. */
  predicate Within(r: AddressRange, a: int, withEnd: bool) {
    if withEnd then r.start < a <= r.end else r.start <= a < r.end
  }

  ghost predicate Covered(rs: seq<Region>, kind: Kind, a: int, withEnd: bool) {
    exists r :: r in rs && r.Class() == kind && Within(r.range, a, withEnd)
  }

  /** The hull of two mergeable ranges covers what they cover. */
  lemma HullCovers(next: Region, other: Region, a: int, withEnd: bool)
    requires next.CanMerge(other) && next.range.Valid() && other.range.Valid()
    ensures Within(Hull(next.range, other.range), a, withEnd)
        <==> Within(next.range, a, withEnd) || Within(other.range, a, withEnd)
  {
  }

  lemma AbsorbCovers(out: seq<Region>, next: Region, kind: Kind, a: int, withEnd: bool)
    requires AllValid(out) && next.range.Valid()
    ensures AllValid(Absorb(out, next))
    ensures Covered(Absorb(out, next), kind, a, withEnd)
        <==> Covered(out, kind, a, withEnd) || (next.Class() == kind && Within(next.range, a, withEnd))
  {
    var after := Absorb(out, next);
    match Position(next, out)
    case None =>
      assert after[|out|] == next;
      forall r | r in out ensures r in after {
        var i :| 0 <= i < |out| && out[i] == r;
        assert after[i] == r;
      }
    case Some(p) =>
      HullCovers(next, out[p], a, withEnd);
      assert after[p] in after;
      forall r | r in out && r != out[p] ensures r in after {
        var i :| 0 <= i < |out| && out[i] == r;
        assert after[i] == r;
      }
      forall r | r in after && r != after[p] ensures r in out {
        var i :| 0 <= i < |after| && after[i] == r;
        assert out[i] == r;
      }
  }

  lemma AppendCovers(rs: seq<Region>, r: Region, kind: Kind, a: int, withEnd: bool)
    ensures Covered(rs + [r], kind, a, withEnd)
        <==> Covered(rs, kind, a, withEnd) || (r.Class() == kind && Within(r.range, a, withEnd))
  {
  }

  /** The first `n` blocks and what they were merged into cover the same addresses of each class. */
  lemma {:induction false} PrefixCovers(sorted: seq<Region>, n: nat, kind: Kind, a: int, withEnd: bool)
    requires n <= |sorted| && AllValid(sorted)
    ensures AllValid(MergePrefix(sorted, n))
    ensures Covered(MergePrefix(sorted, n), kind, a, withEnd) <==> Covered(sorted[..n], kind, a, withEnd)
  {
    hide Absorb, Covered;
    if n > 0 {
      PrefixCovers(sorted, n - 1, kind, a, withEnd);
      AbsorbCovers(MergePrefix(sorted, n - 1), sorted[n - 1], kind, a, withEnd);
      assert sorted[..n] == sorted[..n - 1] + [sorted[n - 1]];
      AppendCovers(sorted[..n - 1], sorted[n - 1], kind, a, withEnd);
    } else {
      NothingCovered(kind, a, withEnd);
    }
  }

  lemma NothingCovered(kind: Kind, a: int, withEnd: bool)
    ensures !Covered([], kind, a, withEnd)
  {
  }

  /** For every input, each class covers the same addresses before and after merging. */
  lemma MergeCovers(blocks: seq<Region>, kind: Kind, a: int, withEnd: bool)
    requires AllValid(blocks)
    ensures Covered(Merge(blocks), kind, a, withEnd) <==> Covered(blocks, kind, a, withEnd)
  {
    var sorted := SortBy(Start, blocks);
    forall r: Region
      ensures r in sorted <==> r in blocks
    {
      SortMembers(Start, blocks, r);
    }
    assert AllValid(sorted) by {
      forall i | 0 <= i < |sorted| ensures sorted[i].range.Valid() {
        assert sorted[i] in blocks;
      }
    }
    PrefixCovers(sorted, |sorted|, kind, a, withEnd);
    assert sorted[..|sorted|] == sorted;
  }

  // The shape of the output.

  /** Regions of one class either do not touch, the earlier one first, or the later one lies strictly inside. */
  predicate Pairwise(out: seq<Region>) {
    forall i, j :: 0 <= i < j < |out| ==> Apart(out[i], out[j])
  }

  predicate StartsUpTo(out: seq<Region>, a: nat) {
    forall i :: 0 <= i < |out| ==> out[i].range.start <= a
  }

  predicate Apart(earlier: Region, later: Region) {
    earlier.Class() == later.Class() ==>
      && earlier.range.start < later.range.start
      && (earlier.range.end < later.range.start || later.range.end < earlier.range.end)
  }

  /** A region that cannot be merged with an earlier-starting one is apart from it. */
  lemma UnmergeableApart(next: Region, other: Region)
    requires next.range.Valid() && other.range.Valid() && other.range.start <= next.range.start
    ensures !next.CanMerge(other) <==> other.Class() != next.Class() || Apart(other, next)
  {
  }

  /** In any order, ranges overlap if they touch, unless the first lies strictly inside the other. */
  lemma OverlapsIff(r: AddressRange, other: AddressRange)
    requires r.Valid() && other.Valid()
    ensures Overlaps(r, other) <==>
      r.start <= other.end && other.start <= r.end && !(other.start < r.start && r.end < other.end)
  {
  }

  /** Growing a region keeps it apart from the earlier one that the next region is apart from ... */
  lemma GrowApartFromEarlier(next: Region, earlier: Region, other: Region)
    requires next.range.Valid() && earlier.range.Valid() && other.range.Valid()
    requires earlier.range.start <= other.range.start <= next.range.start
    requires Apart(earlier, other) && !next.CanMerge(earlier) && next.CanMerge(other)
    ensures Apart(earlier, other.(range := Hull(next.range, other.range)))
  {
  }

  /** ... and from every later one. */
  lemma GrowApartFromLater(next: Region, other: Region, later: Region)
    requires next.range.Valid() && other.range.Valid() && later.range.Valid()
    requires other.range.start <= later.range.start <= next.range.start
    requires Apart(other, later) && next.CanMerge(other)
    ensures Apart(other.(range := Hull(next.range, other.range)), later)
  {
  }

  lemma AbsorbShape(out: seq<Region>, next: Region)
    requires AllValid(out) && next.range.Valid()
    requires SortedBy(Start, out) && Pairwise(out) && StartsUpTo(out, next.range.start)
    ensures var after := Absorb(out, next);
      AllValid(after) && SortedBy(Start, after) && Pairwise(after) && StartsUpTo(after, next.range.start)
  {
    var after := Absorb(out, next);
    forall i, j | 0 <= i < j < |after|
      ensures Apart(after[i], after[j])
    {
      assert Start(out[i]) <= Start(next);
      match Position(next, out)
      case None =>
        UnmergeableApart(next, out[i]);
        assert j < |out| ==> Apart(out[i], out[j]);
      case Some(p) =>
        assert Apart(out[i], out[j]) && Start(out[i]) <= Start(out[j]);
        if j == p {
          GrowApartFromEarlier(next, out[i], out[p]);
        }
        if i == p {
          GrowApartFromLater(next, out[p], out[j]);
        }
    }
    AbsorbStarts(out, next);
  }

  lemma AbsorbStarts(out: seq<Region>, next: Region)
    requires AllValid(out) && next.range.Valid()
    requires SortedBy(Start, out) && StartsUpTo(out, next.range.start)
    ensures var after := Absorb(out, next);
      AllValid(after) && SortedBy(Start, after) && StartsUpTo(after, next.range.start)
  {
    var after := Absorb(out, next);
    assert forall i :: 0 <= i < |out| ==> Start(after[i]) == Start(out[i]);
  }

  lemma {:induction false} PrefixShape(sorted: seq<Region>, n: nat)
    requires n <= |sorted| && AllValid(sorted) && SortedBy(Start, sorted)
    ensures var out := MergePrefix(sorted, n);
      && AllValid(out) && SortedBy(Start, out) && Pairwise(out)
      && (n > 0 ==> StartsUpTo(out, sorted[n - 1].range.start)) && (n == 0 ==> out == [])
  {
    if n > 0 {
      PrefixShape(sorted, n - 1);
      AbsorbShape(MergePrefix(sorted, n - 1), sorted[n - 1]);
    }
  }

  lemma PrefixStarts(sorted: seq<Region>, n: nat)
    requires 0 < n <= |sorted| && AllValid(sorted) && SortedBy(Start, sorted)
    ensures StartsUpTo(MergePrefix(sorted, n - 1), sorted[n - 1].range.start)
  {
    PrefixShape(sorted, n - 1);
    assert n > 1 ==> Start(sorted[n - 2]) <= Start(sorted[n - 1]);
  }

  lemma {:induction false} SortedIsValid(blocks: seq<Region>)
    requires AllValid(blocks)
    ensures AllValid(SortBy(Start, blocks)) && SortedBy(Start, SortBy(Start, blocks))
  {
    var sorted := SortBy(Start, blocks);
    SortSorts(Start, blocks);
    forall i | 0 <= i < |sorted| ensures sorted[i].range.Valid() {
      SortMembers(Start, blocks, sorted[i]);
    }
  }

  /** For every input, the output is sorted by start address. */
  lemma MergeShape(blocks: seq<Region>)
    requires AllValid(blocks)
    ensures AllValid(Merge(blocks)) && SortedBy(Start, Merge(blocks)) && Pairwise(Merge(blocks))
  {
    SortedIsValid(blocks);
    PrefixShape(SortBy(Start, blocks), |SortBy(Start, blocks)|);
  }

  // Where merged regions come from.

  /** The region has the base and the class of one of the blocks, and starts where that block starts. */
  predicate ComesFrom(r: Region, blocks: seq<Region>) {
    exists b :: b in blocks && b.base == r.base && b.Class() == r.Class() && b.range.start == r.range.start
  }

  lemma {:induction false} PrefixComesFrom(sorted: seq<Region>, n: nat)
    requires n <= |sorted| && SortedBy(Start, sorted)
    ensures forall r :: r in MergePrefix(sorted, n) ==> ComesFrom(r, sorted)
    ensures n > 0 ==> StartsUpTo(MergePrefix(sorted, n), sorted[n - 1].range.start)
  {
    if n > 0 {
      PrefixComesFrom(sorted, n - 1);
      var out, next := MergePrefix(sorted, n - 1), sorted[n - 1];
      assert n > 1 ==> Start(sorted[n - 2]) <= Start(next);
      assert ComesFrom(next, sorted);
      match Position(next, out)
      case None =>
      case Some(p) =>
        var grown := out[p].(range := Hull(next.range, out[p].range));
        assert n > 1 && out[p] in out && out[p].range.start <= next.range.start;
        assert grown.range.start == out[p].range.start;
        assert ComesFrom(grown, sorted);
    }
  }

  /** For every input, each merged region has the base of a block of its class that starts where it starts. */
  lemma MergeKeepsBases(blocks: seq<Region>, r: Region)
    requires r in Merge(blocks)
    ensures exists b :: b in blocks && b.base == r.base && b.Class() == r.Class() && b.range.start == r.range.start
  {
    var sorted := SortBy(Start, blocks);
    SortSorts(Start, blocks);
    PrefixComesFrom(sorted, |sorted|);
    var b :| b in sorted && b.base == r.base && b.Class() == r.Class() && b.range.start == r.range.start;
    SortMembers(Start, blocks, b);
  }

  /** Regions in this shape are left alone. */
  lemma {:induction false} PairwiseUnmerged(out: seq<Region>, n: nat)
    requires n <= |out| && AllValid(out) && SortedBy(Start, out) && Pairwise(out)
    ensures MergePrefix(out, n) == out[..n]
  {
    if n > 0 {
      PairwiseUnmerged(out, n - 1);
      assert out[..n] == out[..n - 1] + [out[n - 1]];
    }
  }

  /** For every input, merging again changes nothing. */
  lemma MergeIdempotent(blocks: seq<Region>)
    requires AllValid(blocks)
    ensures Merge(Merge(blocks)) == Merge(blocks)
  {
    var out := Merge(blocks);
    MergeShape(blocks);
    SortKeepsSorted(Start, out);
    PairwiseUnmerged(out, |out|);
    assert out[..|out|] == out;
  }

  // When regions of one class no longer touch.

  predicate Separated(out: seq<Region>) {
    forall i, j :: 0 <= i < j < |out| && out[i].Class() == out[j].Class() ==> out[i].range.end < out[j].range.start
  }

  /** Earlier blocks of its class reach the block's start from before it, and beyond its end. */
  ghost predicate NestedAt(sorted: seq<Region>, j: nat)
    requires j < |sorted|
  {
    && Covered(sorted[..j], sorted[j].Class(), sorted[j].range.start, true)
    && Covered(sorted[..j], sorted[j].Class(), sorted[j].range.end, false)
  }

  lemma AbsorbKeepsTouching(out: seq<Region>, next: Region)
    requires AllValid(out) && next.range.Valid() && StartsUpTo(out, next.range.start)
    requires !Separated(out)
    ensures !Separated(Absorb(out, next))
  {
    var i, j :| 0 <= i < j < |out| && out[i].Class() == out[j].Class() && out[j].range.start <= out[i].range.end;
    var after := Absorb(out, next);
    assert after[i].Class() == after[j].Class() && after[j].range.start <= after[i].range.end;
  }

  lemma HeldIsUnmergeable(next: Region, holder: Region, other: Region)
    requires next.range.Valid() && other.range.Valid() && other.range.start <= next.range.start
    requires holder.Class() == next.Class()
    requires holder.range.start < next.range.start && next.range.end < holder.range.end
    requires other.Class() == holder.Class() ==>
      other == holder || other.range.end < holder.range.start || holder.range.end < other.range.start
    ensures !next.CanMerge(other)
  {
  }

  /** A nested block is appended although a region of its class already holds it. */
  lemma AbsorbNested(out: seq<Region>, next: Region)
    requires AllValid(out) && next.range.Valid() && StartsUpTo(out, next.range.start) && Separated(out)
    requires Covered(out, next.Class(), next.range.start, true) && Covered(out, next.Class(), next.range.end, false)
    ensures !Separated(Absorb(out, next))
  {
    var e1 :| e1 in out && e1.Class() == next.Class() && Within(e1.range, next.range.start, true);
    var e2 :| e2 in out && e2.Class() == next.Class() && Within(e2.range, next.range.end, false);
    var i :| 0 <= i < |out| && out[i] == e1;
    var j :| 0 <= j < |out| && out[j] == e2;
    assert i == j;
    hide Absorb, Covered;
    forall k | 0 <= k < |out|
      ensures !next.CanMerge(out[k])
    {
      HeldIsUnmergeable(next, e1, out[k]);
    }
    AbsorbUnmergeable(out, next);
    var after := out + [next];
    assert after[i] == e1 && after[|out|] == next;
  }

  lemma AbsorbUnmergeable(out: seq<Region>, next: Region)
    requires forall k :: 0 <= k < |out| ==> !next.CanMerge(out[k])
    ensures Absorb(out, next) == out + [next]
  {
    hide Overlaps;
  }

  /** Any other block leaves the regions apart. */
  lemma AbsorbSeparate(out: seq<Region>, next: Region)
    requires AllValid(out) && next.range.Valid() && StartsUpTo(out, next.range.start) && Separated(out)
    requires !(Covered(out, next.Class(), next.range.start, true) && Covered(out, next.Class(), next.range.end, false))
    ensures Separated(Absorb(out, next))
  {
    match Position(next, out)
    case None =>
      forall i | 0 <= i < |out| && out[i].Class() == next.Class()
        ensures out[i].range.end < next.range.start
      {
        UnmergeableApart(next, out[i]);
        if next.range.start <= out[i].range.end {
          assert out[i] in out && Within(out[i].range, next.range.start, true) && Within(out[i].range, next.range.end, false);
        }
      }
    case Some(p) =>
  }

  /** No block up to the `n`-th nests in earlier ones. */
  ghost predicate NoNesting(sorted: seq<Region>, n: nat)
    requires n <= |sorted|
  {
    forall j :: 0 <= j < n ==> !NestedAt(sorted, j)
  }

  lemma AbsorbSeparatedIff(out: seq<Region>, next: Region)
    requires AllValid(out) && next.range.Valid() && StartsUpTo(out, next.range.start)
    ensures Separated(Absorb(out, next)) <==>
      && Separated(out)
      && !(Covered(out, next.Class(), next.range.start, true) && Covered(out, next.Class(), next.range.end, false))
  {
    hide Absorb, Covered, Separated;
    if !Separated(out) {
      AbsorbKeepsTouching(out, next);
    } else if Covered(out, next.Class(), next.range.start, true) && Covered(out, next.Class(), next.range.end, false) {
      AbsorbNested(out, next);
    } else {
      AbsorbSeparate(out, next);
    }
  }

  lemma {:induction false} NothingNests(sorted: seq<Region>)
    ensures Separated(MergePrefix(sorted, 0)) && NoNesting(sorted, 0)
  {
  }

  lemma PrefixStep(sorted: seq<Region>, n: nat)
    requires 0 < n <= |sorted| && AllValid(sorted)
    ensures MergePrefix(sorted, n) == Absorb(MergePrefix(sorted, n - 1), sorted[n - 1])
    ensures NoNesting(sorted, n) <==> NoNesting(sorted, n - 1) && !NestedAt(sorted, n - 1)
  {
  }

  lemma {:induction false} PrefixSeparatedIff(sorted: seq<Region>, n: nat)
    requires n <= |sorted| && AllValid(sorted) && SortedBy(Start, sorted)
    ensures Separated(MergePrefix(sorted, n)) <==> NoNesting(sorted, n)
  {
    hide Absorb, MergePrefix, Covered, Separated, Pairwise, NoNesting, SortedBy;
    if n > 0 {
      var out, next := MergePrefix(sorted, n - 1), sorted[n - 1];
      PrefixSeparatedIff(sorted, n - 1);
      PrefixShape(sorted, n - 1);
      PrefixStarts(sorted, n);
      PrefixCovers(sorted, n - 1, next.Class(), next.range.start, true);
      PrefixCovers(sorted, n - 1, next.Class(), next.range.end, false);
      AbsorbSeparatedIff(out, next);
      PrefixStep(sorted, n);
    } else {
      NothingNests(sorted);
    }
  }

  /** Merged regions of one class are apart from each other if and only if no block nests in earlier ones. */
  lemma {:induction false} MergeSeparatesIff(blocks: seq<Region>)
    requires AllValid(blocks)
    ensures var sorted := SortBy(Start, blocks);
      Separated(Merge(blocks)) <==> NoNesting(sorted, |sorted|)
  {
    hide MergePrefix, Separated, NoNesting;
    SortedIsValid(blocks);
    PrefixSeparatedIff(SortBy(Start, blocks), |SortBy(Start, blocks)|);
  }

  /** Two blocks of one class, the second inside the first, are both kept. */
  lemma NestedBlocksStayApart(a: Region, b: Region)
    requires a.range == AddressRange(0, 100) && b.range == AddressRange(10, 20) && a.Class() == b.Class()
    ensures Merge([a, b]) == [a, b] && !Separated(Merge([a, b]))
  {
    assert [a, b][1..] == [b];
    assert SortBy(Start, [b]) == [b];
    assert SortBy(Start, [a, b]) == [a, b];
    assert MergePrefix([a, b], 0) == [];
    assert MergePrefix([a, b], 1) == [a];
    assert !b.CanMerge(a);
    assert MergePrefix([a, b], 2) == [a, b];
  }

  /** Ranges of which one ends where the other starts share no address but count as overlapping: ends are exclusive. */
  lemma TouchingRangesOverlap(r: AddressRange, other: AddressRange)
    requires r.Valid() && other.Valid() && r.end == other.start
    ensures Overlaps(r, other) && Overlaps(other, r)
    ensures forall a :: !(Within(r, a, false) && Within(other, a, false))
    ensures r.Size() + other.Size() == Hull(r, other).end - Hull(r, other).start
  {
  }

  // Merging bare address ranges.

  /** A range as a region of the one class there is. */
  function AsRegion(r: AddressRange): Region {
    Region(0, r, 0, Free, 0)
  }

  function AsRegions(rs: seq<AddressRange>): (regions: seq<Region>)
    ensures |regions| == |rs| && forall i :: 0 <= i < |rs| ==> regions[i] == AsRegion(rs[i])
  {
    seq(|rs|, i requires 0 <= i < |rs| => AsRegion(rs[i]))
  }

  function RangeStart(r: AddressRange): int {
    r.start
  }

  /** Merging ranges is merging regions of a single class. */
  method MergeRanges(ranges: seq<AddressRange>) returns (out: seq<AddressRange>)
    ensures AsRegions(out) == Merge(AsRegions(ranges))
  {
    hide Absorb, Overlaps;
    var sortedRanges := SortBy(RangeStart, ranges);
    SortRanges(ranges);
    out := [];
    for n := 0 to |sortedRanges|
      invariant AsRegions(out) == MergePrefix(AsRegions(sortedRanges), n)
    {
      var nextRange := sortedRanges[n];
      var ind := 0;
      while ind < |out| && !Overlaps(nextRange, out[ind])
        invariant 0 <= ind <= |out|
        invariant forall i :: 0 <= i < ind ==> !AsRegion(nextRange).CanMerge(AsRegions(out)[i])
      {
        ind := ind + 1;
      }
      MergeRangeStep(out, nextRange, ind);
      if ind < |out| {
        out := out[ind := Hull(nextRange, out[ind])];
      } else {
        out := out + [nextRange];
      }
    }
    assert |sortedRanges| == |AsRegions(sortedRanges)|;
  }

  lemma MergeRangeStep(out: seq<AddressRange>, next: AddressRange, ind: nat)
    requires ind <= |out|
    requires forall i :: 0 <= i < ind ==> !AsRegion(next).CanMerge(AsRegions(out)[i])
    requires ind < |out| ==> Overlaps(next, out[ind])
    ensures ind < |out| ==> AsRegions(out[ind := Hull(next, out[ind])]) == Absorb(AsRegions(out), AsRegion(next))
    ensures ind == |out| ==> AsRegions(out + [next]) == Absorb(AsRegions(out), AsRegion(next))
  {
  }

  lemma {:induction false} InsertRange(r: AddressRange, sorted: seq<AddressRange>)
    ensures Insert(Start, AsRegion(r), AsRegions(sorted)) == AsRegions(Insert(RangeStart, r, sorted))
  {
    if sorted != [] && r.start > sorted[0].start {
      InsertRange(r, sorted[1..]);
      assert AsRegions(sorted)[1..] == AsRegions(sorted[1..]);
    }
  }

  lemma {:induction false} SortRanges(ranges: seq<AddressRange>)
    ensures SortBy(Start, AsRegions(ranges)) == AsRegions(SortBy(RangeStart, ranges))
  {
    if ranges != [] {
      SortRanges(ranges[1..]);
      InsertRange(ranges[0], SortBy(RangeStart, ranges[1..]));
      assert AsRegions(ranges)[1..] == AsRegions(ranges[1..]);
    }
  }
}
