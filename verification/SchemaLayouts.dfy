/** How a schema's declarations lay out its fields, and the gaps between them. */
module SchemaLayouts {
  import opened Wrappers
  import opened Sorting

  /** A field's type; `:word` is a configured unsigned integer. An embedded schema is its fields in offset order. */
  datatype DataType =
    | Bool
    | Unsigned(width: nat)
    | Signed(width: nat)
    | ByteArray(length: nat)
    | StringBuffer(length: nat)
    | Array(element: DataType, count: nat)
    | Embed(fields: seq<Field>)

  datatype Field = Field(name: string, dataType: DataType, offset: nat, size: nat) {
    function End(): nat {
      offset + size
    }
  }

  const GARBAGE := "__garbage__"

  const RESERVED_FIELDS: seq<string> := ["__meta__", "__struct__", GARBAGE]

  /** Where the last of the fields ends. */
  function StructSize(fields: seq<Field>): nat {
    if fields == [] then 0 else fields[|fields| - 1].End()
  }

  function TypeSize(t: DataType): nat {
    match t
    case Bool => 1
    case Unsigned(width) => width
    case Signed(width) => width
    case ByteArray(length) => length
    case StringBuffer(length) => length
    case Array(element, count) => count * TypeSize(element)
    case Embed(fields) => StructSize(fields)
  }

  // Adding fields.

  /** The attributes of a schema module while its fields are declared; the newest field comes first. */
  datatype Attributes = Attributes(fields: seq<Field>, size: nat)

  datatype LayoutError =
    | ReservedName(name: string)
    | AlreadyDefined(name: string)
    | Overlaps(name: string, other: string)
    | ComesBefore(name: string, other: string)

  /** Membership of `f.offset..(f.End() - 1)`; the range of an empty field runs downwards and holds both its ends. */
  predicate InRange(f: Field, offset: nat) {
    if f.size == 0 then offset == f.offset || offset == f.offset - 1 else f.offset <= offset <= f.End() - 1
  }

  /** The first of the fields that the new one collides with or comes before. */
  function Collision(fields: seq<Field>, name: string, offset: nat): Option<LayoutError> {
    if fields == [] then
      None
    else if InRange(fields[0], offset) then
      Some(Overlaps(name, fields[0].name))
    else if fields[0].End() > offset then
      Some(ComesBefore(name, fields[0].name))
    else
      Collision(fields[1..], name, offset)
  }

  predicate Defined(fields: seq<Field>, name: string) {
    exists i :: 0 <= i < |fields| && fields[i].name == name
  }

  function AddField(a: Attributes, name: string, dataType: DataType, offset: Option<nat>): Result<Attributes, LayoutError> {
    if name in RESERVED_FIELDS then
      Err(ReservedName(name))
    else if Defined(a.fields, name) then
      Err(AlreadyDefined(name))
    else
      var at := if offset.Some? then offset.value else a.size;
      var fieldSize := TypeSize(dataType);
      match Collision(a.fields, name, at)
      case Some(e) => Err(e)
      case None => Ok(Attributes([Field(name, dataType, at, fieldSize)] + a.fields, at + fieldSize))
  }

  /** The attributes as the schema macro updates them, field by field. */
  class SchemaModule {
    var fields: seq<Field>
    var size: nat

    /** A schema starts empty, or with the fields of the schema it extends. */
    constructor (parent: seq<Field>)
      ensures fields == Reverse(parent) && size == StructSize(parent)
    {
      fields := Reverse(parent);
      size := StructSize(parent);
    }

    function State(): Attributes
      reads this
    {
      Attributes(fields, size)
    }

    /** Declares a field; an error leaves the module as it was. */
    method Add(name: string, dataType: DataType, offset: Option<nat>) returns (r: Result<Field, LayoutError>)
      modifies this
      ensures match AddField(old(State()), name, dataType, offset)
        case Err(e) => r == Err(e) && State() == old(State())
        case Ok(after) => r == Ok(after.fields[0]) && State() == after
    {
      if name in RESERVED_FIELDS {
        return Err(ReservedName(name));
      }
      if Defined(fields, name) {
        return Err(AlreadyDefined(name));
      }
      var at := if offset.Some? then offset.value else size;
      var fieldSize := TypeSize(dataType);
      var k := 0;
      while k < |fields|
        invariant 0 <= k <= |fields|
        invariant fields == old(fields) && size == old(size)
        invariant Collision(fields, name, at) == Collision(fields[k..], name, at)
      {
        var other := fields[k];
        if InRange(other, at) {
          return Err(Overlaps(name, other.name));
        } else if other.End() > at {
          return Err(ComesBefore(name, other.name));
        }
        k := k + 1;
      }
      var field := Field(name, dataType, at, fieldSize);
      fields := [field] + fields;
      size := at + fieldSize;
      r := Ok(field);
    }
  }

  function Reverse(fields: seq<Field>): (r: seq<Field>)
    ensures |r| == |fields| && forall i :: 0 <= i < |r| ==> r[i] == fields[|fields| - 1 - i]
  {
    seq(|fields|, i requires 0 <= i < |fields| => fields[|fields| - 1 - i])
  }

  /** Each field starts where the one before it has ended, or later. */
  predicate OrderedFrom(fields: seq<Field>, lastEnd: nat) {
    fields == [] || (lastEnd <= fields[0].offset && OrderedFrom(fields[1..], fields[0].End()))
  }

  lemma {:induction false} OrderedEnds(fields: seq<Field>, lastEnd: nat)
    requires OrderedFrom(fields, lastEnd)
    ensures forall i :: 0 <= i < |fields| ==> lastEnd <= fields[i].offset && fields[i].End() <= StructSize(fields)
  {
    if fields != [] {
      OrderedEnds(fields[1..], fields[0].End());
      assert forall i :: 1 <= i < |fields| ==> fields[i] == fields[1..][i - 1];
      assert |fields| > 1 ==> fields[0].End() <= fields[1].offset && fields[1] == fields[1..][0];
    }
  }

  /** A field that starts after all others can be appended. */
  lemma {:induction false} OrderedAppend(fields: seq<Field>, f: Field, lastEnd: nat)
    requires OrderedFrom(fields, lastEnd) && lastEnd <= f.offset && StructSize(fields) <= f.offset
    ensures OrderedFrom(fields + [f], lastEnd)
  {
    if fields != [] {
      OrderedEnds(fields, lastEnd);
      OrderedAppend(fields[1..], f, fields[0].End());
      assert (fields + [f])[1..] == fields[1..] + [f];
    }
  }

  /** Fields in offset order, with distinct usable names, that do not overlap. */
  predicate WellLaid(fields: seq<Field>) {
    && (forall i :: 0 <= i < |fields| ==> fields[i].size > 0 && fields[i].name !in RESERVED_FIELDS)
    && OrderedFrom(fields, 0)
    && (forall i, j :: 0 <= i < j < |fields| ==> fields[i].name != fields[j].name)
  }

  predicate Laid(a: Attributes) {
    WellLaid(Reverse(a.fields)) && a.size == StructSize(Reverse(a.fields))
  }

  lemma {:induction false} NoCollisionIff(fields: seq<Field>, name: string, offset: nat)
    requires forall i :: 0 <= i < |fields| ==> fields[i].size > 0
    ensures Collision(fields, name, offset).None? <==> forall i :: 0 <= i < |fields| ==> fields[i].End() <= offset
  {
    if fields != [] {
      NoCollisionIff(fields[1..], name, offset);
      assert forall i :: 1 <= i < |fields| ==> fields[i] == fields[1..][i - 1];
    }
  }

  /** A field is accepted exactly when its name is new and usable and it starts where the fields so far have ended. */
  lemma AddFieldAcceptsIff(a: Attributes, name: string, dataType: DataType, offset: Option<nat>)
    requires Laid(a)
    ensures AddField(a, name, dataType, offset).Ok? <==>
      && name !in RESERVED_FIELDS && !Defined(a.fields, name)
      && (offset.Some? ==> a.size <= offset.value)
  {
    var at := if offset.Some? then offset.value else a.size;
    var ordered := Reverse(a.fields);
    forall i | 0 <= i < |a.fields|
      ensures a.fields[i].size > 0
    {
      assert a.fields[i] == ordered[|ordered| - 1 - i];
    }
    NoCollisionIff(a.fields, name, at);
    OrderedEnds(ordered, 0);
    if a.fields != [] {
      assert a.fields[0] == ordered[|ordered| - 1];
      forall i | 0 <= i < |a.fields|
        ensures a.fields[i].End() <= a.size
      {
        assert a.fields[i] == ordered[|ordered| - 1 - i];
      }
    }
  }

  /** Why a field is refused: by its name, or because the newest field holds its offset or lies behind it. */
  lemma AddFieldErrorIs(a: Attributes, name: string, dataType: DataType, offset: Option<nat>)
    requires Laid(a)
    ensures name in RESERVED_FIELDS ==> AddField(a, name, dataType, offset) == Err(ReservedName(name))
    ensures name !in RESERVED_FIELDS && Defined(a.fields, name) ==>
      AddField(a, name, dataType, offset) == Err(AlreadyDefined(name))
    ensures name !in RESERVED_FIELDS && !Defined(a.fields, name) && offset.Some? && offset.value < a.size ==>
      && a.fields != []
      && AddField(a, name, dataType, offset) == Err(
        if a.fields[0].offset <= offset.value then Overlaps(name, a.fields[0].name)
        else ComesBefore(name, a.fields[0].name))
  {
    if a.fields != [] {
      var ordered := Reverse(a.fields);
      assert a.fields[0] == ordered[|ordered| - 1];
    }
  }

  /** The offset that follows an empty field counts as the empty field's own, so the next field cannot be put there. */
  lemma EmptyFieldIsInTheWay(a: Attributes, empty: string, element: DataType, name: string, dataType: DataType)
    requires AddField(a, empty, Array(element, 0), None).Ok?
    requires name !in RESERVED_FIELDS && name != empty && !Defined(a.fields, name)
    ensures var after := AddField(a, empty, Array(element, 0), None).value;
      after.size == a.size && AddField(after, name, dataType, None) == Err(Overlaps(name, empty))
  {
    var after := AddField(a, empty, Array(element, 0), None).value;
    assert after.fields[0] == Field(empty, Array(element, 0), a.size, 0);
    assert forall i :: 1 <= i < |after.fields| ==> after.fields[i] == a.fields[i - 1];
  }

  /** Adding a field of positive size keeps the layout and appends the field. */
  lemma {:induction false} AddFieldKeepsLayout(a: Attributes, name: string, dataType: DataType, offset: Option<nat>)
    requires Laid(a) && TypeSize(dataType) > 0
    requires AddField(a, name, dataType, offset).Ok?
    ensures var after := AddField(a, name, dataType, offset).value;
      var at := if offset.Some? then offset.value else a.size;
      && Laid(after)
      && Reverse(after.fields) == Reverse(a.fields) + [Field(name, dataType, at, TypeSize(dataType))]
  {
    var after := AddField(a, name, dataType, offset).value;
    AddFieldAcceptsIff(a, name, dataType, offset);
    var ordered, field := Reverse(a.fields), after.fields[0];
    assert Reverse(after.fields) == ordered + [field];
    OrderedAppend(ordered, field, 0);
    forall i | 0 <= i < |ordered|
      ensures ordered[i].name != field.name
    {
      assert a.fields[|ordered| - 1 - i] == ordered[i];
    }
  }

  // Gaps.

  function Gap(offset: nat, size: nat): Field {
    Field(GARBAGE, ByteArray(size), offset, size)
  }

  function GarbageFields(fields: seq<Field>, lastEnd: nat, garbage: seq<Field>): seq<Field>
    requires OrderedFrom(fields, lastEnd)
  {
    if fields == [] then
      garbage
    else if fields[0].offset != lastEnd then
      GarbageFields(fields[1..], fields[0].End(), [Gap(lastEnd, fields[0].offset - lastEnd)] + garbage)
    else
      GarbageFields(fields[1..], fields[0].End(), garbage)
  }

  function Offset(f: Field): int {
    f.offset
  }

  /** The fields and the gaps between them, sorted by offset. */
  function FieldsWithGarbage(fields: seq<Field>): seq<Field>
    requires WellLaid(fields)
  {
    SortBy(Offset, fields + GarbageFields(fields, 0, []))
  }

  /** The fields with each gap put in front of the field that follows it. */
  function Interleave(fields: seq<Field>, lastEnd: nat): seq<Field>
    requires OrderedFrom(fields, lastEnd)
  {
    if fields == [] then
      []
    else
      (if fields[0].offset != lastEnd then [Gap(lastEnd, fields[0].offset - lastEnd)] else [])
      + [fields[0]] + Interleave(fields[1..], fields[0].End())
  }

  /** Pieces that cover everything from an offset on, one after the other. */
  predicate TilesFrom(pieces: seq<Field>, offset: nat) {
    pieces == [] || (pieces[0].offset == offset && pieces[0].size > 0 && TilesFrom(pieces[1..], pieces[0].End()))
  }

  function TotalSize(pieces: seq<Field>): nat {
    if pieces == [] then 0 else pieces[0].size + TotalSize(pieces[1..])
  }

  lemma {:induction false} InterleaveTiles(fields: seq<Field>, lastEnd: nat)
    requires OrderedFrom(fields, lastEnd) && forall i :: 0 <= i < |fields| ==> fields[i].size > 0
    ensures TilesFrom(Interleave(fields, lastEnd), lastEnd)
    ensures fields != [] ==> lastEnd + TotalSize(Interleave(fields, lastEnd)) == StructSize(fields)
    ensures fields == [] ==> Interleave(fields, lastEnd) == []
  {
    if fields != [] {
      var f, gap := fields[0], Gap(lastEnd, fields[0].offset - lastEnd);
      var rest := Interleave(fields[1..], f.End());
      InterleaveTiles(fields[1..], f.End());
      TilesCons(f, rest);
      if f.offset != lastEnd {
        TilesCons(gap, [f] + rest);
        assert Interleave(fields, lastEnd) == [gap] + ([f] + rest);
      } else {
        assert Interleave(fields, lastEnd) == [f] + rest;
      }
    }
  }

  lemma {:induction false} TilesCons(piece: Field, rest: seq<Field>)
    ensures TotalSize([piece] + rest) == piece.size + TotalSize(rest)
    ensures TilesFrom([piece] + rest, piece.offset) <==> piece.size > 0 && TilesFrom(rest, piece.End())
  {
  }

  lemma {:induction false} TilesAscend(pieces: seq<Field>, offset: nat)
    requires TilesFrom(pieces, offset)
    ensures StrictlySortedBy(Offset, pieces)
    ensures forall i :: 0 <= i < |pieces| ==> offset <= pieces[i].offset
  {
    if pieces != [] {
      TilesAscend(pieces[1..], pieces[0].End());
    }
  }

  /** The gap in front of the first field, if there is one. */
  function GapBefore(f: Field, lastEnd: nat): seq<Field>
    requires lastEnd <= f.offset
  {
    if f.offset != lastEnd then [Gap(lastEnd, f.offset - lastEnd)] else []
  }

  lemma {:induction false} FirstGap(fields: seq<Field>, lastEnd: nat, garbage: seq<Field>)
    requires fields != [] && OrderedFrom(fields, lastEnd)
    ensures var gaps := GapBefore(fields[0], lastEnd);
      && Interleave(fields, lastEnd) == gaps + [fields[0]] + Interleave(fields[1..], fields[0].End())
      && GarbageFields(fields, lastEnd, garbage) == GarbageFields(fields[1..], fields[0].End(), gaps + garbage)
  {
    assert [] + garbage == garbage;
  }

  lemma {:induction false} NoFields(lastEnd: nat, garbage: seq<Field>)
    ensures Interleave([], lastEnd) == [] && GarbageFields([], lastEnd, garbage) == garbage
  {
  }

  /** Collecting the gaps and putting them in place gives the same fields and gaps. */
  lemma {:induction false} GarbageAndFields(fields: seq<Field>, lastEnd: nat, garbage: seq<Field>)
    requires OrderedFrom(fields, lastEnd)
    ensures multiset(fields) + multiset(GarbageFields(fields, lastEnd, garbage))
         == multiset(garbage) + multiset(Interleave(fields, lastEnd))
  {
    hide GarbageFields, Interleave, GapBefore;
    if fields == [] {
      NoFields(lastEnd, garbage);
    } else {
      var f, rest := fields[0], fields[1..];
      var gaps, tail := GapBefore(f, lastEnd), Interleave(rest, f.End());
      FirstGap(fields, lastEnd, garbage);
      GarbageAndFields(rest, f.End(), gaps + garbage);
      HeadAndTail(fields);
      var all := multiset(GarbageFields(fields, lastEnd, garbage));
      assert multiset(gaps + [f] + tail) == multiset(gaps) + multiset{f} + multiset(tail);
      assert multiset(gaps + garbage) == multiset(gaps) + multiset(garbage);
      assert multiset(fields) + all == multiset{f} + (multiset(rest) + all);
      assert multiset(rest) + all == multiset(gaps) + multiset(garbage) + multiset(tail);
    }
  }

  /** Sorting puts each gap in front of the field that follows it, so fields and gaps tile the struct. */
  lemma {:induction false} FieldsAndGapsTile(fields: seq<Field>)
    requires WellLaid(fields)
    ensures FieldsWithGarbage(fields) == Interleave(fields, 0)
    ensures TilesFrom(FieldsWithGarbage(fields), 0)
    ensures TotalSize(FieldsWithGarbage(fields)) == StructSize(fields)
  {
    var garbage := GarbageFields(fields, 0, []);
    InterleaveTiles(fields, 0);
    TilesAscend(Interleave(fields, 0), 0);
    GarbageAndFields(fields, 0, []);
    SortPermutes(Offset, fields + garbage);
    SortSorts(Offset, fields + garbage);
    assert multiset(fields + garbage) == multiset(fields) + multiset(garbage);
    SortedUnique(Offset, FieldsWithGarbage(fields), Interleave(fields, 0));
  }

  /** The pieces that are no gaps are the fields, in order. */
  function WithoutGaps(pieces: seq<Field>): seq<Field> {
    if pieces == [] then
      []
    else
      (if pieces[0].name == GARBAGE then [] else [pieces[0]]) + WithoutGaps(pieces[1..])
  }

  lemma {:induction false} WithoutGapsCons(piece: Field, rest: seq<Field>)
    ensures WithoutGaps([piece] + rest) == (if piece.name == GARBAGE then [] else [piece]) + WithoutGaps(rest)
  {
  }

  lemma {:induction false} InterleaveKeepsFields(fields: seq<Field>, lastEnd: nat)
    requires OrderedFrom(fields, lastEnd) && forall i :: 0 <= i < |fields| ==> fields[i].name != GARBAGE
    ensures WithoutGaps(Interleave(fields, lastEnd)) == fields
  {
    if fields != [] {
      var f := fields[0];
      var rest := Interleave(fields[1..], f.End());
      InterleaveKeepsFields(fields[1..], f.End());
      WithoutGapsCons(f, rest);
      if f.offset != lastEnd {
        var gap := Gap(lastEnd, f.offset - lastEnd);
        assert Interleave(fields, lastEnd) == [gap] + ([f] + rest);
        WithoutGapsCons(gap, [f] + rest);
      } else {
        assert Interleave(fields, lastEnd) == [f] + rest;
      }
    }
  }

  /** A child schema's fields and gaps start with its parent's. */
  lemma {:induction false} InterleaveExtends(fields: seq<Field>, more: seq<Field>, lastEnd: nat)
    requires OrderedFrom(fields, lastEnd) && OrderedFrom(fields + more, lastEnd)
    ensures Interleave(fields, lastEnd) <= Interleave(fields + more, lastEnd)
  {
    if fields != [] {
      assert (fields + more)[1..] == fields[1..] + more;
      InterleaveExtends(fields[1..], more, fields[0].End());
    }
  }
}
