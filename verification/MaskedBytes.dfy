/** From a query's field values to the bytes and the mask of its struct. */
module MaskedBytes {
  import opened Wrappers
  import opened Bytes
  import opened SchemaLayouts
  import opened SchemaCodecs
  import opened SchemaRoundTrips
  import opened SchemaReprints
  import opened AddressRanges
  import opened ScanPatterns
  import opened NaiveScan
  import opened ChunkedScan
  import opened Queries

  type Entry = (string, Value)

  // Building the mask.

  /** 0xFF for every byte of the pieces with a kept name, 0x00 elsewhere. */
  function PieceMask(pieces: seq<Field>, kept: string -> bool): seq<byte> {
    if pieces == [] then
      []
    else
      seq<byte>(pieces[0].size, i => if kept(pieces[0].name) then 0xFF else 0) + PieceMask(pieces[1..], kept)
  }

  function GarbageMask(fields: seq<Field>): seq<byte>
    requires WellLaid(fields)
  {
    PieceMask(FieldsWithGarbage(fields), name => name != GARBAGE)
  }

  function Names(entries: seq<Entry>): set<string> {
    set k | 0 <= k < |entries| :: entries[k].0
  }

  function MaskFields(fields: seq<Field>, names: set<string>): seq<byte>
    requires WellLaid(fields)
  {
    PieceMask(FieldsWithGarbage(fields), name => name in names)
  }

  function BinAnd(a: seq<byte>, b: seq<byte>): (r: Result<seq<byte>, string>) {
    if |a| != |b| then
      Err("binaries must be the same size")
    else
      Ok(seq<byte>(|a|, i requires 0 <= i < |a| => And(a[i], b[i])))
  }

  /** The mask of the named fields, without the bytes that the schema masks itself. */
  function NeededMask(fields: seq<Field>, names: set<string>, custom: Option<seq<byte>>): Result<seq<byte>, string>
    requires WellLaid(fields)
  {
    match custom
    case None => BinAnd(GarbageMask(fields), MaskFields(fields, names))
    case Some(customMask) =>
      if |customMask| != StructSize(fields) then
        Err("custom mask has the wrong size")
      else
        match BinAnd(GarbageMask(fields), customMask)
        case Err(e) => Err(e)
        case Ok(nonField) => BinAnd(nonField, MaskFields(fields, names))
  }

  // Filling in the values.

  /** A field and the value that a query gives for it. */
  datatype Assignment = Assignment(field: Field, value: Value) {
    function Printed(): Result<seq<byte>, string> {
      ToBytes(field.dataType, value)
    }
  }

  function FindField(fields: seq<Field>, name: string): Option<Field> {
    if fields == [] then None else if fields[0].name == name then Some(fields[0]) else FindField(fields[1..], name)
  }

  function Relevant(fields: seq<Field>, entries: seq<Entry>): Result<seq<Assignment>, string> {
    if entries == [] then
      Ok([])
    else
      match (FindField(fields, entries[0].0), Relevant(fields, entries[1..]))
      case (Some(f), Ok(rest)) => Ok([Assignment(f, entries[0].1)] + rest)
      case (None, _) => Err("field not in struct")
      case (_, Err(e)) => Err(e)
  }

  function PatchBinary(bytes: seq<byte>, patch: seq<byte>, index: nat): Result<seq<byte>, string> {
    if |bytes| < index + |patch| then
      Err("will not fit")
    else
      Ok(bytes[..index] + patch + bytes[index + |patch|..])
  }

  function PatchAll(given: seq<Assignment>, bytes: seq<byte>): Result<seq<byte>, string> {
    if given == [] then
      Ok(bytes)
    else
      match given[0].Printed()
      case Err(e) => Err(e)
      case Ok(printed) =>
        match PatchBinary(bytes, printed, given[0].field.offset)
        case Err(e) => Err(e)
        case Ok(patched) => PatchAll(given[1..], patched)
  }

  datatype Masked = Masked(bytes: seq<byte>, mask: seq<byte>)

  /** The bytes and the mask for the entries, which come in any order; a schema may mask some of its bytes itself. */
  function ToMaskedBytes(fields: seq<Field>, entries: seq<Entry>, custom: Option<seq<byte>>): Result<Masked, string>
    requires WellLaid(fields)
  {
    match Relevant(fields, entries)
    case Err(e) => Err(e)
    case Ok(given) =>
      match NeededMask(fields, Names(entries), custom)
      case Err(e) => Err(e)
      case Ok(mask) =>
        match PatchAll(given, mask)
        case Err(e) => Err(e)
        case Ok(bytes) => Ok(Masked(bytes, mask))
  }

  // Looking fields up.

  lemma {:induction false} FindFieldIs(fields: seq<Field>, name: string)
    ensures match FindField(fields, name)
      case None => forall f :: f in fields ==> f.name != name
      case Some(f) => f in fields && f.name == name
  {
    if fields != [] {
      FindFieldIs(fields[1..], name);
      assert forall f :: f in fields <==> f == fields[0] || f in fields[1..];
    }
  }

  predicate HasField(fields: seq<Field>, name: string) {
    exists f :: f in fields && f.name == name
  }

  /** Names are resolved exactly when they all are fields, each to its field. */
  lemma {:induction false} RelevantAre(fields: seq<Field>, entries: seq<Entry>)
    ensures Relevant(fields, entries).Ok? <==> forall k :: 0 <= k < |entries| ==> HasField(fields, entries[k].0)
    ensures Relevant(fields, entries).Ok? ==>
      var given := Relevant(fields, entries).value;
      |given| == |entries| && forall k :: 0 <= k < |entries| ==>
        given[k].field in fields && given[k].field.name == entries[k].0 && given[k].value == entries[k].1
  {
    if entries != [] {
      FindFieldIs(fields, entries[0].0);
      RelevantAre(fields, entries[1..]);
      assert forall k :: 1 <= k < |entries| ==> entries[k] == entries[1..][k - 1];
    }
  }

  predicate Inside(f: Field, i: nat) {
    f.offset <= i < f.End()
  }

  /** No byte belongs to two fields. */
  lemma OneFieldAt(fields: seq<Field>, f: Field, g: Field, i: nat)
    requires WellLaid(fields) && f in fields && g in fields && Inside(f, i) && Inside(g, i)
    ensures f == g
  {
    var j :| 0 <= j < |fields| && fields[j] == f;
    var k :| 0 <= k < |fields| && fields[k] == g;
    if j < k {
      FieldsApart(fields, 0, j, k);
    } else if k < j {
      FieldsApart(fields, 0, k, j);
    }
  }

  // Patching.

  /** Assignments to different fields of a schema. */
  predicate Assigns(fields: seq<Field>, given: seq<Assignment>) {
    && (forall k :: 0 <= k < |given| ==> given[k].field in fields)
    && (forall j, k :: 0 <= j < k < |given| ==> given[j].field != given[k].field)
  }

  predicate Printable(given: seq<Assignment>) {
    forall k :: 0 <= k < |given| ==> given[k].Printed().Ok?
  }

  /** A field ends inside the struct, and what is printed for it has its size. */
  lemma AssignmentFits(fields: seq<Field>, a: Assignment)
    requires ValidType(Embed(fields)) && a.field in fields
    ensures a.field.End() <= StructSize(fields) && WellLaid(fields)
    ensures a.Printed().Ok? ==> |a.Printed().value| == a.field.size
  {
    OrderedEnds(fields, 0);
    if a.Printed().Ok? {
      PrintSize(a.field.dataType, a.value);
    }
  }

  /** Patching fails only where a value cannot be printed. */
  lemma {:induction false} PatchAllOkIff(fields: seq<Field>, given: seq<Assignment>, bytes: seq<byte>)
    requires ValidType(Embed(fields)) && Assigns(fields, given) && |bytes| == StructSize(fields)
    ensures PatchAll(given, bytes).Ok? <==> Printable(given)
    ensures PatchAll(given, bytes).Ok? ==> |PatchAll(given, bytes).value| == |bytes|
  {
    if given != [] {
      var first, rest := given[0], given[1..];
      AssignmentFits(fields, first);
      assert forall k :: 1 <= k < |given| ==> given[k] == rest[k - 1];
      if first.Printed().Ok? {
        PatchAllOkIff(fields, rest, PatchBinary(bytes, first.Printed().value, first.field.offset).value);
      }
    }
  }

  /** A byte of no given field stays as it was. */
  lemma {:induction false} PatchElsewhere(fields: seq<Field>, given: seq<Assignment>, bytes: seq<byte>, i: nat)
    requires ValidType(Embed(fields)) && Assigns(fields, given) && Printable(given) && |bytes| == StructSize(fields)
    requires i < |bytes| && forall k :: 0 <= k < |given| ==> !Inside(given[k].field, i)
    ensures PatchAll(given, bytes).Ok? && |PatchAll(given, bytes).value| == |bytes|
    ensures PatchAll(given, bytes).value[i] == bytes[i]
  {
    if given != [] {
      var first, rest := given[0], given[1..];
      AssignmentFits(fields, first);
      PatchElsewhere(fields, rest, PatchBinary(bytes, first.Printed().value, first.field.offset).value, i);
    }
  }

  /** A byte of a given field is the byte of the field's value. */
  lemma {:induction false} PatchInside(fields: seq<Field>, given: seq<Assignment>, bytes: seq<byte>, k: nat, i: nat)
    requires ValidType(Embed(fields)) && Assigns(fields, given) && Printable(given) && |bytes| == StructSize(fields)
    requires k < |given| && Inside(given[k].field, i)
    ensures PatchAll(given, bytes).Ok? && i < |PatchAll(given, bytes).value| == |bytes|
    ensures i - given[k].field.offset < |given[k].Printed().value|
    ensures PatchAll(given, bytes).value[i] == given[k].Printed().value[i - given[k].field.offset]
  {
    hide ValidType, WellLaid, Assignment.Printed;
    var first, rest := given[0], given[1..];
    AssignmentFits(fields, first);
    AssignmentFits(fields, given[k]);
    var patched := PatchBinary(bytes, first.Printed().value, first.field.offset).value;
    if k > 0 {
      PatchInside(fields, rest, patched, k - 1, i);
    } else {
      forall j | 0 <= j < |rest|
        ensures !Inside(rest[j].field, i)
      {
        assert rest[j] == given[j + 1];
        if Inside(rest[j].field, i) {
          OneFieldAt(fields, first.field, rest[j].field, i);
        }
      }
      PatchElsewhere(fields, rest, patched, i);
    }
  }

  // The mask.

  /** Each byte is masked as the piece it belongs to. */
  lemma {:induction false} PieceMaskAt(pieces: seq<Field>, offset: nat, kept: string -> bool, i: nat) returns (p: Field)
    requires TilesFrom(pieces, offset) && offset <= i < offset + TotalSize(pieces)
    ensures |PieceMask(pieces, kept)| == TotalSize(pieces)
    ensures p in pieces && Inside(p, i)
    ensures PieceMask(pieces, kept)[i - offset] == if kept(p.name) then 0xFF else 0
  {
    PieceMaskSize(pieces, kept);
    if i < pieces[0].End() {
      p := pieces[0];
    } else {
      p := PieceMaskAt(pieces[1..], pieces[0].End(), kept, i);
    }
  }

  lemma {:induction false} PieceMaskSize(pieces: seq<Field>, kept: string -> bool)
    ensures |PieceMask(pieces, kept)| == TotalSize(pieces)
  {
    if pieces != [] {
      PieceMaskSize(pieces[1..], kept);
    }
  }

  lemma {:induction false} OnePieceAt(pieces: seq<Field>, offset: nat, p: Field, q: Field, i: nat)
    requires TilesFrom(pieces, offset) && p in pieces && q in pieces && Inside(p, i) && Inside(q, i)
    ensures p == q
  {
    var first, rest := pieces[0], pieces[1..];
    TilesAscend(rest, first.End());
    if i >= first.End() {
      OnePieceAt(rest, first.End(), p, q, i);
    }
  }

  /** What a schema's own mask keeps of a byte. */
  function CustomAt(custom: Option<seq<byte>>, i: nat): byte {
    if custom.Some? && i < |custom.value| then custom.value[i] else 0xFF
  }

  lemma MaskSizes(fields: seq<Field>, names: set<string>, custom: Option<seq<byte>>)
    requires WellLaid(fields)
    ensures NeededMask(fields, names, custom).Ok? <==> custom.None? || |custom.value| == StructSize(fields)
    ensures NeededMask(fields, names, custom).Ok? ==> |NeededMask(fields, names, custom).value| == StructSize(fields)
  {
    FieldsAndGapsTile(fields);
    PieceMaskSize(FieldsWithGarbage(fields), name => name != GARBAGE);
    PieceMaskSize(FieldsWithGarbage(fields), name => name in names);
  }

  /** A byte's mask from the masks of its piece. */
  lemma AndTwice(i: nat, garbage: byte, own: byte, named: byte)
    requires garbage == 0 || garbage == 0xFF
    requires named == 0 || named == 0xFF
    ensures And(garbage, named) == if garbage == 0 then 0 else named
    ensures And(And(garbage, own), named) == if garbage == 0 || named == 0 then 0 else own
  {
  }

  /** The mask keeps the named fields' bytes as far as the schema's own mask does, and no other byte. */
  lemma NeededMaskAt(fields: seq<Field>, names: set<string>, custom: Option<seq<byte>>, i: nat)
    requires WellLaid(fields) && GARBAGE !in names && NeededMask(fields, names, custom).Ok? && i < StructSize(fields)
    ensures i < |NeededMask(fields, names, custom).value| == StructSize(fields)
    ensures forall f :: f in fields && Inside(f, i) ==>
      NeededMask(fields, names, custom).value[i] == if f.name in names then CustomAt(custom, i) else 0
    ensures (forall f :: f in fields ==> !Inside(f, i)) ==> NeededMask(fields, names, custom).value[i] == 0
  {
    var pieces := FieldsWithGarbage(fields);
    FieldsAndGapsTile(fields);
    MaskSizes(fields, names, custom);
    var p := PieceMaskAt(pieces, 0, name => name != GARBAGE, i);
    var q := PieceMaskAt(pieces, 0, name => name in names, i);
    OnePieceAt(pieces, 0, p, q, i);
    AndTwice(i, GarbageMask(fields)[i], CustomAt(custom, i), MaskFields(fields, names)[i]);
    FieldIsPiece(fields, p);
    forall f | f in fields && Inside(f, i)
      ensures f == p
    {
      FieldIsPiece(fields, f);
      OnePieceAt(pieces, 0, p, f, i);
    }
  }

  // What a query's bytes and mask mean.

  /** The entries are for different fields. */
  predicate Distinct(entries: seq<Entry>) {
    forall j, k :: 0 <= j < k < |entries| ==> entries[j].0 != entries[k].0
  }

  lemma {:induction false} EntriesAssign(fields: seq<Field>, entries: seq<Entry>)
    requires WellLaid(fields) && Distinct(entries) && Relevant(fields, entries).Ok?
    ensures Assigns(fields, Relevant(fields, entries).value)
    ensures GARBAGE !in Names(entries)
  {
    RelevantAre(fields, entries);
    forall k | 0 <= k < |entries|
      ensures entries[k].0 != GARBAGE
    {
      var f := Relevant(fields, entries).value[k].field;
      var i :| 0 <= i < |fields| && fields[i] == f;
    }
  }

  lemma {:induction false} EntriesAssignValid(fields: seq<Field>, entries: seq<Entry>)
    requires ValidType(Embed(fields)) && Distinct(entries) && Relevant(fields, entries).Ok?
    ensures WellLaid(fields) && Assigns(fields, Relevant(fields, entries).value) && GARBAGE !in Names(entries)
  {
    EntriesAssign(fields, entries);
  }

  /** A query compiles exactly when it names fields, its values can be printed and a mask of the schema's own has its size. */
  lemma {:induction false} MaskedBytesOkIff(fields: seq<Field>, entries: seq<Entry>, custom: Option<seq<byte>>)
    requires ValidType(Embed(fields)) && Distinct(entries)
    ensures ToMaskedBytes(fields, entries, custom).Ok? <==>
      && Relevant(fields, entries).Ok?
      && Printable(Relevant(fields, entries).value)
      && (custom.Some? ==> |custom.value| == StructSize(fields))
    ensures var r := ToMaskedBytes(fields, entries, custom);
      r.Ok? ==> |r.value.bytes| == |r.value.mask| == StructSize(fields)
  {
    MaskSizes(fields, Names(entries), custom);
    var mask := NeededMask(fields, Names(entries), custom);
    if Relevant(fields, entries).Ok? && mask.Ok? {
      EntriesAssign(fields, entries);
      PatchAllOkIff(fields, Relevant(fields, entries).value, mask.value);
    }
  }

  /** A byte of a given field carries the field's value, masked as the schema asks; any other is zero and not kept. */
  lemma {:induction false} MaskedBytesAt(fields: seq<Field>, entries: seq<Entry>, custom: Option<seq<byte>>, i: nat)
    requires ValidType(Embed(fields)) && Distinct(entries)
    requires ToMaskedBytes(fields, entries, custom).Ok? && i < StructSize(fields)
    ensures var m := ToMaskedBytes(fields, entries, custom).value;
      var given := Relevant(fields, entries).value;
      && i < |m.mask| == |m.bytes|
      && (forall k :: 0 <= k < |given| && Inside(given[k].field, i) ==>
            && given[k].Printed().Ok? && i - given[k].field.offset < |given[k].Printed().value|
            && m.bytes[i] == given[k].Printed().value[i - given[k].field.offset]
            && m.mask[i] == CustomAt(custom, i))
      && ((forall k :: 0 <= k < |given| ==> !Inside(given[k].field, i)) ==> m.mask[i] == 0 && m.bytes[i] == 0)
  {
    hide PatchAll, NeededMask, FieldsWithGarbage, Assignment.Printed, Relevant, CustomAt, WellLaid;
    MaskedBytesOkIff(fields, entries, custom);
    EntriesAssignValid(fields, entries);
    RelevantAre(fields, entries);
    var given, names := Relevant(fields, entries).value, Names(entries);
    var mask := NeededMask(fields, names, custom).value;
    NeededMaskAt(fields, names, custom, i);
    if k :| 0 <= k < |given| && Inside(given[k].field, i) {
      assert entries[k].0 in names;
      PatchInside(fields, given, mask, k, i);
      forall j | 0 <= j < |given| && Inside(given[j].field, i)
        ensures j == k
      {
        OneFieldAt(fields, given[j].field, given[k].field, i);
      }
    } else {
      forall f | f in fields && Inside(f, i)
        ensures f.name !in names
      {
        NotGiven(fields, entries, f, i);
      }
      PatchElsewhere(fields, given, mask, i);
    }
  }

  /** A field whose bytes no assignment touches is not named. */
  lemma {:induction false} NotGiven(fields: seq<Field>, entries: seq<Entry>, f: Field, i: nat)
    requires WellLaid(fields) && Relevant(fields, entries).Ok? && f in fields && Inside(f, i)
    requires forall k :: 0 <= k < |Relevant(fields, entries).value| ==> !Inside(Relevant(fields, entries).value[k].field, i)
    ensures f.name !in Names(entries)
  {
    RelevantAre(fields, entries);
  }

  /** Whether a mask keeps a byte. */
  predicate Compares(mask: seq<byte>, i: nat) {
    i < |mask| && mask[i] != 0
  }

  /** A mask that keeps nothing but what the other one keeps, such as the part of it that is scanned for. */
  predicate Within(mask: seq<byte>, whole: seq<byte>) {
    |mask| == |whole| && forall i :: 0 <= i < |mask| && mask[i] != 0 ==> whole[i] != 0
  }

  lemma ScannedWithin(mask: seq<byte>)
    ensures Within(mask, mask) && Within(ScannedMask(mask), mask)
  {
    hide FirstSignificant, LastSignificant;
  }

  /** Memory at `b` has the bytes of an assigned value where they are compared. */
  ghost predicate Holds(memory: nat -> byte, b: int, a: Assignment, mask: seq<byte>)
    requires a.Printed().Ok?
  {
    forall i: nat :: Inside(a.field, i) && i - a.field.offset < |a.Printed().value| && Compares(mask, i) ==>
      b + i >= 0 && memory(b + i) == a.Printed().value[i - a.field.offset]
  }

  /**
   * A query's bytes match, as far as any part of its mask compares them, exactly the structs whose given
   * fields hold the given values there.
   */
  lemma {:induction false} MaskedBytesMatchIff(
    fields: seq<Field>, entries: seq<Entry>, custom: Option<seq<byte>>, m: Masked, mask: seq<byte>, memory: nat -> byte, b: int)
    requires ValidType(Embed(fields)) && Distinct(entries) && ToMaskedBytes(fields, entries, custom) == Ok(m)
    requires Within(mask, m.mask)
    ensures Relevant(fields, entries).Ok? && Printable(Relevant(fields, entries).value)
    ensures |m.bytes| == |m.mask| == StructSize(fields)
    ensures QueryMatches(memory, m.bytes, mask, b) <==>
      forall k :: 0 <= k < |Relevant(fields, entries).value| ==> Holds(memory, b, Relevant(fields, entries).value[k], mask)
  {
    hide ToMaskedBytes, Relevant, Assignment.Printed, WellLaid;
    MaskedBytesOkIff(fields, entries, custom);
    EntriesAssignValid(fields, entries);
    var given := Relevant(fields, entries).value;
    if QueryMatches(memory, m.bytes, mask, b) {
      forall k | 0 <= k < |given|
        ensures Holds(memory, b, given[k], mask)
      {
        HoldsIfMatched(fields, entries, custom, m, mask, memory, b, k);
      }
    }
    if forall k :: 0 <= k < |given| ==> Holds(memory, b, given[k], mask) {
      forall i | 0 <= i < |mask| && mask[i] != 0
        ensures b + i >= 0 && memory(b + i) == m.bytes[i]
      {
        MaskedBytesAt(fields, entries, custom, i);
        var k :| 0 <= k < |given| && Inside(given[k].field, i);
        assert Holds(memory, b, given[k], mask);
      }
    }
  }

  lemma {:induction false} HoldsIfMatched(
    fields: seq<Field>, entries: seq<Entry>, custom: Option<seq<byte>>, m: Masked, mask: seq<byte>, memory: nat -> byte,
    b: int, k: nat)
    requires ValidType(Embed(fields)) && Distinct(entries) && ToMaskedBytes(fields, entries, custom) == Ok(m)
    requires Relevant(fields, entries).Ok? && k < |Relevant(fields, entries).value|
    requires Relevant(fields, entries).value[k].Printed().Ok?
    requires |m.bytes| == |mask| && QueryMatches(memory, m.bytes, mask, b)
    ensures Holds(memory, b, Relevant(fields, entries).value[k], mask)
  {
    hide ToMaskedBytes, Relevant, Assignment.Printed, WellLaid;
    EntriesAssignValid(fields, entries);
    var a := Relevant(fields, entries).value[k];
    AssignmentFits(fields, a);
    forall i: nat | Inside(a.field, i) && i - a.field.offset < |a.Printed().value| && Compares(mask, i)
      ensures b + i >= 0 && memory(b + i) == a.Printed().value[i - a.field.offset]
    {
      MaskedBytesAt(fields, entries, custom, i);
    }
  }

  function SeenAt(reader: Reader, b: nat, a: Assignment, mask: seq<byte>, j: nat): byte
    requires a.Printed().Ok? && j < |a.Printed().value|
  {
    if Compares(mask, a.field.offset + j) then reader.memory(b + a.field.offset + j) else a.Printed().value[j]
  }

  /** What a query sees of a field at `b`: memory, or the value's own bytes where nothing is compared. */
  function Seen(reader: Reader, b: nat, a: Assignment, mask: seq<byte>): (window: seq<byte>)
    requires a.Printed().Ok?
    ensures |window| == |a.Printed().value|
  {
    seq<byte>(|a.Printed().value|, j requires 0 <= j < |a.Printed().value| => SeenAt(reader, b, a, mask, j))
  }

  /** What is seen at `b` reads as the assigned value, and its gaps and bools are as they would be printed. */
  ghost predicate Reads(reader: Reader, b: nat, a: Assignment, mask: seq<byte>)
    requires ValidType(a.field.dataType) && a.Printed().Ok?
  {
    var window := Seen(reader, b, a, mask);
    PrintSize(a.field.dataType, a.value);
    && FromBytes(a.field.dataType, window) == Ok(Normal(a.field.dataType, a.value))
    && forall i :: 0 <= i < |window| ==> Survives(KindAt(a.field.dataType, i), window[i])
  }

  lemma FieldTypeValid(fields: seq<Field>, f: Field)
    requires ValidType(Embed(fields)) && f in fields
    ensures ValidType(f.dataType) && f.size == TypeSize(f.dataType)
  {
  }

  lemma HoldsIffReads(reader: Reader, b: nat, a: Assignment, mask: seq<byte>)
    requires ValidType(a.field.dataType) && a.field.size == TypeSize(a.field.dataType) && a.Printed().Ok?
    ensures Holds(reader.memory, b, a, mask) <==> Reads(reader, b, a, mask)
  {
    hide ValidType, KindAt, Survives, FromBytes, ToBytes, Normal, Compares, Holds, Seen;
    var window := Seen(reader, b, a, mask);
    PrintSize(a.field.dataType, a.value);
    PrintedIff(a.field.dataType, a.value, window);
    HoldsIffSeen(reader, b, a, mask);
  }

  /** Matching is seeing the printed bytes. */
  lemma HoldsIffSeen(reader: Reader, b: nat, a: Assignment, mask: seq<byte>)
    requires a.Printed().Ok? && |a.Printed().value| == a.field.size
    ensures Holds(reader.memory, b, a, mask) <==> Seen(reader, b, a, mask) == a.Printed().value
  {
    hide Compares, Assignment.Printed;
    var f, printed, window := a.field, a.Printed().value, Seen(reader, b, a, mask);
    if Holds(reader.memory, b, a, mask) {
      forall j | 0 <= j < f.size
        ensures window[j] == printed[j]
      {
        assert Inside(f, f.offset + j);
      }
      assert window == printed;
    }
    if window == printed {
      forall i: nat | Inside(f, i) && Compares(mask, i)
        ensures reader.memory(b + i) == printed[i - f.offset]
      {
        assert window[i - f.offset] == printed[i - f.offset];
      }
    }
  }

  /** The fields that a query gives values for. */
  function Given(fields: seq<Field>, entries: seq<Entry>): seq<Assignment> {
    match Relevant(fields, entries)
    case Ok(given) => given
    case Err(_) => []
  }

  /** Each of them is a field with a value that can be printed. */
  lemma GivenIsPrintable(fields: seq<Field>, entries: seq<Entry>, custom: Option<seq<byte>>)
    requires ValidType(Embed(fields)) && Distinct(entries) && ToMaskedBytes(fields, entries, custom).Ok?
    ensures var given := Given(fields, entries);
      && Assigns(fields, given)
      && forall k :: 0 <= k < |given| ==>
          && ValidType(given[k].field.dataType) && given[k].field.size == TypeSize(given[k].field.dataType)
          && given[k].Printed().Ok? && |given[k].Printed().value| == given[k].field.size
          && given[k].field.End() <= StructSize(fields)
  {
    hide Assignment.Printed, WellLaid;
    MaskedBytesOkIff(fields, entries, custom);
    EntriesAssignValid(fields, entries);
    var given := Given(fields, entries);
    forall k | 0 <= k < |given|
      ensures ValidType(given[k].field.dataType) && given[k].field.size == TypeSize(given[k].field.dataType)
      ensures given[k].field.End() <= StructSize(fields)
      ensures given[k].Printed().Ok? && |given[k].Printed().value| == given[k].field.size
    {
      FieldTypeValid(fields, given[k].field);
      AssignmentFits(fields, given[k]);
    }
  }

  /**
   * A query's bytes match exactly the structs whose fields read as the values it gives, as far as they are
   * compared. Gaps and bools inside a given field count too: a struct is missed if they hold anything that
   * printing would not put there.
   */
  lemma QueryFindsValuesIff(
    fields: seq<Field>, entries: seq<Entry>, custom: Option<seq<byte>>, m: Masked, mask: seq<byte>, reader: Reader, b: nat)
    requires ValidType(Embed(fields)) && Distinct(entries) && ToMaskedBytes(fields, entries, custom) == Ok(m)
    requires Within(mask, m.mask)
    ensures var given := Given(fields, entries);
      forall k :: 0 <= k < |given| ==> ValidType(given[k].field.dataType) && given[k].Printed().Ok?
    ensures |m.bytes| == |m.mask| == |mask|
    ensures QueryMatches(reader.memory, m.bytes, mask, b) <==>
      forall k :: 0 <= k < |Given(fields, entries)| ==> Reads(reader, b, Given(fields, entries)[k], mask)
  {
    hide ToMaskedBytes, Assignment.Printed, WellLaid, ValidType, Holds, Reads, QueryMatches;
    MaskedBytesMatchIff(fields, entries, custom, m, mask, reader.memory, b);
    GivenIsPrintable(fields, entries, custom);
    var given := Given(fields, entries);
    forall k | 0 <= k < |given|
      ensures Holds(reader.memory, b, given[k], mask) <==> Reads(reader, b, given[k], mask)
    {
      HoldsIffReads(reader, b, given[k], mask);
    }
  }

  /**
   * A query's answer over one range: the structs whose window lies aligned, readable and inside the range,
   * and whose fields read as the values given, as far as they are scanned for.
   */
  lemma AnswerFindsValues(
    fields: seq<Field>, entries: seq<Entry>, custom: Option<seq<byte>>, m: Masked, job: Job, offset: nat, addrs: seq<int>, b: nat)
    requires ValidType(Embed(fields)) && Distinct(entries) && ToMaskedBytes(fields, entries, custom) == Ok(m)
    requires |m.bytes| == |m.mask| && QueryAnswer(job, m.bytes, ScannedMask(m.mask), offset, addrs)
    ensures var given := Given(fields, entries);
      forall k :: 0 <= k < |given| ==> ValidType(given[k].field.dataType) && given[k].Printed().Ok?
    ensures b in addrs <==>
      && job.range.start <= b + offset <= job.range.end - job.room
      && (b + offset) % ALIGN_SIZE == 0
      && Known(job.Snapshot(), b + offset, job.room)
      && forall k :: 0 <= k < |Given(fields, entries)| ==> Reads(job.reader, b, Given(fields, entries)[k], ScannedMask(m.mask))
  {
    hide ToMaskedBytes, Given, WellLaid, ValidType, Reads, QueryMatches, ScannedMask, Within;
    ScannedWithin(m.mask);
    QueryFindsValuesIff(fields, entries, custom, m, ScannedMask(m.mask), job.reader, b);
    assert b in addrs <==> QueryHit(job, m.bytes, ScannedMask(m.mask), offset, b);
  }

  /** Without a mask of the schema's own, the mask is plain, and keeps something exactly if any field is given. */
  lemma PlainQueryMask(fields: seq<Field>, entries: seq<Entry>, m: Masked)
    requires ValidType(Embed(fields)) && Distinct(entries) && ToMaskedBytes(fields, entries, None) == Ok(m)
    ensures |m.bytes| == |m.mask| && forall i :: 0 <= i < |m.mask| ==> m.mask[i] == 0 || m.mask[i] == 0xFF
    ensures 0xFF in m.mask <==> entries != []
  {
    hide ToMaskedBytes, Relevant, WellLaid, ValidType, Assignment.Printed;
    MaskedBytesOkIff(fields, entries, None);
    RelevantAre(fields, entries);
    forall i | 0 <= i < |m.mask|
      ensures m.mask[i] == 0 || m.mask[i] == 0xFF
      ensures entries == [] ==> m.mask[i] == 0
    {
      MaskedBytesAt(fields, entries, None, i);
    }
    if entries != [] {
      var f := Relevant(fields, entries).value[0].field;
      FieldNotEmpty(fields, f);
      MaskedBytesAt(fields, entries, None, f.offset);
      assert m.mask[f.offset] == 0xFF;
    }
  }

  lemma FieldNotEmpty(fields: seq<Field>, f: Field)
    requires ValidType(Embed(fields)) && f in fields
    ensures Inside(f, f.offset) && f.End() <= StructSize(fields)
  {
    OrderedEnds(fields, 0);
  }

  /** So a query that gives any field compiles to a pattern. */
  lemma QueryHasPattern(fields: seq<Field>, entries: seq<Entry>, m: Masked)
    requires ValidType(Embed(fields)) && Distinct(entries) && ToMaskedBytes(fields, entries, None) == Ok(m)
    ensures |m.bytes| == |m.mask| && MaskSpanned(m.mask)
    ensures QueryToScanPattern(m.bytes, m.mask).Some? <==> entries != []
  {
    hide ToMaskedBytes, WellLaid, ValidType, QueryToScanPattern, MaskSpanned;
    PlainQueryMask(fields, entries, m);
    PlainMaskSpanned(m.mask);
    PatternIffSignificant(m.bytes, m.mask);
  }
}
