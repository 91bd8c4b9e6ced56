/** When a query's bytes tell exactly the structs whose fields hold the values that it gives. */
module QueryExactness {
  import opened Wrappers
  import opened Bytes
  import opened SchemaLayouts
  import opened SchemaCodecs
  import opened SchemaRoundTrips
  import opened SchemaReprints
  import opened AddressRanges
  import opened Queries
  import opened MaskedBytes

  /** Memory at `b` reads as the assigned value. */
  predicate HasValue(memory: nat -> byte, b: nat, a: Assignment) {
    FromBytes(a.field.dataType, MemoryAt(memory, b + a.field.offset, a.field.size))
      == Ok(Normal(a.field.dataType, a.value))
  }

  /** A struct at `b` has all the values given. */
  predicate AllHaveValue(memory: nat -> byte, b: nat, given: seq<Assignment>) {
    forall k :: 0 <= k < |given| ==> HasValue(memory, b, given[k])
  }

  /**
   * Whether a byte is compared exactly as far as the value depends on it. A compared gap is too much, an
   * ignored data byte too little, and a compared bool is right only if it is false: any other byte is true.
   */
  predicate Pinned(kind: ByteKind, compared: bool, printed: byte) {
    match kind
    case InGap => !compared
    case InBool => compared && printed == 0
    case InData => compared
  }

  predicate PinnedAt(a: Assignment, mask: seq<byte>, i: nat)
    requires ValidType(a.field.dataType) && a.Printed().Ok? && i < TypeSize(a.field.dataType)
  {
    PrintSize(a.field.dataType, a.value);
    Pinned(KindAt(a.field.dataType, i), Compares(mask, a.field.offset + i), a.Printed().value[i])
  }

  predicate AllPinned(a: Assignment, mask: seq<byte>)
    requires ValidType(a.field.dataType) && a.Printed().Ok?
  {
    forall i :: 0 <= i < TypeSize(a.field.dataType) ==> PinnedAt(a, mask, i)
  }

  predicate IsWellGiven(a: Assignment) {
    && ValidType(a.field.dataType) && a.field.size == TypeSize(a.field.dataType)
    && a.Printed().Ok? && |a.Printed().value| == a.field.size
  }

  predicate WellGiven(given: seq<Assignment>) {
    forall k :: 0 <= k < |given| ==> IsWellGiven(given[k])
  }

  /** The query's caller can tell before it is made: every byte of every given field is pinned. */
  predicate ExactQuery(given: seq<Assignment>, mask: seq<byte>)
    requires WellGiven(given)
  {
    forall k :: 0 <= k < |given| ==> AllPinned(given[k], mask)
  }

  /** Byte by byte: what a pinned byte is compared with is all that the value says of it. */
  lemma PinnedDecides(kind: ByteKind, compared: bool, printed: byte, b: byte)
    requires Pinned(kind, compared, printed) && Survives(kind, printed)
    ensures (compared ==> b == printed) <==> Reprinted(kind, b) == printed
  {
  }

  /** Any other byte is misjudged for some content of memory. */
  lemma UnpinnedMisjudges(kind: ByteKind, compared: bool, printed: byte) returns (b: byte)
    requires !Pinned(kind, compared, printed) && Survives(kind, printed)
    ensures b != printed && (compared <==> Reprinted(kind, b) == printed)
  {
    match kind
    case InGap => b := 0;
    case InBool => b := if compared then 2 else 1 - printed;
    case InData => b := if printed == 0 then 1 else 0;
  }

  /** What a value prints to survives printing. */
  lemma {:induction false} PrintedSurvives(t: DataType, v: Value, i: nat)
    requires ValidType(t) && ToBytes(t, v).Ok? && i < TypeSize(t)
    ensures i < |ToBytes(t, v).value| && Survives(KindAt(t, i), ToBytes(t, v).value[i])
  {
    hide ValidType, FromBytes, ToBytes, Normal, KindAt;
    PrintSize(t, v);
    PrintedIff(t, v, ToBytes(t, v).value);
  }

  /** A field with only pinned bytes matches exactly where memory has its value. */
  lemma PinnedFieldExact(memory: nat -> byte, b: nat, a: Assignment, mask: seq<byte>)
    requires IsWellGiven(a) && AllPinned(a, mask)
    ensures Holds(memory, b, a, mask) <==> HasValue(memory, b, a)
  {
    hide ValidType, TypeSize, FromBytes, ToBytes, Normal, KindAt, Compares, Pinned, Survives, Reprinted, Holds;
    var t, f, printed := a.field.dataType, a.field, a.Printed().value;
    var window := MemoryAt(memory, b + f.offset, f.size);
    ReadsIff(t, a.value, window);
    forall i | 0 <= i < f.size
      ensures (Compares(mask, f.offset + i) ==> window[i] == printed[i]) <==> Reprinted(KindAt(t, i), window[i]) == printed[i]
    {
      PrintedSurvives(t, a.value, i);
      assert PinnedAt(a, mask, i);
      PinnedDecides(KindAt(t, i), Compares(mask, f.offset + i), printed[i], window[i]);
    }
    HoldsInWindow(memory, b, a, mask, window);
  }

  lemma HoldsInWindow(memory: nat -> byte, b: nat, a: Assignment, mask: seq<byte>, window: seq<byte>)
    requires a.Printed().Ok? && |a.Printed().value| == a.field.size
    requires window == MemoryAt(memory, b + a.field.offset, a.field.size)
    ensures Holds(memory, b, a, mask) <==> forall i :: 0 <= i < a.field.size ==>
      (Compares(mask, a.field.offset + i) ==> window[i] == a.Printed().value[i])
  {
    hide Compares, Assignment.Printed;
    var f := a.field;
    if forall i :: 0 <= i < f.size ==> (Compares(mask, f.offset + i) ==> window[i] == a.Printed().value[i]) {
      forall x: nat | Inside(f, x) && Compares(mask, x)
        ensures memory(b + x) == a.Printed().value[x - f.offset]
      {
        var i := x - f.offset;
        assert window[i] == memory(b + f.offset + i);
      }
    }
    if Holds(memory, b, a, mask) {
      forall i | 0 <= i < f.size && Compares(mask, f.offset + i)
        ensures window[i] == a.Printed().value[i]
      {
        assert Inside(f, f.offset + i);
      }
    }
  }

  // The failing half: one changed byte.

  /** Memory that holds a query's bytes at `b`, but for the byte at `b + p`. */
  function Changed(bytes: seq<byte>, b: nat, p: nat, changed: byte): nat -> byte {
    (x: nat) => ChangedAt(bytes, b, p, changed, x)
  }

  function ChangedAt(bytes: seq<byte>, b: nat, p: nat, changed: byte, x: nat): byte {
    if x == b + p then changed else if b <= x < b + |bytes| then bytes[x - b] else 0
  }

  /** How a given field appears in a query: its printed bytes in their place. */
  predicate Compiled(m: Masked, a: Assignment) {
    && IsWellGiven(a) && a.field.End() <= |m.bytes|
    && forall j :: 0 <= j < a.field.size ==> m.bytes[a.field.offset + j] == a.Printed().value[j]
  }

  predicate AllCompiled(m: Masked, given: seq<Assignment>) {
    forall k :: 0 <= k < |given| ==> Compiled(m, given[k])
  }

  lemma GivenByte(
    fields: seq<Field>, entries: seq<Entry>, custom: Option<seq<byte>>, m: Masked, k: nat, a: Assignment, i: nat)
    requires ValidType(Embed(fields)) && Distinct(entries) && ToMaskedBytes(fields, entries, custom) == Ok(m)
    requires k < |Given(fields, entries)| && Given(fields, entries)[k] == a
    requires Inside(a.field, i) && i < StructSize(fields)
    ensures a.Printed().Ok? && i - a.field.offset < |a.Printed().value| && i < |m.bytes|
    ensures m.bytes[i] == a.Printed().value[i - a.field.offset]
  {
    hide ToMaskedBytes, Relevant, WellLaid, ValidType, Assignment.Printed, CustomAt;
    MaskedBytesOkIff(fields, entries, custom);
    MaskedBytesAt(fields, entries, custom, i);
  }

  lemma GivenCompiled(
    fields: seq<Field>, entries: seq<Entry>, custom: Option<seq<byte>>, m: Masked, k: nat, a: Assignment)
    requires ValidType(Embed(fields)) && Distinct(entries) && ToMaskedBytes(fields, entries, custom) == Ok(m)
    requires k < |Given(fields, entries)| && Given(fields, entries)[k] == a
    requires IsWellGiven(a) && a.field.End() <= StructSize(fields) == |m.bytes|
    ensures Compiled(m, a)
  {
    hide ToMaskedBytes, Given, WellLaid, ValidType, Assignment.Printed;
    forall j | 0 <= j < a.field.size
      ensures m.bytes[a.field.offset + j] == a.Printed().value[j]
    {
      GivenByte(fields, entries, custom, m, k, a, a.field.offset + j);
    }
  }

  /** What a query's given fields are: different fields of the struct, printed in their place. */
  lemma QueryGives(fields: seq<Field>, entries: seq<Entry>, custom: Option<seq<byte>>, m: Masked)
    requires ValidType(Embed(fields)) && Distinct(entries) && ToMaskedBytes(fields, entries, custom) == Ok(m)
    ensures |m.bytes| == |m.mask| == StructSize(fields)
    ensures var given := Given(fields, entries);
      Assigns(fields, given) && WellGiven(given) && AllCompiled(m, given)
  {
    hide ToMaskedBytes, WellLaid, ValidType, Relevant, Assignment.Printed, Compiled;
    GivenIsPrintable(fields, entries, custom);
    MaskedBytesOkIff(fields, entries, custom);
    var given := Given(fields, entries);
    forall k | 0 <= k < |given|
      ensures Compiled(m, given[k])
    {
      GivenCompiled(fields, entries, custom, m, k, given[k]);
    }
  }

  /** With one byte changed, a given field keeps its value unless the value depends on that byte. */
  lemma {:induction false} ChangedField(m: Masked, a: Assignment, b: nat, p: nat, changed: byte)
    requires Compiled(m, a)
    ensures if Inside(a.field, p) then
        HasValue(Changed(m.bytes, b, p, changed), b, a) <==>
          Reprinted(KindAt(a.field.dataType, p - a.field.offset), changed) == a.Printed().value[p - a.field.offset]
      else
        HasValue(Changed(m.bytes, b, p, changed), b, a)
  {
    hide ValidType, TypeSize, FromBytes, ToBytes, Normal, KindAt, Survives, Reprinted;
    var t, f, printed := a.field.dataType, a.field, a.Printed().value;
    var memory := Changed(m.bytes, b, p, changed);
    var window := MemoryAt(memory, b + f.offset, f.size);
    ReadsIff(t, a.value, window);
    forall j | 0 <= j < f.size
      ensures f.offset + j == p ==> window[j] == changed
      ensures f.offset + j != p ==> Reprinted(KindAt(t, j), window[j]) == printed[j]
    {
      PrintedSurvives(t, a.value, j);
      SurvivesReprint(KindAt(t, j), printed[j]);
      assert window[j] == ChangedAt(m.bytes, b, p, changed, b + f.offset + j);
    }
    assert Inside(f, p) ==> 0 <= p - f.offset < f.size;
  }

  lemma SurvivesReprint(kind: ByteKind, b: byte)
    requires Survives(kind, b)
    ensures Reprinted(kind, b) == b
  {
  }

  /** Memory in which a struct with all the values given lies at `b`. */
  lemma PlantedHasValues(m: Masked, given: seq<Assignment>, b: nat)
    requires AllCompiled(m, given)
    ensures AllHaveValue(Changed(m.bytes, b, |m.bytes|, 0), b, given)
  {
    hide ValidType, HasValue, Assignment.Printed, Changed;
    forall k | 0 <= k < |given|
      ensures HasValue(Changed(m.bytes, b, |m.bytes|, 0), b, given[k])
    {
      ChangedField(m, given[k], b, |m.bytes|, 0);
    }
  }

  /** The query still matches exactly if the changed byte is not compared. */
  lemma ChangedMatch(bytes: seq<byte>, mask: seq<byte>, b: nat, p: nat, changed: byte)
    requires p < |bytes| == |mask| && changed != bytes[p]
    ensures QueryMatches(Changed(bytes, b, p, changed), bytes, mask, b) <==> !Compares(mask, p)
  {
    var memory := Changed(bytes, b, p, changed);
    assert memory(b + p) == changed;
  }

  /** Comparing bytes under a mask tells for every memory whether a struct at `b` has all the given values. */
  ghost predicate TellsExactly(bytes: seq<byte>, mask: seq<byte>, given: seq<Assignment>, b: nat)
    requires |bytes| == |mask|
  {
    forall memory: nat -> byte :: QueryMatches(memory, bytes, mask, b) <==> AllHaveValue(memory, b, given)
  }

  /** One unpinned byte spoils the comparison for some memory. */
  lemma UnpinnedSpoils(m: Masked, mask: seq<byte>, given: seq<Assignment>, b: nat, k: nat, i: nat)
    requires k < |given| && AllCompiled(m, given) && |mask| == |m.bytes|
    requires i < given[k].field.size && !PinnedAt(given[k], mask, i)
    requires forall l :: 0 <= l < |given| && l != k ==> !Inside(given[l].field, given[k].field.offset + i)
    ensures !TellsExactly(m.bytes, mask, given, b)
  {
    hide Compares, ValidType, TypeSize, FromBytes, ToBytes, KindAt, Survives, Reprinted, QueryMatches, HasValue, Pinned;
    assert Compiled(m, given[k]);
    var a, p := given[k], given[k].field.offset + i;
    PrintedSurvives(a.field.dataType, a.value, i);
    var changed := UnpinnedMisjudges(KindAt(a.field.dataType, i), Compares(mask, p), a.Printed().value[i]);
    ChangedMatch(m.bytes, mask, b, p, changed);
    hide Changed;
    var memory := Changed(m.bytes, b, p, changed);
    ChangedField(m, a, b, p, changed);
    assert Inside(a.field, p);
    forall l | 0 <= l < |given| && l != k
      ensures HasValue(memory, b, given[l])
    {
      ChangedField(m, given[l], b, p, changed);
    }
    assert QueryMatches(memory, m.bytes, mask, b) <==> !AllHaveValue(memory, b, given);
  }

  lemma GivenApart(fields: seq<Field>, given: seq<Assignment>, k: nat, p: nat)
    requires ValidType(Embed(fields)) && Assigns(fields, given) && k < |given| && Inside(given[k].field, p)
    ensures forall l :: 0 <= l < |given| && l != k ==> !Inside(given[l].field, p)
  {
    forall l | 0 <= l < |given| && l != k && Inside(given[l].field, p)
      ensures false
    {
      OneFieldAt(fields, given[k].field, given[l].field, p);
    }
  }

  /** With all bytes pinned, matching is having the values. */
  lemma PinnedQueryExact(given: seq<Assignment>, mask: seq<byte>, memory: nat -> byte, b: nat)
    requires WellGiven(given) && ExactQuery(given, mask)
    ensures (forall k :: 0 <= k < |given| ==> Holds(memory, b, given[k], mask)) <==> AllHaveValue(memory, b, given)
  {
    hide AllPinned, Holds, HasValue, ValidType, Assignment.Printed;
    forall k | 0 <= k < |given|
      ensures Holds(memory, b, given[k], mask) <==> HasValue(memory, b, given[k])
    {
      PinnedFieldExact(memory, b, given[k], mask);
    }
  }

  /**
   * Comparing a query's bytes, under its mask or the part of it that is scanned for, tells at any one address
   * and for every memory whether the struct there has the values given, if and only if every byte of every
   * given field is pinned: no gap is compared, all data is, and bools are false.
   */
  lemma QueryExactIff(
    fields: seq<Field>, entries: seq<Entry>, custom: Option<seq<byte>>, m: Masked, mask: seq<byte>, b: nat)
    requires ValidType(Embed(fields)) && Distinct(entries) && ToMaskedBytes(fields, entries, custom) == Ok(m)
    requires Within(mask, m.mask)
    ensures WellGiven(Given(fields, entries)) && |m.bytes| == |mask|
    ensures TellsExactly(m.bytes, mask, Given(fields, entries), b) <==> ExactQuery(Given(fields, entries), mask)
  {
    QueryGives(fields, entries, custom, m);
    hide ToMaskedBytes, WellLaid, ValidType, HasValue, Holds, QueryMatches, Relevant, Assignment.Printed, PinnedAt,
         Compiled, AllHaveValue;
    var given := Given(fields, entries);
    if ExactQuery(given, mask) {
      forall memory: nat -> byte
        ensures QueryMatches(memory, m.bytes, mask, b) <==> AllHaveValue(memory, b, given)
      {
        MaskedBytesMatchIff(fields, entries, custom, m, mask, memory, b);
        PinnedQueryExact(given, mask, memory, b);
      }
    } else {
      var k :| 0 <= k < |given| && !AllPinned(given[k], mask);
      var i :| 0 <= i < TypeSize(given[k].field.dataType) && !PinnedAt(given[k], mask, i);
      GivenApart(fields, given, k, given[k].field.offset + i);
      UnpinnedSpoils(m, mask, given, b, k, i);
    }
  }

  // A query that misses a struct with the very value it gives.

  /** A byte field behind a one-byte gap. */
  const INNER := Embed([Field("a", Unsigned(1), 1, 1)])

  const OUTER := [Field("x", INNER, 0, 2)]

  function Seven(): Value {
    VStruct(map["a" := VInt(7)])
  }

  lemma InnerValid()
    ensures ValidType(INNER) && TypeSize(INNER) == 2 && WellLaid(INNER.fields) && StructSize(INNER.fields) == 2
    ensures KindAt(INNER, 0) == InGap && KindAt(INNER, 1) == InData
  {
    var fields := INNER.fields;
    assert fields[1..] == [];
    assert WellLaid(fields);
    KindOutside(INNER, 1, 0);
    KindInField(INNER, 1, 0, 1);
  }

  lemma SevenNormal()
    ensures PrintFields(INNER, 1, Seven().fields) == Ok(map["a" := [7]])
    ensures Normal(INNER, Seven()) == Seven()
  {
    assert Span(1) == 0x100 * Span(0);
    assert ToLittleEndian(7, 1) == [7 % 0x100] + ToLittleEndian(7 / 0x100, 0);
    assert [7] + ToLittleEndian(7 / 0x100, 0) == [7];
    assert ToBytes(Unsigned(1), VInt(7)) == Ok([7]);
    assert PrintFields(INNER, 0, Seven().fields) == Ok(map[]);
    assert NormalFields(INNER, 0, Seven().fields) == map[];
    assert NormalFields(INNER, 1, Seven().fields) == map["a" := VInt(7)];
  }

  lemma SevenPrints()
    ensures ValidType(INNER) && TypeSize(INNER) == 2
    ensures ToBytes(INNER, Seven()).Ok? && ToBytes(INNER, Seven()).value == [0xCC, 7]
  {
    InnerValid();
    SevenNormal();
    var fields, pieces, printed := INNER.fields, FieldsWithGarbage(INNER.fields), PrintFields(INNER, 1, Seven().fields).value;
    assert ToBytes(INNER, Seven()) == Ok(PrintPieces(pieces, printed));
    hide ToBytes, ValidType, KindAt, WellLaid, TypeSize, FieldsWithGarbage;
    PrintSize(INNER, Seven());
    PrintedSurvives(INNER, Seven(), 0);
    FieldsAndGapsTile(fields);
    FieldIsPiece(fields, fields[0]);
    PrintFieldsFill(INNER, Seven().fields);
    PrintPiecesAt(pieces, 0, printed, 1);
  }

  lemma {:induction false} SevenParses(bytes: seq<byte>)
    requires |bytes| == 2 && bytes[1] == 7
    ensures FromBytes(INNER, bytes) == Ok(Seven())
  {
    InnerValid();
    SevenNormal();
    SevenPrints();
    hide FromBytes, ToBytes, ValidType, KindAt, Normal, TypeSize;
    ReadsIff(INNER, Seven(), bytes);
  }

  lemma OuterValid()
    ensures ValidType(INNER) && ValidType(Embed(OUTER))
  {
    InnerValid();
    assert OUTER[0].size == TypeSize(INNER);
    assert OUTER[1..] == [];
    assert WellLaid(OUTER);
  }

  lemma SevenQuery()
    ensures Relevant(OUTER, [("x", Seven())]) == Ok([Assignment(OUTER[0], Seven())])
  {
    var entries: seq<Entry> := [("x", Seven())];
    RelevantAre(OUTER, entries);
    assert OUTER[0] in OUTER && HasField(OUTER, "x");
    assert Relevant(OUTER, entries).value == [Assignment(OUTER[0], Seven())];
  }

  /** A struct with the very value that the query gives is missed because its gap does not hold 0xCC. */
  lemma GapHidesStruct(memory: nat -> byte, b: nat)
    requires memory(b) == 0 && memory(b + 1) == 7
    ensures ValidType(INNER) && ValidType(Embed(OUTER))
    ensures FromBytes(INNER, MemoryAt(memory, b, 2)) == Ok(Seven())
    ensures ToMaskedBytes(OUTER, [("x", Seven())], None).Ok?
    ensures var m := ToMaskedBytes(OUTER, [("x", Seven())], None).value;
      |m.bytes| == |m.mask| && !QueryMatches(memory, m.bytes, m.mask, b)
  {
    OuterValid();
    SevenQuery();
    SevenPrints();
    hide ValidType, TypeSize, KindAt, FromBytes, ToBytes, Normal, WellLaid, ToMaskedBytes, Relevant, QueryMatches, Seven;
    var entries: seq<Entry>, a := [("x", Seven())], Assignment(OUTER[0], Seven());
    MaskedBytesOkIff(OUTER, entries, None);
    var m := ToMaskedBytes(OUTER, entries, None).value;
    MaskedBytesMatchIff(OUTER, entries, None, m, m.mask, memory, b);
    MaskedBytesAt(OUTER, entries, None, 0);
    SevenParses(MemoryAt(memory, b, 2));
    assert Relevant(OUTER, entries).value[0] == a;
    assert Inside(a.field, 0) && a.Printed().value[0] == 0xCC && Compares(m.mask, 0);
    assert !Holds(memory, b, a, m.mask);
  }
}
