/** What printing a parsed binary keeps: everything but the gaps, and bools only as zero or one. */
module SchemaReprints {
  import opened Wrappers
  import opened Bytes
  import opened SchemaLayouts
  import opened SchemaCodecs
  import opened SchemaRoundTrips

  /** What a byte of a type's binary belongs to. */
  datatype ByteKind = InGap | InBool | InData

  /** The kind of the byte at `i`. */
  function KindAt(t: DataType, i: nat): ByteKind
    requires ValidType(t) && i < TypeSize(t)
    decreases t, 1, 0
  {
    match t
    case Bool => InBool
    case Array(element, count) =>
      KindInItems(element, i)
    case Embed(fields) => KindInFields(t, |fields|, i)
    case _ => InData
  }

  /** Kinds repeat with every element. */
  function KindInItems(element: DataType, i: nat): ByteKind
    requires ValidType(element)
    decreases element, 2, i
  {
    TypeSizePositive(element);
    var size := TypeSize(element);
    if i < size then KindAt(element, i) else KindInItems(element, i - size)
  }

  /** The kind of a struct's byte as far as the first `n` fields tell. */
  function KindInFields(t: DataType, n: nat, i: nat): ByteKind
    requires t.Embed? && ValidType(t) && n <= |t.fields|
    decreases t, 0, n
  {
    if n == 0 then
      InGap
    else
      var f := t.fields[n - 1];
      if f.offset <= i < f.End() then KindAt(f.dataType, i - f.offset) else KindInFields(t, n - 1, i)
  }

  /** A byte after parsing and printing. */
  function Reprinted(kind: ByteKind, b: byte): byte {
    match kind
    case InGap => 0xCC
    case InBool => if b == 0 then 0 else 1
    case InData => b
  }

  /** The bytes that printing brings back. */
  predicate Survives(kind: ByteKind, b: byte) {
    match kind
    case InGap => b == 0xCC
    case InBool => b <= 1
    case InData => true
  }

  predicate Reprints(t: DataType, bytes: seq<byte>, printed: seq<byte>)
    requires ValidType(t)
  {
    && |printed| == |bytes| == TypeSize(t)
    && forall i :: 0 <= i < |bytes| ==> printed[i] == Reprinted(KindAt(t, i), bytes[i])
  }

  lemma {:induction false} FieldsApart(fields: seq<Field>, lastEnd: nat, j: nat, k: nat)
    requires OrderedFrom(fields, lastEnd) && j < k < |fields|
    ensures fields[j].End() <= fields[k].offset
  {
    if j == 0 {
      OrderedEnds(fields[1..], fields[0].End());
      assert fields[k] == fields[1..][k - 1];
    } else {
      FieldsApart(fields[1..], fields[0].End(), j - 1, k - 1);
    }
  }

  /** A byte inside a field has the kind that the field's type gives it. */
  lemma {:induction false} KindInField(t: DataType, n: nat, k: nat, i: nat)
    requires t.Embed? && ValidType(t) && k < n <= |t.fields|
    requires t.fields[k].offset <= i < t.fields[k].End()
    ensures KindInFields(t, n, i) == KindAt(t.fields[k].dataType, i - t.fields[k].offset)
  {
    if k < n - 1 {
      FieldsApart(t.fields, 0, k, n - 1);
      KindInField(t, n - 1, k, i);
    }
  }

  /** A byte outside all fields is in a gap. */
  lemma {:induction false} KindOutside(t: DataType, n: nat, i: nat)
    requires t.Embed? && ValidType(t) && n <= |t.fields|
    requires forall k :: 0 <= k < n ==> !(t.fields[k].offset <= i < t.fields[k].End())
    ensures KindInFields(t, n, i) == InGap
  {
    if n > 0 {
      KindOutside(t, n - 1, i);
    }
  }

  /** A binary is parsed, and if values of its type can be printed, the value is printed with only gaps and bools changed. */
  predicate Reparsed(t: DataType, bytes: seq<byte>)
    requires ValidType(t)
  {
    && FromBytes(t, bytes).Ok?
    && (PrintableType(t) ==>
          && ToBytes(t, FromBytes(t, bytes).value).Ok?
          && Reprints(t, bytes, ToBytes(t, FromBytes(t, bytes).value).value))
  }

  lemma {:induction false} EveryReparsed(t: DataType, bytes: seq<byte>)
    requires ValidType(t) && |bytes| == TypeSize(t)
    ensures Reparsed(t, bytes)
    decreases t, 1, 0
  {
    hide ValidType, TypeSize, Reparsed;
    match t
    case Array(element, count) =>
      ArrayReparsed(element, count, bytes);
    case Embed(fields) =>
      StructReparsed(t, bytes);
    case _ =>
      ScalarReparsed(t, bytes);
  }

  lemma {:induction false} ScalarReparsed(t: DataType, bytes: seq<byte>)
    requires ValidType(t) && |bytes| == TypeSize(t) && !t.Array? && !t.Embed?
    ensures Reparsed(t, bytes)
  {
    hide ToLittleEndian, FromLittleEndian, Bytes.Signed, Bytes.Unsigned;
    match t
    case Unsigned(width) =>
      LittleEndianInverse(bytes);
    case Signed(width) =>
      LittleEndianInverse(bytes);
      SignedRoundTrip(0, FromLittleEndian(bytes), width);
    case StringBuffer(length) =>
      assert bytes + Zeros(0) == bytes;
    case _ =>
  }

  lemma {:induction false} ArrayReparsed(element: DataType, count: nat, bytes: seq<byte>)
    requires ValidType(Array(element, count)) && |bytes| == TypeSize(Array(element, count))
    ensures Reparsed(Array(element, count), bytes)
    decreases element, 3, count
  {
    ItemsReparsed(element, count, bytes);
    var t, items := Array(element, count), ParseItems(element, bytes).value;
    assert FromBytes(t, bytes) == Ok(VList(items)) && ToBytes(t, VList(items)) == PrintItems(element, items);
    assert PrintableType(t) == PrintableType(element);
    hide FromBytes, ToBytes, PrintItems, ParseItems, Reprinted, KindInItems, PrintableType;
    assert forall i :: 0 <= i < |bytes| ==> KindAt(t, i) == KindInItems(element, i);
  }

  lemma {:induction false} ItemsReparsed(element: DataType, count: nat, bytes: seq<byte>)
    requires ValidType(element) && |bytes| == count * TypeSize(element)
    ensures ParseItems(element, bytes).Ok? && |ParseItems(element, bytes).value| == count
    ensures PrintableType(element) ==> ItemsReprint(element, bytes, PrintItems(element, ParseItems(element, bytes).value))
    decreases element, 2, count
  {
    hide FromBytes, ToBytes, KindAt, TypeSize, ValidType, Reprinted, Survives, PrintableType;
    var size := TypeSize(element);
    TypeSizePositive(element);
    if count > 0 {
      assert |bytes| == size + (count - 1) * size;
      var first, rest := bytes[..size], bytes[size..];
      EveryReparsed(element, first);
      ItemsReparsed(element, count - 1, rest);
      var value, values := FromBytes(element, first).value, ParseItems(element, rest).value;
      assert ParseItems(element, bytes) == Ok([value] + values);
      if PrintableType(element) {
        var firstPrinted, restPrinted := ToBytes(element, value).value, PrintItems(element, values).value;
        assert ([value] + values)[1..] == values;
        assert PrintItems(element, [value] + values) == Ok(firstPrinted + restPrinted);
        forall i | 0 <= i < |bytes|
          ensures (firstPrinted + restPrinted)[i] == Reprinted(KindInItems(element, i), bytes[i])
        {
          assert i >= size ==> bytes[i] == rest[i - size];
        }
      }
    } else {
      assert bytes == [];
    }
  }

  /** Elements are printed one after the other, with only gaps and bools changed. */
  predicate ItemsReprint(element: DataType, bytes: seq<byte>, printed: Result<seq<byte>, string>)
    requires ValidType(element)
  {
    && printed.Ok? && |printed.value| == |bytes|
    && forall i :: 0 <= i < |bytes| ==> printed.value[i] == Reprinted(KindInItems(element, i), bytes[i])
  }

  lemma {:induction false} StructReparsed(t: DataType, bytes: seq<byte>)
    requires t.Embed? && ValidType(t) && |bytes| == TypeSize(t)
    ensures Reparsed(t, bytes)
    decreases t, 0, 0
  {
    StructParses(t, bytes);
    assert forall k :: 0 <= k < |t.fields| ==>
      ValidType(t.fields[k].dataType) && t.fields[k].size == TypeSize(t.fields[k].dataType);
    hide FromBytes, ToBytes, KindAt, ValidType, TypeSize, WellLaid, FieldsWithGarbage, Destruct, PrintPieces, Reprints, Reparsed;
    var fields := t.fields;
    var parts := Destruct(FieldsWithGarbage(fields), bytes);
    forall k | 0 <= k < |fields|
      ensures fields[k].End() <= |bytes|
      ensures fields[k].name in parts && parts[fields[k].name] == bytes[fields[k].offset..][..fields[k].size]
      ensures Reparsed(fields[k].dataType, parts[fields[k].name])
    {
      DestructField(fields, bytes, k);
      EveryReparsed(fields[k].dataType, parts[fields[k].name]);
    }
    PartsReparsed(t, bytes, parts);
  }

  /** A struct is parsed from its parts, and printed if they are. */
  lemma {:induction false} PartsReparsed(t: DataType, bytes: seq<byte>, parts: map<string, seq<byte>>)
    requires t.Embed? && ValidType(t) && |bytes| == TypeSize(t) && WellLaid(t.fields)
    requires |bytes| == TotalSize(FieldsWithGarbage(t.fields)) && parts == Destruct(FieldsWithGarbage(t.fields), bytes)
    requires forall k :: 0 <= k < |t.fields| ==>
      && t.fields[k].End() <= |bytes|
      && t.fields[k].name in parts && parts[t.fields[k].name] == bytes[t.fields[k].offset..][..t.fields[k].size]
      && ValidType(t.fields[k].dataType) && Reparsed(t.fields[k].dataType, parts[t.fields[k].name])
    ensures Reparsed(t, bytes)
  {
    hide FromBytes, ToBytes, KindAt, ValidType, TypeSize, WellLaid, FieldsWithGarbage, Destruct, PrintPieces, Reprints;
    var fields, pieces := t.fields, FieldsWithGarbage(t.fields);
    StructParses(t, bytes);
    ParseFieldsAre(t, |fields|, parts);
    if PrintableType(t) {
      var values := ParseFields(t, |fields|, parts).value;
      PrintFieldsAre(t, |fields|, values);
      PrintFieldsFill(t, values);
      var printed := PrintFields(t, |fields|, values).value;
      StructPrints(t, values);
      PrintPiecesSize(pieces, printed);
      forall i | 0 <= i < |bytes|
        ensures PrintPieces(pieces, printed)[i] == Reprinted(KindAt(t, i), bytes[i])
      {
        StructByte(t, bytes, printed, i);
      }
      ReprintsByte(t, bytes, PrintPieces(pieces, printed));
    }
  }

  lemma {:induction false} ReprintsByte(t: DataType, bytes: seq<byte>, printed: seq<byte>)
    requires ValidType(t) && |printed| == |bytes| == TypeSize(t)
    requires forall i :: 0 <= i < |bytes| ==> printed[i] == Reprinted(KindAt(t, i), bytes[i])
    ensures Reprints(t, bytes, printed)
  {
  }

  lemma {:induction false} StructParses(t: DataType, bytes: seq<byte>)
    requires t.Embed? && ValidType(t) && |bytes| == TypeSize(t)
    ensures WellLaid(t.fields) && |bytes| == TotalSize(FieldsWithGarbage(t.fields))
    ensures var values := ParseFields(t, |t.fields|, Destruct(FieldsWithGarbage(t.fields), bytes));
      values.Ok? ==> FromBytes(t, bytes) == Ok(VStruct(values.value))
  {
    FieldsAndGapsTile(t.fields);
  }

  lemma {:induction false} StructPrints(t: DataType, values: map<string, Value>)
    requires t.Embed? && WellLaid(t.fields) && !Defined(t.fields, ASSOC_TYPE) && PrintFields(t, |t.fields|, values).Ok?
    ensures ToBytes(t, VStruct(values))
         == Ok(PrintPieces(FieldsWithGarbage(t.fields), PrintFields(t, |t.fields|, values).value))
  {
  }

  /** A struct's byte is printed from the field it belongs to, or as a gap's. */
  lemma {:induction false} StructByte(t: DataType, bytes: seq<byte>, printed: map<string, seq<byte>>, i: nat)
    requires t.Embed? && ValidType(t) && i < |bytes| == TypeSize(t)
    requires Fills(FieldsWithGarbage(t.fields), printed)
    requires forall k :: 0 <= k < |t.fields| ==>
      && t.fields[k].End() <= |bytes| && t.fields[k].name in printed
      && Reprints(t.fields[k].dataType, bytes[t.fields[k].offset..][..t.fields[k].size], printed[t.fields[k].name])
    ensures |PrintPieces(FieldsWithGarbage(t.fields), printed)| == |bytes|
    ensures PrintPieces(FieldsWithGarbage(t.fields), printed)[i] == Reprinted(KindAt(t, i), bytes[i])
  {
    assert WellLaid(t.fields) && TypeSize(t) == StructSize(t.fields);
    assert KindAt(t, i) == KindInFields(t, |t.fields|, i);
    hide KindAt, KindInFields, ValidType, TypeSize, WellLaid, FieldsWithGarbage, PrintPieces, Reprinted;
    var fields, pieces := t.fields, FieldsWithGarbage(t.fields);
    FieldsAndGapsTile(fields);
    PrintPiecesAt(pieces, 0, printed, i);
    if k :| 0 <= k < |fields| && fields[k].offset <= i < fields[k].End() {
      KindInField(t, |fields|, k, i);
      assert fields[k] in fields;
      FieldIsPiece(fields, fields[k]);
      assert bytes[fields[k].offset..][..fields[k].size][i - fields[k].offset] == bytes[i];
    } else {
      KindOutside(t, |fields|, i);
      forall p | p in pieces && p.name != GARBAGE
        ensures !(p.offset <= i < p.End())
      {
        FieldIsPiece(fields, p);
      }
    }
  }

  /**
    * Every binary of a type's size can be parsed. The value can be printed exactly if values of the type can be
    * printed at all, and that changes only gaps and bools.
    */
  lemma {:induction false} ParsePrint(t: DataType, bytes: seq<byte>)
    requires ValidType(t) && |bytes| == TypeSize(t)
    ensures FromBytes(t, bytes).Ok?
    ensures ToBytes(t, FromBytes(t, bytes).value).Ok? <==> PrintableType(t)
    ensures PrintableType(t) ==> Reprints(t, bytes, ToBytes(t, FromBytes(t, bytes).value).value)
  {
    hide ValidType, TypeSize, FromBytes, ToBytes, Reprints, PrintableType;
    EveryReparsed(t, bytes);
    var v := FromBytes(t, bytes).value;
    if ToBytes(t, v).Ok? {
      PrintedIsPrintable(t, v);
    }
  }

  /** Parsing and printing gives the same binary exactly when it can be printed, gaps hold 0xCC and bools zero or one. */
  lemma {:induction false} ReprintExactIff(t: DataType, bytes: seq<byte>)
    requires ValidType(t) && |bytes| == TypeSize(t)
    ensures FromBytes(t, bytes).Ok?
    ensures ToBytes(t, FromBytes(t, bytes).value) == Ok(bytes) <==>
      PrintableType(t) && forall i :: 0 <= i < |bytes| ==> Survives(KindAt(t, i), bytes[i])
  {
    ParsePrint(t, bytes);
    if PrintableType(t) {
      var printed := ToBytes(t, FromBytes(t, bytes).value).value;
      assert printed == bytes <==> forall i :: 0 <= i < |bytes| ==> printed[i] == bytes[i];
    }
  }

  /** What a binary parses to is canonical. */
  lemma {:induction false} ParsedIsCanonical(t: DataType, bytes: seq<byte>)
    requires ValidType(t) && FromBytes(t, bytes).Ok?
    ensures Canonical(t, FromBytes(t, bytes).value)
    decreases t, 0
  {
    match t
    case Array(element, count) =>
      ParsedItemsCanonical(element, bytes);
    case Embed(fields) =>
      var parts := Destruct(FieldsWithGarbage(fields), bytes);
      ParseFieldsAre(t, |fields|, parts);
      var values := ParseFields(t, |fields|, parts).value;
      ParsedNames(t, |fields|, parts);
      forall k | 0 <= k < |fields|
        ensures Canonical(fields[k].dataType, values[fields[k].name])
      {
        ParsedIsCanonical(fields[k].dataType, parts[fields[k].name]);
      }
    case _ =>
  }

  lemma {:induction false} ParsedItemsCanonical(element: DataType, bytes: seq<byte>)
    requires ValidType(element) && ParseItems(element, bytes).Ok?
    ensures forall i :: 0 <= i < |ParseItems(element, bytes).value| ==> Canonical(element, ParseItems(element, bytes).value[i])
    decreases element, 1, |bytes|
  {
    var size := TypeSize(element);
    if size > 0 && |bytes| >= size {
      ParsedIsCanonical(element, bytes[..size]);
      ParsedItemsCanonical(element, bytes[size..]);
    }
  }

  lemma {:induction false} ParsedNames(t: DataType, n: nat, parts: map<string, seq<byte>>)
    requires t.Embed? && n <= |t.fields| && ParseFields(t, n, parts).Ok?
    ensures forall name :: name in ParseFields(t, n, parts).value ==> FieldNamed(t.fields, n, name)
  {
    if n > 0 {
      ParsedNames(t, n - 1, parts);
      assert FieldNamed(t.fields, n, t.fields[n - 1].name);
      forall name | FieldNamed(t.fields, n - 1, name)
        ensures FieldNamed(t.fields, n, name)
      {
        var k :| 0 <= k < n - 1 && t.fields[k].name == name;
      }
    }
  }

  // Which binaries read as a given value.

  /** Binaries that would be printed back alike hold the same value. */
  lemma {:induction false} SameReprintSameValue(t: DataType, bytes: seq<byte>, other: seq<byte>)
    requires ValidType(t) && PrintableType(t) && |bytes| == |other| == TypeSize(t)
    requires forall i :: 0 <= i < |bytes| ==> Reprinted(KindAt(t, i), bytes[i]) == Reprinted(KindAt(t, i), other[i])
    ensures FromBytes(t, bytes) == FromBytes(t, other)
  {
    hide ValidType, FromBytes, ToBytes, Normal, Canonical, KindAt, Reprinted;
    ReprintRoundTrip(t, bytes);
    ReprintRoundTrip(t, other);
    var printed, otherPrinted := ToBytes(t, FromBytes(t, bytes).value).value, ToBytes(t, FromBytes(t, other).value).value;
    assert printed == otherPrinted;
  }

  /** What a binary parses to is printed and parsed back. */
  lemma {:induction false} ReprintRoundTrip(t: DataType, bytes: seq<byte>)
    requires ValidType(t) && PrintableType(t) && |bytes| == TypeSize(t)
    ensures FromBytes(t, bytes).Ok? && ToBytes(t, FromBytes(t, bytes).value).Ok?
    ensures Reprints(t, bytes, ToBytes(t, FromBytes(t, bytes).value).value)
    ensures FromBytes(t, ToBytes(t, FromBytes(t, bytes).value).value) == FromBytes(t, bytes)
  {
    hide ValidType, FromBytes, ToBytes, Normal, Canonical, KindAt, Reprints;
    ParsePrint(t, bytes);
    var v := FromBytes(t, bytes).value;
    RoundTrip(t, v);
    ParsedIsCanonical(t, bytes);
    CanonicalIsNormal(t, v);
  }

  /** A binary reads as a value exactly if, gaps aside and bools by their truth, it holds the bytes the value prints to. */
  lemma {:induction false} ReadsIff(t: DataType, v: Value, bytes: seq<byte>)
    requires ValidType(t) && ToBytes(t, v).Ok? && |bytes| == TypeSize(t)
    ensures |ToBytes(t, v).value| == |bytes|
    ensures FromBytes(t, bytes) == Ok(Normal(t, v)) <==> forall i :: 0 <= i < |bytes| ==>
      Reprinted(KindAt(t, i), bytes[i]) == ToBytes(t, v).value[i]
  {
    hide ValidType, FromBytes, ToBytes, Normal, KindAt;
    var printed := ToBytes(t, v).value;
    PrintSize(t, v);
    PrintedIsPrintable(t, v);
    RoundTrip(t, v);
    NormalPrintsSame(t, v);
    if FromBytes(t, bytes) == Ok(Normal(t, v)) {
      ParsePrint(t, bytes);
    }
    if forall i :: 0 <= i < |bytes| ==> Reprinted(KindAt(t, i), bytes[i]) == printed[i] {
      SameReprintSameValue(t, bytes, printed);
    }
  }

  /** A binary is what a value prints to exactly when it reads back as the value's normal form and would survive printing. */
  lemma {:induction false} PrintedIff(t: DataType, v: Value, bytes: seq<byte>)
    requires ValidType(t) && ToBytes(t, v).Ok? && |bytes| == TypeSize(t)
    ensures bytes == ToBytes(t, v).value <==>
      FromBytes(t, bytes) == Ok(Normal(t, v)) && forall i :: 0 <= i < |bytes| ==> Survives(KindAt(t, i), bytes[i])
  {
    PrintedIsPrintable(t, v);
    RoundTrip(t, v);
    NormalPrintsSame(t, v);
    ReprintExactIff(t, bytes);
  }
  // A struct that can be parsed and not printed.

  const NAMED_LIKE_METADATA := Embed([Field(ASSOC_TYPE, Unsigned(4), 0, 4)])

  lemma AssocTypeUsable()
    ensures ASSOC_TYPE !in RESERVED_FIELDS && IsVariable(ASSOC_TYPE)
  {
    assert ASSOC_TYPE[0] == 'a';
    assert forall i :: 0 <= i < |RESERVED_FIELDS| ==> |RESERVED_FIELDS[i]| > 0 && RESERVED_FIELDS[i][0] == '_';
    assert forall i :: 0 <= i < |NO_VARIABLES| ==> |NO_VARIABLES[i]| > 0 && NO_VARIABLES[i][0] == '_';
  }

  lemma LikeMetadataValid()
    ensures ValidType(NAMED_LIKE_METADATA) && TypeSize(NAMED_LIKE_METADATA) == 4
  {
    var fields := NAMED_LIKE_METADATA.fields;
    AssocTypeUsable();
    hide IsVariable;
    assert |fields| == 1 && fields[0] == Field(ASSOC_TYPE, Unsigned(4), 0, 4);
    assert OrderedFrom(fields[1..], 4);
    assert WellLaid(fields);
  }

  /** A field named like the variable of the metadata: every binary is parsed, and none is printed back. */
  lemma {:induction false} NamedLikeMetadata(bytes: seq<byte>)
    requires |bytes| == 4
    ensures ValidType(NAMED_LIKE_METADATA) && FromBytes(NAMED_LIKE_METADATA, bytes).Ok?
    ensures ToBytes(NAMED_LIKE_METADATA, FromBytes(NAMED_LIKE_METADATA, bytes).value).Err?
  {
    hide FromBytes, ToBytes, ValidType, TypeSize;
    LikeMetadataValid();
    assert NAMED_LIKE_METADATA.fields[0].name == ASSOC_TYPE;
    assert Defined(NAMED_LIKE_METADATA.fields, ASSOC_TYPE);
    ParsePrint(NAMED_LIKE_METADATA, bytes);
  }
}
