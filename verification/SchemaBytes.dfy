/** What the codec prints and parses, byte by byte and without its own functions. */
module SchemaBytes {
  import opened Wrappers
  import opened Bytes
  import opened SchemaLayouts
  import opened SchemaCodecs
  import opened SchemaRoundTrips
  import opened SchemaReprints

  /** How many values fit in the widths that schemas use. */
  lemma Spans()
    ensures Span(1) == 0x100 && Span(2) == 0x1_0000
    ensures Span(4) == 0x1_0000_0000 && Span(8) == 0x1_0000_0000_0000_0000
  {
    assert Span(3) == 0x100 * Span(2) && Span(5) == 0x100 * Span(4);
    assert Span(6) == 0x100 * Span(5) && Span(7) == 0x100 * Span(6);
  }

  // Integers.

  /** An unsigned integer is printed if it fits, its byte of weight 256 to the power `i` at place `i`. */
  lemma {:induction false} UnsignedPrints(width: nat, v: int)
    ensures ToBytes(DataType.Unsigned(width), VInt(v)).Ok? <==> 0 <= v < Span(width)
    ensures var r := ToBytes(DataType.Unsigned(width), VInt(v));
      r.Ok? ==> |r.value| == width && forall i :: 0 <= i < width ==> r.value[i] == v / Span(i) % 0x100
  {
    if 0 <= v < Span(width) {
      forall i | 0 <= i < width
        ensures ToLittleEndian(v, width)[i] == v / Span(i) % 0x100
      {
        LittleEndianAt(v, width, i);
      }
    }
  }

  /** A signed one as the unsigned integer that it is equal to modulo the number of values. */
  lemma {:induction false} SignedPrints(width: nat, v: int)
    ensures ToBytes(DataType.Signed(width), VInt(v)).Ok? <==> -2 * v <= Span(width) && 2 * v < Span(width)
    ensures var r, n := ToBytes(DataType.Signed(width), VInt(v)), if v < 0 then v + Span(width) else v;
      r.Ok? ==> |r.value| == width && forall i :: 0 <= i < width ==> r.value[i] == n / Span(i) % 0x100
  {
    if -2 * v <= Span(width) && 2 * v < Span(width) {
      var n := if v < 0 then v + Span(width) else v;
      forall i | 0 <= i < width
        ensures ToLittleEndian(n, width)[i] == n / Span(i) % 0x100
      {
        LittleEndianAt(n, width, i);
      }
    }
  }

  /** Bytes of the right number parse as their weighted sum, from half the number of values on as negative integers. */
  lemma {:induction false} IntegersParse(width: nat, bytes: seq<byte>)
    ensures FromBytes(DataType.Unsigned(width), bytes).Ok? <==> |bytes| == width
    ensures FromBytes(DataType.Signed(width), bytes).Ok? <==> |bytes| == width
    ensures |bytes| == width ==>
      var n := WeightedSum(bytes, width);
      && FromBytes(DataType.Unsigned(width), bytes) == Ok(VInt(n))
      && FromBytes(DataType.Signed(width), bytes) == Ok(VInt(if 2 * n < Span(width) then n else n - Span(width)))
  {
    hide WeightedSum, FromLittleEndian, Span;
    LittleEndianSum(bytes);
  }

  // Bools and bytes.

  /** True is printed as 1 and false as 0, also for numbers of a byte; only 0 is parsed as false. */
  lemma {:induction false} BoolsPrintAndParse(b: bool, i: int, bytes: seq<byte>)
    ensures ToBytes(Bool, VBool(true)) == Ok([1]) && ToBytes(Bool, VBool(false)) == Ok([0])
    ensures ToBytes(Bool, VInt(i)).Ok? <==> 0 <= i <= 0xFF
    ensures ToBytes(Bool, VInt(0)) == Ok([0]) && (1 <= i <= 0xFF ==> ToBytes(Bool, VInt(i)) == Ok([1]))
    ensures FromBytes(Bool, bytes).Ok? <==> |bytes| == 1
    ensures |bytes| == 1 ==> FromBytes(Bool, bytes) == Ok(VBool(bytes != [0]))
  {
    assert |bytes| == 1 ==> (bytes == [0] <==> bytes[0] == 0);
  }

  /** Bytes are printed as they are, a string followed by zeros; both are parsed with all bytes of their size. */
  lemma {:induction false} BuffersPrintAndParse(length: nat, bytes: seq<byte>)
    ensures ToBytes(ByteArray(length), VBytes(bytes)).Ok? <==> |bytes| == length
    ensures ToBytes(StringBuffer(length), VBytes(bytes)).Ok? <==> |bytes| <= length
    ensures |bytes| == length ==> ToBytes(ByteArray(length), VBytes(bytes)) == Ok(bytes)
    ensures var r := ToBytes(StringBuffer(length), VBytes(bytes));
      r.Ok? ==> |r.value| == length && forall i :: 0 <= i < length ==> r.value[i] == if i < |bytes| then bytes[i] else 0
    ensures FromBytes(ByteArray(length), bytes).Ok? <==> |bytes| == length
    ensures FromBytes(StringBuffer(length), bytes).Ok? <==> |bytes| == length
    ensures |bytes| == length ==>
      FromBytes(ByteArray(length), bytes) == FromBytes(StringBuffer(length), bytes) == Ok(VBytes(bytes))
  {
  }

  // Arrays.

  lemma {:induction false} ItemsPrintAt(element: DataType, items: seq<Value>, k: nat, i: nat)
    requires ValidType(element) && PrintItems(element, items).Ok? && k < |items| && i < TypeSize(element)
    ensures ToBytes(element, items[k]).Ok? && |ToBytes(element, items[k]).value| == TypeSize(element)
    ensures 0 <= k * TypeSize(element) + i < |PrintItems(element, items).value|
    ensures PrintItems(element, items).value[k * TypeSize(element) + i] == ToBytes(element, items[k]).value[i]
  {
    hide ValidType, TypeSize, ToBytes;
    PrintSize(element, items[0]);
    if k > 0 {
      ItemsPrintAt(element, items[1..], k - 1, i);
      assert k * TypeSize(element) == TypeSize(element) + (k - 1) * TypeSize(element);
    }
  }

  lemma {:induction false} ItemsPrintIff(element: DataType, items: seq<Value>)
    ensures PrintItems(element, items).Ok? <==> forall k :: 0 <= k < |items| ==> ToBytes(element, items[k]).Ok?
  {
    hide ToBytes;
    if items != [] {
      ItemsPrintIff(element, items[1..]);
      assert forall k :: 1 <= k < |items| ==> items[k] == items[1..][k - 1];
    }
  }

  lemma {:induction false} ArrayIsItems(element: DataType, count: nat, items: seq<Value>)
    ensures ToBytes(Array(element, count), VList(items)).Ok? <==>
      |items| == count > 0 && PrintItems(element, items).Ok?
    ensures ToBytes(Array(element, count), VList(items)).Ok? ==>
      ToBytes(Array(element, count), VList(items)) == PrintItems(element, items)
  {
    hide PrintItems;
  }

  lemma {:induction false} ItemAt(element: DataType, count: nat, items: seq<Value>, k: nat, i: nat)
    requires ValidType(element) && k < |items| && i < TypeSize(element)
    requires PrintItems(element, items).Ok? && ToBytes(Array(element, count), VList(items)) == PrintItems(element, items)
    ensures ArrayByte(element, count, items, k, i)
  {
    hide ToBytes, ValidType, TypeSize, PrintItems;
    ItemsPrintAt(element, items, k, i);
  }

  /** An array is printed if it has as many elements as its type says, at least one, and each can be; in order. */
  lemma {:induction false} ArrayPrints(element: DataType, count: nat, items: seq<Value>)
    requires ValidType(element)
    ensures ToBytes(Array(element, count), VList(items)).Ok? <==>
      |items| == count > 0 && forall k :: 0 <= k < |items| ==> ToBytes(element, items[k]).Ok?
    ensures ToBytes(Array(element, count), VList(items)).Ok? ==>
      forall k, i :: 0 <= k < count && 0 <= i < TypeSize(element) ==> ArrayByte(element, count, items, k, i)
  {
    hide ToBytes, ValidType, TypeSize, PrintItems, ArrayByte;
    ArrayIsItems(element, count, items);
    ItemsPrintIff(element, items);
    if ToBytes(Array(element, count), VList(items)).Ok? {
      forall k, i | 0 <= k < count && 0 <= i < TypeSize(element)
        ensures ArrayByte(element, count, items, k, i)
      {
        ItemAt(element, count, items, k, i);
      }
    }
  }

  /** Element `k` is printed at `k` times its size. */
  predicate ArrayByte(element: DataType, count: nat, items: seq<Value>, k: nat, i: nat) {
    var r, at := ToBytes(Array(element, count), VList(items)), k * TypeSize(element) + i;
    && k < |items| && r.Ok? && 0 <= at < |r.value| && ToBytes(element, items[k]).Ok? && i < |ToBytes(element, items[k]).value|
    && r.value[at] == ToBytes(element, items[k]).value[i]
  }

  /** The first element, and the others from the rest of the bytes. */
  lemma {:induction false} ItemsParseFirst(element: DataType, count: nat, bytes: seq<byte>)
    requires ValidType(element) && |bytes| == count * TypeSize(element) && count > 0
    ensures TypeSize(element) <= |bytes| && |bytes[TypeSize(element)..]| == (count - 1) * TypeSize(element)
    ensures ParseItems(element, bytes).Ok? && |ParseItems(element, bytes).value| == count
    ensures FromBytes(element, bytes[..TypeSize(element)]) == Ok(ParseItems(element, bytes).value[0])
    ensures ParseItems(element, bytes[TypeSize(element)..]) == Ok(ParseItems(element, bytes).value[1..])
  {
    hide ValidType, TypeSize, FromBytes, ToBytes, PrintItems, ItemsReprint, Reparsed;
    TypeSizePositive(element);
    assert |bytes| == TypeSize(element) + (count - 1) * TypeSize(element);
    ItemsReparsed(element, count, bytes);
  }

  lemma {:induction false} ItemsParseAt(element: DataType, count: nat, bytes: seq<byte>, k: nat)
    requires ValidType(element) && |bytes| == count * TypeSize(element) && k < count
    ensures k * TypeSize(element) + TypeSize(element) <= |bytes|
    ensures ParseItems(element, bytes).Ok? && |ParseItems(element, bytes).value| == count
    ensures FromBytes(element, bytes[k * TypeSize(element)..][..TypeSize(element)]) == Ok(ParseItems(element, bytes).value[k])
    decreases k
  {
    hide ValidType, TypeSize, FromBytes, ParseItems;
    var size := TypeSize(element);
    ItemsParseFirst(element, count, bytes);
    if k > 0 {
      ItemsParseAt(element, count - 1, bytes[size..], k - 1);
      assert k * size == size + (k - 1) * size;
      assert bytes[size..][(k - 1) * size..][..size] == bytes[k * size..][..size];
    } else {
      assert bytes[0 * size..][..size] == bytes[..size];
    }
  }

  /** An array is parsed element by element, in order. */
  lemma {:induction false} ArrayParses(element: DataType, count: nat, bytes: seq<byte>, k: nat)
    requires ValidType(Array(element, count)) && |bytes| == count * TypeSize(element) && k < count
    ensures k * TypeSize(element) + TypeSize(element) <= |bytes|
    ensures FromBytes(Array(element, count), bytes).Ok? && FromBytes(Array(element, count), bytes).value.VList?
    ensures var items := FromBytes(Array(element, count), bytes).value.items;
      |items| == count && FromBytes(element, bytes[k * TypeSize(element)..][..TypeSize(element)]) == Ok(items[k])
  {
    ItemsParseAt(element, count, bytes, k);
  }

  // Structs.

  /** The byte at `i` is the one that field `k`'s value has there. */
  predicate FieldByte(fields: seq<Field>, values: map<string, Value>, k: nat, i: nat, b: byte)
    requires k < |fields| && fields[k].offset <= i
  {
    && fields[k].name in values
    && var r := ToBytes(fields[k].dataType, values[fields[k].name]);
       r.Ok? && i - fields[k].offset < |r.value| && r.value[i - fields[k].offset] == b
  }

  lemma StructPieces(fields: seq<Field>, values: map<string, Value>) returns (printed: map<string, seq<byte>>)
    requires ValidType(Embed(fields)) && ToBytes(Embed(fields), VStruct(values)).Ok?
    ensures WellLaid(fields) && Fills(FieldsWithGarbage(fields), printed)
    ensures ToBytes(Embed(fields), VStruct(values)) == Ok(PrintPieces(FieldsWithGarbage(fields), printed))
    ensures forall k :: 0 <= k < |fields| ==>
      && fields[k].name in values && fields[k].name in printed
      && ToBytes(fields[k].dataType, values[fields[k].name]) == Ok(printed[fields[k].name])
  {
    var t := Embed(fields);
    printed := PrintFields(t, |fields|, values).value;
    assert ToBytes(t, VStruct(values)) == Ok(PrintPieces(FieldsWithGarbage(fields), printed)) && WellLaid(fields);
    hide ToBytes, ValidType, WellLaid, FieldsWithGarbage, PrintPieces, PrintFields, Fills;
    PrintFieldsFill(t, values);
    PrintFieldsAre(t, |fields|, values);
  }

  lemma FieldByteIs(fields: seq<Field>, values: map<string, Value>, printed: map<string, seq<byte>>, k: nat, i: nat)
    requires k < |fields| && fields[k].offset <= i && fields[k].name in values && fields[k].name in printed
    requires ToBytes(fields[k].dataType, values[fields[k].name]) == Ok(printed[fields[k].name])
    requires i - fields[k].offset < |printed[fields[k].name]|
    ensures FieldByte(fields, values, k, i, printed[fields[k].name][i - fields[k].offset])
  {
    hide ToBytes;
  }

  /** A struct is printed with every field's bytes at its offset and 0xCC everywhere else. */
  lemma StructPrintsAt(fields: seq<Field>, values: map<string, Value>, i: nat)
    requires ValidType(Embed(fields)) && ToBytes(Embed(fields), VStruct(values)).Ok? && i < StructSize(fields)
    ensures i < |ToBytes(Embed(fields), VStruct(values)).value| == StructSize(fields)
    ensures forall k :: 0 <= k < |fields| && fields[k].offset <= i < fields[k].End() ==>
      FieldByte(fields, values, k, i, ToBytes(Embed(fields), VStruct(values)).value[i])
    ensures (forall k :: 0 <= k < |fields| ==> !(fields[k].offset <= i < fields[k].End())) ==>
      ToBytes(Embed(fields), VStruct(values)).value[i] == 0xCC
  {
    hide ToBytes, ValidType, WellLaid, FieldsWithGarbage, PrintPieces, PrintFields, FieldByte;
    var printed := StructPieces(fields, values);
    var pieces := FieldsWithGarbage(fields);
    FieldsAndGapsTile(fields);
    PrintPiecesAt(pieces, 0, printed, i);
    forall k | 0 <= k < |fields| && fields[k].offset <= i < fields[k].End()
      ensures FieldByte(fields, values, k, i, PrintPieces(pieces, printed)[i])
    {
      FieldIsPiece(fields, fields[k]);
      FieldByteIs(fields, values, printed, k, i);
    }
    forall p | p in pieces && p.name != GARBAGE
      ensures p in fields
    {
      FieldIsPiece(fields, p);
    }
  }
}
