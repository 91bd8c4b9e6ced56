/** What a schema's codec preserves: parsing undoes printing, and printing undoes parsing up to gaps and bools. */
module SchemaRoundTrips {
  import opened Wrappers
  import opened Bytes
  import opened SchemaLayouts
  import opened SchemaCodecs

  // Fields one by one.

  /** Fields are printed exactly when each is there and can be printed, and then one by one. */
  lemma {:induction false} PrintFieldsAre(t: DataType, n: nat, values: map<string, Value>)
    requires t.Embed? && WellLaid(t.fields) && n <= |t.fields|
    ensures PrintFields(t, n, values).Ok? <==> forall k :: 0 <= k < n ==>
      t.fields[k].name in values && ToBytes(t.fields[k].dataType, values[t.fields[k].name]).Ok?
    ensures PrintFields(t, n, values).Ok? ==> forall k :: 0 <= k < n ==>
      && t.fields[k].name in PrintFields(t, n, values).value
      && ToBytes(t.fields[k].dataType, values[t.fields[k].name]) == Ok(PrintFields(t, n, values).value[t.fields[k].name])
  {
    hide ToBytes, OrderedFrom;
    if n > 0 {
      PrintFieldsAre(t, n - 1, values);
    }
  }

  /** A struct is printed exactly when every field is there and can be printed, and none is named like the metadata's variable. */
  lemma {:induction false} StructPrintsIff(t: DataType, values: map<string, Value>)
    requires t.Embed? && WellLaid(t.fields)
    ensures ToBytes(t, VStruct(values)).Ok? <==>
      && !Defined(t.fields, ASSOC_TYPE)
      && forall k :: 0 <= k < |t.fields| ==>
           t.fields[k].name in values && ToBytes(t.fields[k].dataType, values[t.fields[k].name]).Ok?
  {
    PrintFieldsAre(t, |t.fields|, values);
  }

  /** Only values of printable types are printed. */
  lemma {:induction false} PrintedIsPrintable(t: DataType, v: Value)
    requires ValidType(t) && ToBytes(t, v).Ok?
    ensures PrintableType(t)
    decreases t
  {
    match (t, v)
    case (Array(element, count), VList(items)) =>
      PrintedIsPrintable(element, items[0]);
    case (Embed(fields), VStruct(values)) =>
      StructPrintsIff(t, values);
      forall k | 0 <= k < |fields|
        ensures PrintableType(fields[k].dataType)
      {
        PrintedIsPrintable(fields[k].dataType, values[fields[k].name]);
      }
    case _ =>
  }

  /** A struct is parsed exactly when every field's bytes are, and then field by field. */
  lemma {:induction false} ParseFieldsAre(t: DataType, n: nat, parts: map<string, seq<byte>>)
    requires t.Embed? && WellLaid(t.fields) && n <= |t.fields|
    ensures ParseFields(t, n, parts).Ok? <==> forall k :: 0 <= k < n ==>
      t.fields[k].name in parts && FromBytes(t.fields[k].dataType, parts[t.fields[k].name]).Ok?
    ensures ParseFields(t, n, parts).Ok? ==> forall k :: 0 <= k < n ==>
      && t.fields[k].name in ParseFields(t, n, parts).value
      && FromBytes(t.fields[k].dataType, parts[t.fields[k].name]) == Ok(ParseFields(t, n, parts).value[t.fields[k].name])
  {
    hide FromBytes, OrderedFrom;
    if n > 0 {
      ParseFieldsAre(t, n - 1, parts);
    }
  }

  // Sizes.

  /** A value is printed in as many bytes as its type has. */
  lemma {:induction false} PrintSize(t: DataType, v: Value)
    requires ValidType(t) && ToBytes(t, v).Ok?
    ensures |ToBytes(t, v).value| == TypeSize(t)
    decreases t, 1
  {
    match (t, v)
    case (Array(element, count), VList(items)) =>
      PrintItemsSize(element, items);
    case (Embed(fields), VStruct(values)) =>
      PrintFieldsFill(t, values);
      FieldsAndGapsTile(fields);
      PrintPiecesSize(FieldsWithGarbage(fields), PrintFields(t, |fields|, values).value);
    case _ =>
  }

  lemma {:induction false} PrintItemsSize(element: DataType, items: seq<Value>)
    requires ValidType(element) && PrintItems(element, items).Ok?
    ensures |PrintItems(element, items).value| == |items| * TypeSize(element)
    ensures forall i :: 0 <= i < |items| ==> ToBytes(element, items[i]).Ok?
    decreases element, 2, |items|
  {
    if items != [] {
      PrintSize(element, items[0]);
      PrintItemsSize(element, items[1..]);
      assert forall i :: 1 <= i < |items| ==> items[i] == items[1..][i - 1];
      assert |items| * TypeSize(element) == TypeSize(element) + (|items| - 1) * TypeSize(element);
    }
  }

  lemma {:induction false} PrintFieldsFill(t: DataType, values: map<string, Value>)
    requires t.Embed? && ValidType(t) && PrintFields(t, |t.fields|, values).Ok?
    ensures Fills(FieldsWithGarbage(t.fields), PrintFields(t, |t.fields|, values).value)
    decreases t, 0
  {
    var pieces, printed := FieldsWithGarbage(t.fields), PrintFields(t, |t.fields|, values).value;
    PrintFieldsAre(t, |t.fields|, values);
    forall p | p in pieces && p.name != GARBAGE
      ensures p.name in printed && |printed[p.name]| == p.size
    {
      FieldIsPiece(t.fields, p);
      var k :| 0 <= k < |t.fields| && t.fields[k] == p;
      PrintSize(t.fields[k].dataType, values[p.name]);
    }
  }

  // Parsing what was printed.

  /** What a value reads back as: numbers in bools become bools, and short strings are padded with zeros. */
  function Normal(t: DataType, v: Value): Value
    decreases t, 2, 0
  {
    match (t, v)
    case (Bool, VInt(i)) => VBool(i != 0)
    case (StringBuffer(length), VBytes(bytes)) => if |bytes| <= length then VBytes(bytes + Zeros(length - |bytes|)) else v
    case (Array(element, count), VList(items)) => VList(NormalItems(element, items))
    case (Embed(fields), VStruct(values)) => VStruct(NormalFields(t, |fields|, values))
    case _ => v
  }

  function NormalItems(element: DataType, items: seq<Value>): seq<Value>
    decreases element, 3, |items|
  {
    if items == [] then [] else [Normal(element, items[0])] + NormalItems(element, items[1..])
  }

  function NormalFields(t: DataType, n: nat, values: map<string, Value>): map<string, Value>
    requires t.Embed? && n <= |t.fields|
    decreases t, 1, n
  {
    if n == 0 then
      map[]
    else
      var f, rest := t.fields[n - 1], NormalFields(t, n - 1, values);
      if f.name in values then rest[f.name := Normal(f.dataType, values[f.name])] else rest
  }

  /** Taking printed pieces apart gives back every field's bytes. */
  lemma {:induction false} DestructPrinted(pieces: seq<Field>, printed: map<string, seq<byte>>)
    requires Fills(pieces, printed)
    ensures |PrintPieces(pieces, printed)| == TotalSize(pieces)
    ensures forall p :: p in pieces && p.name != GARBAGE ==>
      && p.name in Destruct(pieces, PrintPieces(pieces, printed))
      && Destruct(pieces, PrintPieces(pieces, printed))[p.name] == printed[p.name]
  {
    if pieces != [] {
      var first, rest := pieces[0], pieces[1..];
      assert first in pieces;
      assert forall p :: p in pieces <==> p == first || p in rest;
      PrintPiecesSize(pieces, printed);
      DestructPrinted(rest, printed);
      var bytes := PrintPieces(pieces, printed);
      assert bytes[..first.size] == PieceBytes(first, printed);
      assert bytes[first.size..] == PrintPieces(rest, printed);
    }
  }

  /** Whatever can be printed reads back as its normal form. */
  lemma {:induction false} RoundTrip(t: DataType, v: Value)
    requires ValidType(t) && ToBytes(t, v).Ok?
    ensures FromBytes(t, ToBytes(t, v).value) == Ok(Normal(t, v))
    decreases t, 2, 0
  {
    PrintSize(t, v);
    match (t, v)
    case (Unsigned(width), VInt(i)) =>
      LittleEndianRoundTrip(i, width);
    case (Signed(width), VInt(i)) =>
      LittleEndianRoundTrip(Bytes.Unsigned(i, width), width);
      SignedRoundTrip(i, 0, width);
    case (Array(element, count), VList(items)) =>
      ItemsRoundTrip(element, items);
    case (Embed(fields), VStruct(values)) =>
      StructRoundTrip(t, values);
    case _ =>
  }

  lemma {:induction false} ItemsRoundTrip(element: DataType, items: seq<Value>)
    requires ValidType(element) && PrintItems(element, items).Ok?
    ensures ParseItems(element, PrintItems(element, items).value) == Ok(NormalItems(element, items))
    decreases element, 3, |items|
  {
    TypeSizePositive(element);
    if items != [] {
      var first, rest := ToBytes(element, items[0]).value, PrintItems(element, items[1..]).value;
      PrintSize(element, items[0]);
      RoundTrip(element, items[0]);
      ItemsRoundTrip(element, items[1..]);
      assert (first + rest)[..TypeSize(element)] == first;
      assert (first + rest)[TypeSize(element)..] == rest;
    }
  }

  lemma {:induction false} StructRoundTrip(t: DataType, values: map<string, Value>)
    requires t.Embed? && ValidType(t) && ToBytes(t, VStruct(values)).Ok?
    ensures FromBytes(t, ToBytes(t, VStruct(values)).value) == Ok(VStruct(NormalFields(t, |t.fields|, values)))
    decreases t, 1, |t.fields| + 1
  {
    var fields, pieces := t.fields, FieldsWithGarbage(t.fields);
    var printed := PrintFields(t, |fields|, values).value;
    PrintFieldsFill(t, values);
    PrintFieldsAre(t, |fields|, values);
    DestructPrinted(pieces, printed);
    var parts := Destruct(pieces, PrintPieces(pieces, printed));
    forall k | 0 <= k < |fields|
      ensures fields[k].name in values && fields[k].name in parts
      ensures ToBytes(fields[k].dataType, values[fields[k].name]) == Ok(parts[fields[k].name])
    {
      assert fields[k] in fields;
      FieldIsPiece(fields, fields[k]);
    }
    FieldsRoundTrip(t, |fields|, values, parts);
  }

  lemma {:induction false} FieldsRoundTrip(
    t: DataType, n: nat, values: map<string, Value>, parts: map<string, seq<byte>>)
    requires t.Embed? && ValidType(t) && n <= |t.fields|
    requires forall k :: 0 <= k < n ==>
      && t.fields[k].name in values && t.fields[k].name in parts
      && ToBytes(t.fields[k].dataType, values[t.fields[k].name]) == Ok(parts[t.fields[k].name])
    ensures ParseFields(t, n, parts) == Ok(NormalFields(t, n, values))
    decreases t, 1, n
  {
    if n > 0 {
      FieldsRoundTrip(t, n - 1, values, parts);
      RoundTrip(t.fields[n - 1].dataType, values[t.fields[n - 1].name]);
    }
  }

  // Which values read back as themselves.

  predicate FieldNamed(fields: seq<Field>, n: nat, name: string)
    requires n <= |fields|
  {
    exists k :: 0 <= k < n && fields[k].name == name
  }

  /** Bools are bools, strings fill their buffers, and structs have their schema's fields. */
  predicate Canonical(t: DataType, v: Value)
    decreases t
  {
    match (t, v)
    case (Bool, _) => v.VBool?
    case (StringBuffer(length), VBytes(bytes)) => |bytes| == length
    case (Array(element, count), VList(items)) => forall i :: 0 <= i < |items| ==> Canonical(element, items[i])
    case (Embed(fields), VStruct(values)) =>
      && (forall name :: name in values ==> FieldNamed(fields, |fields|, name))
      && (forall k :: 0 <= k < |fields| && fields[k].name in values ==>
            Canonical(fields[k].dataType, values[fields[k].name]))
    case _ => true
  }

  lemma {:induction false} NormalItemsAre(element: DataType, items: seq<Value>)
    ensures |NormalItems(element, items)| == |items|
    ensures forall i :: 0 <= i < |items| ==> NormalItems(element, items)[i] == Normal(element, items[i])
  {
    if items != [] {
      NormalItemsAre(element, items[1..]);
    }
  }

  lemma {:induction false} NormalFieldsAre(t: DataType, n: nat, values: map<string, Value>)
    requires t.Embed? && WellLaid(t.fields) && n <= |t.fields|
    ensures forall name :: name in NormalFields(t, n, values) <==> name in values && FieldNamed(t.fields, n, name)
    ensures forall k :: 0 <= k < n && t.fields[k].name in values ==>
      && t.fields[k].name in NormalFields(t, n, values)
      && NormalFields(t, n, values)[t.fields[k].name] == Normal(t.fields[k].dataType, values[t.fields[k].name])
  {
    if n > 0 {
      NormalFieldsAre(t, n - 1, values);
      var f := t.fields[n - 1];
      forall name
        ensures FieldNamed(t.fields, n, name) <==> FieldNamed(t.fields, n - 1, name) || name == f.name
      {
        if FieldNamed(t.fields, n, name) && name != f.name {
          var k :| 0 <= k < n && t.fields[k].name == name;
          assert k < n - 1;
        }
      }
    }
  }

  lemma {:induction false} CanonicalIsNormal(t: DataType, v: Value)
    requires ValidType(t) && ToBytes(t, v).Ok?
    ensures Canonical(t, v) <==> Normal(t, v) == v
    decreases t, 1
  {
    match (t, v)
    case (Array(element, count), VList(items)) =>
      PrintItemsSize(element, items);
      NormalItemsAre(element, items);
      forall i | 0 <= i < |items|
        ensures Canonical(element, items[i]) <==> Normal(element, items[i]) == items[i]
      {
        CanonicalIsNormal(element, items[i]);
      }
      assert (forall i :: 0 <= i < |items| ==> Normal(element, items[i]) == items[i]) <==> NormalItems(element, items) == items;
    case (Embed(fields), VStruct(values)) =>
      CanonicalFields(t, values);
    case _ =>
  }

  lemma {:induction false} CanonicalFields(t: DataType, values: map<string, Value>)
    requires t.Embed? && ValidType(t) && PrintFields(t, |t.fields|, values).Ok?
    ensures Canonical(t, VStruct(values)) <==> NormalFields(t, |t.fields|, values) == values
    decreases t, 0
  {
    hide ToBytes, PrintFields, Normal, NormalFields, FieldsWithGarbage;
    var fields, normal := t.fields, NormalFields(t, |t.fields|, values);
    NormalFieldsAre(t, |fields|, values);
    PrintFieldsAre(t, |fields|, values);
    forall k | 0 <= k < |fields|
      ensures fields[k].name in values
      ensures Canonical(fields[k].dataType, values[fields[k].name]) <==>
        Normal(fields[k].dataType, values[fields[k].name]) == values[fields[k].name]
    {
      CanonicalIsNormal(fields[k].dataType, values[fields[k].name]);
    }
    if Canonical(t, VStruct(values)) {
      forall name | name in values
        ensures name in normal && normal[name] == values[name]
      {
        var k :| 0 <= k < |fields| && fields[k].name == name;
      }
      assert normal == values;
    }
  }

  /** Parsing a printed value returns it exactly when it is canonical. */
  lemma {:induction false} RoundTripExactIff(t: DataType, v: Value)
    requires ValidType(t) && ToBytes(t, v).Ok?
    ensures FromBytes(t, ToBytes(t, v).value) == Ok(v) <==> Canonical(t, v)
  {
    RoundTrip(t, v);
    CanonicalIsNormal(t, v);
  }

  // Normal values print the same.

  lemma {:induction false} NormalPrintsSame(t: DataType, v: Value)
    requires ValidType(t) && ToBytes(t, v).Ok?
    ensures ToBytes(t, Normal(t, v)) == ToBytes(t, v)
    decreases t, 2, 0
  {
    match (t, v)
    case (StringBuffer(length), VBytes(bytes)) =>
      var filled := bytes + Zeros(length - |bytes|);
      assert filled + Zeros(0) == filled;
    case (Array(element, count), VList(items)) =>
      NormalItemsPrintSame(element, items);
      NormalItemsAre(element, items);
    case (Embed(fields), VStruct(values)) =>
      PrintFieldsAre(t, |fields|, values);
      NormalFieldsPrintSame(t, |fields|, values, NormalFields(t, |fields|, values));
    case _ =>
  }

  lemma {:induction false} NormalItemsPrintSame(element: DataType, items: seq<Value>)
    requires ValidType(element) && PrintItems(element, items).Ok?
    ensures PrintItems(element, NormalItems(element, items)) == PrintItems(element, items)
    decreases element, 3, |items|
  {
    if items != [] {
      NormalPrintsSame(element, items[0]);
      NormalItemsPrintSame(element, items[1..]);
      assert NormalItems(element, items)[1..] == NormalItems(element, items[1..]);
    }
  }

  lemma {:induction false} NormalFieldsPrintSame(
    t: DataType, n: nat, values: map<string, Value>, normal: map<string, Value>)
    requires t.Embed? && ValidType(t) && n <= |t.fields| && normal == NormalFields(t, |t.fields|, values)
    requires PrintFields(t, n, values).Ok?
    ensures PrintFields(t, n, normal) == PrintFields(t, n, values)
    decreases t, 1, n
  {
    if n > 0 {
      NormalFieldsPrintSame(t, n - 1, values, normal);
      NormalFieldsAre(t, |t.fields|, values);
      NormalPrintsSame(t.fields[n - 1].dataType, values[t.fields[n - 1].name]);
    }
  }
}
