/** Printing and parsing values of a schema's types. */
module SchemaCodecs {
  import opened Wrappers
  import opened Bytes
  import opened SchemaLayouts

  datatype Value =
    | VBool(b: bool)
    | VInt(i: int)
    | VBytes(bytes: seq<byte>)
    | VList(items: seq<Value>)
    | VStruct(fields: map<string, Value>)

  /**
   * The generated codec binds each field to a variable of the field's name. With these names there is no such
   * variable, because the language gives them another meaning, and the schema's module does not compile.
   */
  const NO_VARIABLES: seq<string> :=
    ["_", "__MODULE__", "__ENV__", "__DIR__", "__CALLER__", "__STACKTRACE__", "__aliases__"]

  predicate IsVariable(name: string) {
    name !in NO_VARIABLES
  }

  /**
   * The variable that the head of the generated printing function binds itself, to the kind of association in
   * the struct's metadata. A field of this name would have to be equal to it, which no value of the model is.
   */
  const ASSOC_TYPE := "assoc_type"

  /**
   * A type as schemas use them: nothing is empty, and embedded schemas were laid out field by field and
   * have a codec.
   */
  predicate ValidType(t: DataType) {
    match t
    case Bool => true
    case Unsigned(width) => width == 1 || width == 2 || width == 4 || width == 8
    case Signed(width) => width == 1 || width == 2 || width == 4 || width == 8
    case ByteArray(length) => length > 0
    case StringBuffer(length) => length > 0
    case Array(element, count) => count > 0 && ValidType(element)
    case Embed(fields) =>
      && fields != [] && WellLaid(fields)
      && (forall k :: 0 <= k < |fields| ==> fields[k].size == TypeSize(fields[k].dataType))
      && (forall k :: 0 <= k < |fields| ==> ValidType(fields[k].dataType))
      && (forall k :: 0 <= k < |fields| ==> IsVariable(fields[k].name))
  }

  /** The types whose values the codec can print back. */
  predicate PrintableType(t: DataType) {
    match t
    case Array(element, count) => PrintableType(element)
    case Embed(fields) =>
      && !Defined(fields, ASSOC_TYPE)
      && (forall k :: 0 <= k < |fields| ==> PrintableType(fields[k].dataType))
    case _ => true
  }

  // Putting pieces together and taking them apart.

  /** Gaps are printed as 0xCC. */
  function PieceBytes(piece: Field, printed: map<string, seq<byte>>): seq<byte> {
    if piece.name == GARBAGE then
      seq<byte>(piece.size, i => 0xCC)
    else if piece.name in printed then
      printed[piece.name]
    else
      []
  }

  function PrintPieces(pieces: seq<Field>, printed: map<string, seq<byte>>): seq<byte> {
    if pieces == [] then [] else PieceBytes(pieces[0], printed) + PrintPieces(pieces[1..], printed)
  }

  /** Binds each piece that is no gap to its bytes; the binary must have exactly the pieces' size. */
  function Destruct(pieces: seq<Field>, bytes: seq<byte>): map<string, seq<byte>>
    requires |bytes| == TotalSize(pieces)
  {
    if pieces == [] then
      map[]
    else
      var rest := Destruct(pieces[1..], bytes[pieces[0].size..]);
      if pieces[0].name == GARBAGE then rest else rest[pieces[0].name := bytes[..pieces[0].size]]
  }

  // Printing.

  function ToBytes(t: DataType, v: Value): Result<seq<byte>, string>
    decreases t, 2, 0
  {
    match (t, v)
    case (Bool, VBool(b)) => Ok([if b then 1 else 0])
    case (Bool, VInt(i)) => if 0 <= i < 0x100 then Ok([if i != 0 then 1 else 0]) else Err("not a byte")
    case (Unsigned(width), VInt(i)) =>
      if 0 <= i < Span(width) then Ok(ToLittleEndian(i, width)) else Err("out of range")
    case (Signed(width), VInt(i)) =>
      if -2 * i <= Span(width) && 2 * i < Span(width) then
        Ok(ToLittleEndian(Bytes.Unsigned(i, width), width))
      else
        Err("out of range")
    case (ByteArray(length), VBytes(bytes)) => if |bytes| == length then Ok(bytes) else Err("wrong size")
    case (StringBuffer(length), VBytes(bytes)) =>
      if |bytes| <= length then Ok(bytes + Zeros(length - |bytes|)) else Err("string too large")
    case (Array(element, count), VList(items)) =>
      if |items| != count then
        Err("wrong number of elements")
      else if items == [] then
        Err("nothing to join")
      else
        PrintItems(element, items)
    case (Embed(fields), VStruct(values)) =>
      if WellLaid(fields) && !Defined(fields, ASSOC_TYPE) then
        match PrintFields(t, |fields|, values)
        case Err(e) => Err(e)
        case Ok(printed) => Ok(PrintPieces(FieldsWithGarbage(fields), printed))
      else
        Err("no clause matches the struct")
    case _ => Err("wrong kind of value")
  }

  function PrintItems(element: DataType, items: seq<Value>): Result<seq<byte>, string>
    decreases element, 3, |items|
  {
    if items == [] then
      Ok([])
    else
      match (ToBytes(element, items[0]), PrintItems(element, items[1..]))
      case (Ok(first), Ok(rest)) => Ok(first + rest)
      case (Err(e), _) => Err(e)
      case (_, Err(e)) => Err(e)
  }

  /** The bytes of an embedded schema's first `n` fields, by name. */
  function PrintFields(t: DataType, n: nat, values: map<string, Value>): Result<map<string, seq<byte>>, string>
    requires t.Embed? && n <= |t.fields|
    decreases t, 1, n
  {
    if n == 0 then
      Ok(map[])
    else
      var f := t.fields[n - 1];
      if f.name !in values then
        Err("missing field")
      else
        match (PrintFields(t, n - 1, values), ToBytes(f.dataType, values[f.name]))
        case (Ok(printed), Ok(bytes)) => Ok(printed[f.name := bytes])
        case (Err(e), _) => Err(e)
        case (_, Err(e)) => Err(e)
  }

  // Parsing.

  function FromBytes(t: DataType, bytes: seq<byte>): Result<Value, string>
    decreases t, 2, 0
  {
    match t
    case Bool => if |bytes| == 1 then Ok(VBool(bytes[0] != 0)) else Err("cannot fit")
    case Unsigned(width) => if |bytes| == width then Ok(VInt(FromLittleEndian(bytes))) else Err("cannot fit")
    case Signed(width) =>
      if |bytes| == width then Ok(VInt(Bytes.Signed(FromLittleEndian(bytes), width))) else Err("cannot fit")
    case ByteArray(length) => if |bytes| == length then Ok(VBytes(bytes)) else Err("wrong size")
    case StringBuffer(length) => if |bytes| == length then Ok(VBytes(bytes)) else Err("wrong size")
    case Array(element, count) =>
      if |bytes| == count * TypeSize(element) then
        match ParseItems(element, bytes)
        case Ok(items) => Ok(VList(items))
        case Err(e) => Err(e)
      else
        Err("invalid size binary")
    case Embed(fields) =>
      if WellLaid(fields) && |bytes| == TotalSize(FieldsWithGarbage(fields)) then
        match ParseFields(t, |fields|, Destruct(FieldsWithGarbage(fields), bytes))
        case Ok(values) => Ok(VStruct(values))
        case Err(e) => Err(e)
      else
        Err("no match of binary")
  }

  /** Element after element, as long as a whole one is left. */
  function ParseItems(element: DataType, bytes: seq<byte>): Result<seq<Value>, string>
    decreases element, 3, |bytes|
  {
    var size := TypeSize(element);
    if size == 0 || |bytes| < size then
      Ok([])
    else
      match (FromBytes(element, bytes[..size]), ParseItems(element, bytes[size..]))
      case (Ok(first), Ok(rest)) => Ok([first] + rest)
      case (Err(e), _) => Err(e)
      case (_, Err(e)) => Err(e)
  }

  function ParseFields(t: DataType, n: nat, parts: map<string, seq<byte>>): Result<map<string, Value>, string>
    requires t.Embed? && n <= |t.fields|
    decreases t, 1, n
  {
    if n == 0 then
      Ok(map[])
    else
      var f := t.fields[n - 1];
      if f.name !in parts then
        Err("missing field")
      else
        match (ParseFields(t, n - 1, parts), FromBytes(f.dataType, parts[f.name]))
        case (Ok(values), Ok(value)) => Ok(values[f.name := value])
        case (Err(e), _) => Err(e)
        case (_, Err(e)) => Err(e)
  }

  // Pieces.

  lemma {:induction false} TypeSizePositive(t: DataType)
    requires ValidType(t)
    ensures TypeSize(t) > 0
  {
    match t
    case Array(element, count) =>
      TypeSizePositive(element);
      assert count * TypeSize(element) >= TypeSize(element);
    case _ =>
  }

  /** The fields are the pieces that are no gaps. */
  lemma {:induction false} PiecesWithoutGaps(pieces: seq<Field>, f: Field)
    ensures f in WithoutGaps(pieces) <==> f in pieces && f.name != GARBAGE
  {
    if pieces != [] {
      PiecesWithoutGaps(pieces[1..], f);
      assert f in pieces <==> f == pieces[0] || f in pieces[1..];
    }
  }

  lemma FieldIsPiece(fields: seq<Field>, f: Field)
    requires WellLaid(fields)
    ensures f in fields <==> f in FieldsWithGarbage(fields) && f.name != GARBAGE
  {
    FieldsAndGapsTile(fields);
    InterleaveKeepsFields(fields, 0);
    PiecesWithoutGaps(FieldsWithGarbage(fields), f);
  }

  /** Each piece that is no gap has bytes of its size. */
  predicate Fills(pieces: seq<Field>, printed: map<string, seq<byte>>) {
    forall p :: p in pieces && p.name != GARBAGE ==> p.name in printed && |printed[p.name]| == p.size
  }

  lemma {:induction false} PrintPiecesSize(pieces: seq<Field>, printed: map<string, seq<byte>>)
    requires Fills(pieces, printed)
    ensures |PrintPieces(pieces, printed)| == TotalSize(pieces)
  {
    if pieces != [] {
      assert pieces[0] in pieces;
      assert forall p :: p in pieces[1..] ==> p in pieces;
      PrintPiecesSize(pieces[1..], printed);
    }
  }

  /** Every field's bytes are printed at its offset, and everything between fields is 0xCC. */
  lemma {:induction false} PrintPiecesAt(pieces: seq<Field>, offset: nat, printed: map<string, seq<byte>>, i: nat)
    requires TilesFrom(pieces, offset) && Fills(pieces, printed)
    requires offset <= i < offset + TotalSize(pieces)
    ensures |PrintPieces(pieces, printed)| == TotalSize(pieces)
    ensures forall p :: p in pieces && p.name != GARBAGE && p.offset <= i < p.End() ==>
      && p.name in printed && i - p.offset < |printed[p.name]|
      && PrintPieces(pieces, printed)[i - offset] == printed[p.name][i - p.offset]
    ensures (forall p :: p in pieces && p.name != GARBAGE ==> !(p.offset <= i < p.End())) ==>
      PrintPieces(pieces, printed)[i - offset] == 0xCC
  {
    var first, rest := pieces[0], pieces[1..];
    PrintPiecesSize(pieces, printed);
    assert first in pieces;
    assert forall p :: p in pieces <==> p == first || p in rest;
    TilesAscend(rest, first.End());
    if i >= first.End() {
      PrintPiecesAt(rest, first.End(), printed, i);
    }
  }

  /** Taking apart gives every field the bytes at its offset. */
  lemma {:induction false} DestructAt(pieces: seq<Field>, offset: nat, bytes: seq<byte>, f: Field)
    requires TilesFrom(pieces, offset) && |bytes| == TotalSize(pieces)
    requires f in pieces && f.name != GARBAGE
    requires forall p :: p in pieces && p.name == f.name ==> p == f
    ensures offset <= f.offset && f.End() - offset <= |bytes|
    ensures f.name in Destruct(pieces, bytes) && Destruct(pieces, bytes)[f.name] == bytes[f.offset - offset..][..f.size]
  {
    var first, rest := pieces[0], pieces[1..];
    if f != first {
      assert f in rest && forall p :: p in rest ==> p in pieces;
      assert first in pieces;
      DestructAt(rest, first.End(), bytes[first.size..], f);
      assert bytes[first.size..][f.offset - first.End()..][..f.size] == bytes[f.offset - offset..][..f.size];
    } else {
      assert bytes[0..] == bytes;
    }
  }

  /** A field is the only piece with its name. */
  lemma FieldNameUnique(fields: seq<Field>, f: Field)
    requires WellLaid(fields) && f in fields
    ensures f in FieldsWithGarbage(fields) && f.name != GARBAGE
    ensures forall p :: p in FieldsWithGarbage(fields) && p.name == f.name ==> p == f
  {
    hide FieldsWithGarbage, OrderedFrom;
    FieldIsPiece(fields, f);
    forall p | p in FieldsWithGarbage(fields) && p.name == f.name
      ensures p == f
    {
      FieldIsPiece(fields, p);
    }
  }

  /** The bytes a field gets when a struct is taken apart. */
  lemma {:induction false} DestructField(fields: seq<Field>, bytes: seq<byte>, k: nat)
    requires WellLaid(fields) && k < |fields| && |bytes| == TotalSize(FieldsWithGarbage(fields))
    ensures fields[k].End() <= |bytes| == StructSize(fields)
    ensures var parts := Destruct(FieldsWithGarbage(fields), bytes);
      fields[k].name in parts && parts[fields[k].name] == bytes[fields[k].offset..][..fields[k].size]
  {
    hide WellLaid, FieldsWithGarbage, Destruct, TilesFrom, TotalSize;
    FieldsAndGapsTile(fields);
    FieldNameUnique(fields, fields[k]);
    DestructAt(FieldsWithGarbage(fields), 0, bytes, fields[k]);
  }
}
