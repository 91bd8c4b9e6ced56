/** Schemas that extend a parent: the parent's codec works on the front of the child. */
module SchemaExtensions {
  import opened Wrappers
  import opened Bytes
  import opened SchemaLayouts
  import opened SchemaCodecs
  import opened SchemaRoundTrips
  import opened SchemaReprints

  lemma {:induction false} PrintPiecesConcat(front: seq<Field>, back: seq<Field>, printed: map<string, seq<byte>>)
    ensures PrintPieces(front + back, printed) == PrintPieces(front, printed) + PrintPieces(back, printed)
  {
    if front == [] {
      assert front + back == back;
    } else {
      assert (front + back)[1..] == front[1..] + back;
      PrintPiecesConcat(front[1..], back, printed);
    }
  }

  lemma {:induction false} PrintPiecesAgree(
    pieces: seq<Field>, printed: map<string, seq<byte>>, other: map<string, seq<byte>>)
    requires forall p :: p in pieces && p.name != GARBAGE ==>
      p.name in printed && p.name in other && printed[p.name] == other[p.name]
    ensures PrintPieces(pieces, printed) == PrintPieces(pieces, other)
  {
    if pieces != [] {
      assert pieces[0] in pieces;
      assert forall p :: p in pieces[1..] ==> p in pieces;
      PrintPiecesAgree(pieces[1..], printed, other);
    }
  }

  lemma ChildFields(parent: seq<Field>, child: seq<Field>)
    requires parent <= child && WellLaid(parent) && WellLaid(child)
    ensures FieldsWithGarbage(parent) <= FieldsWithGarbage(child)
  {
    FieldsAndGapsTile(parent);
    FieldsAndGapsTile(child);
    assert child == parent + child[|parent|..];
    InterleaveExtends(parent, child[|parent|..], 0);
  }

  /** The parent's fields are printed the same from a child's struct. */
  lemma {:induction false} ChildFieldsPrint(parent: seq<Field>, child: seq<Field>, values: map<string, Value>)
    requires parent <= child && WellLaid(parent) && WellLaid(child)
    requires PrintFields(Embed(child), |child|, values).Ok?
    ensures PrintFields(Embed(parent), |parent|, values).Ok?
    ensures forall f :: f in parent ==>
      && f.name in PrintFields(Embed(parent), |parent|, values).value
      && f.name in PrintFields(Embed(child), |child|, values).value
      && PrintFields(Embed(parent), |parent|, values).value[f.name] == PrintFields(Embed(child), |child|, values).value[f.name]
  {
    hide PrintFields, ToBytes, WellLaid;
    assert forall k :: 0 <= k < |parent| ==> parent[k] == child[k];
    PrintFieldsAre(Embed(child), |child|, values);
    forall k | 0 <= k < |parent|
      ensures parent[k].name in values && ToBytes(parent[k].dataType, values[parent[k].name]).Ok?
    {
      assert child[k].name in values;
    }
    PrintFieldsAre(Embed(parent), |parent|, values);
    forall f | f in parent
      ensures f.name in PrintFields(Embed(parent), |parent|, values).value
      ensures f.name in PrintFields(Embed(child), |child|, values).value
      ensures PrintFields(Embed(parent), |parent|, values).value[f.name]
        == PrintFields(Embed(child), |child|, values).value[f.name]
    {
      var k :| 0 <= k < |parent| && parent[k] == f;
      assert child[k] == f;
    }
  }

  /** A struct of a child schema also prints as its parent's, to the front of what it prints to itself. */
  lemma ChildPrintsAsParent(parent: seq<Field>, child: seq<Field>, values: map<string, Value>)
    requires parent <= child && ValidType(Embed(parent)) && ValidType(Embed(child))
    requires ToBytes(Embed(child), VStruct(values)).Ok?
    ensures ToBytes(Embed(parent), VStruct(values)).Ok?
    ensures |ToBytes(Embed(parent), VStruct(values)).value| == StructSize(parent)
    ensures ToBytes(Embed(parent), VStruct(values)).value <= ToBytes(Embed(child), VStruct(values)).value
  {
    ChildFieldsPrint(parent, child, values);
    PrintSize(Embed(parent), VStruct(values));
    var printed, all := PrintFields(Embed(parent), |parent|, values).value, PrintFields(Embed(child), |child|, values).value;
    var front, pieces := FieldsWithGarbage(parent), FieldsWithGarbage(child);
    ChildFields(parent, child);
    assert pieces == front + pieces[|front|..];
    PrintPiecesConcat(front, pieces[|front|..], all);
    forall f | f in front && f.name != GARBAGE
      ensures f in parent
    {
      FieldIsPiece(parent, f);
    }
    PrintPiecesAgree(front, printed, all);
  }

  /** What the struct that a binary parses to holds for its field `k`. */
  function ParsedField(fields: seq<Field>, bytes: seq<byte>, k: nat): Option<Value>
    requires k < |fields|
  {
    match FromBytes(Embed(fields), bytes)
    case Ok(VStruct(values)) => if fields[k].name in values then Some(values[fields[k].name]) else None
    case _ => None
  }

  /** A parsed struct holds, for every field, what the bytes at its offset parse to. */
  lemma {:induction false} ParsedFieldIs(fields: seq<Field>, bytes: seq<byte>, k: nat)
    requires ValidType(Embed(fields)) && FromBytes(Embed(fields), bytes).Ok? && k < |fields|
    ensures fields[k].End() <= |bytes| == StructSize(fields)
    ensures ParsedField(fields, bytes, k).Some?
    ensures FromBytes(fields[k].dataType, bytes[fields[k].offset..][..fields[k].size]) == Ok(ParsedField(fields, bytes, k).value)
  {
    DestructField(fields, bytes, k);
    ParseFieldsAre(Embed(fields), |fields|, Destruct(FieldsWithGarbage(fields), bytes));
  }

  lemma EmbedSize(fields: seq<Field>)
    ensures TypeSize(Embed(fields)) == StructSize(fields)
  {
  }

  /** The front of a child's binary parses as the parent's, to the same values. */
  lemma {:induction false} ChildParsesAsParent(parent: seq<Field>, child: seq<Field>, bytes: seq<byte>, k: nat)
    requires parent <= child && ValidType(Embed(parent)) && ValidType(Embed(child))
    requires FromBytes(Embed(child), bytes).Ok? && k < |parent|
    ensures StructSize(parent) <= |bytes|
    ensures FromBytes(Embed(parent), bytes[..StructSize(parent)]).Ok?
    ensures ParsedField(parent, bytes[..StructSize(parent)], k).Some?
    ensures ParsedField(parent, bytes[..StructSize(parent)], k) == ParsedField(child, bytes, k)
  {
    hide FromBytes, ToBytes, TypeSize, ValidType, Reprints, ParsedField, PrintableType;
    EmbedSize(parent);
    var f, last := parent[k], |parent| - 1;
    assert child[last] == parent[last];
    ParsedFieldIs(child, bytes, last);
    assert StructSize(parent) == child[last].End();
    ParsedFieldIs(child, bytes, k);
    var front := bytes[..StructSize(parent)];
    ParsePrint(Embed(parent), front);
    ParsedFieldIs(parent, front, k);
    assert front[f.offset..][..f.size] == bytes[f.offset..][..f.size];
  }
}
