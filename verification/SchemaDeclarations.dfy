/** Compiling a schema: its declarations are added one by one. */
module SchemaDeclarations {
  import opened Wrappers
  import opened SchemaLayouts
  import opened SchemaCodecs

  /** A field's line; without an offset the field follows the previous one. */
  datatype Declaration = Declaration(name: string, dataType: DataType, offset: Option<nat>)

  function Declare(declarations: seq<Declaration>, a: Attributes): Result<Attributes, LayoutError> {
    if declarations == [] then
      Ok(a)
    else
      var d := declarations[0];
      match AddField(a, d.name, d.dataType, d.offset)
      case Err(e) => Err(e)
      case Ok(after) => Declare(declarations[1..], after)
  }

  /** The attributes of a schema that extends a parent, or of an empty one. */
  function Extending(parent: seq<Field>): Attributes {
    Attributes(Reverse(parent), StructSize(parent))
  }

  predicate ValidFields(fields: seq<Field>) {
    forall k :: 0 <= k < |fields| ==> fields[k].size == TypeSize(fields[k].dataType) && ValidType(fields[k].dataType)
  }

  lemma ParentIsLaid(parent: seq<Field>)
    requires parent == [] || ValidType(Embed(parent))
    ensures Laid(Extending(parent)) && Reverse(Extending(parent).fields) == parent && ValidFields(parent)
    ensures |Extending(parent).fields| == |parent| && forall k :: 0 <= k < |parent| ==> IsVariable(parent[k].name)
  {
    assert Reverse(Reverse(parent)) == parent;
  }

  /** Every accepted run of declarations keeps the fields so far and lays out the others behind them. */
  lemma {:induction false} DeclareKeepsValid(declarations: seq<Declaration>, a: Attributes)
    requires Laid(a) && ValidFields(Reverse(a.fields))
    requires forall i :: 0 <= i < |declarations| ==> ValidType(declarations[i].dataType)
    requires Declare(declarations, a).Ok?
    ensures var after := Declare(declarations, a).value;
      && Laid(after) && ValidFields(Reverse(after.fields))
      && Reverse(a.fields) <= Reverse(after.fields) && |after.fields| == |a.fields| + |declarations|
      && forall k :: |a.fields| <= k < |after.fields| ==> Reverse(after.fields)[k].name == declarations[k - |a.fields|].name
  {
    hide ValidType, TypeSize, WellLaid;
    if declarations != [] {
      var d := declarations[0];
      TypeSizePositive(d.dataType);
      AddFieldKeepsLayout(a, d.name, d.dataType, d.offset);
      var next := AddField(a, d.name, d.dataType, d.offset).value;
      DeclareKeepsValid(declarations[1..], next);
      var after := Declare(declarations, a).value;
      forall k | |a.fields| <= k < |after.fields|
        ensures Reverse(after.fields)[k].name == declarations[k - |a.fields|].name
      {
        assert k == |a.fields| ==> Reverse(after.fields)[k] == Reverse(next.fields)[k];
      }
    }
  }

  /** A laid out struct is a type with a codec exactly if all its names are variables. */
  lemma EmbedIsValidIff(fields: seq<Field>)
    requires fields != [] && WellLaid(fields) && ValidFields(fields)
    ensures ValidType(Embed(fields)) <==> forall k :: 0 <= k < |fields| ==> IsVariable(fields[k].name)
  {
  }

  lemma VariablesAdded(parent: seq<Field>, fields: seq<Field>, declarations: seq<Declaration>)
    requires parent <= fields && |fields| == |parent| + |declarations|
    requires forall k :: 0 <= k < |parent| ==> IsVariable(parent[k].name)
    requires forall k :: |parent| <= k < |fields| ==> fields[k].name == declarations[k - |parent|].name
    ensures (forall k :: 0 <= k < |fields| ==> IsVariable(fields[k].name))
        <==> forall i :: 0 <= i < |declarations| ==> IsVariable(declarations[i].name)
  {
    hide IsVariable;
    assert forall k :: 0 <= k < |parent| ==> fields[k] == parent[k];
    assert forall i :: 0 <= i < |declarations| ==> declarations[i].name == fields[|parent| + i].name;
  }

  /**
   * Whatever declarations are accepted, from the empty schema or on top of a valid parent, the result starts
   * with the parent's fields, and it is a type with a codec exactly if every declared name is a variable.
   */
  lemma {:induction false} DeclaredIsValid(parent: seq<Field>, declarations: seq<Declaration>)
    requires parent == [] || ValidType(Embed(parent))
    requires forall i :: 0 <= i < |declarations| ==> ValidType(declarations[i].dataType)
    requires Declare(declarations, Extending(parent)).Ok?
    ensures var fields := Reverse(Declare(declarations, Extending(parent)).value.fields);
      && parent <= fields && |fields| == |parent| + |declarations|
      && (fields != [] ==>
            (ValidType(Embed(fields)) <==> forall i :: 0 <= i < |declarations| ==> IsVariable(declarations[i].name)))
  {
    hide Reverse, TypeSize, Declare, WellLaid, ValidType, IsVariable, ValidFields, Extending;
    ParentIsLaid(parent);
    DeclareKeepsValid(declarations, Extending(parent));
    var fields := Reverse(Declare(declarations, Extending(parent)).value.fields);
    VariablesAdded(parent, fields, declarations);
    if fields != [] {
      EmbedIsValidIff(fields);
    }
  }

  // Which declarations are accepted.

  /** Where declarations put their fields: at the offset that is written, or where the field in front ends. */
  function Placed(declarations: seq<Declaration>, size: nat): (fields: seq<Field>)
    ensures |fields| == |declarations|
  {
    if declarations == [] then
      []
    else
      var d := declarations[0];
      var field := Field(d.name, d.dataType, if d.offset.Some? then d.offset.value else size, TypeSize(d.dataType));
      [field] + Placed(declarations[1..], field.End())
  }

  /** Where the field in front of the `k`th one ends. */
  function EndBefore(fields: seq<Field>, size: nat, k: nat): nat
    requires k <= |fields|
  {
    if k == 0 then size else fields[k - 1].End()
  }

  lemma {:induction false} PlacedAt(declarations: seq<Declaration>, size: nat, k: nat)
    requires k < |declarations|
    ensures var fields, d := Placed(declarations, size), declarations[k];
      fields[k] == Field(
        d.name, d.dataType, if d.offset.Some? then d.offset.value else EndBefore(fields, size, k), TypeSize(d.dataType))
  {
    hide TypeSize;
    if k > 0 {
      PlacedAt(declarations[1..], Placed(declarations, size)[0].End(), k - 1);
    }
  }

  predicate InOrder(fields: seq<Field>, size: nat) {
    forall k :: 0 <= k < |fields| ==> EndBefore(fields, size, k) <= fields[k].offset
  }

  /** Usable names that are new and distinct. */
  predicate NewNames(declarations: seq<Declaration>, fields: seq<Field>) {
    && (forall i :: 0 <= i < |declarations| ==>
          declarations[i].name !in RESERVED_FIELDS && !Defined(fields, declarations[i].name))
    && forall i, j :: 0 <= i < j < |declarations| ==> declarations[i].name != declarations[j].name
  }

  lemma InOrderCons(field: Field, rest: seq<Field>, size: nat)
    ensures InOrder([field] + rest, size) <==> size <= field.offset && InOrder(rest, field.End())
  {
    var fields := [field] + rest;
    forall k | 0 <= k < |rest|
      ensures EndBefore(fields, size, k + 1) == EndBefore(rest, field.End(), k) && fields[k + 1] == rest[k]
    {
    }
    if InOrder(fields, size) {
      assert EndBefore(fields, size, 0) <= fields[0].offset;
      forall k | 0 <= k < |rest|
        ensures EndBefore(rest, field.End(), k) <= rest[k].offset
      {
        assert EndBefore(fields, size, k + 1) <= fields[k + 1].offset;
      }
    }
  }

  lemma NewNamesCons(declarations: seq<Declaration>, fields: seq<Field>, field: Field)
    requires declarations != [] && field.name == declarations[0].name
    ensures NewNames(declarations, fields) <==>
      && declarations[0].name !in RESERVED_FIELDS && !Defined(fields, declarations[0].name)
      && NewNames(declarations[1..], [field] + fields)
  {
    var rest, more := declarations[1..], [field] + fields;
    assert forall i :: 0 <= i < |rest| ==> rest[i] == declarations[i + 1];
    forall i | 0 <= i < |rest|
      ensures Defined(more, rest[i].name) <==> field.name == rest[i].name || Defined(fields, rest[i].name)
    {
      assert more[0] == field && forall k :: 0 <= k < |fields| ==> more[k + 1] == fields[k];
    }
    if NewNames(rest, more) && !Defined(fields, declarations[0].name) && declarations[0].name !in RESERVED_FIELDS {
      forall i | 0 <= i < |declarations|
        ensures declarations[i].name !in RESERVED_FIELDS && !Defined(fields, declarations[i].name)
      {
        assert i > 0 ==> declarations[i] == rest[i - 1];
      }
      forall i, j | 0 <= i < j < |declarations|
        ensures declarations[i].name != declarations[j].name
      {
        assert declarations[j] == rest[j - 1] && (i > 0 ==> declarations[i] == rest[i - 1]);
      }
    }
  }

  /** One declaration, and then the others. */
  lemma {:induction false} DeclareFirst(declarations: seq<Declaration>, a: Attributes)
    requires Laid(a) && declarations != [] && TypeSize(declarations[0].dataType) > 0
    ensures var d, r := declarations[0], AddField(a, declarations[0].name, declarations[0].dataType, declarations[0].offset);
      var field := Placed(declarations, a.size)[0];
      && (r.Ok? <==> d.name !in RESERVED_FIELDS && !Defined(a.fields, d.name) && a.size <= field.offset)
      && (r.Ok? ==>
            && Laid(r.value) && r.value.fields == [field] + a.fields && r.value.size == field.End()
            && Reverse(r.value.fields) == Reverse(a.fields) + [field])
  {
    var d := declarations[0];
    AddFieldAcceptsIff(a, d.name, d.dataType, d.offset);
    if AddField(a, d.name, d.dataType, d.offset).Ok? {
      AddFieldKeepsLayout(a, d.name, d.dataType, d.offset);
    }
  }

  /**
   * Declarations are accepted exactly if their names are usable, new and distinct and no field starts before
   * the one in front of it has ended; and then the fields are where the declarations put them.
   */
  lemma {:induction false} DeclareExactIff(declarations: seq<Declaration>, a: Attributes)
    requires Laid(a) && forall i :: 0 <= i < |declarations| ==> TypeSize(declarations[i].dataType) > 0
    ensures Declare(declarations, a).Ok? <==>
      NewNames(declarations, a.fields) && InOrder(Placed(declarations, a.size), a.size)
    ensures Declare(declarations, a).Ok? ==>
      Reverse(Declare(declarations, a).value.fields) == Reverse(a.fields) + Placed(declarations, a.size)
  {
    hide TypeSize, Reverse, AddField, WellLaid, Laid, NewNames, InOrder;
    if declarations == [] {
      assert NewNames(declarations, a.fields) && InOrder(Placed(declarations, a.size), a.size) by {
        NothingDeclared(a);
      }
    } else {
      var d, rest, field := declarations[0], declarations[1..], Placed(declarations, a.size)[0];
      DeclareFirst(declarations, a);
      NewNamesCons(declarations, a.fields, field);
      InOrderCons(field, Placed(rest, field.End()), a.size);
      var r := AddField(a, d.name, d.dataType, d.offset);
      if r.Ok? {
        DeclareExactIff(rest, r.value);
        assert Reverse(a.fields) + [field] + Placed(rest, field.End())
            == Reverse(a.fields) + ([field] + Placed(rest, field.End()));
      }
    }
  }

  lemma NothingDeclared(a: Attributes)
    ensures NewNames([], a.fields) && InOrder([], a.size)
  {
  }
}
