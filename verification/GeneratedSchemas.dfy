/** Reading a generated schema back: which specifications it reproduces. */
module GeneratedSchemas {
  import opened Wrappers
  import opened Sorting
  import opened SchemaLayouts
  import opened SchemaCodecs
  import opened SchemaDeclarations
  import opened SchemaGenerators
  import opened Texts

  // Which names are usable.

  /** Specifications with the names that validation looks at. */
  function Trimmed(specs: seq<FieldSpec>): (r: seq<FieldSpec>)
    ensures |r| == |specs|
  {
    seq(|specs|, i requires 0 <= i < |specs| => specs[i].(name := Trim(specs[i].name)))
  }

  predicate Usable(specs: seq<FieldSpec>) {
    && (forall i :: 0 <= i < |specs| ==> IsIdentifier(specs[i].name) && specs[i].name !in RESERVED_FIELDS)
    && (forall i, j :: 0 <= i < j < |specs| ==> specs[i].name != specs[j].name)
  }

  /** Validation leaves only names that, once trimmed, a schema can declare. */
  lemma ValidNamesUsable(specs: seq<FieldSpec>)
    requires ValidateFields(specs) == []
    ensures Usable(Trimmed(specs))
  {
    hide Trim, IsIdentifier, ValidateFields;
    ValidIff(specs);
    assert forall i :: 0 <= i < |specs| ==> Trimmed(specs)[i].name == TrimmedNames(specs)[i];
  }

  /** Sorting keeps the names usable. */
  lemma UsablePermutes(specs: seq<FieldSpec>, sorted: seq<FieldSpec>)
    requires Usable(Trimmed(specs)) && multiset(sorted) == multiset(specs)
    ensures Usable(Trimmed(sorted))
  {
    hide Trim, IsIdentifier;
    forall i | 0 <= i < |sorted|
      ensures exists k :: 0 <= k < |specs| && specs[k] == sorted[i] && Trimmed(specs)[k] == Trimmed(sorted)[i]
    {
      assert sorted[i] in multiset(specs);
      var k :| 0 <= k < |specs| && specs[k] == sorted[i];
      assert Trimmed(specs)[k] == Trimmed(sorted)[i];
    }
    forall i, j | 0 <= i < j < |sorted|
      ensures Trimmed(sorted)[i].name != Trimmed(sorted)[j].name
    {
      if sorted[i] == sorted[j] {
        TwiceCounts(sorted, i, j);
        OnceCounts(specs, sorted[i]);
      }
    }
  }

  lemma TwiceCounts(specs: seq<FieldSpec>, i: nat, j: nat)
    requires i < j < |specs| && specs[i] == specs[j]
    ensures multiset(specs)[specs[i]] >= 2
  {
    var a, b := specs[..j], specs[j..];
    assert specs == a + b;
    assert a[i] in multiset(a) && b[0] in multiset(b);
  }

  lemma {:induction false} OnceCounts(specs: seq<FieldSpec>, s: FieldSpec)
    requires Usable(Trimmed(specs))
    ensures multiset(specs)[s] <= 1
  {
    hide Trim, IsIdentifier;
    if specs != [] {
      assert Trimmed(specs)[1..] == Trimmed(specs[1..]);
      OnceCounts(specs[1..], s);
      HeadAndTail(specs);
      if s == specs[0] {
        forall i | 0 <= i < |specs[1..]|
          ensures specs[1..][i] != s
        {
          assert Trimmed(specs)[i + 1].name != Trimmed(specs)[0].name;
        }
        assert s !in multiset(specs[1..]);
      }
    }
  }

  // Reading the generated lines back.

  function IdentifierLength(s: string): (n: nat)
    ensures n <= |s|
  {
    if s != [] && IsIdentifierChar(s[0]) then 1 + IdentifierLength(s[1..]) else 0
  }

  /**
   * The name in a line `field :name, ...`, from its colon to its comma: an identifier follows the colon
   * at once, and only blanks of the same line stand in front of the comma.
   */
  function ReadName(text: string): Option<string> {
    var n := IdentifierLength(text);
    if IsIdentifier(text[..n]) && forall i :: n <= i < |text| ==> text[i] in " \t" then Some(text[..n]) else None
  }

  /** A specified name that survives being emitted: no blank in front, and no line break behind. */
  predicate Readable(name: string) {
    TrimLeft(name) == name && forall i :: |Trim(name)| <= i < |name| ==> name[i] in " \t"
  }

  lemma {:induction false} IdentifierLengthIs(s: string, n: nat)
    requires n <= |s| && (forall i :: 0 <= i < n ==> IsIdentifierChar(s[i]))
    requires n < |s| ==> !IsIdentifierChar(s[n])
    ensures IdentifierLength(s) == n
  {
    if n > 0 {
      IdentifierLengthIs(s[1..], n - 1);
    }
  }

  lemma {:induction false} TrimRightPrefix(s: string)
    ensures TrimRight(s) <= s && forall i :: |TrimRight(s)| <= i < |s| ==> IsSpace(s[i])
  {
    if s != [] && IsSpace(s[|s| - 1]) {
      TrimRightPrefix(s[..|s| - 1]);
    }
  }

  lemma {:induction false} TrimLeftShortens(s: string)
    ensures |TrimLeft(s)| <= |s|
  {
    if s != [] && IsSpace(s[0]) {
      TrimLeftShortens(s[1..]);
    }
  }

  /** A validated name is read back exactly if it is readable, and then without its blanks. */
  lemma ReadNameIff(name: string)
    requires IsIdentifier(Trim(name))
    ensures ReadName(name) == if Readable(name) then Some(Trim(name)) else None
  {
    TrimLeftShortens(name);
    if TrimLeft(name) == name {
      hide TrimLeft, TrimRight, IdentifierLength;
      TrimRightPrefix(name);
      IdentifierLengthIs(name, |Trim(name)|);
      assert name[..|Trim(name)|] == Trim(name);
    } else {
      assert name != [] && IsSpace(name[0]);
      IdentifierLengthIs(name, 0);
      assert name[..0] == [];
    }
  }

  /** Reads the lines; the first that cannot be read is the error. */
  function ReadLines(lines: seq<Declaration>): Result<seq<Declaration>, string> {
    if lines == [] then
      Ok([])
    else
      match (ReadName(lines[0].name), ReadLines(lines[1..]))
      case (Some(name), Ok(rest)) => Ok([lines[0].(name := name)] + rest)
      case (None, _) => Err(lines[0].name)
      case (_, Err(name)) => Err(name)
  }

  predicate AllReadable(specs: seq<FieldSpec>) {
    forall i :: 0 <= i < |specs| ==> Readable(specs[i].name)
  }

  /** Emitted lines are read back exactly if all names are readable, with the names trimmed. */
  lemma {:induction false} EmittedLinesReadIff(sorted: seq<FieldSpec>, expected: nat)
    requires Usable(Trimmed(sorted))
    ensures ReadLines(Emit(sorted, expected)).Ok? <==> AllReadable(sorted)
    ensures AllReadable(sorted) ==> ReadLines(Emit(sorted, expected)) == Ok(Emit(Trimmed(sorted), expected))
  {
    hide Trim, IsIdentifier, Readable, ReadName;
    if sorted != [] {
      assert Trimmed(sorted)[1..] == Trimmed(sorted[1..]);
      assert Trimmed(sorted)[0].name == Trim(sorted[0].name);
      ReadNameIff(sorted[0].name);
      EmittedLinesReadIff(sorted[1..], sorted[0].End());
      assert Emit(sorted, expected)[1..] == Emit(sorted[1..], sorted[0].End());
    }
  }

  datatype CompileError = Unreadable(name: string) | Misplaced(error: LayoutError) | NoVariable(name: string)

  /** The first field for whose bytes the codec has no variable. */
  function FirstNoVariable(declarations: seq<Declaration>): Option<string> {
    if declarations == [] then
      None
    else if !IsVariable(declarations[0].name) then
      Some(declarations[0].name)
    else
      FirstNoVariable(declarations[1..])
  }

  /** Compiling generated lines: they are read as a whole, declared one by one, and then the codec is made from them. */
  function Compile(lines: seq<Declaration>): Result<Attributes, CompileError> {
    match ReadLines(lines)
    case Err(name) => Err(Unreadable(name))
    case Ok(declarations) =>
      match (Declare(declarations, Attributes([], 0)), FirstNoVariable(declarations))
      case (Err(e), _) => Err(Misplaced(e))
      case (Ok(a), None) => Ok(a)
      case (Ok(_), Some(name)) => Err(NoVariable(name))
  }

  predicate AllVariables(specs: seq<FieldSpec>) {
    forall i :: 0 <= i < |specs| ==> IsVariable(specs[i].name)
  }

  lemma {:induction false} CodecMadeIff(sorted: seq<FieldSpec>, expected: nat)
    ensures FirstNoVariable(Emit(sorted, expected)).None? <==> AllVariables(sorted)
  {
    hide IsVariable;
    if sorted != [] {
      CodecMadeIff(sorted[1..], sorted[0].End());
      assert Emit(sorted, expected)[1..] == Emit(sorted[1..], sorted[0].End());
      assert forall i :: 1 <= i < |sorted| ==> sorted[i] == sorted[1..][i - 1];
    }
  }

  /** The layout that specifications ask for. */
  function Requested(sorted: seq<FieldSpec>): (fields: seq<Field>)
    ensures |fields| == |sorted|
  {
    seq(|sorted|, i requires 0 <= i < |sorted| => FieldFor(sorted[i], sorted[i].offset))
  }

  // Declaring the lines.

  /**
   * Where each type's own size takes the layout to the requested offset: exactly if the next field's
   * offset is not written, and no further if it is.
   */
  predicate Fits(sorted: seq<FieldSpec>, expected: nat, size: nat) {
    sorted == [] || (
      && (if sorted[0].offset == expected then size == sorted[0].offset else size <= sorted[0].offset)
      && Fits(sorted[1..], sorted[0].End(), sorted[0].offset + TypeSize(sorted[0].dataType)))
  }

  /** Names that the fields so far do not use. */
  predicate New(sorted: seq<FieldSpec>, a: Attributes) {
    forall i :: 0 <= i < |sorted| ==> !Defined(a.fields, sorted[i].name)
  }

  predicate PositiveTypes(sorted: seq<FieldSpec>) {
    forall i :: 0 <= i < |sorted| ==> TypeSize(sorted[i].dataType) > 0
  }

  function FieldFor(s: FieldSpec, at: nat): Field {
    Field(s.name, s.dataType, at, TypeSize(s.dataType))
  }

  /** Declaring one field after the others. */
  lemma {:induction false} DeclareStep(sorted: seq<FieldSpec>, expected: nat, a: Attributes)
    requires Laid(a) && sorted != [] && Usable(sorted) && New(sorted, a) && PositiveTypes(sorted)
    ensures var s := sorted[0];
      var d := Emit(sorted, expected)[0];
      var at := if s.offset == expected then a.size else s.offset;
      var r := AddField(a, d.name, d.dataType, d.offset);
      && (r.Ok? <==> a.size <= at)
      && (r.Ok? ==>
            && Laid(r.value) && r.value.size == at + TypeSize(s.dataType) && New(sorted[1..], r.value)
            && Reverse(r.value.fields) == Reverse(a.fields) + [FieldFor(s, at)]
            && Declare(Emit(sorted, expected), a) == Declare(Emit(sorted[1..], s.End()), r.value))
      && (r.Err? ==> Declare(Emit(sorted, expected), a).Err?)
  {
    var s, ds := sorted[0], Emit(sorted, expected);
    var d := ds[0];
    assert ds[1..] == Emit(sorted[1..], s.End());
    AddFieldAcceptsIff(a, d.name, d.dataType, d.offset);
    var r := AddField(a, d.name, d.dataType, d.offset);
    if r.Ok? {
      AddFieldKeepsLayout(a, d.name, d.dataType, d.offset);
      forall i | 0 <= i < |sorted[1..]|
        ensures !Defined(r.value.fields, sorted[1..][i].name)
      {
        assert sorted[1..][i] == sorted[i + 1];
      }
    }
  }

  lemma UsableTail(sorted: seq<FieldSpec>)
    requires sorted != [] && Usable(sorted) && PositiveTypes(sorted)
    ensures Usable(sorted[1..]) && PositiveTypes(sorted[1..])
  {
  }

  lemma RequestedCons(sorted: seq<FieldSpec>)
    requires sorted != []
    ensures Requested(sorted) == [FieldFor(sorted[0], sorted[0].offset)] + Requested(sorted[1..])
  {
  }

  /** Declaring more fields keeps the ones before, and the layout. */
  lemma {:induction false} DeclareExtends(sorted: seq<FieldSpec>, expected: nat, a: Attributes)
    requires Laid(a) && Usable(sorted) && New(sorted, a) && PositiveTypes(sorted)
    requires Declare(Emit(sorted, expected), a).Ok?
    ensures Reverse(a.fields) <= Reverse(Declare(Emit(sorted, expected), a).value.fields)
    ensures Laid(Declare(Emit(sorted, expected), a).value)
  {
    if sorted != [] {
      DeclareStep(sorted, expected, a);
      UsableTail(sorted);
      var d := Emit(sorted, expected)[0];
      DeclareExtends(sorted[1..], sorted[0].End(), AddField(a, d.name, d.dataType, d.offset).value);
    }
  }

  predicate DeclaresRequested(sorted: seq<FieldSpec>, expected: nat, a: Attributes) {
    var r := Declare(Emit(sorted, expected), a);
    r.Ok? && Reverse(r.value.fields) == Reverse(a.fields) + Requested(sorted)
  }

  /** A field in the wrong place is not the one that was asked for. */
  lemma MovedField(before: seq<Field>, fields: seq<Field>, declared: Field, asked: Field, rest: seq<Field>)
    requires before + [declared] <= fields && declared != asked
    ensures fields != before + ([asked] + rest)
  {
    assert (before + [declared])[|before|] == fields[|before|];
    assert (before + ([asked] + rest))[|before|] == asked;
  }

  /** A first field that is accepted and in place leaves the rest to be. */
  lemma {:induction false} RestRequested(sorted: seq<FieldSpec>, expected: nat, a: Attributes, after: Attributes)
    requires sorted != []
    requires Reverse(after.fields) == Reverse(a.fields) + [FieldFor(sorted[0], sorted[0].offset)]
    requires Declare(Emit(sorted, expected), a) == Declare(Emit(sorted[1..], sorted[0].End()), after)
    ensures DeclaresRequested(sorted, expected, a) <==> DeclaresRequested(sorted[1..], sorted[0].End(), after)
  {
    hide Reverse, AddField, Declare, Emit, Requested, FieldFor;
    RequestedCons(sorted);
    var before, first, rest := Reverse(a.fields), FieldFor(sorted[0], sorted[0].offset), Requested(sorted[1..]);
    assert before + ([first] + rest) == (before + [first]) + rest;
  }

  /** A first field in another place is never undone. */
  lemma {:induction false} FirstMoved(sorted: seq<FieldSpec>, expected: nat, a: Attributes, after: Attributes, at: nat)
    requires sorted != [] && at != sorted[0].offset
    requires Laid(after) && Usable(sorted[1..]) && New(sorted[1..], after) && PositiveTypes(sorted[1..])
    requires Reverse(after.fields) == Reverse(a.fields) + [FieldFor(sorted[0], at)]
    requires Declare(Emit(sorted, expected), a) == Declare(Emit(sorted[1..], sorted[0].End()), after)
    ensures !DeclaresRequested(sorted, expected, a)
  {
    hide Reverse, AddField, Declare, Emit, Requested, Laid, Usable, New, PositiveTypes;
    if Declare(Emit(sorted, expected), a).Ok? {
      DeclareExtends(sorted[1..], sorted[0].End(), after);
      RequestedCons(sorted);
      MovedField(Reverse(a.fields), Reverse(Declare(Emit(sorted, expected), a).value.fields), FieldFor(sorted[0], at),
                 FieldFor(sorted[0], sorted[0].offset), Requested(sorted[1..]));
    }
  }

  lemma {:induction false} DeclareIff(sorted: seq<FieldSpec>, expected: nat, a: Attributes)
    requires Laid(a) && Usable(sorted) && New(sorted, a) && PositiveTypes(sorted)
    ensures DeclaresRequested(sorted, expected, a) <==> Fits(sorted, expected, a.size)
  {
    hide Reverse, WellLaid, AddField, Requested, Usable, New, PositiveTypes, Laid;
    if sorted == [] {
      assert Requested(sorted) == [] && Reverse(a.fields) + [] == Reverse(a.fields);
    } else {
      var s, d := sorted[0], Emit(sorted, expected)[0];
      var at := if s.offset == expected then a.size else s.offset;
      var r := AddField(a, d.name, d.dataType, d.offset);
      DeclareStep(sorted, expected, a);
      UsableTail(sorted);
      if r.Ok? {
        if at == s.offset {
          RestRequested(sorted, expected, a, r.value);
          DeclareIff(sorted[1..], s.End(), r.value);
        } else {
          FirstMoved(sorted, expected, a, r.value, at);
        }
      }
    }
  }

  // Whole specifications.

  lemma TrimmedVariables(specs: seq<FieldSpec>)
    ensures AllVariables(Trimmed(specs)) <==> forall s :: s in specs ==> IsVariable(Trim(s.name))
  {
    hide Trim, IsVariable;
    if AllVariables(Trimmed(specs)) {
      forall s | s in specs
        ensures IsVariable(Trim(s.name))
      {
        var i :| 0 <= i < |specs| && specs[i] == s;
        assert Trimmed(specs)[i].name == Trim(s.name);
      }
    }
  }

  /** Sorting keeps names and types. */
  lemma {:induction false} SortedSpecs(specs: seq<FieldSpec>)
    requires ValidateFields(specs) == [] && PositiveTypes(specs)
    ensures var sorted := SortBy(SpecOffset, specs);
      && multiset(sorted) == multiset(specs) && |sorted| == |specs|
      && Usable(Trimmed(sorted)) && PositiveTypes(Trimmed(sorted))
      && (AllReadable(sorted) <==> AllReadable(specs))
      && (AllVariables(Trimmed(sorted)) <==> AllVariables(Trimmed(specs)))
  {
    hide Trim, IsIdentifier, ValidateFields, Readable, SortBy, IsVariable;
    var sorted := SortBy(SpecOffset, specs);
    SortPermutes(SpecOffset, specs);
    assert |multiset(sorted)| == |sorted| && |multiset(specs)| == |specs|;
    ValidNamesUsable(specs);
    UsablePermutes(specs, sorted);
    forall i | 0 <= i < |sorted|
      ensures TypeSize(sorted[i].dataType) > 0
    {
      assert sorted[i] in multiset(specs);
    }
    assert forall s :: s in sorted <==> s in multiset(specs);
    assert forall s :: s in specs <==> s in multiset(specs);
    assert AllReadable(sorted) <==> forall s :: s in sorted ==> Readable(s.name);
    assert AllReadable(specs) <==> forall s :: s in specs ==> Readable(s.name);
    TrimmedVariables(sorted);
    TrimmedVariables(specs);
  }

  lemma {:induction false} TrimmedFits(sorted: seq<FieldSpec>, expected: nat, size: nat)
    ensures Fits(Trimmed(sorted), expected, size) <==> Fits(sorted, expected, size)
  {
    hide Trim;
    if sorted != [] {
      assert Trimmed(sorted)[1..] == Trimmed(sorted[1..]);
      TrimmedFits(sorted[1..], sorted[0].End(), sorted[0].offset + TypeSize(sorted[0].dataType));
    }
  }

  /** A generated schema compiles, and to the layout that was asked for. */
  predicate Reproduced(specs: seq<FieldSpec>)
    requires Generate(specs).Ok?
  {
    var r := Compile(Generate(specs).value);
    r.Ok? && Reverse(r.value.fields) == Requested(Trimmed(SortBy(SpecOffset, specs)))
  }

  /**
   * A generated schema compiles with its fields laid out as requested exactly if every name is readable as it
   * was specified and can be a variable, and the types' own sizes fit.
   */
  lemma {:induction false} GeneratedReproducesIff(specs: seq<FieldSpec>)
    requires Generate(specs).Ok? && PositiveTypes(specs)
    ensures Reproduced(specs) <==>
      AllReadable(specs) && AllVariables(Trimmed(specs)) && Fits(SortBy(SpecOffset, specs), 0, 0)
  {
    hide SortBy, ValidateFields, Declare, Emit, Requested, Fits, WellLaid, Usable, Reverse, Trim, Trimmed, AllReadable,
         ReadLines, AllVariables, FirstNoVariable;
    var sorted, a := SortBy(SpecOffset, specs), Attributes([], 0);
    NothingDeclared();
    SortedSpecs(specs);
    EmittedLinesReadIff(sorted, 0);
    TrimmedFits(sorted, 0, 0);
    DeclareIff(Trimmed(sorted), 0, a);
    CodecMadeIff(Trimmed(sorted), 0);
    assert Reverse(a.fields) + Requested(Trimmed(sorted)) == Requested(Trimmed(sorted));
  }

  lemma NothingDeclared()
    ensures Reverse([]) == [] && Laid(Attributes([], 0)) && forall sorted :: New(sorted, Attributes([], 0))
  {
  }

  /** Specifications that give every type's own size fit exactly if they do not overlap. */
  lemma {:induction false} TypeSizesFitIff(sorted: seq<FieldSpec>, previous: Option<FieldSpec>)
    requires forall i :: 0 <= i < |sorted| ==> sorted[i].size == TypeSize(sorted[i].dataType)
    ensures var end := if previous.Some? then previous.value.End() else 0;
      Fits(sorted, end, end) <==> OverlapErrors(sorted, previous) == []
  {
    if sorted != [] {
      TypeSizesFitIff(sorted[1..], Some(sorted[0]));
    }
  }

  lemma {:induction false} NoErrors(specs: seq<FieldSpec>)
    requires ValidateFields(specs) == []
    ensures OverlapErrors(SortBy(SpecOffset, specs), None) == []
  {
    assert NameErrors(specs) + DuplicateErrors(specs) + OverlapErrors(SortBy(SpecOffset, specs), None) == [];
  }

  /**
   * A validated specification with the types' own sizes and names that are readable and can be variables is
   * reproduced: every field is where it was requested.
   */
  lemma GeneratedReproduces(specs: seq<FieldSpec>)
    requires Generate(specs).Ok? && AllReadable(specs) && AllVariables(Trimmed(specs))
    requires forall i :: 0 <= i < |specs| ==> specs[i].size == TypeSize(specs[i].dataType) > 0
    ensures Reproduced(specs)
    ensures forall i :: 0 <= i < |specs| ==>
      Field(Trim(specs[i].name), specs[i].dataType, specs[i].offset, specs[i].size)
        in Reverse(Compile(Generate(specs).value).value.fields)
  {
    hide SortBy, ValidateFields, Compile, Emit, Requested, Fits, Trim, Trimmed, AllReadable, AllVariables, Reverse, OverlapErrors;
    var sorted := SortBy(SpecOffset, specs);
    SortedSpecs(specs);
    NoErrors(specs);
    forall i | 0 <= i < |sorted|
      ensures sorted[i].size == TypeSize(sorted[i].dataType)
    {
      assert sorted[i] in multiset(specs);
    }
    TypeSizesFitIff(sorted, None);
    GeneratedReproducesIff(specs);
    forall i | 0 <= i < |specs|
      ensures Field(Trim(specs[i].name), specs[i].dataType, specs[i].offset, specs[i].size) in Requested(Trimmed(sorted))
    {
      RequestedHas(specs, sorted, i);
    }
  }

  lemma RequestedHas(specs: seq<FieldSpec>, sorted: seq<FieldSpec>, i: nat)
    requires multiset(sorted) == multiset(specs) && i < |specs|
    ensures Field(Trim(specs[i].name), specs[i].dataType, specs[i].offset, TypeSize(specs[i].dataType))
      in Requested(Trimmed(sorted))
  {
    hide Trim;
    assert specs[i] in multiset(sorted);
    var k :| 0 <= k < |sorted| && sorted[k] == specs[i];
    assert Requested(Trimmed(sorted))[k] == FieldFor(Trimmed(sorted)[k], specs[i].offset);
  }

  // Specifications that are not reproduced.

  const BLANK_IN_FRONT := [FieldSpec(" hp", Unsigned(4), 0, 4)]

  lemma BlankInFrontPasses()
    ensures Generate(BLANK_IN_FRONT) == Ok([Declaration(" hp", Unsigned(4), None)])
  {
    assert " hp"[1..] == "hp";
    assert Trim(" hp") == "hp";
    assert TrimmedNames(BLANK_IN_FRONT) == ["hp"];
    NoDuplicatesIff(["hp"]);
    hide Trim, Uniq, Subtract, TrimmedNames;
    assert SortBy(SpecOffset, BLANK_IN_FRONT) == BLANK_IN_FRONT;
    assert NameErrors(BLANK_IN_FRONT) == [] && DuplicateErrors(BLANK_IN_FRONT) == [];
    assert OverlapErrors(BLANK_IN_FRONT, None) == [];
    assert Emit(BLANK_IN_FRONT, 0) == [Declaration(" hp", Unsigned(4), None)];
  }

  /** A name with a blank in front passes validation, and its line cannot be read. */
  lemma BlankInFrontIsUnreadable()
    ensures Generate(BLANK_IN_FRONT).Ok? && Compile(Generate(BLANK_IN_FRONT).value) == Err(Unreadable(" hp"))
  {
    BlankInFrontPasses();
    hide Generate, Emit;
    assert IdentifierLength(" hp") == 0;
    assert ReadLines([Declaration(" hp", Unsigned(4), None)]) == Err(" hp");
  }

  const NO_VARIABLE := [FieldSpec("_", Unsigned(4), 0, 4)]

  lemma NoVariablePasses()
    ensures Generate(NO_VARIABLE) == Ok([Declaration("_", Unsigned(4), None)])
  {
    assert Trim("_") == "_" && IsIdentifier("_");
    assert |"_"| == 1 && forall name :: name in RESERVED_FIELDS ==> |name| > 1;
    assert TrimmedNames(NO_VARIABLE) == ["_"];
    NoDuplicatesIff(["_"]);
    hide Trim, Uniq, Subtract, TrimmedNames;
    assert SortBy(SpecOffset, NO_VARIABLE) == NO_VARIABLE;
    assert NameErrors(NO_VARIABLE) == [] && DuplicateErrors(NO_VARIABLE) == [];
    assert OverlapErrors(NO_VARIABLE, None) == [];
    assert Emit(NO_VARIABLE, 0) == [Declaration("_", Unsigned(4), None)];
  }

  /** A field named `_` passes validation, is read and declared, and then the codec is not made. */
  lemma UnderscoreIsNoVariable()
    ensures Generate(NO_VARIABLE).Ok? && Compile(Generate(NO_VARIABLE).value) == Err(NoVariable("_"))
  {
    NoVariablePasses();
    hide Generate, Emit;
    var d := Declaration("_", Unsigned(4), None);
    assert IdentifierLength("_") == 1 && "_"[..1] == "_";
    assert ReadName("_") == Some("_");
    assert ReadLines([d][1..]) == Ok([]) && [d.(name := "_")] + [] == [d];
    assert ReadLines([d]) == Ok([d]);
    assert Declare([d], Attributes([], 0)).Ok?;
    assert "_" in NO_VARIABLES;
    assert FirstNoVariable([d]) == Some("_");
  }

  const WRONG_SIZE := [FieldSpec("a", Unsigned(4), 0, 8), FieldSpec("b", Unsigned(4), 8, 4)]

  lemma WrongSizeNames()
    ensures NameErrors(WRONG_SIZE) == []
  {
    assert Trim("a") == "a" && Trim("b") == "b";
    hide Trim;
    assert |"a"| == |"b"| == 1 && forall name :: name in RESERVED_FIELDS ==> |name| > 1;
    assert WRONG_SIZE[1..] == [FieldSpec("b", Unsigned(4), 8, 4)];
    assert NameErrors(WRONG_SIZE[1..]) == [];
  }

  lemma WrongSizeDistinct()
    ensures DuplicateErrors(WRONG_SIZE) == []
  {
    assert Trim("a") == "a" && Trim("b") == "b";
    hide Trim, Uniq, Subtract;
    assert TrimmedNames(WRONG_SIZE) == ["a", "b"];
    NoDuplicatesIff(["a", "b"]);
  }

  lemma WrongSizeOrder()
    ensures SortBy(SpecOffset, WRONG_SIZE) == WRONG_SIZE && OverlapErrors(WRONG_SIZE, None) == []
    ensures !Fits(WRONG_SIZE, 0, 0)
  {
    var a, b := WRONG_SIZE[0], WRONG_SIZE[1];
    assert WRONG_SIZE[1..] == [b] && [b][1..] == [];
    assert SortBy(SpecOffset, [b]) == [b];
    assert OverlapErrors([b], Some(a)) == [];
    assert !Fits([b], 8, 4);
  }

  /** A size that is not the type's own passes validation and moves the next field: here to 4 instead of 8. */
  lemma WrongSizeMovesField()
    ensures Generate(WRONG_SIZE).Ok? && !Reproduced(WRONG_SIZE)
  {
    WrongSizeNames();
    WrongSizeDistinct();
    WrongSizeOrder();
    hide NameErrors, DuplicateErrors, OverlapErrors, SortBy, Fits, Emit;
    GeneratedReproducesIff(WRONG_SIZE);
  }
}
