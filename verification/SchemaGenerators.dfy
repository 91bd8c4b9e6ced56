/** Validating field specifications and generating a schema's declarations from them. */
module SchemaGenerators {
  import opened Wrappers
  import opened Sorting
  import opened SchemaLayouts
  import opened SchemaDeclarations
  import opened Texts

  /** What a user asks for; the type's own size may differ from `size`. */
  datatype FieldSpec = FieldSpec(name: string, dataType: DataType, offset: nat, size: nat) {
    function End(): nat {
      offset + size
    }
  }

  // Validation.

  datatype SpecError =
    | NoFields
    | EmptyName
    | InvalidName(name: string)
    | NameReserved(name: string)
    | DuplicateNames(names: seq<string>)
    | FieldsOverlap(previous: string, name: string, offset: nat)

  function TrimLeft(s: string): string {
    if s != [] && IsSpace(s[0]) then TrimLeft(s[1..]) else s
  }

  function TrimRight(s: string): string {
    if s != [] && IsSpace(s[|s| - 1]) then TrimRight(s[..|s| - 1]) else s
  }

  function Trim(s: string): string {
    TrimRight(TrimLeft(s))
  }

  predicate IsIdentifierChar(c: char) {
    'a' <= c <= 'z' || 'A' <= c <= 'Z' || '0' <= c <= '9' || c == '_'
  }

  predicate IsIdentifier(s: string) {
    && s != [] && ('a' <= s[0] <= 'z' || s[0] == '_')
    && forall i :: 0 <= i < |s| ==> IsIdentifierChar(s[i])
  }

  function NameError(trimmed: string): Option<SpecError> {
    if trimmed == "" then
      Some(EmptyName)
    else if !IsIdentifier(trimmed) then
      Some(InvalidName(trimmed))
    else if trimmed in RESERVED_FIELDS then
      Some(NameReserved(trimmed))
    else
      None
  }

  function NameErrors(specs: seq<FieldSpec>): seq<SpecError> {
    if specs == [] then
      []
    else
      var e := NameError(Trim(specs[0].name));
      (if e.Some? then [e.value] else []) + NameErrors(specs[1..])
  }

  /** The first occurrence of each element. */
  function Uniq(names: seq<string>): seq<string> {
    if names == [] then
      []
    else
      var front, last := names[..|names| - 1], names[|names| - 1];
      Uniq(front) + if last in front then [] else [last]
  }

  function RemoveFirst(names: seq<string>, name: string): seq<string> {
    if names == [] then [] else if names[0] == name then names[1..] else [names[0]] + RemoveFirst(names[1..], name)
  }

  /** Removes one occurrence for each element of `other`. */
  function Subtract(names: seq<string>, other: seq<string>): seq<string>
    decreases |other|
  {
    if other == [] then names else Subtract(RemoveFirst(names, other[0]), other[1..])
  }

  function TrimmedNames(specs: seq<FieldSpec>): (names: seq<string>)
    ensures |names| == |specs|
  {
    seq(|specs|, i requires 0 <= i < |specs| => Trim(specs[i].name))
  }

  function DuplicateErrors(specs: seq<FieldSpec>): seq<SpecError> {
    var names := TrimmedNames(specs);
    var duplicates := Subtract(names, Uniq(names));
    if duplicates == [] then [] else [DuplicateNames(Uniq(duplicates))]
  }

  function OverlapErrors(sorted: seq<FieldSpec>, previous: Option<FieldSpec>): seq<SpecError> {
    if sorted == [] then
      []
    else
      (if previous.Some? && sorted[0].offset < previous.value.End() then
         [FieldsOverlap(previous.value.name, sorted[0].name, sorted[0].offset)]
       else
         []) + OverlapErrors(sorted[1..], Some(sorted[0]))
  }

  function SpecOffset(s: FieldSpec): int {
    s.offset
  }

  function ValidateFields(specs: seq<FieldSpec>): seq<SpecError> {
    if specs == [] then
      [NoFields]
    else
      NameErrors(specs) + DuplicateErrors(specs) + OverlapErrors(SortBy(SpecOffset, specs), None)
  }

  // Generation.

  /**
   * The generated lines carry names as they were specified; an offset is written only where the field does
   * not follow the previous one.
   */
  function Emit(sorted: seq<FieldSpec>, expected: nat): seq<Declaration> {
    if sorted == [] then
      []
    else
      var s := sorted[0];
      [Declaration(s.name, s.dataType, if s.offset != expected then Some(s.offset) else None)] + Emit(sorted[1..], s.End())
  }

  function Generate(specs: seq<FieldSpec>): Result<seq<Declaration>, seq<SpecError>> {
    var errors := ValidateFields(specs);
    if errors != [] then Err(errors) else Ok(Emit(SortBy(SpecOffset, specs), 0))
  }

  // What validation rules out.

  lemma {:induction false} RemoveFirstCounts(names: seq<string>, name: string)
    ensures multiset(RemoveFirst(names, name)) == multiset(names) - multiset{name}
  {
    if names != [] {
      RemoveFirstCounts(names[1..], name);
      HeadAndTail(names);
    }
  }

  lemma {:induction false} SubtractCounts(names: seq<string>, other: seq<string>)
    ensures multiset(Subtract(names, other)) == multiset(names) - multiset(other)
    decreases |other|
  {
    if other != [] {
      RemoveFirstCounts(names, other[0]);
      SubtractCounts(RemoveFirst(names, other[0]), other[1..]);
      HeadAndTail(other);
    } else {
      assert multiset(other) == multiset{};
    }
  }

  lemma {:induction false} UniqCounts(names: seq<string>)
    ensures forall name :: multiset(Uniq(names))[name] == if name in names then 1 else 0
  {
    if names != [] {
      var front, last := names[..|names| - 1], names[|names| - 1];
      assert names == front + [last];
      UniqCounts(front);
    }
  }

  predicate AllDistinct(names: seq<string>) {
    forall i, j :: 0 <= i < j < |names| ==> names[i] != names[j]
  }

  lemma {:induction false} DistinctIffCounts(names: seq<string>)
    ensures AllDistinct(names) <==> forall name :: multiset(names)[name] <= 1
  {
    if names != [] {
      var front, last := names[..|names| - 1], names[|names| - 1];
      assert names == front + [last];
      DistinctIffCounts(front);
      assert multiset(names) == multiset(front) + multiset{last};
      if AllDistinct(names) {
        assert AllDistinct(front);
        assert last !in front;
      } else if AllDistinct(front) {
        assert last in front;
        assert multiset(names)[last] >= 2;
      } else {
        var name :| multiset(front)[name] > 1;
        assert multiset(names)[name] > 1;
      }
    }
  }

  /** Taking one of each away leaves something exactly when there are duplicates. */
  lemma {:induction false} NoDuplicatesIff(names: seq<string>)
    ensures Subtract(names, Uniq(names)) == [] <==> AllDistinct(names)
  {
    hide Subtract, Uniq, AllDistinct;
    SubtractCounts(names, Uniq(names));
    UniqCounts(names);
    DistinctIffCounts(names);
    var left := multiset(Subtract(names, Uniq(names)));
    assert forall name :: left[name] == multiset(names)[name] - multiset(Uniq(names))[name];
    if Subtract(names, Uniq(names)) != [] {
      assert left[Subtract(names, Uniq(names))[0]] > 0;
    }
  }

  /** Trimming takes away the blanks at both ends and nothing else. */
  lemma TrimIs(s: string) returns (front: string, back: string)
    ensures s == front + Trim(s) + back && AllSpace(front) && AllSpace(back)
    ensures Trim(s) != "" ==> !IsSpace(Trim(s)[0]) && !IsSpace(Trim(s)[|Trim(s)| - 1])
  {
    front := TrimLeftIs(s);
    back := TrimRightIs(TrimLeft(s));
    assert Trim(s) != "" ==> Trim(s)[0] == TrimLeft(s)[0];
  }

  lemma {:induction false} TrimLeftIs(s: string) returns (front: string)
    ensures s == front + TrimLeft(s) && AllSpace(front)
    ensures TrimLeft(s) != "" ==> !IsSpace(TrimLeft(s)[0])
  {
    if s != [] && IsSpace(s[0]) {
      var rest := TrimLeftIs(s[1..]);
      front := [s[0]] + rest;
      assert s == [s[0]] + s[1..];
    } else {
      front := "";
    }
  }

  lemma {:induction false} TrimRightIs(s: string) returns (back: string)
    ensures s == TrimRight(s) + back && AllSpace(back)
    ensures TrimRight(s) != "" ==> !IsSpace(TrimRight(s)[|TrimRight(s)| - 1])
  {
    hide IsSpace;
    if s != [] && IsSpace(s[|s| - 1]) {
      var rest := TrimRightIs(s[..|s| - 1]);
      back := rest + [s[|s| - 1]];
      assert s == s[..|s| - 1] + [s[|s| - 1]];
    } else {
      back := "";
    }
  }

  /** Which names are identifiers, by the codes of their characters. */
  lemma IdentifierIs(s: string)
    ensures IsIdentifier(s) <==>
      && s != "" && (97 <= s[0] as int <= 122 || s[0] as int == 95)
      && forall i :: 0 <= i < |s| ==>
           var c := s[i] as int;
           97 <= c <= 122 || 65 <= c <= 90 || 48 <= c <= 57 || c == 95
  {
  }

  // Which errors are reported.

  lemma {:induction false} NameErrorsAre(specs: seq<FieldSpec>, e: SpecError)
    ensures e in NameErrors(specs) <==> exists i :: 0 <= i < |specs| && NameError(Trim(specs[i].name)) == Some(e)
  {
    hide Trim, NameError;
    if specs != [] {
      NameErrorsAre(specs[1..], e);
      assert forall i :: 1 <= i < |specs| ==> specs[i] == specs[1..][i - 1];
    }
  }

  lemma {:induction false} OverlapErrorsAre(sorted: seq<FieldSpec>, previous: Option<FieldSpec>, e: SpecError)
    ensures e in OverlapErrors(sorted, previous) <==>
      || (previous.Some? && sorted != [] && OverlapError(previous.value, sorted[0], e))
      || exists i :: 1 <= i < |sorted| && OverlapError(sorted[i - 1], sorted[i], e)
  {
    hide OverlapError;
    if sorted != [] {
      OverlapErrorsAre(sorted[1..], Some(sorted[0]), e);
      assert forall i :: 1 <= i < |sorted| ==> sorted[i] == sorted[1..][i - 1];
      OverlapReported(sorted, previous, e);
    }
  }

  lemma {:induction false} OverlapReported(sorted: seq<FieldSpec>, previous: Option<FieldSpec>, e: SpecError)
    requires sorted != []
    ensures e in OverlapErrors(sorted, previous) <==>
      (previous.Some? && OverlapError(previous.value, sorted[0], e)) || e in OverlapErrors(sorted[1..], Some(sorted[0]))
  {
  }

  /** The error for a field that starts before the previous one has ended. */
  predicate OverlapError(previous: FieldSpec, s: FieldSpec, e: SpecError) {
    previous.offset + previous.size > s.offset && e == FieldsOverlap(previous.name, s.name, s.offset)
  }

  predicate Repeated(names: seq<string>, name: string) {
    exists i, j :: 0 <= i < j < |names| && names[i] == name && names[j] == name
  }

  lemma {:induction false} RepeatedCounts(names: seq<string>, name: string)
    ensures Repeated(names, name) <==> multiset(names)[name] >= 2
    ensures name in names <==> multiset(names)[name] >= 1
  {
    if names != [] {
      var front, last := names[..|names| - 1], names[|names| - 1];
      assert names == front + [last];
      RepeatedCounts(front, name);
      assert multiset(names) == multiset(front) + multiset{last};
      if Repeated(front, name) {
        var i, j :| 0 <= i < j < |front| && front[i] == name && front[j] == name;
        assert names[i] == name && names[j] == name;
      } else if name in front && name == last {
        var i :| 0 <= i < |front| && front[i] == name;
        assert names[i] == name && names[|names| - 1] == name;
      }
    }
  }

  /** The duplicates are the names that occur more than once, each listed once. */
  lemma {:induction false} DuplicatesAre(names: seq<string>)
    ensures var duplicates := Uniq(Subtract(names, Uniq(names)));
      AllDistinct(duplicates) && forall name :: name in duplicates <==> Repeated(names, name)
  {
    hide Subtract, Uniq, Repeated, AllDistinct;
    var left := Subtract(names, Uniq(names));
    SubtractCounts(names, Uniq(names));
    UniqCounts(names);
    UniqCounts(left);
    DistinctIffCounts(Uniq(left));
    forall name
      ensures name in Uniq(left) <==> Repeated(names, name)
    {
      RepeatedCounts(names, name);
      RepeatedCounts(left, name);
      RepeatedCounts(Uniq(left), name);
    }
  }

  /** What is wrong with a specification where an error is reported. */
  ghost predicate IsWrong(specs: seq<FieldSpec>, e: SpecError) {
    var names, sorted := TrimmedNames(specs), SortBy(SpecOffset, specs);
    match e
    case NoFields => specs == []
    case EmptyName => "" in names
    case InvalidName(name) => name in names && name != "" && !IsIdentifier(name)
    case NameReserved(name) => name in names && name in RESERVED_FIELDS
    case DuplicateNames(duplicates) => duplicates != [] && duplicates == Uniq(Subtract(names, Uniq(names)))
    case FieldsOverlap(_, _, _) => exists i :: 1 <= i < |sorted| && OverlapError(sorted[i - 1], sorted[i], e)
  }

  lemma {:induction false} WrongName(specs: seq<FieldSpec>, e: SpecError)
    ensures e in NameErrors(specs) <==> (e.EmptyName? || e.InvalidName? || e.NameReserved?) && IsWrong(specs, e)
  {
    NameErrorsAre(specs, e);
    NameInNames(specs, e);
    ReservedAreIdentifiers();
    hide Trim, Uniq, Subtract, SortBy, NameErrors, IsIdentifier, TrimmedNames;
    match e
    case EmptyName =>
      assert NameError("") == Some(e);
    case InvalidName(name) =>
      assert NameError(name) == Some(e) <==> name != "" && !IsIdentifier(name);
    case NameReserved(name) =>
      assert NameError(name) == Some(e) <==> name in RESERVED_FIELDS;
    case _ =>
  }

  lemma WrongDuplicates(specs: seq<FieldSpec>, e: SpecError)
    ensures e in DuplicateErrors(specs) <==> e.DuplicateNames? && IsWrong(specs, e)
  {
    hide Trim, Uniq, Subtract, SortBy, IsIdentifier, TrimmedNames;
    UniqEmptyIff(Subtract(TrimmedNames(specs), Uniq(TrimmedNames(specs))));
  }

  lemma {:induction false} WrongOffsets(specs: seq<FieldSpec>, e: SpecError)
    ensures e in OverlapErrors(SortBy(SpecOffset, specs), None) <==> e.FieldsOverlap? && IsWrong(specs, e)
  {
    hide Trim, Uniq, Subtract, SortBy, IsIdentifier, TrimmedNames, OverlapErrors;
    OverlapErrorsAre(SortBy(SpecOffset, specs), None, e);
  }

  /** An error is reported exactly if that is wrong, for each kind of error. */
  lemma ErrorIff(specs: seq<FieldSpec>, e: SpecError)
    ensures e in ValidateFields(specs) <==> IsWrong(specs, e)
  {
    WrongName(specs, e);
    WrongDuplicates(specs, e);
    WrongOffsets(specs, e);
    NothingToReport();
    hide IsWrong;
    if specs == [] {
      NothingWrongHere(e);
    } else {
      SomeFields(specs);
    }
  }

  lemma NothingWrongHere(e: SpecError)
    ensures IsWrong([], e) <==> e == NoFields
  {
    NothingToReport();
    hide Trim, Uniq, Subtract, SortBy, IsIdentifier, TrimmedNames;
    if e.DuplicateNames? {
      UniqEmptyIff([]);
    }
  }

  lemma SomeFields(specs: seq<FieldSpec>)
    requires specs != []
    ensures !IsWrong(specs, NoFields)
  {
  }

  lemma NothingToReport()
    ensures TrimmedNames([]) == [] && Subtract([], Uniq([])) == [] && SortBy(SpecOffset, []) == []
  {
  }

  lemma ReservedAreIdentifiers()
    ensures forall name :: name in RESERVED_FIELDS ==> name != "" && IsIdentifier(name)
  {
  }

  lemma {:induction false} UniqEmptyIff(names: seq<string>)
    ensures Uniq(names) == [] <==> names == []
  {
    UniqCounts(names);
    if names != [] {
      assert multiset(Uniq(names))[names[0]] == 1;
    }
  }

  lemma NameInNames(specs: seq<FieldSpec>, e: SpecError)
    ensures (exists i :: 0 <= i < |specs| && NameError(Trim(specs[i].name)) == Some(e))
        <==> exists name :: name in TrimmedNames(specs) && NameError(name) == Some(e)
  {
    hide Trim, NameError;
    var names := TrimmedNames(specs);
    assert forall i :: 0 <= i < |specs| ==> names[i] == Trim(specs[i].name) && names[i] in names;
  }

  lemma {:induction false} NoNameErrorsIff(specs: seq<FieldSpec>)
    ensures NameErrors(specs) == [] <==> forall i :: 0 <= i < |specs| ==> NameError(Trim(specs[i].name)).None?
  {
    hide Trim, NameError;
    if specs != [] {
      NoNameErrorsIff(specs[1..]);
      assert forall i :: 1 <= i < |specs| ==> specs[i] == specs[1..][i - 1];
    }
  }

  lemma {:induction false} NoOverlapsIff(sorted: seq<FieldSpec>, previous: Option<FieldSpec>)
    ensures OverlapErrors(sorted, previous) == [] <==>
      && (previous.Some? && sorted != [] ==> previous.value.offset + previous.value.size <= sorted[0].offset)
      && forall i :: 1 <= i < |sorted| ==> sorted[i - 1].offset + sorted[i - 1].size <= sorted[i].offset
  {
    if sorted != [] {
      NoOverlapsIff(sorted[1..], Some(sorted[0]));
      assert forall i :: 1 <= i < |sorted| ==> sorted[i] == sorted[1..][i - 1];
    }
  }

  /**
   * A specification is valid exactly if it has fields, usable distinct names, and no field that starts before
   * the one in front of it has ended.
   */
  lemma {:induction false} ValidIff(specs: seq<FieldSpec>)
    ensures var names, sorted := TrimmedNames(specs), SortBy(SpecOffset, specs);
      ValidateFields(specs) == [] <==>
        && specs != [] && AllDistinct(names)
        && (forall i :: 0 <= i < |names| ==> IsIdentifier(names[i]) && names[i] !in RESERVED_FIELDS)
        && forall i :: 1 <= i < |sorted| ==> sorted[i - 1].offset + sorted[i - 1].size <= sorted[i].offset
  {
    hide Trim, Uniq, Subtract, SortBy, NameErrors, OverlapErrors, IsIdentifier, AllDistinct;
    var names := TrimmedNames(specs);
    NoDuplicatesIff(names);
    NoNameErrorsIff(specs);
    NoOverlapsIff(SortBy(SpecOffset, specs), None);
    assert forall i :: 0 <= i < |specs| ==> names[i] == Trim(specs[i].name);
    NotEmpty();
  }

  lemma NotEmpty()
    ensures !IsIdentifier("")
  {
  }
}
