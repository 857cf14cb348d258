/**
What `validate_contract` (crates/hyperion-app/src/contract.rs) accepts, and how far that goes toward a
contract that survives its own encoding.
*/
module ContractRules {
  import opened Common
  import opened Text
  import opened ContractCodec

  datatype ContractError =
    | EmptyName | InvalidName(appName: string) | MissingGoal | MissingOwner
    | EmptyFieldName | InvalidFieldName(field: string) | DuplicateField(field: string)
    | MissingDescription(field: string) | EmptyChoice(field: string)

  const MaxAppName: nat := 64
  const MaxUserId: nat := 64

  predicate NameChars(s: string) {
    forall i | 0 <= i < |s| :: IsLowerOrDigit(s[i]) || s[i] == '-' || s[i] == '_'
  }

  predicate FieldNameChars(s: string) {
    forall i | 0 <= i < |s| :: IsLowerOrDigit(s[i]) || s[i] == '_'
  }

  /** The characters of names, field names and users, and how long names may be. */
  lemma NamesAre(s: string)
    ensures NameChars(s) <==>
      forall i | 0 <= i < |s| :: 'a' <= s[i] <= 'z' || '0' <= s[i] <= '9' || s[i] in {'-', '_'}
    ensures FieldNameChars(s) <==> forall i | 0 <= i < |s| :: 'a' <= s[i] <= 'z' || '0' <= s[i] <= '9' || s[i] == '_'
    ensures LegalUserId(s) <==>
      && 1 <= |s| <= 64 && s[0] !in {'-', '.'}
      && forall i | 0 <= i < |s| :: 'a' <= s[i] <= 'z' || '0' <= s[i] <= '9' || s[i] in {'-', '_', '.'}
    ensures AppNameFault(s).None? <==> 1 <= |s| <= 64 && s[0] != '-' && NameChars(s)
  {}

  function AppNameFault(name: string): Option<ContractError> {
    if name == [] then Some(EmptyName)
    else if |name| > MaxAppName || name[0] == '-' || !NameChars(name) then Some(InvalidName(name))
    else None
  }

  /** `UserId::new` */
  predicate LegalUserId(s: string) {
    && s != [] && |s| <= MaxUserId && s[0] != '-' && s[0] != '.'
    && forall i | 0 <= i < |s| :: IsLowerOrDigit(s[i]) || s[i] == '-' || s[i] == '_' || s[i] == '.'
  }

  predicate NameTaken(fields: seq<InputField>, i: nat)
    requires i < |fields|
  {
    exists j | 0 <= j < i :: fields[j].name == fields[i].name
  }

  /** The first thing wrong with a field, in the order the source looks. */
  function FaultOf(f: InputField, nameTaken: bool): Option<ContractError> {
    if f.name == [] then Some(EmptyFieldName)
    else if !FieldNameChars(f.name) then Some(InvalidFieldName(f.name))
    else if nameTaken then Some(DuplicateField(f.name))
    else if Trim(f.description) == [] then Some(MissingDescription(f.name))
    else if f.kind == Choice([]) then Some(EmptyChoice(f.name))
    else None
  }

  function FieldFault(fields: seq<InputField>, i: nat): Option<ContractError>
    requires i < |fields|
  {
    FaultOf(fields[i], NameTaken(fields, i))
  }

  function HeadFault(c: AppContract): Option<ContractError> {
    if AppNameFault(c.name).Some? then AppNameFault(c.name)
    else if Trim(c.goal) == [] then Some(MissingGoal)
    else if !LegalUserId(Trim(c.owner)) then Some(MissingOwner)
    else None
  }

  /** Answerable: well named, with a goal and an owner, and inputs distinctly named and described. */
  ghost predicate Answerable(c: AppContract) {
    && c.name != [] && |c.name| <= MaxAppName && c.name[0] != '-' && NameChars(c.name)
    && Trim(c.goal) != [] && LegalUserId(Trim(c.owner))
    && (forall i, j | 0 <= i < j < |c.fields| :: c.fields[i].name != c.fields[j].name)
    && (forall i | 0 <= i < |c.fields| ::
          var f := c.fields[i];
          f.name != [] && FieldNameChars(f.name) && Trim(f.description) != [] && f.kind != Choice([]))
  }

  /** `validate_contract`: it reports the earliest fault, and none exactly for answerable contracts. */
  method ValidateContract(c: AppContract) returns (r: Option<ContractError>)
    ensures r.None? <==> Answerable(c)
    ensures HeadFault(c).Some? ==> r == HeadFault(c)
    ensures HeadFault(c).None? && r.Some? ==>
      exists i | 0 <= i < |c.fields| ::
        && r == FieldFault(c.fields, i)
        && forall j | 0 <= j < i :: FieldFault(c.fields, j).None?
    ensures r.Some? ==> FaultMeans(c, r.value)
  {
    hide Trim, FaultMeans;
    HeadFaultMeans(c);
    var head := HeadFault(c);
    if head.Some? {
      return head;
    }
    var seen: set<string> := {};
    for i := 0 to |c.fields|
      invariant seen == set j | 0 <= j < i :: c.fields[j].name
      invariant forall j | 0 <= j < i :: FieldFault(c.fields, j).None?
    {
      var f := c.fields[i];
      assert (exists j | 0 <= j < i :: c.fields[j].name == f.name) <==> f.name in seen;
      r := FaultOf(f, f.name in seen);
      assert r == FieldFault(c.fields, i);
      if r.Some? {
        FieldFaultMeans(c, i);
        return r;
      }
      seen := seen + {f.name};
    }
    r := None;
    FaultlessIsAnswerable(c);
  }

  lemma FaultlessIsAnswerable(c: AppContract)
    requires HeadFault(c).None? && forall i | 0 <= i < |c.fields| :: FieldFault(c.fields, i).None?
    ensures Answerable(c)
  {
    forall i, j | 0 <= i < j < |c.fields| ensures c.fields[i].name != c.fields[j].name {
      assert FieldFault(c.fields, j).None? && !NameTaken(c.fields, j);
    }
    forall i | 0 <= i < |c.fields| ensures
      var f := c.fields[i];
      f.name != [] && FieldNameChars(f.name) && Trim(f.description) != [] && f.kind != Choice([])
    {
      assert FieldFault(c.fields, i).None?;
    }
  }

  /** What each fault says about the contract it is reported for. */
  ghost predicate FaultMeans(c: AppContract, e: ContractError) {
    match e
    case EmptyName => c.name == []
    case InvalidName(name) => name == c.name != [] && (|name| > 64 || name[0] == '-' || !NameChars(name))
    case MissingGoal => Blank(c.goal)
    case MissingOwner => forall a, b, owner | c.owner == a + owner + b && Blank(a) && Blank(b) :: !LegalUserId(owner)
    case EmptyFieldName => exists i :: 0 <= i < |c.fields| && c.fields[i].name == []
    case InvalidFieldName(name) =>
      exists i :: 0 <= i < |c.fields| && c.fields[i].name == name != [] && !FieldNameChars(name)
    case DuplicateField(name) => exists i, j :: 0 <= i < j < |c.fields| && c.fields[i].name == c.fields[j].name == name
    case MissingDescription(name) =>
      exists i :: 0 <= i < |c.fields| && c.fields[i].name == name && Blank(c.fields[i].description)
    case EmptyChoice(name) =>
      exists i :: 0 <= i < |c.fields| && c.fields[i].name == name && c.fields[i].kind == Choice([])
  }

  lemma TrimmedAway(s: string)
    ensures Trim(s) == [] <==> Blank(s)
  {
    hide Trim, Blank;
    if Trim(s) == [] {
      var a, b := TrimParts(s);
      BlankJoin(a, b);
      assert s == a + b;
    }
    if Blank(s) {
      assert s == s + [] + [];
      BlankJoin([], []);
      TrimIs(s, [], []);
    }
  }

  lemma BlankJoin(a: string, b: string)
    ensures Blank(a) && Blank(b) ==> Blank(a + b)
    ensures Blank([])
  {
    hide IsWhitespace;
  }

  lemma LegalIsBare(s: string)
    requires LegalUserId(s)
    ensures Bare(s)
  {}

  lemma OwnerMeans(owner: string, a: string, core: string, b: string)
    requires owner == a + core + b && Blank(a) && Blank(b) && LegalUserId(core)
    ensures LegalUserId(Trim(owner))
  {
    hide Trim, Blank, LegalUserId;
    LegalIsBare(core);
    TrimIs(a, core, b);
  }

  /** Every fault the validation reports is there. */
  lemma HeadFaultMeans(c: AppContract)
    ensures HeadFault(c).Some? ==> FaultMeans(c, HeadFault(c).value)
  {
    hide Trim, LegalUserId;
    TrimmedAway(c.goal);
    forall a, b, owner | c.owner == a + owner + b && Blank(a) && Blank(b) && LegalUserId(owner)
      ensures LegalUserId(Trim(c.owner))
    {
      OwnerMeans(c.owner, a, owner, b);
    }
  }

  lemma FieldFaultMeans(c: AppContract, i: nat)
    requires i < |c.fields|
    ensures FieldFault(c.fields, i).Some? ==> FaultMeans(c, FieldFault(c.fields, i).value)
  {
    hide Trim;
    TrimmedAway(c.fields[i].description);
  }

  predicate HasEmptyOption(c: AppContract) {
    exists i | 0 <= i < |c.fields| :: c.fields[i].kind.Choice? && [] in c.fields[i].kind.options
  }

  lemma {:induction false} TrimOfNothing(s: string)
    requires Trim(s) != []
    ensures s != []
  {}

  /**
   * Validation is not quite enough for the round trip: a validated contract decodes from its own
   * encoding exactly when none of its choices offers an empty option.
   */
  lemma ValidatedRoundTrip(c: AppContract)
    requires Answerable(c)
    ensures Decode(Encode(c)) == Some(c) <==> !HasEmptyOption(c)
  {
    hide Encode, Decode;
    RoundTrip(c);
    TrimOfNothing(c.owner);
    if !HasEmptyOption(c) {
      forall i | 0 <= i < |c.fields| ensures FieldEncodable(c.fields[i]) {}
    } else {
      var i :| 0 <= i < |c.fields| && c.fields[i].kind.Choice? && [] in c.fields[i].kind.options;
      assert !FieldEncodable(c.fields[i]);
    }
  }

  /** Such contracts exist: this one passes validation, is signed, and never decodes. */
  lemma ValidatedButUndecodable()
    ensures
      var c := AppContract("pick", "ann", false, false, "g", [InputField("size", Choice(["s", []]), "d", true)]);
      Answerable(c) && Decode(Encode(c)) == None
  {
    hide Encode, Decode;
    var f := InputField("size", Choice(["s", []]), "d", true);
    var c := AppContract("pick", "ann", false, false, "g", [f]);
    assert Trim("g") == "g" && Trim("d") == "d";
    assert Trim("ann") == "ann";
    RoundTrip(c);
    assert ["s", []][1] == [];
    assert !FieldEncodable(c.fields[0]);
  }
}
