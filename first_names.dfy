/**
  The firstName tagging scheme: a second table of labels with a looser name
  grammar, no protected names and no scopes, granted to and stripped from
  entities exactly as roles are.
*/
module FirstNames {
  import opened Wrappers
  import opened Membership
  import opened Store
  import NamePattern
  import RoleRules

  /** A firstName definition as a dictionary: `name` and `managed_by_auth` may be missing. */
  datatype FirstNameDef = FirstNameDef(name: Option<string>, managedByAuth: Option<bool>)

  // ----- names -----

  function Letter(c: char): bool { 'a' <= c <= 'z' || 'A' <= c <= 'Z' }

  function FirstNameFirst(c: char): bool { Letter(c) || c == ' ' }

  function FirstNameMiddle(c: char): bool {
    Letter(c) || '0' <= c <= '9' || c == '-' || c == '_' || c == '~' || c == '.' || c == ' '
  }

  function FirstNameLast(c: char): bool { Letter(c) || '0' <= c <= '9' || c == ' ' }

  /** `_validate_firstName_name`: the compiled pattern
      `^[a-zA-Z ][a-zA-Z0-9\-_~\. ]{1,253}[a-zA-Z0-9 ]$`. */
  function ValidateFirstName(name: string): Outcome<Error> {
    if NamePattern.Matches(name, FirstNameFirst, FirstNameMiddle, FirstNameLast) then Pass else Fail(InvalidName(name))
  }

  /** A firstName as the pattern has it: 3 to 255 characters; a letter of either
      case or a space first; a letter, digit or space last; letters, digits, spaces
      and `-_~.` in between. */
  ghost predicate FirstNameRule(s: string) {
    && 3 <= |s| <= 255
    && FirstNameFirst(s[0])
    && FirstNameLast(s[|s| - 1])
    && forall i :: 0 < i < |s| - 1 ==> FirstNameMiddle(s[i])
  }

  /** A firstName is accepted exactly when it follows the rule, possibly with one
      trailing newline (Python's `$`); anything else raises InvalidNameError. */
  lemma ValidateFirstNameIff(s: string)
    ensures ValidateFirstName(s) == Pass <==>
      FirstNameRule(s) || (|s| > 0 && s[|s| - 1] == '\n' && FirstNameRule(s[..|s| - 1]))
    ensures ValidateFirstName(s) != Pass ==> ValidateFirstName(s) == Fail(InvalidName(s))
  {
    NamePattern.MatchesIff(s, FirstNameFirst, FirstNameMiddle, FirstNameLast);
  }

  /** The firstName grammar is looser than the role-name grammar: every valid role
      name is a valid firstName. */
  lemma RoleNamesAreFirstNames(s: string)
    ensures RoleRules.ValidateRoleName(s) == Pass ==> ValidateFirstName(s) == Pass
  {
    RoleRules.ValidateRoleNameIff(s);
    ValidateFirstNameIff(s);
  }

  /** Mixed case is accepted, and so are names that start or end with a space, or
      are only spaces, although the error message asks for a leading letter;
      short names, a leading digit and a tab are refused. */
  lemma FirstNameExamples()
    ensures ValidateFirstName("Ann") == Pass
    ensures ValidateFirstName(" ab") == Pass && ValidateFirstName("ab ") == Pass
    ensures ValidateFirstName("   ") == Pass
    ensures ValidateFirstName("ab") != Pass && ValidateFirstName("1ab") != Pass
    ensures ValidateFirstName("a\tb") != Pass
  {
    assert FirstNameRule("Ann");
    ValidateFirstNameIff("Ann");
    assert FirstNameRule(" ab");
    ValidateFirstNameIff(" ab");
    assert FirstNameRule("ab ");
    ValidateFirstNameIff("ab ");
    assert FirstNameRule("   ");
    ValidateFirstNameIff("   ");
    ValidateFirstNameIff("ab");
    ValidateFirstNameIff("1ab");
    assert !FirstNameMiddle("a\tb"[1]);
    ValidateFirstNameIff("a\tb");
  }

  // ----- create_firstName and delete_firstName -----

  /** `create_firstName`: a name is required and must be valid; an absent name is
      inserted, an existing row is returned as it is. `reset` is not used. */
  function CreateFirstNameResult(table: map<string, FirstName>, d: FirstNameDef, reset: bool): Result<FirstName, Error> {
    if d.name.None? then Failure(MissingName)
    else if ValidateFirstName(d.name.value).Fail? then Failure(InvalidName(d.name.value))
    else if d.name.value in table then Success(table[d.name.value])
    else Success(FirstName(d.name.value, d.managedByAuth.GetOr(false)))
  }

  /** Creating a firstName twice stores and returns the same row as creating it
      once, whatever either call says about `managed_by_auth` or a reset. */
  lemma CreateFirstNameIdempotent(table: map<string, FirstName>, d: FirstNameDef, d': FirstNameDef, reset: bool, reset': bool)
    requires forall n :: n in table ==> table[n].name == n
    requires d'.name == d.name
    ensures var r := CreateFirstNameResult(table, d, reset);
      r.Success? ==>
        && r.value.name == d.name.value
        && CreateFirstNameResult(table[r.value.name := r.value], d', reset') == r
        && table[r.value.name := r.value][r.value.name := r.value] == table[r.value.name := r.value]
  {
  }

  /** An existing firstName is never modified, and a new one is flagged as the
      definition says, false by default. */
  lemma CreateFirstNameRow(table: map<string, FirstName>, d: FirstNameDef, reset: bool)
    requires d.name.Some? && ValidateFirstName(d.name.value) == Pass
    ensures d.name.value in table ==> CreateFirstNameResult(table, d, reset) == Success(table[d.name.value])
    ensures d.name.value !in table ==> CreateFirstNameResult(table, d, reset).value.managedByAuth == d.managedByAuth.GetOr(false)
  {
  }

  method CreateFirstName(db: Database, d: FirstNameDef, reset: bool) returns (res: Result<FirstName, Error>)
    requires db.Valid()
    modifies db`firstNames
    ensures db.Valid()
    ensures res == CreateFirstNameResult(old(db.firstNames), d, reset)
    ensures db.firstNames == if res.Success? then old(db.firstNames)[res.value.name := res.value] else old(db.firstNames)
  {
    if d.name.None? {
      return Failure(MissingName);
    }
    var name := d.name.value;
    var valid := ValidateFirstName(name);
    if valid.Fail? {
      return Failure(valid.error);
    }
    if name in db.firstNames {
      return Success(db.firstNames[name]);
    }
    var row := FirstName(name, d.managedByAuth.GetOr(false));
    db.firstNames := db.firstNames[name := row];
    return Success(row);
  }

  /** `delete_firstName`: no name is protected; an absent one raises KeyError. */
  method DeleteFirstName(db: Database, name: string) returns (res: Outcome<Error>)
    requires db.Valid()
    modifies db`firstNames
    ensures db.Valid()
    ensures res == (if name in old(db.firstNames) then Pass else Fail(NotFound(name)))
    ensures db.firstNames == old(db.firstNames) - {name}
  {
    if name in db.firstNames {
      db.firstNames := db.firstNames - {name};
      return Pass;
    }
    return Fail(NotFound(name));
  }

  // ----- grant, strip, update, get -----

  /** `grant_firstName` behind its resolution decorator. */
  method GrantFirstName(db: Database, e: Entity, firstName: Ref, firstNamename: Option<string>, managed: bool) returns (res: Outcome<Error>)
    modifies db`firstNameRows, e`firstNames
    ensures var r := Resolve(db.firstNames, firstName, firstNamename);
      && (r.Failure? ==> res == Fail(r.error) && e.firstNames == old(e.firstNames) && db.firstNameRows == old(db.firstNameRows))
      && (r.Success? ==> res == Pass && FirstNameHeld(db, e) == Grant(old(FirstNameHeld(db, e)), r.value, managed, db.config.firstNameRowDefault))
    ensures RowsUnchangedExcept(old(db.firstNameRows), db.firstNameRows, e)
  {
    var resolved := Resolve(db.firstNames, firstName, firstNamename);
    if resolved.Failure? {
      return Fail(resolved.error);
    }
    var r := resolved.value;
    if r !in e.firstNames {
      e.firstNames := e.firstNames + [r];
      var rows := RowsOf(db.firstNameRows, e)[r := db.config.firstNameRowDefault];
      if managed {
        rows := rows[r := true];
      }
      RowsUpdate(db.firstNameRows, e, rows);
      db.firstNameRows := db.firstNameRows[e := rows];
    }
    return Pass;
  }

  /** `strip_firstName` behind its resolution decorator; `managed` has no effect. */
  method StripFirstName(db: Database, e: Entity, firstName: Ref, firstNamename: Option<string>, managed: bool) returns (res: Outcome<Error>)
    modifies db`firstNameRows, e`firstNames
    ensures var r := Resolve(db.firstNames, firstName, firstNamename);
      && (r.Failure? ==> res == Fail(r.error) && e.firstNames == old(e.firstNames) && db.firstNameRows == old(db.firstNameRows))
      && (r.Success? ==> res == Pass && FirstNameHeld(db, e) == Strip(old(FirstNameHeld(db, e)), r.value))
    ensures RowsUnchangedExcept(old(db.firstNameRows), db.firstNameRows, e)
  {
    var resolved := Resolve(db.firstNames, firstName, firstNamename);
    if resolved.Failure? {
      return Fail(resolved.error);
    }
    var r := resolved.value;
    if r in e.firstNames {
      e.firstNames := Removed(e.firstNames, r);
      RowsUpdate(db.firstNameRows, e, RowsOf(db.firstNameRows, e) - {r});
      db.firstNameRows := db.firstNameRows[e := RowsOf(db.firstNameRows, e) - {r}];
    }
    return Pass;
  }

  /** `update_firstNames`: grants in order, stopping at the first unknown name and
      keeping the grants made before it. */
  method UpdateFirstNames(db: Database, e: Entity, firstNames: seq<string>) returns (res: Outcome<Error>)
    modifies db`firstNameRows, e`firstNames
    ensures var k := KnownPrefix(firstNames, db.firstNames.Keys);
      && FirstNameHeld(db, e) == GrantEach(old(FirstNameHeld(db, e)), firstNames[..k], db.config.firstNameRowDefault)
      && (res == Pass <==> k == |firstNames|)
      && (k < |firstNames| ==> res == Fail(Unresolved(Some(firstNames[k]))))
    ensures RowsUnchangedExcept(old(db.firstNameRows), db.firstNameRows, e)
  {
    var i := 0;
    while i < |firstNames|
      invariant 0 <= i <= |firstNames|
      invariant forall j :: 0 <= j < i ==> firstNames[j] in db.firstNames
      invariant FirstNameHeld(db, e) == GrantEach(old(FirstNameHeld(db, e)), firstNames[..i], db.config.firstNameRowDefault)
      invariant RowsUnchangedExcept(old(db.firstNameRows), db.firstNameRows, e)
    {
      res := GrantFirstName(db, e, NoRef, Some(firstNames[i]), false);
      if res.Fail? {
        KnownPrefixAt(firstNames, db.firstNames.Keys, i);
        return;
      }
      assert firstNames[..i + 1][..i] == firstNames[..i];
      i := i + 1;
    }
    KnownPrefixAt(firstNames, db.firstNames.Keys, i);
    assert firstNames[..i] == firstNames;
    return Pass;
  }

  /** `get_firstNames_for`: a copy of the entity's list, in its order. */
  method GetFirstNamesFor(e: Entity) returns (firstNames: seq<string>)
    ensures firstNames == e.firstNames
  {
    firstNames := [];
    firstNames := firstNames + e.firstNames;
  }
}
