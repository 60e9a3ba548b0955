/**
  The role engine's operations on the database and on entities: role lookup for
  an entity, the scope union, creating and deleting roles, granting and stripping
  them, and the default-role policy with its sweep. Each method is proved against
  the functions of RoleRules and Membership, whose properties are proved there.
*/
module Names {
  import opened Wrappers
  import opened Membership
  import opened Store
  import opened RoleRules

  // ----- get_names_for and names_to_scopes -----

  /** The roles of the groups, group after group. */
  ghost function GroupRoleNames(groups: seq<Entity>): seq<string>
    reads groups
    decreases |groups|
  {
    if groups == [] then [] else GroupRoleNames(groups[..|groups| - 1]) + groups[|groups| - 1].names
  }

  /** A role comes from the groups exactly when one of the groups holds it. */
  lemma {:induction false} GroupRoleNamesMembers(groups: seq<Entity>, x: string)
    ensures x in GroupRoleNames(groups) <==> exists j :: 0 <= j < |groups| && x in groups[j].names
    decreases |groups|
  {
    if groups != [] {
      var init := groups[..|groups| - 1];
      GroupRoleNamesMembers(init, x);
      assert forall j :: 0 <= j < |init| ==> init[j] == groups[j];
    }
  }

  /** `get_names_for`: the entity's own roles in order, then, for a user, each of
      its groups' roles in group order. */
  method GetNamesFor(e: Entity) returns (names: seq<string>)
    ensures names == e.names + (if e.kind == User then GroupRoleNames(e.groups) else [])
    ensures forall x :: x in names <==>
      x in e.names || (e.kind == User && exists j :: 0 <= j < |e.groups| && x in e.groups[j].names)
  {
    names := e.names;
    if e.kind == User {
      var i := 0;
      while i < |e.groups|
        invariant 0 <= i <= |e.groups|
        invariant names == e.names + GroupRoleNames(e.groups[..i])
      {
        assert e.groups[..i + 1][..i] == e.groups[..i];
        names := names + e.groups[i].names;
        i := i + 1;
      }
      assert e.groups[..|e.groups|] == e.groups;
    }
    forall x ensures x in names <==>
      x in e.names || (e.kind == User && exists j :: 0 <= j < |e.groups| && x in e.groups[j].names)
    {
      GroupRoleNamesMembers(e.groups, x);
    }
  }

  /** `names_to_scopes`: the union of the roles' scopes. */
  method NamesToScopes(roles: seq<Role>) returns (scopes: set<string>)
    ensures forall s :: s in scopes <==> exists i :: 0 <= i < |roles| && s in roles[i].scopes
  {
    scopes := {};
    for i := 0 to |roles|
      invariant forall s :: s in scopes <==> exists j :: 0 <= j < i && s in roles[j].scopes
    {
      scopes := scopes + (set s | s in roles[i].scopes);
    }
  }

  // ----- create_role and delete_role -----

  /** The loop in `create_role` that picks a built-in definition by name. */
  method FindDefaultRole(name: string) returns (found: Option<RoleDef>)
    ensures found.Some? <==> IsDefaultRoleName(name)
    ensures found.Some? ==> found.value in DefaultRoles() && found.value.name == Some(name)
  {
    var defaults := DefaultRoles();
    found := None;
    var i := 0;
    while i < |defaults|
      invariant 0 <= i <= |defaults|
      invariant forall j :: 0 <= j < i ==> defaults[j].name != Some(name)
    {
      if defaults[i].name == Some(name) {
        return Some(defaults[i]);
      }
      i := i + 1;
    }
  }

  /** The checks at the head of `create_role`; the admin definition is looked up
      in the built-in table as the source does. */
  method CheckRoleDefinition(d: RoleDef, knownScopes: set<string>) returns (res: Outcome<Error>)
    ensures res == CheckDefinition(d, knownScopes)
  {
    if d.name.None? {
      return Fail(MissingName);
    }
    var name := d.name.value;
    var valid := ValidateRoleName(name);
    if valid.Fail? {
      return valid;
    }
    if name == "admin" {
      var found := FindDefaultRole("admin");
      DefaultRoleNames("admin");
      var adminSpec := found.value;
      AdminDefinition(adminSpec);
      if d.description.Some? && d.description != adminSpec.description {
        return Fail(AdminOverride(Description));
      }
      if d.scopes.Some? && d.scopes != adminSpec.scopes {
        return Fail(AdminOverride(Scopes));
      }
    }
    if d.scopes.Some? && d.scopes.value != [] && !AllKnown(d.scopes.value, knownScopes) {
      return Fail(ScopeNotFound(name));
    }
    return Pass;
  }

  /**
    `create_role`: every check fails before the table is touched; then a new name
    is inserted and an existing row has each attribute reconciled.
  */
  method CreateRole(db: Database, d: RoleDef, reset: bool) returns (res: Result<Role, Error>)
    requires db.Valid()
    modifies db`roles
    ensures db.Valid()
    ensures res == CreateRoleResult(old(db.roles), d, reset, db.config)
    ensures db.roles == if res.Success? then old(db.roles)[res.value.name := res.value] else old(db.roles)
  {
    var checked := CheckRoleDefinition(d, db.config.knownScopes);
    if checked.Fail? {
      return Failure(checked.error);
    }
    var name := d.name.value;
    var cfg := db.config;
    var row: Role;
    if name !in db.roles {
      row := NewRole(name, d, cfg);
    } else {
      row := db.roles[name];
      var description := d.description.GetOr(cfg.descriptionDefault);
      if description != row.description && (reset || description != cfg.descriptionDefault) {
        row := row.(description := description);
      }
      var scopes := d.scopes.GetOr(cfg.scopesDefault);
      if scopes != row.scopes && (reset || scopes != cfg.scopesDefault) {
        row := row.(scopes := scopes);
      }
    }
    db.roles := db.roles[name := row];
    return Success(row);
  }

  /** `delete_role`: a built-in role is refused, an absent one is not found, any
      other is removed and nothing else in the table changes. */
  method DeleteRole(db: Database, name: string) returns (res: Outcome<Error>)
    requires db.Valid()
    modifies db`roles
    ensures db.Valid()
    ensures IsDefaultRoleName(name) ==> res == Fail(ProtectedRole(name))
    ensures !IsDefaultRoleName(name) && name !in old(db.roles) ==> res == Fail(NotFound(name))
    ensures res == Pass <==> !IsDefaultRoleName(name) && name in old(db.roles)
    ensures db.roles == if res == Pass then old(db.roles) - {name} else old(db.roles)
    ensures forall n :: n in old(db.roles) && IsDefaultRoleName(n) ==> n in db.roles
  {
    if IsDefaultRoleName(name) {
      return Fail(ProtectedRole(name));
    }
    if name in db.roles {
      db.roles := db.roles - {name};
      return Pass;
    }
    return Fail(NotFound(name));
  }

  // ----- grant_role and strip_role -----

  /**
    `grant_role` behind its resolution decorator: an unresolved role raises and
    changes nothing; otherwise a role not yet held is appended with a new
    association row, flagged when the grant is managed; a role already held
    changes nothing, its flag included.
  */
  method GrantRole(db: Database, e: Entity, role: Ref, rolename: Option<string>, managed: bool) returns (res: Outcome<Error>)
    modifies db`roleRows, e`names
    ensures var r := Resolve(db.roles, role, rolename);
      && (r.Failure? ==> res == Fail(r.error) && e.names == old(e.names) && db.roleRows == old(db.roleRows))
      && (r.Success? ==> res == Pass && RoleHeld(db, e) == Grant(old(RoleHeld(db, e)), r.value, managed, db.config.rowDefault))
    ensures RowsUnchangedExcept(old(db.roleRows), db.roleRows, e)
  {
    var resolved := Resolve(db.roles, role, rolename);
    if resolved.Failure? {
      return Fail(resolved.error);
    }
    var r := resolved.value;
    if r !in e.names {
      e.names := e.names + [r];
      var rows := RowsOf(db.roleRows, e)[r := db.config.rowDefault];
      if managed {
        rows := rows[r := true];
      }
      RowsUpdate(db.roleRows, e, rows);
      db.roleRows := db.roleRows[e := rows];
    }
    return Pass;
  }

  /** `strip_role` behind its resolution decorator: a held role is removed from
      the list, with its association row; otherwise nothing changes. `managed`
      has no effect. */
  method StripRole(db: Database, e: Entity, role: Ref, rolename: Option<string>, managed: bool) returns (res: Outcome<Error>)
    modifies db`roleRows, e`names
    ensures var r := Resolve(db.roles, role, rolename);
      && (r.Failure? ==> res == Fail(r.error) && e.names == old(e.names) && db.roleRows == old(db.roleRows))
      && (r.Success? ==> res == Pass && RoleHeld(db, e) == Strip(old(RoleHeld(db, e)), r.value))
    ensures RowsUnchangedExcept(old(db.roleRows), db.roleRows, e)
  {
    var resolved := Resolve(db.roles, role, rolename);
    if resolved.Failure? {
      return Fail(resolved.error);
    }
    var r := resolved.value;
    if r in e.names {
      e.names := Removed(e.names, r);
      RowsUpdate(db.roleRows, e, RowsOf(db.roleRows, e) - {r});
      db.roleRows := db.roleRows[e := RowsOf(db.roleRows, e) - {r}];
    }
    return Pass;
  }

  // ----- default roles -----

  /** `assign_default_names`, as DefaultRolesOutcome describes it. */
  method AssignDefaultNames(db: Database, e: Entity) returns (res: Outcome<Error>)
    modifies db`roleRows, e`names
    ensures (RoleHeld(db, e), res) == DefaultRolesOutcome(old(RoleHeld(db, e)), e.kind, e.admin, db.roles.Keys, db.config.rowDefault)
    ensures RowsUnchangedExcept(old(db.roleRows), db.roleRows, e)
  {
    res := Pass;
    if e.kind == Group {
      return;
    }
    if e.admin {
      res := GrantRole(db, e, NoRef, Some("admin"), false);
      if res.Fail? {
        return;
      }
    } else if "admin" in db.roles && "admin" in e.names {
      res := StripRole(db, e, NoRef, Some("admin"), false);
    }
    if e.kind == User {
      res := GrantRole(db, e, NoRef, Some("user"), false);
    }
  }

  /** `update_names`: grants the names in order and stops at the first one that
      does not exist, keeping the grants made before it. */
  method UpdateNames(db: Database, e: Entity, names: seq<string>) returns (res: Outcome<Error>)
    modifies db`roleRows, e`names
    ensures var k := KnownPrefix(names, db.roles.Keys);
      && RoleHeld(db, e) == GrantEach(old(RoleHeld(db, e)), names[..k], db.config.rowDefault)
      && (res == Pass <==> k == |names|)
      && (k < |names| ==> res == Fail(Unresolved(Some(names[k]))))
    ensures RowsUnchangedExcept(old(db.roleRows), db.roleRows, e)
  {
    var i := 0;
    while i < |names|
      invariant 0 <= i <= |names|
      invariant forall j :: 0 <= j < i ==> names[j] in db.roles
      invariant RoleHeld(db, e) == GrantEach(old(RoleHeld(db, e)), names[..i], db.config.rowDefault)
      invariant RowsUnchangedExcept(old(db.roleRows), db.roleRows, e)
    {
      res := GrantRole(db, e, NoRef, Some(names[i]), false);
      if res.Fail? {
        KnownPrefixAt(names, db.roles.Keys, i);
        return;
      }
      assert names[..i + 1][..i] == names[..i];
      i := i + 1;
    }
    KnownPrefixAt(names, db.roles.Keys, i);
    assert names[..i] == names;
    return Pass;
  }

  /** One entity of the sweep: the query selects it when it is of the swept kind
      and holds no role, and it is then assigned its default roles. */
  method SweepOne(db: Database, kind: Kind, x: Entity) returns (res: Outcome<Error>)
    requires kind != Group && kind != Service
    modifies db`roleRows, x`names
    ensures (RoleHeld(db, x), res) == SweepOutcome(old(RoleHeld(db, x)), x.kind, x.admin, kind, db.roles.Keys, db.config.rowDefault)
    ensures RowsUnchangedExcept(old(db.roleRows), db.roleRows, x)
  {
    res := Pass;
    if x.kind == kind && x.names == [] {
      res := AssignDefaultNames(db, x);
    }
  }

  /**
    `check_for_default_names`: nothing for groups and services; for any other
    kind, every entity of that kind holding no role gets its default roles. The
    first failing assignment stops the sweep, keeping the repairs before it.
  */
  method CheckForDefaultNames(db: Database, kind: Kind, population: seq<Entity>) returns (res: Outcome<Error>)
    requires forall i, j :: 0 <= i < j < |population| ==> population[i] != population[j]
    modifies db`roleRows, population
    ensures forall i :: 0 <= i < |population| ==>
      population[i].admin == old(population[i].admin) && population[i].firstNames == old(population[i].firstNames)
    ensures forall i :: 0 <= i < |population| ==>
      var x := population[i];
      var (h, o) := SweepOutcome(old(RoleHeld(db, x)), x.kind, x.admin, kind, db.roles.Keys, db.config.rowDefault);
      RoleHeld(db, x) == h || RoleHeld(db, x) == old(RoleHeld(db, x))
    ensures res == Pass <==> forall i :: 0 <= i < |population| ==>
      var x := population[i];
      SweepOutcome(old(RoleHeld(db, x)), x.kind, x.admin, kind, db.roles.Keys, db.config.rowDefault).1 == Pass
    ensures res == Pass ==> forall i :: 0 <= i < |population| ==>
      var x := population[i];
      RoleHeld(db, x) == SweepOutcome(old(RoleHeld(db, x)), x.kind, x.admin, kind, db.roles.Keys, db.config.rowDefault).0
    ensures db.roleRows - (set x | x in population) == old(db.roleRows) - (set x | x in population)
  {
    if kind == Group || kind == Service {
      return Pass;
    }
    var i := 0;
    while i < |population|
      invariant 0 <= i <= |population|
      invariant forall j :: 0 <= j < |population| ==>
        population[j].admin == old(population[j].admin) && population[j].firstNames == old(population[j].firstNames)
      invariant forall j :: i <= j < |population| ==> RoleHeld(db, population[j]) == old(RoleHeld(db, population[j]))
      invariant forall j :: 0 <= j < i ==>
        var x := population[j];
        (RoleHeld(db, x), Pass) == SweepOutcome(old(RoleHeld(db, x)), x.kind, x.admin, kind, db.roles.Keys, db.config.rowDefault)
      invariant db.roleRows - (set x | x in population) == old(db.roleRows) - (set x | x in population)
    {
      var x := population[i];
      label before:
      res := SweepOne(db, kind, x);
      forall j | 0 <= j < |population| && j != i
        ensures RoleHeld(db, population[j]) == old@before(RoleHeld(db, population[j]))
      {
        RowsOfOutside(old@before(db.roleRows), db.roleRows, x, population[j]);
      }
      RowsUnchangedWithin(old@before(db.roleRows), db.roleRows, x, set y | y in population);
      if res.Fail? {
        return;
      }
      i := i + 1;
    }
    return Pass;
  }
}
