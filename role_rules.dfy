/**
  The pure part of the role engine: the built-in role table, the role-name
  grammar, what `create_role` makes of a definition, and the default-role policy
  as a function of what an entity holds.
*/
module RoleRules {
  import opened Wrappers
  import opened Membership
  import opened Store
  import NamePattern

  /**
    A role definition as a dictionary: `name` may be missing; `description` may be
    missing or present with a null value; `scopes` may be missing or a list;
    `managed_by_auth` may be missing.
  */
  datatype RoleDef = RoleDef(
    name: Option<string>,
    description: Option<Option<string>>,
    scopes: Option<seq<string>>,
    managedByAuth: Option<bool>)

  // ----- the built-in roles -----

  const AdminDescription := "Elevated privileges (can do anything)"

  const AdminScopes: seq<string> := [
    "admin-ui", "admin:users", "admin:servers", "admin:services", "tokens",
    "admin:groups", "list:services", "read:services", "read:hub", "proxy",
    "shutdown", "access:services", "access:servers", "read:names",
    "read:metrics", "shares"
  ]

  function BuiltIn(name: string, description: string, scopes: seq<string>): RoleDef {
    RoleDef(Some(name), Some(Some(description)), Some(scopes), None)
  }

  /** `get_default_names`: the four built-in role definitions, in order. */
  function DefaultRoles(): seq<RoleDef> {
    [ BuiltIn("user", "Standard user privileges", ["self"]),
      BuiltIn("admin", AdminDescription, AdminScopes),
      BuiltIn("server", "Post activity only", ["users:activity!user", "access:servers!server"]),
      BuiltIn("token", "Token with same permissions as its owner", ["inherit"]) ]
  }

  /** Some built-in definition carries this name. */
  predicate IsDefaultRoleName(name: string) {
    exists i :: 0 <= i < |DefaultRoles()| && DefaultRoles()[i].name == Some(name)
  }

  lemma DefaultRoleNames(name: string)
    ensures IsDefaultRoleName(name) <==> name in {"user", "admin", "server", "token"}
  {
    if name in {"user", "admin", "server", "token"} {
      var i := if name == "user" then 0 else if name == "admin" then 1 else if name == "server" then 2 else 3;
      assert DefaultRoles()[i].name == Some(name);
    }
  }

  /** The built-in definition named admin carries the admin description and scopes. */
  lemma AdminDefinition(r: RoleDef)
    requires r in DefaultRoles() && r.name == Some("admin")
    ensures r.description == Some(Some(AdminDescription)) && r.scopes == Some(AdminScopes)
  {
    var i :| 0 <= i < |DefaultRoles()| && DefaultRoles()[i] == r;
    assert i == 1;
  }

  // ----- role names -----

  function RoleFirst(c: char): bool { 'a' <= c <= 'z' }

  function RoleMiddle(c: char): bool {
    'a' <= c <= 'z' || '0' <= c <= '9' || c == '-' || c == '_' || c == '~' || c == '.'
  }

  function RoleLast(c: char): bool { 'a' <= c <= 'z' || '0' <= c <= '9' }

  /** `_validate_role_name`: the compiled pattern `^[a-z][a-z0-9\-_~\.]{1,253}[a-z0-9]$`. */
  function ValidateRoleName(name: string): Outcome<Error> {
    if NamePattern.Matches(name, RoleFirst, RoleMiddle, RoleLast) then Pass else Fail(InvalidName(name))
  }

  /** A role name as its error message describes it. */
  ghost predicate RoleNameRule(s: string) {
    && 3 <= |s| <= 255
    && 'a' <= s[0] <= 'z'
    && ('a' <= s[|s| - 1] <= 'z' || '0' <= s[|s| - 1] <= '9')
    && forall i :: 0 < i < |s| - 1 ==> RoleMiddle(s[i])
  }

  /** A name is accepted exactly when it follows the rule, or follows it and then
      has one trailing newline, which Python's `$` lets through; anything else
      raises InvalidNameError. */
  lemma ValidateRoleNameIff(s: string)
    ensures ValidateRoleName(s) == Pass <==>
      RoleNameRule(s) || (|s| > 0 && s[|s| - 1] == '\n' && RoleNameRule(s[..|s| - 1]))
    ensures ValidateRoleName(s) != Pass ==> ValidateRoleName(s) == Fail(InvalidName(s))
  {
    NamePattern.MatchesIff(s, RoleFirst, RoleMiddle, RoleLast);
  }

  /** The built-in role names are valid role names. */
  lemma DefaultRoleNamesValid()
    ensures forall i :: 0 <= i < |DefaultRoles()| ==> ValidateRoleName(DefaultRoles()[i].name.value) == Pass
  {
    assert RoleNameRule("user") && RoleNameRule("admin") && RoleNameRule("server") && RoleNameRule("token");
    ValidateRoleNameIff("user");
    ValidateRoleNameIff("admin");
    ValidateRoleNameIff("server");
    ValidateRoleNameIff("token");
  }

  /** Too short, upper case, a leading digit, a trailing hyphen and a space are
      refused; a trailing newline is accepted. */
  lemma RoleNameExamples()
    ensures ValidateRoleName("ab") != Pass && ValidateRoleName("Abc") != Pass
    ensures ValidateRoleName("1bc") != Pass && ValidateRoleName("ab-") != Pass
    ensures ValidateRoleName("a bc") != Pass
    ensures ValidateRoleName("abc\n") == Pass
  {
    ValidateRoleNameIff("ab");
    ValidateRoleNameIff("Abc");
    ValidateRoleNameIff("1bc");
    ValidateRoleNameIff("ab-");
    assert !RoleMiddle("a bc"[1]);
    ValidateRoleNameIff("a bc");
    assert RoleNameRule("abc");
    ValidateRoleNameIff("abc\n");
    assert "abc\n"[..3] == "abc";
  }

  // ----- create_role -----

  /** The first attribute, description before scopes, that the definition gives
      and that differs from the built-in admin role's. */
  function AdminConflict(d: RoleDef): Option<Attr> {
    if d.description.Some? && d.description.value != Some(AdminDescription) then Some(Description)
    else if d.scopes.Some? && d.scopes.value != AdminScopes then Some(Scopes)
    else None
  }

  predicate AllKnown(scopes: seq<string>, known: set<string>) {
    forall s :: s in scopes ==> s in known
  }

  /** The update rule for one attribute of an existing role: the new value is
      written only if it differs from the stored one and either a reset was asked
      for or it is not the column default. */
  function Reconcile<T(==)>(current: T, given: T, default: T, reset: bool): (r: T)
    ensures r == current || r == given
  {
    if given != current && (reset || given != default) then given else current
  }

  /** A new row: a missing or null attribute takes its column default. */
  function NewRole(name: string, d: RoleDef, cfg: Config): Role {
    var description := if d.description.Some? && d.description.value.Some? then d.description.value else cfg.descriptionDefault;
    Role(name, description, d.scopes.GetOr(cfg.scopesDefault), d.managedByAuth.GetOr(false))
  }

  /** An existing row after reapplying a definition: an attribute the definition
      lacks counts as its column default. */
  function UpdatedRole(current: Role, d: RoleDef, reset: bool, cfg: Config): Role {
    current.(
      description := Reconcile(current.description, d.description.GetOr(cfg.descriptionDefault), cfg.descriptionDefault, reset),
      scopes := Reconcile(current.scopes, d.scopes.GetOr(cfg.scopesDefault), cfg.scopesDefault, reset))
  }

  /** The checks at the head of `create_role`, in their order: a name, a valid
      name, no conflicting admin attribute, known scopes when any are given. */
  function CheckDefinition(d: RoleDef, knownScopes: set<string>): Outcome<Error> {
    if d.name.None? then Fail(MissingName)
    else if ValidateRoleName(d.name.value).Fail? then Fail(InvalidName(d.name.value))
    else if d.name.value == "admin" && AdminConflict(d).Some? then Fail(AdminOverride(AdminConflict(d).value))
    else if d.scopes.Some? && d.scopes.value != [] && !AllKnown(d.scopes.value, knownScopes) then Fail(ScopeNotFound(d.name.value))
    else Pass
  }

  /** `create_role`: a failed check raises; otherwise the row the table holds under
      the name afterwards, inserted or reconciled. */
  function CreateRoleResult(roles: map<string, Role>, d: RoleDef, reset: bool, cfg: Config): Result<Role, Error> {
    var checked := CheckDefinition(d, cfg.knownScopes);
    if checked.Fail? then Failure(checked.error)
    else if d.name.value !in roles then Success(NewRole(d.name.value, d, cfg))
    else Success(UpdatedRole(roles[d.name.value], d, reset, cfg))
  }

  /** The definition is refused exactly for a missing name, an invalid name, a
      conflicting admin attribute or an unknown scope, and the first of these
      decides the error. */
  lemma CreateRoleFailsIff(roles: map<string, Role>, d: RoleDef, reset: bool, cfg: Config)
    ensures var r := CreateRoleResult(roles, d, reset, cfg);
      && (r.Failure? <==>
           || d.name.None?
           || ValidateRoleName(d.name.value).Fail?
           || (d.name.value == "admin" && AdminConflict(d).Some?)
           || (d.scopes.Some? && d.scopes.value != [] && exists s :: s in d.scopes.value && s !in cfg.knownScopes))
      && (r == Failure(MissingName) <==> d.name.None?)
      && (d.name.Some? && ValidateRoleName(d.name.value).Fail? ==> r == Failure(InvalidName(d.name.value)))
      && (r.Failure? && r.error.InvalidName? ==> d.name.Some? && ValidateRoleName(d.name.value).Fail?)
      && (r.Failure? && r.error.AdminOverride? ==> d.name == Some("admin") && ValidateRoleName("admin") == Pass)
      && (r.Failure? && r.error.ScopeNotFound? ==>
            && d.name.Some? && ValidateRoleName(d.name.value) == Pass
            && (d.name.value != "admin" || AdminConflict(d).None?)
            && r.error == ScopeNotFound(d.name.value))
      && (r.Failure? ==> r.error.MissingName? || r.error.InvalidName? || r.error.AdminOverride? || r.error.ScopeNotFound?)
  {
    ValidateRoleNameIff("admin");
  }

  /** A success names the row it describes, and a role already stored keeps its
      `managed_by_auth`. */
  lemma CreateRoleKeepsIdentity(roles: map<string, Role>, d: RoleDef, reset: bool, cfg: Config)
    requires forall n :: n in roles ==> roles[n].name == n
    ensures var r := CreateRoleResult(roles, d, reset, cfg);
      && (r.Success? ==> d.name == Some(r.value.name))
      && (r.Success? && r.value.name in roles ==> r.value.managedByAuth == roles[r.value.name].managedByAuth)
      && (r.Success? && r.value.name !in roles ==> r.value.managedByAuth == d.managedByAuth.GetOr(false))
  {
  }

  /** With `reset_to_defaults`, or for a new role, the stored attributes are those
      of the definition (or the column defaults where it has none). Creating
      `{name: x, scopes: [s]}` and then finding `x` gives scopes `[s]`. */
  lemma CreateRoleStoresDefinition(roles: map<string, Role>, d: RoleDef, reset: bool, cfg: Config)
    requires d.name.Some? && (reset || d.name.value !in roles)
    ensures var r := CreateRoleResult(roles, d, reset, cfg);
      r.Success? ==>
        && r.value.scopes == d.scopes.GetOr(cfg.scopesDefault)
        && (d.description.Some? && d.description.value.Some? ==> r.value.description == d.description.value)
        && (d.description.None? ==> r.value.description == cfg.descriptionDefault)
  {
  }

  /** Without `reset_to_defaults`, an attribute the definition lacks, or gives as
      the column default, stays as stored. */
  lemma CreateRoleWithoutResetKeeps(roles: map<string, Role>, d: RoleDef, cfg: Config)
    requires d.name.Some? && d.name.value in roles
    ensures var r := CreateRoleResult(roles, d, false, cfg);
      && (r.Success? && d.description.GetOr(cfg.descriptionDefault) == cfg.descriptionDefault ==>
            r.value.description == roles[d.name.value].description)
      && (r.Success? && d.scopes.GetOr(cfg.scopesDefault) == cfg.scopesDefault ==>
            r.value.scopes == roles[d.name.value].scopes)
  {
  }

  /** Without `reset_to_defaults`, an attribute the definition gives with a value
      other than the column default is written into the stored role: reapplying a
      partial definition still updates what it does say. */
  lemma CreateRoleWithoutResetWrites(roles: map<string, Role>, d: RoleDef, cfg: Config)
    requires d.name.Some? && d.name.value in roles
    ensures var r := CreateRoleResult(roles, d, false, cfg);
      && (r.Success? && d.scopes.Some? && d.scopes.value != cfg.scopesDefault ==> r.value.scopes == d.scopes.value)
      && (r.Success? && d.description.Some? && d.description.value != cfg.descriptionDefault ==>
            r.value.description == d.description.value)
  {
  }

  lemma ReconcileIdempotent<T>(current: T, given: T, default: T, reset: bool)
    ensures Reconcile(Reconcile(current, given, default, reset), given, default, reset) == Reconcile(current, given, default, reset)
  {
  }

  /** Reapplying a definition to the role it just updated changes nothing. */
  lemma CreateRoleIdempotent(roles: map<string, Role>, d: RoleDef, reset: bool, cfg: Config)
    requires forall n :: n in roles ==> roles[n].name == n
    requires d.name.Some? && d.name.value in roles
    ensures var r := CreateRoleResult(roles, d, reset, cfg);
      r.Success? ==> CreateRoleResult(roles[d.name.value := r.value], d, reset, cfg) == r
  {
    var name := d.name.value;
    var cur := roles[name];
    ReconcileIdempotent(cur.description, d.description.GetOr(cfg.descriptionDefault), cfg.descriptionDefault, reset);
    ReconcileIdempotent(cur.scopes, d.scopes.GetOr(cfg.scopesDefault), cfg.scopesDefault, reset);
  }

  /** The admin role cannot be given another description or other scopes by a
      definition: whatever conflicts is refused. */
  lemma AdminOverrideRefused(roles: map<string, Role>, d: RoleDef, reset: bool, cfg: Config)
    requires d.name == Some("admin")
    requires (d.description.Some? && d.description.value != Some(AdminDescription)) || (d.scopes.Some? && d.scopes.value != AdminScopes)
    ensures CreateRoleResult(roles, d, reset, cfg).Failure?
    ensures CreateRoleResult(roles, d, reset, cfg).error.AdminOverride?
  {
    ValidateRoleNameIff("admin");
    assert ValidateRoleName("admin") == Pass;
    assert AdminConflict(d).Some?;
  }

  /** A definition of admin that only names it is accepted, and without a reset it
      leaves a stored admin row exactly as it is. */
  lemma AdminByNameKeepsRow(roles: map<string, Role>, cfg: Config)
    requires "admin" in roles && roles["admin"].name == "admin"
    ensures CreateRoleResult(roles, RoleDef(Some("admin"), None, None, None), false, cfg) == Success(roles["admin"])
  {
    ValidateRoleNameIff("admin");
  }

  /** With a reset, which is the default, the same definition puts the column
      defaults back into a stored admin row: the scopes of admin become the
      scopes column's default. */
  lemma AdminByNameResetsToDefaults(roles: map<string, Role>, cfg: Config)
    requires "admin" in roles
    ensures var r := CreateRoleResult(roles, RoleDef(Some("admin"), None, None, None), true, cfg);
      r.Success? && r.value.scopes == cfg.scopesDefault && r.value.description == cfg.descriptionDefault
  {
    ValidateRoleNameIff("admin");
  }

  // ----- assign_default_names -----

  /** The grant of one built-in role by name: the lookup fails if the role is not stored. */
  function GrantByName(h: Held, name: string, present: set<string>, rowDefault: bool): (Held, Outcome<Error>) {
    if name in present then (Grant(h, name, false, rowDefault), Pass) else (h, Fail(Unresolved(Some(name))))
  }

  /**
    `assign_default_names` on what one entity holds: nothing for a group; else
    grant admin to an admin, strip admin from a non-admin that holds it (when the
    admin role is stored), and then, for a user, grant user. A failed grant stops
    there and keeps what was done before it.
  */
  function DefaultRolesOutcome(h: Held, kind: Kind, admin: bool, present: set<string>, rowDefault: bool): (Held, Outcome<Error>) {
    if kind == Group then (h, Pass)
    else
      var (h1, o1) := AdminStep(h, admin, present, rowDefault);
      if o1.Fail? || kind != User then (h1, o1)
      else GrantByName(h1, "user", present, rowDefault)
  }

  /** The admin half of the assignment: grant admin to an admin; strip it from a
      non-admin holding it, when the admin role is stored. */
  function AdminStep(h: Held, admin: bool, present: set<string>, rowDefault: bool): (Held, Outcome<Error>) {
    if admin then GrantByName(h, "admin", present, rowDefault)
    else if "admin" in present && "admin" in h.names then (Strip(h, "admin"), Pass)
    else (h, Pass)
  }

  /** A successful admin step leaves the admin label settled: held by an admin,
      and not held by a non-admin while the admin role is stored. */
  lemma AdminStepSettles(h: Held, admin: bool, present: set<string>, rowDefault: bool)
    requires Linked(h)
    ensures var (h1, o1) := AdminStep(h, admin, present, rowDefault);
      o1 == Pass ==>
        && Linked(h1)
        && (admin ==> "admin" in h1.names && "admin" in present)
        && (!admin && "admin" in present ==> "admin" !in h1.names)
        && (forall x :: x != "admin" ==> (x in h1.names <==> x in h.names))
  {
    if admin {
      GrantEffect(h, "admin", false, rowDefault);
    } else {
      StripEffect(h, "admin");
    }
  }

  /** After a successful assignment, a user or service holds admin exactly when its
      admin flag is set, a user holds user, the list and rows still agree, and the
      only labels that changed are admin and user. A group is left alone. */
  lemma DefaultRolesReconcile(h: Held, kind: Kind, admin: bool, present: set<string>, rowDefault: bool)
    requires Linked(h) && "admin" in present
    ensures var (h', o) := DefaultRolesOutcome(h, kind, admin, present, rowDefault);
      && Linked(h')
      && (kind == Group ==> h' == h && o == Pass)
      && (o == Pass && kind != Group ==> ("admin" in h'.names <==> admin))
      && (o == Pass && kind == User ==> "user" in h'.names)
      && (forall x :: x != "admin" && x != "user" ==> (x in h'.names <==> x in h.names))
  {
    if kind != Group {
      var (h1, o1) := AdminStep(h, admin, present, rowDefault);
      AdminStepSettles(h, admin, present, rowDefault);
      if kind == User && "user" in present {
        GrantEffect(h1, "user", false, rowDefault);
      }
    }
  }

  /** The assignment fails exactly when a role it must grant is not stored. */
  lemma DefaultRolesFailsIff(h: Held, kind: Kind, admin: bool, present: set<string>, rowDefault: bool)
    ensures DefaultRolesOutcome(h, kind, admin, present, rowDefault).1.Fail? <==>
      kind != Group && ((admin && "admin" !in present) || (kind == User && "user" !in present))
  {
  }

  /** The assignment is a repair that is safe to re-run: a second run changes nothing. */
  lemma DefaultRolesIdempotent(h: Held, kind: Kind, admin: bool, present: set<string>, rowDefault: bool)
    requires Linked(h)
    ensures var (h', o) := DefaultRolesOutcome(h, kind, admin, present, rowDefault);
      o == Pass ==> DefaultRolesOutcome(h', kind, admin, present, rowDefault) == (h', Pass)
  {
    var (h1, o1) := AdminStep(h, admin, present, rowDefault);
    AdminStepSettles(h, admin, present, rowDefault);
    if o1 == Pass && kind != Group {
      if kind == User && "user" in present {
        var h2 := Grant(h1, "user", false, rowDefault);
        GrantEffect(h1, "user", false, rowDefault);
        assert AdminStep(h2, admin, present, rowDefault) == (h2, Pass);
      } else {
        assert AdminStep(h1, admin, present, rowDefault) == (h1, Pass);
      }
    }
  }

  // ----- check_for_default_names -----

  /** What the sweep does to one entity: only an entity of the swept kind that
      holds no role is assigned its defaults, and groups and services are never
      swept. */
  function SweepOutcome(h: Held, entityKind: Kind, admin: bool, kind: Kind, present: set<string>, rowDefault: bool): (Held, Outcome<Error>) {
    if kind == Group || kind == Service || entityKind != kind || h.names != [] then (h, Pass)
    else DefaultRolesOutcome(h, entityKind, admin, present, rowDefault)
  }

  /** Once the built-in roles are stored, a sweep over users succeeds and leaves
      every user holding a role, and the user role whenever it repaired one. */
  lemma SweepGivesUsersARole(h: Held, admin: bool, present: set<string>, rowDefault: bool)
    requires Linked(h) && "admin" in present && "user" in present
    ensures var (h', o) := SweepOutcome(h, User, admin, User, present, rowDefault);
      && o == Pass && h'.names != []
      && (h.names == [] ==> "user" in h'.names && ("admin" in h'.names <==> admin))
  {
    DefaultRolesReconcile(h, User, admin, present, rowDefault);
  }

  /** A token that is not admin and holds no role is still bare after a sweep of
      tokens: the policy gives tokens no role of their own. */
  lemma SweepLeavesPlainTokenBare(present: set<string>, rowDefault: bool)
    ensures SweepOutcome(Held([], map[]), APIToken, false, APIToken, present, rowDefault) == (Held([], map[]), Pass)
  {
  }
}
