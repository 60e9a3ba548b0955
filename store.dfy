/**
  The persisted state the role code works on: the role and firstName tables,
  the role-holding entities, and the association tables between them. Entities
  are objects whose label lists grant and strip change in place; the tables are
  fields of one `Database`, the session every operation receives.
*/
module Store {
  import opened Wrappers
  import opened Membership

  /** The entity classes that can hold roles. */
  datatype Kind = User | Service | Group | APIToken

  /** The two role attributes `create_role` reconciles. */
  datatype Attr = Description | Scopes

  /** The exceptions the core raises. */
  datatype Error =
    | MissingName                     // KeyError: a definition without 'name'
    | InvalidName(name: string)       // InvalidNameError, of either core file (each defines its own class)
    | AdminOverride(attr: Attr)       // RoleValueError: a conflicting admin attribute
    | ScopeNotFound(role: string)     // the scope catalog's error, naming the role
    | ProtectedRole(name: string)     // ValueError: a default role cannot be removed
    | NotFound(name: string)          // KeyError: removing something that does not exist
    | Unresolved(missing: Option<string>) // ValueError: the label to grant or strip does not exist

  datatype Role = Role(name: string, description: Option<string>, scopes: seq<string>, managedByAuth: bool)

  datatype FirstName = FirstName(name: string, managedByAuth: bool)

  /**
    What the core takes from code outside it: the scopes the scope catalog knows,
    the column defaults of the role table's `description` and `scopes`, and the
    defaults of `managed_by_auth` in a role association row and in a firstName
    association row, which are separate columns.
  */
  datatype Config = Config(
    knownScopes: set<string>,
    descriptionDefault: Option<string>,
    scopesDefault: seq<string>,
    rowDefault: bool,
    firstNameRowDefault: bool)

  class Entity {
    const kind: Kind
    var admin: bool
    var names: seq<string>
    var firstNames: seq<string>
    const groups: seq<Entity>

    constructor (kind: Kind, admin: bool, groups: seq<Entity>)
      ensures this.kind == kind && this.admin == admin && this.groups == groups
      ensures names == [] && firstNames == []
    {
      this.kind := kind;
      this.admin := admin;
      this.groups := groups;
      names := [];
      firstNames := [];
    }
  }

  class Database {
    const config: Config
    var roles: map<string, Role>
    var roleRows: map<Entity, map<string, bool>>
    var firstNames: map<string, FirstName>
    var firstNameRows: map<Entity, map<string, bool>>

    /** Both tables are keyed by the name their rows carry. */
    ghost predicate Valid()
      reads this
    {
      && (forall n :: n in roles ==> roles[n].name == n)
      && (forall n :: n in firstNames ==> firstNames[n].name == n)
    }

    constructor (config: Config)
      ensures Valid() && this.config == config
      ensures roles == map[] && roleRows == map[]
      ensures firstNames == map[] && firstNameRows == map[]
    {
      this.config := config;
      roles := map[];
      roleRows := map[];
      firstNames := map[];
      firstNameRows := map[];
    }
  }

  /** The association rows of one entity: label name to `managed_by_auth`. */
  function RowsOf(rows: map<Entity, map<string, bool>>, e: Entity): map<string, bool> {
    if e in rows then rows[e] else map[]
  }

  ghost function RoleHeld(db: Database, e: Entity): Held
    reads db, e
  {
    Held(e.names, RowsOf(db.roleRows, e))
  }

  ghost function FirstNameHeld(db: Database, e: Entity): Held
    reads db, e
  {
    Held(e.firstNames, RowsOf(db.firstNameRows, e))
  }

  /** No entity other than `e` has its association rows changed. */
  ghost predicate RowsUnchangedExcept(before: map<Entity, map<string, bool>>, after: map<Entity, map<string, bool>>, e: Entity) {
    after - {e} == before - {e}
  }

  /** Writing one entity's rows changes no other entity's rows. */
  lemma RowsUpdate(rows: map<Entity, map<string, bool>>, e: Entity, v: map<string, bool>)
    ensures RowsOf(rows[e := v], e) == v
    ensures RowsUnchangedExcept(rows, rows[e := v], e)
  {
    assert rows[e := v] - {e} == rows - {e};
  }

  lemma RowsOfOutside(before: map<Entity, map<string, bool>>, after: map<Entity, map<string, bool>>, e: Entity, x: Entity)
    requires RowsUnchangedExcept(before, after, e) && x != e
    ensures RowsOf(after, x) == RowsOf(before, x)
  {
    assert x in after <==> x in after - {e};
    assert x in before <==> x in before - {e};
    if x in after {
      assert after[x] == (after - {e})[x];
    }
  }

  lemma RowsUnchangedWithin(before: map<Entity, map<string, bool>>, after: map<Entity, map<string, bool>>, e: Entity, s: set<Entity>)
    requires RowsUnchangedExcept(before, after, e) && e in s
    ensures after - s == before - s
  {
    assert after - s == (after - {e}) - s;
    assert before - s == (before - {e}) - s;
  }

  /** The label argument of grant and strip: none, a name, or a row object already loaded (known by its name). */
  datatype Ref = NoRef | ByName(name: string) | ByObject(name: string)

  /** The name that resolution looks up: a name passed as the label argument, else the keyword name. */
  function LookupName(ref: Ref, byName: Option<string>): Option<string> {
    if ref.ByName? then Some(ref.name) else byName
  }

  /**
    The `_existing_only` decorator of both core files: a name (the label argument
    as a string, else the keyword name) is looked up in the table; with no name, a
    row object is used as it is; nothing found raises ValueError.
  */
  function Resolve<V>(table: map<string, V>, ref: Ref, byName: Option<string>): (r: Result<string, Error>)
    ensures r.Success? && LookupName(ref, byName).Some? ==> r.value in table
    ensures r.Failure? ==> r.error == Unresolved(LookupName(ref, byName))
  {
    var lookup := LookupName(ref, byName);
    if lookup.Some? then
      if lookup.value in table then Success(lookup.value) else Failure(Unresolved(lookup))
    else if ref.ByObject? then Success(ref.name)
    else Failure(Unresolved(None))
  }

  /** A row object given without a name is used as it is. A keyword name takes
      precedence over a row object; a name passed as the label argument takes
      precedence over the keyword. Either way the outcome is the lookup of that
      name. */
  lemma ResolvePrecedence<V>(table: map<string, V>, name: string, other: string, byName: Option<string>)
    ensures Resolve(table, ByObject(other), None) == Success(other)
    ensures Resolve(table, ByObject(other), Some(name)) == Resolve(table, NoRef, Some(name))
    ensures Resolve(table, ByName(name), byName) == Resolve(table, NoRef, Some(name))
    ensures Resolve(table, NoRef, Some(name)) ==
      if name in table then Success(name) else Failure(Unresolved(Some(name)))
  {
  }
}
