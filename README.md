# Roles and firstNames of the hub, modelled in Dafny

This project models JupyterHub's role engine (`jupyterhub/names.py`) and the firstName
tagging scheme built the same way (`jupyterhub/firstNames.py`). It covers:

- the four built-in roles (`user`, `admin`, `server`, `token`);
- the role-name and firstName grammars, as Python's `re.match` applies them;
- `create_role`, with its checks, the immutability of `admin`, and the rule that
  reconciles a stored role with a definition applied again;
- deleting roles and firstNames;
- granting and stripping a label on an entity. Behind the `_existing_only` decorator this
  touches two places: the entity's ordered list and an association row that carries the
  `managed_by_auth` flag;
- `update_names` and `update_firstNames`;
- the default-role policy `assign_default_names` and the sweep `check_for_default_names`.

Modules:

- `Wrappers` holds `Option`, `Result` and `Outcome`.
- `Membership` models one entity's held labels (`Held`: the list plus the association
  flags) and the grant and strip bookkeeping that both core files share.
- `NamePattern` models the regular-expression shape `^F M{1,253} L$` and its equivalence
  with a quantified grammar.
- `Store` holds the tables, the `Entity` and `Database` classes, and the lookup of the
  decorator (`Resolve`).
- `RoleRules` is the pure part of `names.py`.
- `Names` holds the methods of `names.py`.
- `FirstNames` models `firstNames.py`.

Most methods are proved against a specification function: their `ensures` ties the
result and the new state to that function of the old state, and the properties are
lemmas about those functions. The exceptions state their results directly:
`Names.DeleteRole`, `FirstNames.DeleteFirstName`, `Names.GetNamesFor`,
`Names.NamesToScopes`, `Names.FindDefaultRole` and `FirstNames.GetFirstNamesFor`.

Behaviour of the code that the model makes explicit:

- **`create_role({name: "admin"})`.** With `reset_to_defaults=True`, which is the
  default, a stored admin row's description and scopes are set to the column defaults
  (names.py:199-209). `RoleRules.AdminByNameResetsToDefaults` proves this;
  `RoleRules.AdminByNameKeepsRow` proves the row is kept as it is without a reset.
- **Admin scopes.** The built-in admin role carries sixteen scopes, `read:names` among
  them (names.py:34-51); `RoleRules.AdminDefinition` states them.
- **The firstName grammar.** It accepts spaces anywhere, including a leading or trailing
  space, and a name made only of spaces (firstNames.py:30), while its error message says
  a firstName must start with a letter (firstNames.py:52).
- **A trailing newline.** Python's `$` matches before one final newline, so both
  validators accept a valid name followed by `"\n"` (names.py:133, firstNames.py:46).
- **Tokens in the sweep.** Provided a token has the `name` and `admin` attributes that
  `assign_default_names` reads (names.py:326-327), a sweep over tokens leaves a non-admin
  token without roles: no branch grants `token` (names.py:327-334), although the
  function's docstring says tokens get it (names.py:313).

## Model

| member | source | states |
|---|---|---|
| Membership.RemovedFirst | jupyterhub/names.py:299 | `list.remove` cuts out exactly the first occurrence of the label |
| Membership.RemovedAbsent | jupyterhub/names.py:298-299 | removing a label that is not in the list leaves the list as it is |
| Membership.RemovedMembers | jupyterhub/names.py:298-299 | removal keeps the list duplicate-free and removes exactly that label |
| Membership.KnownPrefix | jupyterhub/names.py:342-343 | the grants made before the first name that does not exist: every name before it exists and the one at it does not |
| Membership.KnownPrefixAt | jupyterhub/names.py:342-343 | a loop that has found every name before index i and fails at i, or reaches the end, stops where KnownPrefix says |
| Membership.GrantIdempotent | jupyterhub/names.py:267 | granting a label that is already held changes nothing, whatever `managed` says |
| Membership.GrantEffect | jupyterhub/names.py:267-280 | after a grant the label is held once, with one association row; a new row is flagged `managed` or takes the column default; a held label, its flag included, is untouched; other labels and rows are unchanged |
| Membership.StripEffect | jupyterhub/names.py:298-299 | after a strip the label is no longer held and has no row; the others keep their order and rows; a label not held is a no-op |
| Membership.StripUndoesGrant | jupyterhub/names.py:267-299 | stripping a label just granted restores the list and the rows exactly |
| Membership.GrantEachEffect | jupyterhub/names.py:337-343 | a run of grants keeps the old list as a prefix and afterwards holds exactly the old labels plus those granted, list and rows agreeing |
| Membership.GrantEachIdempotent | jupyterhub/names.py:337-343 | repeating `update_names` with the same names changes nothing |
| NamePattern.AllInIff | jupyterhub/names.py:117 | the repeated middle class matches a run exactly when every character is in the class |
| NamePattern.MatchesWholeIff | jupyterhub/names.py:117 | the anchored pattern matches a whole string exactly when it has 3-255 characters with first, last and middle characters from their classes |
| NamePattern.MatchesIff | jupyterhub/names.py:133 | `re.match` with `$` accepts exactly the grammar's strings and those strings followed by one newline |
| Store.Resolve | jupyterhub/names.py:246-252 | a resolved name exists in the table; an unresolved one raises ValueError naming the looked-up name |
| Store.ResolvePrecedence | jupyterhub/names.py:246-254 | a row object without a name is used as it is; a string label overrides the keyword name, the keyword name overrides a row object, and either way the outcome is the table lookup |
| RoleRules.DefaultRoleNames | jupyterhub/names.py:14-67 | the built-in definitions are exactly those named user, admin, server and token |
| RoleRules.DefaultRoleNamesValid | jupyterhub/names.py:14-67 | every built-in role name is a valid role name |
| RoleRules.AdminDefinition | jupyterhub/names.py:31-52 | the built-in definition named admin carries the admin description and the sixteen admin scopes |
| RoleRules.ValidateRoleNameIff | jupyterhub/names.py:128-142 | a role name is accepted iff it has 3-255 characters, a lowercase letter first, a lowercase letter or digit last and only lowercase letters, digits and `-_~.` between, optionally followed by one newline; otherwise InvalidNameError |
| RoleRules.RoleNameExamples | jupyterhub/names.py:117 | too short, upper case, a leading digit, a trailing hyphen and a space are refused; a trailing newline is accepted |
| RoleRules.Reconcile | jupyterhub/names.py:204-209 | an attribute of an existing role ends up either as stored or as the new value |
| RoleRules.ReconcileIdempotent | jupyterhub/names.py:204-209 | reconciling an attribute a second time with the same value changes nothing |
| RoleRules.CreateRoleFailsIff | jupyterhub/names.py:157-183 | create_role fails iff the name is missing or invalid, an admin attribute conflicts, or a non-empty scope list has an unknown scope; the error is one of those four kinds, and the first failing check picks it: a missing name gives MissingName, an invalid name InvalidName(name), an unknown scope ScopeNotFound(name) only for a valid name without an admin conflict |
| RoleRules.CreateRoleKeepsIdentity | jupyterhub/names.py:187-209 | the returned row carries the definition's name; a stored role keeps its `managed_by_auth`, and a new one takes it from the definition, false by default |
| RoleRules.CreateRoleStoresDefinition | jupyterhub/names.py:187-209 | a new role, or any role under `reset_to_defaults`, stores the definition's scopes and description, or the column defaults where the definition has none |
| RoleRules.CreateRoleWithoutResetWrites | jupyterhub/names.py:204-209 | without `reset_to_defaults`, a description or scopes the definition gives with a value other than the column default is written into the stored role |
| RoleRules.CreateRoleWithoutResetKeeps | jupyterhub/names.py:199-209 | without `reset_to_defaults` an attribute the definition leaves out, or gives as the column default, stays as stored |
| RoleRules.CreateRoleIdempotent | jupyterhub/names.py:198-209 | applying the same definition again to the row it produced changes nothing |
| RoleRules.AdminOverrideRefused | jupyterhub/names.py:167-176 | a definition of admin with a different description or different scopes raises RoleValueError |
| RoleRules.AdminByNameKeepsRow | jupyterhub/names.py:167-209 | `{name: "admin"}` without a reset returns the stored admin row unchanged |
| RoleRules.AdminByNameResetsToDefaults | jupyterhub/names.py:198-209 | `{name: "admin"}` with a reset sets the stored admin description and scopes to the column defaults |
| RoleRules.DefaultRolesReconcile | jupyterhub/names.py:310-334 | after a successful assignment, a user or service holds admin exactly when its admin flag is set and a user holds user; only admin and user change; groups are untouched |
| RoleRules.AdminStepSettles | jupyterhub/names.py:327-332 | after the admin half of the assignment succeeds, an admin holds admin, a non-admin does not while the admin role is stored, and no other label changes |
| RoleRules.DefaultRolesFailsIff | jupyterhub/names.py:327-334 | the assignment fails iff a role it must grant (admin for an admin, user for a user) is not stored |
| RoleRules.DefaultRolesIdempotent | jupyterhub/names.py:310-334 | running the assignment again after it succeeded changes nothing |
| RoleRules.SweepGivesUsersARole | jupyterhub/names.py:346-360 | once admin and user are stored, the sweep over users succeeds, every user holds a role, and a repaired user holds user and holds admin exactly when flagged |
| RoleRules.SweepLeavesPlainTokenBare | jupyterhub/names.py:346-360 | a non-admin token with no roles is left with none by the sweep over tokens |
| Names.GetNamesFor | jupyterhub/names.py:70-91 | the entity's roles in order, then for a user each group's roles in group order; a role is listed iff the entity or one of a user's groups holds it |
| Names.NamesToScopes | jupyterhub/names.py:94-100 | a scope is in the result iff one of the roles carries it |
| Names.FindDefaultRole | jupyterhub/names.py:167-171 | the search finds a built-in definition iff one has that name, and returns that definition |
| Names.CheckRoleDefinition | jupyterhub/names.py:157-183 | the checks at the head of create_role yield exactly CheckDefinition: the first of a missing name, an invalid name, an admin conflict or an unknown scope, else success |
| Names.CreateRole | jupyterhub/names.py:145-220 | the result is CreateRoleResult of the old table; the row is stored under its name on success and the table is untouched on failure |
| Names.DeleteRole | jupyterhub/names.py:223-236 | a built-in role is refused, an absent one raises KeyError, any other is removed; built-in roles always survive |
| Names.GrantRole | jupyterhub/names.py:259-288 | an unresolved role raises and changes nothing; otherwise the entity's list and rows become Grant of the old ones; other entities' rows are unchanged |
| Names.StripRole | jupyterhub/names.py:291-307 | an unresolved role raises and changes nothing; otherwise the entity's list and rows become Strip of the old ones; other entities' rows are unchanged |
| Names.AssignDefaultNames | jupyterhub/names.py:310-334 | the entity's roles and the outcome are DefaultRolesOutcome of its old roles, its kind, its admin flag and the stored roles |
| Names.UpdateNames | jupyterhub/names.py:337-343 | the names before the first unknown one are granted in order; the call fails at that unknown name or succeeds when all exist |
| Names.SweepOne | jupyterhub/names.py:354-360 | an entity the query selects (the swept kind, no roles) gets DefaultRolesOutcome; any other is left as it is; no other entity's rows change |
| Names.CheckForDefaultNames | jupyterhub/names.py:346-361 | each entity of the swept kind without roles gets its default roles; others, groups and services are untouched; the sweep fails iff some assignment fails |
| FirstNames.ValidateFirstNameIff | jupyterhub/firstNames.py:41-55 | a firstName is accepted iff it has 3-255 characters, a letter or space first, a letter, digit or space last and only letters, digits, spaces and `-_~.` between, optionally followed by one newline; otherwise InvalidNameError |
| FirstNames.RoleNamesAreFirstNames | jupyterhub/firstNames.py:30 | every valid role name is a valid firstName |
| FirstNames.FirstNameExamples | jupyterhub/firstNames.py:30-55 | mixed case and leading, trailing or only spaces are accepted; too short, a leading digit and a tab are refused |
| FirstNames.CreateFirstNameIdempotent | jupyterhub/firstNames.py:58-84 | creating a firstName again returns the stored row and changes nothing, whatever the second definition's flag or reset |
| FirstNames.CreateFirstNameRow | jupyterhub/firstNames.py:72-79 | an existing firstName is returned unmodified; a new one is flagged as defined, false by default |
| FirstNames.CreateFirstName | jupyterhub/firstNames.py:58-84 | the result is CreateFirstNameResult of the old table; the row is stored on success and the table is untouched on failure |
| FirstNames.DeleteFirstName | jupyterhub/firstNames.py:87-96 | an existing firstName is removed; an absent one raises KeyError and nothing changes |
| FirstNames.GrantFirstName | jupyterhub/firstNames.py:99-148 | an unresolved firstName raises and changes nothing; otherwise the entity's firstNames and rows become Grant of the old ones; other entities are unchanged |
| FirstNames.StripFirstName | jupyterhub/firstNames.py:151-167 | an unresolved firstName raises and changes nothing; otherwise the entity's firstNames and rows become Strip of the old ones; other entities are unchanged |
| FirstNames.UpdateFirstNames | jupyterhub/firstNames.py:169-175 | the firstNames before the first unknown one are granted in order; the call fails at that name or succeeds when all exist |
| FirstNames.GetFirstNamesFor | jupyterhub/firstNames.py:14-28 | a copy of the entity's firstNames in their order |

## Left out

- Logging, `db.commit()` and the `commit` flags. Each operation is one atomic step on the model's state.
- The SQL of `check_for_default_names`, a query for entities without roles. The population is a parameter: a sequence of distinct entities, since the query groups by id. The loop tests for an empty role list itself.
- `names_to_expanded_scopes`: scope expansion belongs to the scopes module, which is not part of this model.
- Scope existence: `_check_scopes_exist` is modelled as membership in a set of known scopes (`Config.knownScopes`).
- ORM column defaults: the defaults of `description` and `scopes`, and of `managed_by_auth` in the role and in the firstName association tables (`Config.rowDefault`, `Config.firstNameRowDefault`), are parameters in `Config`, because the ORM module is not part of this model.
- Finding the association row by the entity's class name, and the failure of `.one()`. The row of a managed grant is always present in the model.
- The `isinstance` checks that raise TypeError for non-ORM arguments. Entities are typed.
- `mock_names`: a test helper that composes `create_role` and `assign_default_names`.
- Concurrency and transactions.
- Roles and firstNames are identified by name. A row object passed to grant or strip is used by its name even if it is not stored; the ORM's cascading insert of such an object is not modelled.
- A definition whose `scopes` key is present with the value None is not modelled. `RoleDef.scopes` is missing or a list.
- A firstName definition whose `managed_by_auth` key is present with the value None is not modelled.
- `delete_role` and `delete_firstName` remove the table row only. Whatever database cascades do to association rows and entity lists is not modelled.
- `assign_default_names` reads `entity.name` (for a debug message) and `entity.admin` of every non-group entity (names.py:326-327), while `grant_role` and `strip_role` avoid `entity.name` for a token (names.py:262-265, 294-297). The model assumes every entity, tokens included, has both attributes, and does not model the AttributeError a token without them would raise; the ORM module that defines them is not part of this model.
- `InvalidName` stands for both `InvalidNameError` classes, the one of names.py:124-125 and the separate one of firstNames.py:37-38; the model does not distinguish them.
- The loop over `["description", "scopes"]` in `create_role` is unrolled into two reconciliations.
- Names.CheckForDefaultNames: when an assignment fails, the contract says only that each entity is either repaired or unchanged. Which entities come before the failing one depends on the query's order, which is not modelled.
