/**
 * The role and permission tables the administration scripts edit, and the
 * edits themselves as functions of the tables.
 *
 * Permissions and roles are keyed by their unique names. A role lists the
 * names of its permissions in the order they were appended. A user refers to
 * a role by id, or to none.
 */
module Access {
  import opened Wrappers

  datatype Role = Role(id: nat, description: string, permissions: seq<string>)

  /** Permission name to description. */
  type Permissions = map<string, string>

  /** Role name to role. */
  type Roles = map<string, Role>

  /** Username to the user's role_id. */
  type Users = map<string, Option<nat>>

  /** The role table with the id the next inserted role receives. */
  datatype RoleTable = RoleTable(roles: Roles, nextId: nat)

  /** Role ids are distinct, and every id is below the next one to be handed out. */
  predicate ValidTable(t: RoleTable) {
    && (forall n :: n in t.roles ==> t.roles[n].id < t.nextId)
    && (forall a, b :: a in t.roles && b in t.roles && a != b ==> t.roles[a].id != t.roles[b].id)
  }

  // ---------------------------------------------------------------------
  // Filtering configured permission names

  /**
   * The append loop `for perm_name in ...: if perm_name in known: append`:
   * the configured names that are known, in configured order.
   */
  function Keep(names: seq<string>, known: set<string>): (r: seq<string>)
    ensures forall x :: x in r <==> x in names && x in known
    ensures |r| <= |names|
  {
    if names == [] then []
    else (if names[0] in known then [names[0]] else []) + Keep(names[1..], known)
  }

  /** Filtering a concatenation filters each part, so the order of the configuration is kept. */
  lemma {:induction false} KeepAppend(a: seq<string>, b: seq<string>, known: set<string>)
    ensures Keep(a + b, known) == Keep(a, known) + Keep(b, known)
  {
    if a != [] {
      var head := if a[0] in known then [a[0]] else [];
      var ab := a + b;
      assert ab[0] == a[0];
      assert ab[1..] == a[1..] + b;
      assert Keep(ab, known) == head + Keep(a[1..] + b, known);
      assert Keep(a, known) == head + Keep(a[1..], known);
      KeepAppend(a[1..], b, known);
      var x, y, z := head, Keep(a[1..], known), Keep(b, known);
      assert x + (y + z) == (x + y) + z;
    } else {
      assert a + b == b;
    }
  }

  /** When every configured name is known, nothing is dropped. */
  lemma {:induction false} KeepAllKnown(names: seq<string>, known: set<string>)
    requires forall x :: x in names ==> x in known
    ensures Keep(names, known) == names
  {
    if names != [] {
      assert forall x :: x in names[1..] ==> x in names;
      KeepAllKnown(names[1..], known);
    }
  }

  /** When no configured name is known, the list ends up empty. */
  lemma KeepNoneKnown(names: seq<string>, known: set<string>)
    requires forall x :: x in names ==> x !in known
    ensures Keep(names, known) == []
  {
  }

  /** The loop that clears a role's list and appends the known names one at a time. */
  method KeepKnown(names: seq<string>, known: set<string>) returns (kept: seq<string>)
    ensures kept == Keep(names, known)
  {
    kept := [];
    var i := 0;
    while i < |names|
      invariant 0 <= i <= |names|
      invariant kept == Keep(names[..i], known)
    {
      assert names[..i + 1] == names[..i] + [names[i]];
      KeepAppend(names[..i], [names[i]], known);
      if names[i] in known {
        kept := kept + [names[i]];
      }
      i := i + 1;
    }
    assert names[..i] == names;
  }

  // ---------------------------------------------------------------------
  // Get-or-create of permissions

  datatype PermissionSpec = PermissionSpec(name: string, description: string)

  function Names(catalog: seq<PermissionSpec>): (r: set<string>)
    ensures forall n :: n in r <==> exists i :: 0 <= i < |catalog| && catalog[i].name == n
  {
    if catalog == [] then {}
    else
      var rest := Names(catalog[1..]);
      assert forall i :: 1 <= i < |catalog| ==> catalog[i] == catalog[1..][i - 1];
      {catalog[0].name} + rest
  }

  /** The description the first catalog entry named n gives, if any. */
  function FirstDescription(catalog: seq<PermissionSpec>, n: string): Option<string> {
    if catalog == [] then None
    else if catalog[0].name == n then Some(catalog[0].description)
    else FirstDescription(catalog[1..], n)
  }

  /**
   * The get-or-create loop: a catalog name already in the table is reused,
   * a missing one is inserted with the catalog's description.
   */
  function EnsurePermissions(perms: Permissions, catalog: seq<PermissionSpec>): (r: Permissions)
    decreases |catalog|
  {
    if catalog == [] then perms
    else
      var c := catalog[0];
      EnsurePermissions(if c.name in perms then perms else perms[c.name := c.description], catalog[1..])
  }

  /**
   * After the loop every catalog name has exactly one permission (the table
   * is keyed by name); existing permissions are kept as they were, none is
   * deleted, and a new one gets the description of its first catalog entry.
   */
  lemma {:induction false} EnsurePermissionsSpec(perms: Permissions, catalog: seq<PermissionSpec>)
    ensures var r := EnsurePermissions(perms, catalog);
      && r.Keys == perms.Keys + Names(catalog)
      && (forall n :: n in perms ==> r[n] == perms[n])
      && (forall n :: n in r && n !in perms ==> FirstDescription(catalog, n) == Some(r[n]))
    decreases |catalog|
  {
    if catalog != [] {
      var c := catalog[0];
      var p1 := if c.name in perms then perms else perms[c.name := c.description];
      EnsurePermissionsSpec(p1, catalog[1..]);
      assert Names(catalog) == {c.name} + Names(catalog[1..]);
    }
  }

  /** A table that already has every catalog name is left exactly as it is. */
  lemma {:induction false} EnsurePermissionsNoop(perms: Permissions, catalog: seq<PermissionSpec>)
    requires Names(catalog) <= perms.Keys
    ensures EnsurePermissions(perms, catalog) == perms
    decreases |catalog|
  {
    if catalog != [] {
      assert catalog[0].name in Names(catalog);
      assert Names(catalog[1..]) <= Names(catalog);
      EnsurePermissionsNoop(perms, catalog[1..]);
    }
  }

  /** A second run creates nothing. */
  lemma EnsurePermissionsIdempotent(perms: Permissions, catalog: seq<PermissionSpec>)
    ensures var once := EnsurePermissions(perms, catalog);
      EnsurePermissions(once, catalog) == once
  {
    EnsurePermissionsSpec(perms, catalog);
    EnsurePermissionsNoop(EnsurePermissions(perms, catalog), catalog);
  }

  // ---------------------------------------------------------------------
  // Wholesale replacement of existing roles' permission lists

  /** One configured role and the permission names it should hold. */
  datatype Assignment = Assignment(role: string, permissions: seq<string>)

  /** The names the last assignment for role n lists, if any assignment names n. */
  function LastFor(plan: seq<Assignment>, n: string): Option<seq<string>> {
    if plan == [] then None
    else match LastFor(plan[1..], n)
      case Some(ps) => Some(ps)
      case None => if plan[0].role == n then Some(plan[0].permissions) else None
  }

  lemma {:induction false} LastForNone(plan: seq<Assignment>, n: string)
    requires forall j :: 0 <= j < |plan| ==> plan[j].role != n
    ensures LastFor(plan, n) == None
  {
    if plan != [] {
      LastForNone(plan[1..], n);
    }
  }

  lemma {:induction false} LastForAt(plan: seq<Assignment>, n: string, k: nat)
    requires k < |plan| && plan[k].role == n
    requires forall j :: k < j < |plan| ==> plan[j].role != n
    ensures LastFor(plan, n) == Some(plan[k].permissions)
  {
    if k == 0 {
      LastForNone(plan[1..], n);
    } else {
      LastForAt(plan[1..], n, k - 1);
    }
  }

  /** Clears the list of role a.role, when it exists, and appends the known names of a. */
  function ReplaceOne(roles: Roles, a: Assignment, known: set<string>): Roles {
    if a.role in roles then roles[a.role := roles[a.role].(permissions := Keep(a.permissions, known))]
    else roles
  }

  /** The loop over the plan: every existing role it names gets its list replaced; missing ones are skipped. */
  function ReplaceAll(roles: Roles, plan: seq<Assignment>, known: set<string>): Roles
    decreases |plan|
  {
    if plan == [] then roles else ReplaceAll(ReplaceOne(roles, plan[0], known), plan[1..], known)
  }

  /** What ReplaceAll makes of role n: the known names of its last assignment, or the role untouched. */
  function Replaced(roles: Roles, plan: seq<Assignment>, known: set<string>, n: string): Role
    requires n in roles
  {
    match LastFor(plan, n)
      case None => roles[n]
      case Some(ps) => roles[n].(permissions := Keep(ps, known))
  }

  /**
   * No role is created or deleted; a role named in the plan holds exactly the
   * known names of (the last) assignment for it, in configured order; its id,
   * description and every role not in the plan are unchanged.
   */
  lemma {:induction false} ReplaceAllSpec(roles: Roles, plan: seq<Assignment>, known: set<string>)
    ensures var r := ReplaceAll(roles, plan, known);
      r.Keys == roles.Keys && forall n :: n in roles ==> r[n] == Replaced(roles, plan, known, n)
    decreases |plan|
  {
    if plan != [] {
      var r1 := ReplaceOne(roles, plan[0], known);
      ReplaceAllSpec(r1, plan[1..], known);
    }
  }

  /** ReplaceAllSpec for one role. */
  lemma ReplaceAllRole(roles: Roles, plan: seq<Assignment>, known: set<string>, n: string)
    requires n in roles
    ensures var r := ReplaceAll(roles, plan, known);
      n in r && r[n] == Replaced(roles, plan, known, n)
  {
    ReplaceAllSpec(roles, plan, known);
  }

  /** Running the replacement twice gives the same tables as running it once. */
  lemma ReplaceAllIdempotent(roles: Roles, plan: seq<Assignment>, known: set<string>)
    ensures var once := ReplaceAll(roles, plan, known);
      ReplaceAll(once, plan, known) == once
  {
    var once := ReplaceAll(roles, plan, known);
    var twice := ReplaceAll(once, plan, known);
    ReplaceAllSpec(roles, plan, known);
    ReplaceAllSpec(once, plan, known);
    assert forall n :: n in once ==> twice[n] == once[n];
  }

  // ---------------------------------------------------------------------
  // Upsert of configured roles

  /** One configured role: its code (stored as the role's name), display name, description and permissions. */
  datatype RoleConfig = RoleConfig(code: string, displayName: string, description: string, permissions: seq<string>)

  function Codes(configs: seq<RoleConfig>): set<string> {
    if configs == [] then {} else {configs[0].code} + Codes(configs[1..])
  }

  /** The last configuration for code n; there is one exactly when n is a configured code. */
  function LastConfig(configs: seq<RoleConfig>, n: string): (r: Option<RoleConfig>)
    ensures r.Some? <==> n in Codes(configs)
    ensures r.Some? ==> r.value.code == n && r.value in configs
  {
    if configs == [] then None
    else match LastConfig(configs[1..], n)
      case Some(c) => Some(c)
      case None => if configs[0].code == n then Some(configs[0]) else None
  }

  lemma CodesContain(configs: seq<RoleConfig>, i: nat)
    requires i < |configs|
    ensures configs[i].code in Codes(configs)
  {
    assert LastConfig(configs, configs[i].code).Some? by {
      LastConfigAt(configs, i);
    }
  }

  lemma {:induction false} LastConfigAt(configs: seq<RoleConfig>, i: nat)
    requires i < |configs|
    ensures LastConfig(configs, configs[i].code).Some?
  {
    if i > 0 {
      LastConfigAt(configs[1..], i - 1);
    }
  }

  /** Looks the code up; overwrites description and permissions, or inserts a new role under the code. */
  function Upsert(t: RoleTable, c: RoleConfig, known: set<string>): RoleTable {
    var perms := Keep(c.permissions, known);
    if c.code in t.roles then
      RoleTable(t.roles[c.code := t.roles[c.code].(description := c.description, permissions := perms)], t.nextId)
    else
      RoleTable(t.roles[c.code := Role(t.nextId, c.description, perms)], t.nextId + 1)
  }

  function UpsertAll(t: RoleTable, configs: seq<RoleConfig>, known: set<string>): RoleTable
    decreases |configs|
  {
    if configs == [] then t else UpsertAll(Upsert(t, configs[0], known), configs[1..], known)
  }

  /**
   * After the loop a role exists under every code and under no other new
   * name; an existing role keeps its id, and one whose name is not a code is
   * unchanged.
   */
  lemma {:induction false} UpsertAllFrame(t: RoleTable, configs: seq<RoleConfig>, known: set<string>)
    ensures var r := UpsertAll(t, configs, known);
      && t.nextId <= r.nextId
      && r.roles.Keys == t.roles.Keys + Codes(configs)
      && (forall n :: n in t.roles ==> r.roles[n].id == t.roles[n].id)
      && (forall n :: n in t.roles && n !in Codes(configs) ==> r.roles[n] == t.roles[n])
    decreases |configs|
  {
    if configs != [] {
      UpsertAllFrame(Upsert(t, configs[0], known), configs[1..], known);
    }
  }

  /** New roles get ids from the counter, so ids stay distinct. */
  lemma {:induction false} UpsertAllFresh(t: RoleTable, configs: seq<RoleConfig>, known: set<string>)
    requires ValidTable(t)
    ensures var r := UpsertAll(t, configs, known);
      ValidTable(r) && forall n :: n in r.roles && n !in t.roles ==> t.nextId <= r.roles[n].id
    decreases |configs|
  {
    if configs != [] {
      var t1 := Upsert(t, configs[0], known);
      UpsertAllFresh(t1, configs[1..], known);
      UpsertAllFrame(t1, configs[1..], known);
    }
  }

  /** Every configured code ends up with the description and the known permissions of its last configuration. */
  lemma {:induction false} UpsertAllSets(t: RoleTable, configs: seq<RoleConfig>, known: set<string>)
    ensures var r := UpsertAll(t, configs, known);
      forall n :: n in Codes(configs) ==>
        n in r.roles
        && r.roles[n].description == LastConfig(configs, n).value.description
        && r.roles[n].permissions == Keep(LastConfig(configs, n).value.permissions, known)
    decreases |configs|
  {
    if configs != [] {
      var t1 := Upsert(t, configs[0], known);
      UpsertAllSets(t1, configs[1..], known);
      UpsertAllFrame(t1, configs[1..], known);
    }
  }

  /** Once every code exists, the loop creates nothing and allocates no id. */
  lemma {:induction false} UpsertAllNoCreation(t: RoleTable, configs: seq<RoleConfig>, known: set<string>)
    requires Codes(configs) <= t.roles.Keys
    ensures UpsertAll(t, configs, known).nextId == t.nextId
    decreases |configs|
  {
    if configs != [] {
      UpsertAllNoCreation(Upsert(t, configs[0], known), configs[1..], known);
    }
  }

  /** A second run leaves the tables as the first left them: lookup and creation both use the code. */
  lemma UpsertAllIdempotent(t: RoleTable, configs: seq<RoleConfig>, known: set<string>)
    ensures var once := UpsertAll(t, configs, known);
      UpsertAll(once, configs, known) == once
  {
    var once := UpsertAll(t, configs, known);
    var twice := UpsertAll(once, configs, known);
    UpsertAllFrame(t, configs, known);
    UpsertAllFrame(once, configs, known);
    UpsertAllSets(t, configs, known);
    UpsertAllSets(once, configs, known);
    UpsertAllNoCreation(once, configs, known);
    forall n | n in once.roles ensures twice.roles[n] == once.roles[n] {
    }
  }

  // ---------------------------------------------------------------------
  // Check-then-create of roles

  /** A run of the creation script: the table it leaves, and the code it stopped at, if it stopped. */
  datatype CreateRun = CreateRun(table: RoleTable, aborted: Option<string>)

  /**
   * The creation loop: an entry is skipped when a role is named by its display
   * name; otherwise a role is inserted under the code. Role names are unique,
   * so inserting a code that already names a role fails at the flush, and the
   * script stops with the earlier entries already committed.
   */
  function CreateMissing(t: RoleTable, configs: seq<RoleConfig>, known: set<string>): CreateRun
    decreases |configs|
  {
    if configs == [] then CreateRun(t, None)
    else
      var c := configs[0];
      if c.displayName in t.roles then CreateMissing(t, configs[1..], known)
      else if c.code in t.roles then CreateRun(t, Some(c.code))
      else
        var role := Role(t.nextId, c.description, Keep(c.permissions, known));
        CreateMissing(RoleTable(t.roles[c.code := role], t.nextId + 1), configs[1..], known)
  }

  /** Existing roles are never modified or deleted, and a stop names a configured code that is already a role name. */
  lemma {:induction false} CreateKeepsExisting(t: RoleTable, configs: seq<RoleConfig>, known: set<string>)
    ensures var r := CreateMissing(t, configs, known);
      && t.nextId <= r.table.nextId
      && (forall n :: n in t.roles ==> n in r.table.roles && r.table.roles[n] == t.roles[n])
      && (r.aborted.Some? ==> r.aborted.value in r.table.roles && r.aborted.value in Codes(configs))
    decreases |configs|
  {
    if configs != [] {
      var c := configs[0];
      if c.displayName in t.roles {
        CreateKeepsExisting(t, configs[1..], known);
      } else if c.code !in t.roles {
        var t1 := RoleTable(t.roles[c.code := Role(t.nextId, c.description, Keep(c.permissions, known))], t.nextId + 1);
        CreateKeepsExisting(t1, configs[1..], known);
      }
    }
  }

  /** New roles get ids from the counter, so ids stay distinct. */
  lemma {:induction false} CreateFresh(t: RoleTable, configs: seq<RoleConfig>, known: set<string>)
    requires ValidTable(t)
    ensures var r := CreateMissing(t, configs, known).table;
      ValidTable(r) && forall n :: n in r.roles && n !in t.roles ==> t.nextId <= r.roles[n].id
    decreases |configs|
  {
    if configs != [] {
      var c := configs[0];
      if c.displayName in t.roles {
        CreateFresh(t, configs[1..], known);
      } else if c.code !in t.roles {
        var t1 := RoleTable(t.roles[c.code := Role(t.nextId, c.description, Keep(c.permissions, known))], t.nextId + 1);
        CreateFresh(t1, configs[1..], known);
        CreateKeepsExisting(t1, configs[1..], known);
      }
    }
  }

  /**
   * A configuration that produced role n: its display name named no role of
   * the table before the run, and the role has its code, description and known
   * permissions.
   */
  predicate CreatedFrom(configs: seq<RoleConfig>, known: set<string>, before: Roles, n: string, role: Role) {
    exists c :: c in configs && c.code == n && c.displayName !in before
      && role.description == c.description && role.permissions == Keep(c.permissions, known)
  }

  /**
   * Every new role comes from a configuration whose display name named no role
   * before the run: it is stored under that configuration's code and holds its
   * description and known permissions.
   */
  lemma {:induction false} CreateFromConfigs(t: RoleTable, configs: seq<RoleConfig>, known: set<string>)
    ensures var r := CreateMissing(t, configs, known).table;
      forall n :: n in r.roles && n !in t.roles ==> CreatedFrom(configs, known, t.roles, n, r.roles[n])
    decreases |configs|
  {
    if configs != [] {
      var c := configs[0];
      var rest := configs[1..];
      if c.displayName in t.roles {
        CreateFromConfigs(t, rest, known);
        var r := CreateMissing(t, rest, known).table;
        forall n | n in r.roles && n !in t.roles ensures CreatedFrom(configs, known, t.roles, n, r.roles[n]) {
          CreatedFromMore(rest, configs, known, t.roles, t.roles, n, r.roles[n]);
        }
      } else if c.code !in t.roles {
        var t1 := RoleTable(t.roles[c.code := Role(t.nextId, c.description, Keep(c.permissions, known))], t.nextId + 1);
        CreateFromConfigs(t1, rest, known);
        CreateKeepsExisting(t1, rest, known);
        var r := CreateMissing(t1, rest, known).table;
        forall n | n in r.roles && n !in t.roles ensures CreatedFrom(configs, known, t.roles, n, r.roles[n]) {
          if n == c.code {
            assert r.roles[n] == t1.roles[n];
            assert c in configs;
          } else {
            assert n !in t1.roles;
            CreatedFromMore(rest, configs, known, t.roles, t1.roles, n, r.roles[n]);
          }
        }
      }
    }
  }

  /** A configuration in configs[1..] is one in configs, and a name absent from a larger table is absent from a smaller one. */
  lemma CreatedFromMore(rest: seq<RoleConfig>, configs: seq<RoleConfig>, known: set<string>,
                        before: Roles, later: Roles, n: string, role: Role)
    requires configs != [] && rest == configs[1..]
    requires forall x :: x in before ==> x in later
    requires CreatedFrom(rest, known, later, n, role)
    ensures CreatedFrom(configs, known, before, n, role)
  {
    var c :| c in rest && c.code == n && c.displayName !in later
      && role.description == c.description && role.permissions == Keep(c.permissions, known);
    assert c in configs;
  }

  /** A configuration whose display name already names a role creates nothing: when all do, the run changes nothing. */
  lemma {:induction false} CreateSkipsNamed(t: RoleTable, configs: seq<RoleConfig>, known: set<string>)
    requires forall c :: c in configs ==> c.displayName in t.roles
    ensures CreateMissing(t, configs, known) == CreateRun(t, None)
    decreases |configs|
  {
    if configs != [] {
      assert configs[0] in configs;
      assert forall c :: c in configs[1..] ==> c in configs;
      CreateSkipsNamed(t, configs[1..], known);
    }
  }

  /**
   * The lookup uses the display name but the insert uses the code: after a
   * complete run in which the first display name never became a role name, a
   * second run stops at the first code, which the first run created.
   */
  lemma CreateRerunStops(t: RoleTable, configs: seq<RoleConfig>, known: set<string>)
    requires configs != []
    requires CreateMissing(t, configs, known).aborted.None?
    requires configs[0].displayName !in CreateMissing(t, configs, known).table.roles
    ensures var once := CreateMissing(t, configs, known).table;
      CreateMissing(once, configs, known) == CreateRun(once, Some(configs[0].code))
  {
    var c := configs[0];
    CreateKeepsExisting(t, configs, known);
    if c.code !in t.roles {
      var t1 := RoleTable(t.roles[c.code := Role(t.nextId, c.description, Keep(c.permissions, known))], t.nextId + 1);
      CreateKeepsExisting(t1, configs[1..], known);
    }
  }

  // ---------------------------------------------------------------------
  // Guarded deletion

  /** Some user's role_id is id. */
  predicate InUse(users: Users, id: nat) {
    exists u :: u in users && users[u] == Some(id)
  }

  /** Deletes role name when it exists and no user refers to it. */
  function DeleteIfUnused(roles: Roles, users: Users, name: string): Roles {
    if name in roles && !InUse(users, roles[name].id) then roles - {name} else roles
  }

  function DeleteAllUnused(roles: Roles, users: Users, names: seq<string>): Roles
    decreases |names|
  {
    if names == [] then roles else DeleteAllUnused(DeleteIfUnused(roles, users, names[0]), users, names[1..])
  }

  /**
   * A role disappears exactly when it is a candidate and no user refers to it;
   * every remaining role is unchanged.
   */
  lemma {:induction false} DeleteAllSpec(roles: Roles, users: Users, names: seq<string>)
    ensures var r := DeleteAllUnused(roles, users, names);
      && (forall n :: n in r ==> n in roles && r[n] == roles[n])
      && (forall n :: n in roles ==> (n !in r <==> n in names && !InUse(users, roles[n].id)))
    decreases |names|
  {
    if names != [] {
      DeleteAllSpec(DeleteIfUnused(roles, users, names[0]), users, names[1..]);
      assert forall n :: n in names <==> n == names[0] || n in names[1..];
    }
  }

  /** A second run deletes nothing more. */
  lemma DeleteAllIdempotent(roles: Roles, users: Users, names: seq<string>)
    ensures var once := DeleteAllUnused(roles, users, names);
      DeleteAllUnused(once, users, names) == once
  {
    var once := DeleteAllUnused(roles, users, names);
    DeleteAllSpec(roles, users, names);
    DeleteAllSpec(once, users, names);
    var twice := DeleteAllUnused(once, users, names);
    assert twice.Keys == once.Keys;
  }

  /** Every user's role_id names an existing role. */
  predicate RolesResolve(roles: Roles, users: Users) {
    forall u :: u in users && users[u].Some? ==> exists n :: n in roles && roles[n].id == users[u].value
  }

  /** Guarded deletion never leaves a user pointing at a deleted role. */
  lemma DeleteAllKeepsReferences(roles: Roles, users: Users, names: seq<string>)
    requires RolesResolve(roles, users)
    ensures RolesResolve(DeleteAllUnused(roles, users, names), users)
  {
    var r := DeleteAllUnused(roles, users, names);
    DeleteAllSpec(roles, users, names);
    forall u | u in users && users[u].Some? ensures exists n :: n in r && r[n].id == users[u].value {
      var n :| n in roles && roles[n].id == users[u].value;
      assert InUse(users, roles[n].id);
      assert n in r;
    }
  }

  // ---------------------------------------------------------------------
  // Moving user Admin to role_super_admin, then deleting role admin

  const AdminUser := "Admin"
  const SuperAdminRole := "role_super_admin"
  const OldAdminRole := "admin"

  /** Admin's role_id becomes the super-admin role's id, when both exist. */
  function ReassignAdmin(users: Users, roles: Roles): Users {
    if AdminUser in users && SuperAdminRole in roles then users[AdminUser := Some(roles[SuperAdminRole].id)]
    else users
  }

  datatype UserRoles = UserRoles(roles: Roles, users: Users)

  /** The whole script: the reassignment, then the guarded deletion of role admin, checked afterwards. */
  function UpdateAdminRole(roles: Roles, users: Users): UserRoles {
    var users1 := ReassignAdmin(users, roles);
    UserRoles(DeleteIfUnused(roles, users1, OldAdminRole), users1)
  }

  /**
   * Admin moves to role_super_admin exactly when both exist, and no other
   * user changes; role admin goes exactly when it exists and nobody refers to
   * it after the move; no other role goes or changes.
   */
  lemma UpdateAdminRoleSpec(roles: Roles, users: Users)
    ensures var r := UpdateAdminRole(roles, users);
      && r.users.Keys == users.Keys
      && (forall u :: u in users && u != AdminUser ==> r.users[u] == users[u])
      && (AdminUser in users && SuperAdminRole in roles ==> r.users[AdminUser] == Some(roles[SuperAdminRole].id))
      && (!(AdminUser in users && SuperAdminRole in roles) ==> r.users == users)
      && (forall n :: n in r.roles ==> n in roles && r.roles[n] == roles[n])
      && (forall n :: n in roles && n != OldAdminRole ==> n in r.roles)
      && (OldAdminRole in roles ==> (OldAdminRole !in r.roles <==> !InUse(r.users, roles[OldAdminRole].id)))
  {
  }

  /**
   * When Admin was the only user of role admin and role_super_admin exists
   * (with its own id), role admin is deleted in the same run.
   */
  lemma UpdateAdminRoleFreesAdmin(roles: Roles, users: Users)
    requires forall a, b :: a in roles && b in roles && a != b ==> roles[a].id != roles[b].id
    requires SuperAdminRole in roles && OldAdminRole in roles
    requires AdminUser in users && users[AdminUser] == Some(roles[OldAdminRole].id)
    requires forall u :: u in users && u != AdminUser ==> users[u] != Some(roles[OldAdminRole].id)
    ensures OldAdminRole !in UpdateAdminRole(roles, users).roles
  {
    var r := UpdateAdminRole(roles, users);
    assert roles[SuperAdminRole].id != roles[OldAdminRole].id;
    assert !InUse(r.users, roles[OldAdminRole].id);
  }
}
