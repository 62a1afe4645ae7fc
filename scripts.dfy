/**
 * The administration scripts as they run against the role, permission and
 * user tables: each script is a method with the script's own loops, proved
 * equal to the table function of module Access that specifies it, over the
 * configuration the script hard-codes.
 */
module Scripts {
  import opened Wrappers
  import opened Access

  /** The permissions update_permissions.py gets or creates, in order. */
  const Catalog: seq<PermissionSpec> := [
    PermissionSpec("system:config", "系统配置"),
    PermissionSpec("user:*", "用户管理"),
    PermissionSpec("role:assign", "分配角色"),
    PermissionSpec("file:edit_remark", "编辑文件备注"),
    PermissionSpec("file:download", "下载文件"),
    PermissionSpec("file:view", "浏览文件"),
    PermissionSpec("file:details", "查看Hash等详情"),
    PermissionSpec("file:upload", "上传文件"),
    PermissionSpec("file:delete_own", "删除自己上传的"),
    PermissionSpec("file:edit_metadata", "编辑文件属性-仅自有"),
    PermissionSpec("file:share", "生成分享链接"),
    PermissionSpec("stats:view", "查看统计"),
    PermissionSpec("audit:view", "查看审计"),
    PermissionSpec("*", "所有权限 (系统最高权限)")
  ]

  /** The role lists update_permissions.py assigns, in dictionary order. */
  const PermissionPlan: seq<Assignment> := [
    Assignment(SuperAdminRole, ["*"]),
    Assignment("role_admin", ["system:config", "user:*", "role:assign", "file:edit_remark", "file:download",
                              "file:view", "file:details", "stats:view", "audit:view"]),
    Assignment("role_ops", ["file:upload", "file:download", "file:delete_own", "file:edit_metadata",
                            "file:edit_remark", "file:view", "file:details", "file:share", "stats:view",
                            "audit:view"]),
    Assignment("role_tester", ["file:download", "file:delete_own", "file:edit_metadata", "file:edit_remark",
                               "file:view", "file:details", "file:share", "stats:view", "audit:view"]),
    Assignment("role_visitor", ["file:edit_remark", "file:view", "stats:view", "audit:view"])
  ]

  /** The roles check_and_fix_roles.py upserts. */
  const FixConfigs: seq<RoleConfig> := [
    RoleConfig(SuperAdminRole, "超级管理员", "超级管理员 (Super Admin)", ["*"]),
    RoleConfig("role_admin", "管理员", "管理员 (Administrator)",
               ["system:config", "user:*", "role:assign", "file:edit_remark", "file:download", "file:view",
                "file:details", "stats:view", "audit:view"]),
    RoleConfig("role_tester", "测试群组", "测试群组 (QA / Tester)",
               ["file:upload", "file:download", "file:delete_own", "file:edit_metadata", "file:edit_remark",
                "file:view", "file:details", "file:share", "stats:view", "audit:view"]),
    RoleConfig("role_ops", "运维群组", "运维群组 (Operations)",
               ["file:download", "file:delete_own", "file:edit_metadata", "file:edit_remark", "file:view",
                "file:details", "file:share", "stats:view", "audit:view"]),
    RoleConfig("role_visitor", "访客群组", "访客群组 (Visitor)",
               ["file:edit_remark", "file:view", "stats:view", "audit:view"])
  ]

  /** The role lists update_roles_corrected.py assigns to existing roles. */
  const CorrectedPlan: seq<Assignment> := [
    Assignment(SuperAdminRole, ["*"]),
    Assignment("role_admin", ["system:config", "user:*", "role:assign", "file:edit_remark",
                              "file:edit_metadata", "file:download", "file:view", "file:details",
                              "stats:view", "audit:view"]),
    Assignment("role_tester", ["file:upload", "file:download", "file:view", "file:details", "file:delete_own",
                               "file:edit_metadata", "file:edit_remark", "file:share", "stats:view",
                               "audit:view"]),
    Assignment("role_ops", ["file:edit_remark", "file:download", "file:view", "file:details"]),
    Assignment("role_visitor", ["file:edit_remark", "file:view", "stats:view"])
  ]

  /** The roles create_roles.py creates when their display name is not a role name. */
  const CreateConfigs: seq<RoleConfig> := [
    RoleConfig(SuperAdminRole, "超级管理员", "超级管理员 (Super Admin)",
               ["upload", "download", "view_analytics", "manage_users", "manage_roles"]),
    RoleConfig("role_admin", "管理员", "管理员 (Administrator)",
               ["upload", "download", "view_analytics", "manage_users", "manage_roles"]),
    RoleConfig("role_tester", "测试群组", "测试群组 (QA / Tester)", ["download", "view_analytics"]),
    RoleConfig("role_ops", "运维群组", "运维群组 (Operations)", ["upload", "download", "view_analytics"]),
    RoleConfig("role_visitor", "访客群组", "访客群组 (Visitor)", ["view_analytics"])
  ]

  /** The roles delete_default_roles.py tries to delete. */
  const DefaultRoles: seq<string> := [OldAdminRole, "user"]

  /** The permission, role and user tables, with the id the next inserted role receives. */
  class AccessStore {
    var permissions: Permissions
    var roles: Roles
    var users: Users
    var nextRoleId: nat

    ghost predicate Valid()
      reads this
    {
      ValidTable(RoleTable(roles, nextRoleId))
    }

    constructor (permissions: Permissions, roles: Roles, users: Users, nextRoleId: nat)
      requires ValidTable(RoleTable(roles, nextRoleId))
      ensures Valid()
      ensures this.permissions == permissions && this.roles == roles && this.users == users
      ensures this.nextRoleId == nextRoleId
    {
      this.permissions := permissions;
      this.roles := roles;
      this.users := users;
      this.nextRoleId := nextRoleId;
    }

    /** update_permissions.py: get or create each catalog permission, then reassign the five roles' lists. */
    method UpdatePermissions()
      requires Valid()
      modifies this
      ensures Valid()
      ensures permissions == EnsurePermissions(old(permissions), Catalog)
      ensures roles == ReplaceAll(old(roles), PermissionPlan, Names(Catalog))
      ensures users == old(users) && nextRoleId == old(nextRoleId)
    {
      EnsureCatalog(Catalog);
      // created_permissions ends up holding every catalog name, new or reused.
      var created := Names(Catalog);
      // The five roles are looked up before the loop; the loop neither adds nor removes roles.
      ReplaceRolePermissions(PermissionPlan, created);
    }

    /** The get-or-create loop over a catalog. */
    method EnsureCatalog(catalog: seq<PermissionSpec>)
      requires Valid()
      modifies this
      ensures Valid()
      ensures permissions == EnsurePermissions(old(permissions), catalog)
      ensures roles == old(roles) && users == old(users) && nextRoleId == old(nextRoleId)
    {
      var i := 0;
      while i < |catalog|
        invariant 0 <= i <= |catalog|
        invariant roles == old(roles) && users == old(users) && nextRoleId == old(nextRoleId)
        invariant EnsurePermissions(permissions, catalog[i..]) == EnsurePermissions(old(permissions), catalog)
      {
        assert catalog[i..][1..] == catalog[i + 1..];
        var spec := catalog[i];
        if spec.name !in permissions {
          permissions := permissions[spec.name := spec.description];
        }
        i := i + 1;
      }
      assert catalog[i..] == [];
    }

    /** update_roles_corrected.py: replace the lists of the existing configured roles. */
    method UpdateRolesCorrected()
      requires Valid()
      modifies this
      ensures Valid()
      ensures roles == ReplaceAll(old(roles), CorrectedPlan, old(permissions).Keys)
      ensures permissions == old(permissions) && users == old(users) && nextRoleId == old(nextRoleId)
    {
      ReplaceRolePermissions(CorrectedPlan, permissions.Keys);
    }

    /** The shared loop: clear each existing planned role's list and append its known names; skip missing roles. */
    method ReplaceRolePermissions(plan: seq<Assignment>, known: set<string>)
      requires Valid()
      modifies this
      ensures Valid()
      ensures roles == ReplaceAll(old(roles), plan, known)
      ensures permissions == old(permissions) && users == old(users) && nextRoleId == old(nextRoleId)
    {
      ReplaceAllSpec(roles, plan, known);
      var j := 0;
      while j < |plan|
        invariant 0 <= j <= |plan|
        invariant permissions == old(permissions) && users == old(users) && nextRoleId == old(nextRoleId)
        invariant ReplaceAll(roles, plan[j..], known) == ReplaceAll(old(roles), plan, known)
      {
        assert plan[j..][1..] == plan[j + 1..];
        var a := plan[j];
        if a.role in roles {
          var kept := KeepKnown(a.permissions, known);
          roles := roles[a.role := roles[a.role].(permissions := kept)];
        }
        j := j + 1;
      }
      assert plan[j..] == [];
    }

    /** check_and_fix_roles.py: the upsert loop over its five configured roles. */
    method CheckAndFixRoles()
      requires Valid()
      modifies this
      ensures Valid()
      ensures RoleTable(roles, nextRoleId) == UpsertAll(RoleTable(old(roles), old(nextRoleId)), FixConfigs, old(permissions).Keys)
      ensures permissions == old(permissions) && users == old(users)
    {
      UpsertRoles(FixConfigs);
    }

    /** Looks each code up; overwrites the role's description and list, or creates the role under the code. */
    method UpsertRoles(configs: seq<RoleConfig>)
      requires Valid()
      modifies this
      ensures Valid()
      ensures RoleTable(roles, nextRoleId) == UpsertAll(RoleTable(old(roles), old(nextRoleId)), configs, old(permissions).Keys)
      ensures permissions == old(permissions) && users == old(users)
    {
      UpsertAllFresh(RoleTable(roles, nextRoleId), configs, permissions.Keys);
      var known := permissions.Keys;
      var k := 0;
      while k < |configs|
        invariant 0 <= k <= |configs|
        invariant permissions == old(permissions) && users == old(users)
        invariant UpsertAll(RoleTable(roles, nextRoleId), configs[k..], known)
               == UpsertAll(RoleTable(old(roles), old(nextRoleId)), configs, known)
      {
        assert configs[k..][1..] == configs[k + 1..];
        ghost var before := RoleTable(roles, nextRoleId);
        var c := configs[k];
        var kept := KeepKnown(c.permissions, known);
        if c.code in roles {
          roles := roles[c.code := roles[c.code].(description := c.description, permissions := kept)];
        } else {
          roles := roles[c.code := Role(nextRoleId, c.description, kept)];
          nextRoleId := nextRoleId + 1;
        }
        assert RoleTable(roles, nextRoleId) == Upsert(before, c, known);
        k := k + 1;
      }
      assert configs[k..] == [];
    }

    /** create_roles.py: the check-then-create loop over its five configured roles. */
    method CreateRoles() returns (stoppedAt: Option<string>)
      requires Valid()
      modifies this
      ensures Valid()
      ensures CreateRun(RoleTable(roles, nextRoleId), stoppedAt)
           == CreateMissing(RoleTable(old(roles), old(nextRoleId)), CreateConfigs, old(permissions).Keys)
      ensures permissions == old(permissions) && users == old(users)
    {
      stoppedAt := CreateRolesFrom(CreateConfigs);
    }

    /**
     * Creates each configured role whose display name is not a role name,
     * under its code. Returns the code whose insert violates the unique role
     * name, which ends the run.
     */
    method CreateRolesFrom(configs: seq<RoleConfig>) returns (stoppedAt: Option<string>)
      requires Valid()
      modifies this
      ensures Valid()
      ensures CreateRun(RoleTable(roles, nextRoleId), stoppedAt)
           == CreateMissing(RoleTable(old(roles), old(nextRoleId)), configs, old(permissions).Keys)
      ensures permissions == old(permissions) && users == old(users)
    {
      CreateFresh(RoleTable(roles, nextRoleId), configs, permissions.Keys);
      var known := permissions.Keys;
      var k := 0;
      while k < |configs|
        invariant 0 <= k <= |configs|
        invariant permissions == old(permissions) && users == old(users)
        invariant CreateMissing(RoleTable(roles, nextRoleId), configs[k..], known)
               == CreateMissing(RoleTable(old(roles), old(nextRoleId)), configs, known)
      {
        assert configs[k..][1..] == configs[k + 1..];
        var c := configs[k];
        if c.displayName !in roles {
          if c.code in roles {
            return Some(c.code);
          }
          var kept := KeepKnown(c.permissions, known);
          roles := roles[c.code := Role(nextRoleId, c.description, kept)];
          nextRoleId := nextRoleId + 1;
        }
        k := k + 1;
      }
      assert configs[k..] == [];
      return None;
    }

    /** The guarded delete: role name goes when it exists and no user's role_id is its id. */
    method DeleteRoleIfUnused(name: string)
      requires Valid()
      modifies this
      ensures Valid()
      ensures roles == DeleteIfUnused(old(roles), users, name)
      ensures permissions == old(permissions) && users == old(users) && nextRoleId == old(nextRoleId)
    {
      if name in roles {
        var inUse := InUse(users, roles[name].id);
        if !inUse {
          roles := roles - {name};
        }
      }
    }

    /** delete_default_roles.py: the guarded delete of roles admin and user. */
    method DeleteDefaultRoles()
      requires Valid()
      modifies this
      ensures Valid()
      ensures roles == DeleteAllUnused(old(roles), users, DefaultRoles)
      ensures permissions == old(permissions) && users == old(users) && nextRoleId == old(nextRoleId)
    {
      DeleteRoles(DefaultRoles);
    }

    /** The guarded delete of each named role in turn. */
    method DeleteRoles(names: seq<string>)
      requires Valid()
      modifies this
      ensures Valid()
      ensures roles == DeleteAllUnused(old(roles), users, names)
      ensures permissions == old(permissions) && users == old(users) && nextRoleId == old(nextRoleId)
    {
      var k := 0;
      while k < |names|
        invariant 0 <= k <= |names|
        invariant Valid()
        invariant permissions == old(permissions) && users == old(users) && nextRoleId == old(nextRoleId)
        invariant DeleteAllUnused(roles, users, names[k..]) == DeleteAllUnused(old(roles), users, names)
      {
        assert names[k..][1..] == names[k + 1..];
        DeleteRoleIfUnused(names[k]);
        k := k + 1;
      }
      assert names[k..] == [];
    }

    /** update_admin_role.py: move user Admin to role_super_admin, then the guarded delete of role admin. */
    method UpdateAdminRoleScript()
      requires Valid()
      modifies this
      ensures Valid()
      ensures UserRoles(roles, users) == UpdateAdminRole(old(roles), old(users))
      ensures permissions == old(permissions) && nextRoleId == old(nextRoleId)
    {
      if AdminUser in users {
        if SuperAdminRole in roles {
          users := users[AdminUser := Some(roles[SuperAdminRole].id)];
        }
      }
      DeleteRoleIfUnused(OldAdminRole);
    }
  }

  // ---------------------------------------------------------------------
  // Facts about the hard-coded configurations

  /** update_permissions.py plans the wildcard alone for role_super_admin, and the wildcard is in its catalog. */
  lemma SuperAdminPlan()
    ensures LastFor(PermissionPlan, SuperAdminRole) == Some(["*"])
    ensures Keep(["*"], Names(Catalog)) == ["*"]
  {
    LastForAt(PermissionPlan, SuperAdminRole, 0);
    assert Catalog[13].name == "*";
    KeepAllKnown(["*"], Names(Catalog));
  }

  /** After update_permissions.py an existing role_super_admin holds exactly the wildcard permission. */
  lemma SuperAdminHoldsOnlyWildcard(roles: Roles)
    requires SuperAdminRole in roles
    ensures var r := ReplaceAll(roles, PermissionPlan, Names(Catalog));
      SuperAdminRole in r && r[SuperAdminRole] == roles[SuperAdminRole].(permissions := ["*"])
  {
    ReplaceAllRole(roles, PermissionPlan, Names(Catalog), SuperAdminRole);
    SuperAdminPlan();
  }

  /** After check_and_fix_roles.py a role exists under each of the five codes. */
  lemma FixCreatesAllCodes(t: RoleTable, known: set<string>)
    ensures var r := UpsertAll(t, FixConfigs, known).roles;
      SuperAdminRole in r && "role_admin" in r && "role_tester" in r && "role_ops" in r && "role_visitor" in r
  {
    UpsertAllFrame(t, FixConfigs, known);
    CodesContain(FixConfigs, 0);
    CodesContain(FixConfigs, 1);
    CodesContain(FixConfigs, 2);
    CodesContain(FixConfigs, 3);
    CodesContain(FixConfigs, 4);
  }

  /** Every catalog name is the wildcard or has a colon between a resource and an action. */
  lemma CatalogNamesShape()
    ensures forall n :: n in Names(Catalog) ==> n == "*" || ':' in n
  {
    assert forall i :: 0 <= i < |Catalog| ==> Catalog[i].name == "*" || ':' in Catalog[i].name;
  }

  /** A list of names with no wildcard and no colon keeps nothing of the catalog. */
  lemma OutsideCatalog(names: seq<string>)
    requires forall x :: x in names ==> x != "*" && ':' !in x
    ensures Keep(names, Names(Catalog)) == []
  {
    CatalogNamesShape();
    KeepNoneKnown(names, Names(Catalog));
  }

  /** create_roles.py names its permissions without a colon and never uses the wildcard. */
  lemma CreateConfigsNamesShape()
    ensures forall c, x :: c in CreateConfigs && x in c.permissions ==> x != "*" && ':' !in x
  {
  }

  /** None of the names create_roles.py configures is in the catalog of update_permissions.py. */
  lemma CreateConfigsUnknown()
    ensures forall c :: c in CreateConfigs ==> Keep(c.permissions, Names(Catalog)) == []
  {
    CreateConfigsNamesShape();
    forall c | c in CreateConfigs ensures Keep(c.permissions, Names(Catalog)) == [] {
      OutsideCatalog(c.permissions);
    }
  }

  /** Against the catalog of update_permissions.py, every role create_roles.py creates has an empty permission list. */
  lemma CreateRolesGrantNothing(t: RoleTable)
    ensures var r := CreateMissing(t, CreateConfigs, Names(Catalog)).table.roles;
      forall n :: n in r && n !in t.roles ==> r[n].permissions == []
  {
    CreateConfigsUnknown();
    CreateFromConfigs(t, CreateConfigs, Names(Catalog));
  }

  /**
   * create_roles.py is not idempotent: when no role is named 超级管理员 and a
   * run completes, the next run stops at role_super_admin, which the first
   * run left behind.
   */
  lemma CreateRolesRerunStops(t: RoleTable, known: set<string>)
    requires CreateConfigs[0].displayName !in t.roles
    requires CreateMissing(t, CreateConfigs, known).aborted.None?
    ensures var once := CreateMissing(t, CreateConfigs, known).table;
      CreateMissing(once, CreateConfigs, known) == CreateRun(once, Some(SuperAdminRole))
  {
    var once := CreateMissing(t, CreateConfigs, known).table;
    var d := CreateConfigs[0].displayName;
    CreateKeepsExisting(t, CreateConfigs, known);
    CreateFromConfigs(t, CreateConfigs, known);
    assert d !in once.roles;
    CreateRerunStops(t, CreateConfigs, known);
  }
}
