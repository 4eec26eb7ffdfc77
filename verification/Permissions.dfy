/** The permission check, its scope order, and the keys the built-in roles start with. */
module Permissions {
  import opened Prelude
  import opened Splitting

  const PLATFORM_ADMIN := "platform:admin"
  const ALL := "all"
  const TENANT := "tenant"
  const DEPARTMENT := "department"
  const OWN := "own"

  /** An unknown scope counts as zero. */
  function ScopeOrder(scope: string): nat {
    if scope == ALL then 4
    else if scope == TENANT then 3
    else if scope == DEPARTMENT then 2
    else if scope == OWN then 1
    else 0
  }

  predicate ScopeCovers(granted: string, required: string) {
    granted == required || ScopeOrder(granted) >= ScopeOrder(required)
  }

  /** Covering is a total preorder on all scopes, known or not. */
  lemma ScopeCoversIsTotalPreorder(a: string, b: string, c: string)
    ensures ScopeCovers(a, a)
    ensures ScopeCovers(a, b) || ScopeCovers(b, a)
    ensures ScopeCovers(a, b) && ScopeCovers(b, c) ==> ScopeCovers(a, c)
  {
  }

  /** The known scopes in strictly falling order; an unknown scope is covered by all and covers only unknown ones. */
  lemma ScopeChain(unknown: string)
    requires unknown != ALL && unknown != TENANT && unknown != DEPARTMENT && unknown != OWN
    ensures ScopeCovers(ALL, TENANT) && !ScopeCovers(TENANT, ALL)
    ensures ScopeCovers(TENANT, DEPARTMENT) && !ScopeCovers(DEPARTMENT, TENANT)
    ensures ScopeCovers(DEPARTMENT, OWN) && !ScopeCovers(OWN, DEPARTMENT)
    ensures ScopeCovers(OWN, unknown) && !ScopeCovers(unknown, OWN)
  {
    assert |ALL| == 3 && |TENANT| == 6 && |DEPARTMENT| == 10 && |OWN| == 3;
    assert ALL[0] != OWN[0];
  }

  /** Whether one permission of the user's satisfies the requirement. */
  predicate Grants(p: string, resource: string, action: string, scope: string) {
    p == PLATFORM_ADMIN ||
    var parts := SplitN(p, ':', 3);
    if |parts| >= 3 then parts[0] == resource && parts[1] == action && ScopeCovers(parts[2], scope)
    else |parts| == 2 && parts[0] == resource && parts[1] == action && ScopeCovers(TENANT, scope)
  }

  predicate HasPermission(perms: seq<string>, resource: string, action: string, scope: string) {
    exists i | 0 <= i < |perms| :: Grants(perms[i], resource, action, scope)
  }

  method CheckPermission(perms: seq<string>, resource: string, action: string, scope: string) returns (r: bool)
    ensures r <==> HasPermission(perms, resource, action, scope)
  {
    for i := 0 to |perms|
      invariant forall j | 0 <= j < i :: !Grants(perms[j], resource, action, scope)
    {
      if perms[i] == PLATFORM_ADMIN {
        return true;
      }
      var parts := SplitN(perms[i], ':', 3);
      var ps;
      if |parts| >= 3 {
        ps := parts[2];
      } else if |parts| == 2 {
        ps := TENANT;
      } else {
        continue;
      }
      if parts[0] == resource && parts[1] == action && ScopeCovers(ps, scope) {
        return true;
      }
    }
    return false;
  }

  /** More keys, in any order, and a narrower required scope never lose a permission. */
  lemma HasPermissionIsMonotone(
      perms: seq<string>, more: seq<string>, resource: string, action: string, scope: string, narrower: string)
    requires forall p | p in perms :: p in more
    requires ScopeCovers(scope, narrower) && HasPermission(perms, resource, action, scope)
    ensures HasPermission(more, resource, action, narrower)
  {
    var i :| 0 <= i < |perms| && Grants(perms[i], resource, action, scope);
    assert perms[i] in more;
    var j :| 0 <= j < |more| && more[j] == perms[i];
    assert Grants(more[j], resource, action, narrower);
  }

  function Key(resource: string, action: string, scope: string): string {
    Join([resource, action, scope], ':')
  }

  /** A key grants exactly its resource and action, at its scope and the narrower ones. */
  lemma KeyGrants(r: string, a: string, s: string, resource: string, action: string, scope: string)
    requires ':' !in r && ':' !in a
    ensures Key(r, a, s) != PLATFORM_ADMIN ==>
      (Grants(Key(r, a, s), resource, action, scope) <==> r == resource && a == action && ScopeCovers(s, scope))
  {
    var rest := Join([a, s], ':');
    assert [r, a, s][1..] == [a, s] && [a, s][1..] == [s];
    assert Join([s], ':') == s;
    assert rest == a + [':'] + s;
    CutOfJoined(r, rest, ':');
    CutOfJoined(a, s, ':');
    assert SplitN(s, ':', 1) == [s];
    assert SplitN(rest, ':', 2) == [a, s];
    assert SplitN(Key(r, a, s), ':', 3) == [r] + [a, s];
  }

  /** A key of two parts counts as tenant-wide; one without a colon grants nothing. */
  lemma ShortKeyGrants(r: string, a: string, resource: string, action: string, scope: string)
    requires ':' !in r && ':' !in a
    ensures r + [':'] + a != PLATFORM_ADMIN ==>
      (Grants(r + [':'] + a, resource, action, scope) <==> r == resource && a == action && ScopeCovers(TENANT, scope))
    ensures r != PLATFORM_ADMIN ==> !Grants(r, resource, action, scope)
  {
    CutOfJoined(r, a, ':');
    CutOfFree(a, ':');
    CutOfFree(r, ':');
    assert SplitN(a, ':', 2) == [a];
    assert SplitN(r + [':'] + a, ':', 3) == [r] + [a];
    assert SplitN(r, ':', 3) == [r];
  }

  // ----- Built-in roles

  datatype SystemPermission = SystemPermission(key: string, action: string, scope: string, level: string)

  datatype Role = PlatformAdmin | TenantAdmin | TenantAuditor | UserSelf

  function RoleName(role: Role): string {
    match role
    case PlatformAdmin => "platform:admin"
    case TenantAdmin => "tenant:admin"
    case TenantAuditor => "tenant:auditor"
    case UserSelf => "user:self"
  }

  const LEVEL_TENANT := "tenant"

  predicate ReadOnly(action: string) {
    action == "read" || action == "read_integrity" || action == "export"
  }

  predicate Receives(role: Role, sp: SystemPermission) {
    match role
    case PlatformAdmin => true
    case TenantAdmin => sp.level == LEVEL_TENANT
    case TenantAuditor => sp.level == LEVEL_TENANT && ReadOnly(sp.action)
    case UserSelf => sp.scope == OWN
  }

  /** The keys of the permissions a role receives, in the order of the table. */
  function RoleKeys(role: Role, sps: seq<SystemPermission>): seq<string> {
    if sps == [] then []
    else
      var last := sps[|sps| - 1];
      RoleKeys(role, sps[..|sps| - 1]) + if Receives(role, last) then [last.key] else []
  }

  /** `result[role] = append(result[role], key)` */
  function Append(result: map<string, seq<string>>, role: string, key: string): map<string, seq<string>> {
    result[role := (if role in result then result[role] else []) + [key]]
  }

  /** The map holds these keys for the role; a role without keys is absent. */
  predicate Holds(result: map<string, seq<string>>, role: Role, keys: seq<string>) {
    if keys == [] then RoleName(role) !in result
    else RoleName(role) in result && result[RoleName(role)] == keys
  }

  predicate HoldsRoleKeys(result: map<string, seq<string>>, sps: seq<SystemPermission>) {
    forall role: Role :: Holds(result, role, RoleKeys(role, sps))
  }

  predicate OnlyRoles(result: map<string, seq<string>>) {
    forall name | name in result :: exists role: Role :: name == RoleName(role)
  }

  lemma RoleNamesDiffer(a: Role, b: Role)
    ensures RoleName(a) == RoleName(b) ==> a == b
  {
    var n := RoleName(a);
    match a
    case PlatformAdmin => assert |n| == 14;
    case TenantAdmin => assert |n| == 12 && n[0] == 't';
    case TenantAuditor => assert |n| == 14 && n[0] == 't';
    case UserSelf => assert |n| == 9;
  }

  method DefaultRolePermissionKeys(sps: seq<SystemPermission>) returns (result: map<string, seq<string>>)
    ensures HoldsRoleKeys(result, sps)
    ensures OnlyRoles(result)
  {
    result := map[];
    for i := 0 to |sps|
      invariant HoldsRoleKeys(result, sps[..i])
      invariant OnlyRoles(result)
    {
      result := AddPermission(result, sps[..i], sps[i]);
      assert sps[..i] + [sps[i]] == sps[..i + 1];
    }
    assert sps[..|sps|] == sps;
  }

  lemma AppendHolds(result: map<string, seq<string>>, to: Role, key: string, role: Role, keys: seq<string>)
    requires Holds(result, role, keys)
    ensures Holds(Append(result, RoleName(to), key), role, if role == to then keys + [key] else keys)
  {
    RoleNamesDiffer(role, to);
  }

  /** `if receives { result[role] = append(result[role], key) }` */
  method AppendIf(receives: bool, before: map<string, seq<string>>, to: Role, key: string)
    returns (result: map<string, seq<string>>)
    ensures receives ==> result == Append(before, RoleName(to), key)
    ensures !receives ==> result == before
    ensures OnlyRoles(before) ==> OnlyRoles(result)
    ensures forall role: Role, keys | Holds(before, role, keys) ::
      Holds(result, role, if role == to && receives then keys + [key] else keys)
  {
    result := before;
    if receives {
      result := Append(before, RoleName(to), key);
      forall role: Role, keys | Holds(before, role, keys)
        ensures Holds(result, role, if role == to then keys + [key] else keys)
      {
        AppendHolds(before, to, key, role, keys);
      }
    }
  }

  /** One turn of the loop. */
  method AddPermission(before: map<string, seq<string>>, ghost done: seq<SystemPermission>, sp: SystemPermission)
    returns (result: map<string, seq<string>>)
    requires HoldsRoleKeys(before, done)
    ensures HoldsRoleKeys(result, done + [sp])
    ensures OnlyRoles(before) ==> OnlyRoles(result)
  {
    var tenant := sp.level == LEVEL_TENANT;
    result := AppendIf(true, before, PlatformAdmin, sp.key);
    result := AppendIf(tenant, result, TenantAdmin, sp.key);
    result := AppendIf(tenant && ReadOnly(sp.action), result, TenantAuditor, sp.key);
    result := AppendIf(sp.scope == OWN, result, UserSelf, sp.key);
    assert (done + [sp])[..|done|] == done;
    forall role: Role
      ensures Holds(result, role, RoleKeys(role, done + [sp]))
    {
      assert Holds(before, role, RoleKeys(role, done));
      assert RoleKeys(role, done + [sp]) == RoleKeys(role, done) + if Receives(role, sp) then [sp.key] else [];
    }
  }

  // ----- Who gets what

  /** Permission `i` of the table has this key and goes to the role. */
  predicate Gives(role: Role, sps: seq<SystemPermission>, i: int, key: string) {
    0 <= i < |sps| && sps[i].key == key && Receives(role, sps[i])
  }

  lemma {:induction false} RoleKeysMeaning(role: Role, sps: seq<SystemPermission>, key: string)
    ensures key in RoleKeys(role, sps) <==> exists i :: Gives(role, sps, i, key)
  {
    if sps != [] {
      var n := |sps| - 1;
      RoleKeysMeaning(role, sps[..n], key);
      assert forall i | 0 <= i < n :: Gives(role, sps[..n], i, key) <==> Gives(role, sps, i, key);
      if i :| Gives(role, sps, i, key) {
        assert i < n ==> Gives(role, sps[..n], i, key);
      }
      if key in RoleKeys(role, sps) && key !in RoleKeys(role, sps[..n]) {
        assert Gives(role, sps, n, key);
      }
    }
  }

  /** The map has this key for the role of that name. */
  predicate Has(result: map<string, seq<string>>, name: string, key: string) {
    name in result && key in result[name]
  }

  lemma HasMeaning(result: map<string, seq<string>>, sps: seq<SystemPermission>, role: Role, key: string)
    requires HoldsRoleKeys(result, sps)
    ensures Has(result, RoleName(role), key) <==> exists i :: Gives(role, sps, i, key)
  {
    assert Holds(result, role, RoleKeys(role, sps));
    RoleKeysMeaning(role, sps, key);
  }

  /**
   What each role starts with, by the table's columns: everything; the tenant level; the reading actions of the tenant
   level; the scope of one's own.
   */
  lemma RoleEntries(result: map<string, seq<string>>, sps: seq<SystemPermission>, key: string)
    requires HoldsRoleKeys(result, sps)
    ensures Has(result, "platform:admin", key) <==> exists i | 0 <= i < |sps| :: sps[i].key == key
    ensures Has(result, "tenant:admin", key) <==> exists i | 0 <= i < |sps| :: sps[i].key == key && sps[i].level == "tenant"
    ensures Has(result, "tenant:auditor", key) <==>
            exists i | 0 <= i < |sps| :: sps[i].key == key && sps[i].level == "tenant"
              && (sps[i].action == "read" || sps[i].action == "read_integrity" || sps[i].action == "export")
    ensures Has(result, "user:self", key) <==> exists i | 0 <= i < |sps| :: sps[i].key == key && sps[i].scope == "own"
  {
    HasMeaning(result, sps, PlatformAdmin, key);
    HasMeaning(result, sps, TenantAdmin, key);
    HasMeaning(result, sps, TenantAuditor, key);
    HasMeaning(result, sps, UserSelf, key);
    forall i | 0 <= i < |sps| && sps[i].key == key
      ensures Gives(PlatformAdmin, sps, i, key)
      ensures sps[i].level == "tenant" ==> Gives(TenantAdmin, sps, i, key)
      ensures sps[i].level == "tenant" && ReadOnly(sps[i].action) ==> Gives(TenantAuditor, sps, i, key)
      ensures sps[i].scope == "own" ==> Gives(UserSelf, sps, i, key)
    {
    }
  }

  /** A platform administrator has every permission at every scope. */
  lemma AdminHasAll(perms: seq<string>, resource: string, action: string, scope: string)
    requires "platform:admin" in perms
    ensures HasPermission(perms, resource, action, scope)
  {
    var i :| 0 <= i < |perms| && perms[i] == "platform:admin";
    assert Grants(perms[i], resource, action, scope);
  }

  // ----- The hierarchy of roles

  /** `a` is `b` with some elements left out. */
  predicate Subsequence(a: seq<string>, b: seq<string>) {
    if a == [] then true
    else if b == [] then false
    else
      || Subsequence(a, b[..|b| - 1])
      || (a[|a| - 1] == b[|b| - 1] && Subsequence(a[..|a| - 1], b[..|b| - 1]))
  }

  lemma {:induction false} SubsequenceMembers(a: seq<string>, b: seq<string>)
    requires Subsequence(a, b)
    ensures forall x | x in a :: x in b
    decreases |b|
  {
    if a != [] {
      assert a == a[..|a| - 1] + [a[|a| - 1]];
      assert b == b[..|b| - 1] + [b[|b| - 1]];
      if Subsequence(a, b[..|b| - 1]) {
        SubsequenceMembers(a, b[..|b| - 1]);
      } else {
        SubsequenceMembers(a[..|a| - 1], b[..|b| - 1]);
      }
    }
  }

  /** Every permission of the table that the lower role receives the higher one receives too. */
  predicate Below(low: Role, high: Role, sps: seq<SystemPermission>) {
    forall i | 0 <= i < |sps| && Receives(low, sps[i]) :: Receives(high, sps[i])
  }

  lemma {:induction false} RoleKeysSubsequence(low: Role, high: Role, sps: seq<SystemPermission>)
    requires Below(low, high, sps)
    ensures Subsequence(RoleKeys(low, sps), RoleKeys(high, sps))
  {
    if sps != [] {
      var init, last := sps[..|sps| - 1], sps[|sps| - 1];
      RoleKeysSubsequence(low, high, init);
      var a, b := RoleKeys(low, init), RoleKeys(high, init);
      if Receives(high, last) {
        assert (b + [last.key])[..|b|] == b;
        assert (a + [last.key])[..|a|] == a;
        assert !Receives(low, last) ==> RoleKeys(low, sps) == a;
      } else {
        assert b + [] == b && a + [] == a;
      }
    }
  }

  /**
   For every table: auditor keys are a subsequence of the tenant administrator's, and those of the platform
   administrator's; self-service keys are one of the platform administrator's.
   */
  lemma RoleHierarchy(sps: seq<SystemPermission>)
    ensures Subsequence(RoleKeys(TenantAuditor, sps), RoleKeys(TenantAdmin, sps))
    ensures Subsequence(RoleKeys(TenantAdmin, sps), RoleKeys(PlatformAdmin, sps))
    ensures Subsequence(RoleKeys(UserSelf, sps), RoleKeys(PlatformAdmin, sps))
  {
    RoleKeysSubsequence(TenantAuditor, TenantAdmin, sps);
    RoleKeysSubsequence(TenantAdmin, PlatformAdmin, sps);
    RoleKeysSubsequence(UserSelf, PlatformAdmin, sps);
  }
}
