/** The console's own permission check, and exactly when it agrees with the server's. */
module ConsolePermissions {
  import opened Prelude
  import opened Splitting
  import opened Permissions

  const SYSTEM_ADMIN := "system:admin"

  // ----- The scope table, a JavaScript object

  /**
   What an object literal inherits: the names of its prototype's properties, and how two of their values
   compare with `>=`. They compare by their source texts, which the language leaves to the engine.
   */
  datatype Prototype = Prototype(names: set<string>, atLeast: (string, string) -> bool)

  /** `Object.prototype` of ECMA-262 (section 20.1.3). */
  function ObjectPrototype(atLeast: (string, string) -> bool): Prototype {
    Prototype(
      {"constructor", "hasOwnProperty", "isPrototypeOf", "propertyIsEnumerable", "toLocaleString", "toString",
       "valueOf", "__proto__", "__defineGetter__", "__defineSetter__", "__lookupGetter__", "__lookupSetter__"},
      atLeast)
  }

  /** `scopeOrder[name] || 0`: an own property or zero is a number, an inherited property an object. */
  predicate Inherited(o: Prototype, name: string) {
    ScopeOrder(name) == 0 && name in o.names
  }

  /** `(scopeOrder[granted] || 0) >= (scopeOrder[required] || 0)`: never between a number and an object. */
  predicate AtLeast(o: Prototype, granted: string, required: string) {
    if Inherited(o, granted) && Inherited(o, required) then o.atLeast(granted, required)
    else if Inherited(o, granted) || Inherited(o, required) then false
    else ScopeOrder(granted) >= ScopeOrder(required)
  }

  // ----- The check

  predicate Covers(o: Prototype, p: string, required: seq<string>)
    requires |required| >= 3
  {
    var pp := Split(p, ':');
    |pp| >= 3 && pp[0] == required[0] && pp[1] == required[1] && AtLeast(o, pp[2], required[2])
  }

  predicate HasPermissionConsole(
      o: Prototype, perms: seq<string>, key: string, isPlatformAdmin: bool, isTenantAdmin: bool)
  {
    if isPlatformAdmin || isTenantAdmin then true
    else if PLATFORM_ADMIN in perms || SYSTEM_ADMIN in perms then true
    else if key in perms then true
    else
      var parts := Split(key, ':');
      |parts| >= 3 && exists i | 0 <= i < |perms| :: Covers(o, perms[i], parts)
  }

  /** What a single permission contributes to the console's answer. */
  predicate ConsoleGrants(o: Prototype, p: string, key: string) {
    || p == PLATFORM_ADMIN
    || p == SYSTEM_ADMIN
    || p == key
    || (|Split(key, ':')| >= 3 && Covers(o, p, Split(key, ':')))
  }

  lemma ConsoleByPermission(o: Prototype, perms: seq<string>, key: string)
    ensures HasPermissionConsole(o, perms, key, false, false)
            <==> exists i | 0 <= i < |perms| :: ConsoleGrants(o, perms[i], key)
  {
    if i :| 0 <= i < |perms| && ConsoleGrants(o, perms[i], key) {
      assert perms[i] in perms;
    }
    forall p | p in perms && (p == PLATFORM_ADMIN || p == SYSTEM_ADMIN || p == key)
      ensures exists i | 0 <= i < |perms| :: ConsoleGrants(o, perms[i], key)
    {
      var i :| 0 <= i < |perms| && perms[i] == p;
      assert ConsoleGrants(o, perms[i], key);
    }
    var parts := Split(key, ':');
    if |parts| >= 3 {
      if i :| 0 <= i < |perms| && Covers(o, perms[i], parts) {
        assert ConsoleGrants(o, perms[i], key);
      }
    }
  }

  /** An administrator of either kind may do everything; anyone else what some permission of theirs grants. */
  lemma ConsoleIff(o: Prototype, perms: seq<string>, key: string, isPlatformAdmin: bool, isTenantAdmin: bool)
    ensures HasPermissionConsole(o, perms, key, isPlatformAdmin, isTenantAdmin)
            <==> isPlatformAdmin || isTenantAdmin || exists i | 0 <= i < |perms| :: ConsoleGrants(o, perms[i], key)
  {
    ConsoleByPermission(o, perms, key);
  }

  // ----- Both checks in terms of the full split

  /** A required resource, action or scope: no colon inside. */
  predicate Simple(resource: string, action: string, scope: string) {
    ':' !in resource && ':' !in action && ':' !in scope
  }

  lemma ColonIsNoScope(s: string)
    requires ':' in s
    ensures ScopeOrder(s) == 0
  {
    assert ':' !in ALL;
    assert ':' !in TENANT;
    assert ':' !in DEPARTMENT;
    assert ':' !in OWN;
  }

  lemma SplitKey(r: string, a: string, s: string)
    requires Simple(r, a, s)
    ensures Split(Key(r, a, s), ':') == [r, a, s]
  {
    SplitJoin([r, a, s], ':');
  }

  /** The server's view of a permission. */
  lemma GrantsBySplit(p: string, r: string, a: string, s: string)
    requires p != PLATFORM_ADMIN
    ensures var parts := Split(p, ':');
            Grants(p, r, a, s) <==>
              && |parts| >= 2 && parts[0] == r && parts[1] == a
              && ScopeCovers(if |parts| == 2 then TENANT else Join(parts[2..], ':'), s)
  {
    var parts := Split(p, ':');
    SplitNMeaning(p, ':', 3);
    if |parts| == 3 {
      assert parts[2..] == [parts[2]];
    }
    if |parts| > 3 {
      assert parts[..2][0] == parts[0] && parts[..2][1] == parts[1];
    }
  }

  lemma LongScope(parts: seq<string>)
    requires |parts| > 3
    ensures ':' in Join(parts[2..], ':')
  {
    var tail := parts[2..];
    assert Join(tail, ':') == tail[0] + [':'] + Join(tail[1..], ':');
    assert Join(tail, ':')[|tail[0]|] == ':';
  }

  /** The scope that the server reads from three parts or more. */
  lemma ServerScope(parts: seq<string>, s: string)
    requires |parts| >= 3 && ':' !in s
    ensures |parts| == 3 ==> Join(parts[2..], ':') == parts[2]
    ensures |parts| > 3 ==> (ScopeCovers(Join(parts[2..], ':'), s) <==> ScopeOrder(s) == 0)
  {
    if |parts| > 3 {
      LongScope(parts);
      ColonIsNoScope(Join(parts[2..], ':'));
    }
  }

  lemma SystemAdminParts()
    ensures Split(SYSTEM_ADMIN, ':') == ["system", "admin"]
    ensures SYSTEM_ADMIN != PLATFORM_ADMIN
  {
    var parts := ["system", "admin"];
    assert parts[1..] == ["admin"];
    assert Join(parts, ':') == SYSTEM_ADMIN;
    SplitJoin(parts, ':');
    assert SYSTEM_ADMIN[0] != PLATFORM_ADMIN[0];
  }

  lemma ConsoleIsCovers(o: Prototype, p: string, key: string, required: seq<string>)
    requires p != PLATFORM_ADMIN && p != SYSTEM_ADMIN
    requires Split(key, ':') == required && |required| == 3 && (p == key <==> Split(p, ':') == required)
    ensures var parts := Split(p, ':');
            ConsoleGrants(o, p, key) <==>
              && |parts| >= 3 && parts[0] == required[0] && parts[1] == required[1]
              && (AtLeast(o, parts[2], required[2]) || (|parts| == 3 && parts[2] == required[2]))
  {
  }

  lemma KeyIsItsParts(p: string, r: string, a: string, s: string)
    requires Simple(r, a, s)
    ensures p == Key(r, a, s) <==> Split(p, ':') == [r, a, s]
  {
    SplitKey(r, a, s);
    JoinSplit(p, ':');
  }

  /** The console's view of a permission. */
  lemma ConsoleBySplit(o: Prototype, p: string, r: string, a: string, s: string)
    requires p != PLATFORM_ADMIN && p != SYSTEM_ADMIN && Simple(r, a, s)
    ensures var parts := Split(p, ':');
            ConsoleGrants(o, p, Key(r, a, s)) <==>
              && |parts| >= 3 && parts[0] == r && parts[1] == a
              && (AtLeast(o, parts[2], s) || (|parts| == 3 && parts[2] == s))
  {
    SplitKey(r, a, s);
    KeyIsItsParts(p, r, a, s);
    ConsoleIsCovers(o, p, Key(r, a, s), [r, a, s]);
  }

  // ----- When the two agree

  predicate AgreeAt(o: Prototype, p: string, r: string, a: string, s: string) {
    ConsoleGrants(o, p, Key(r, a, s)) <==> Grants(p, r, a, s)
  }

  /** Same answer for a key of exactly three parts, granted scope against required scope. */
  predicate SameForScope(o: Prototype, granted: string, required: string) {
    if Inherited(o, required) then granted == required || (Inherited(o, granted) && o.atLeast(granted, required))
    else !Inherited(o, granted) || ScopeOrder(required) > 0
  }

  /** Same answer for a longer key: the server never reads its third part as a known scope. */
  predicate SameForLongKey(o: Prototype, third: string, required: string) {
    if Inherited(o, required) then Inherited(o, third) && o.atLeast(third, required)
    else if ScopeOrder(required) > 0 then ScopeOrder(third) < ScopeOrder(required)
    else !Inherited(o, third)
  }

  /** Decided by the parts of the permission and of the requirement. */
  predicate SameAnswer(o: Prototype, p: string, r: string, a: string, s: string) {
    p == PLATFORM_ADMIN ||
    if p == SYSTEM_ADMIN then r == "system" && a == "admin" && s != ALL
    else
      var parts := Split(p, ':');
      || |parts| < 2
      || parts[0] != r
      || parts[1] != a
      || (if |parts| == 2 then s == ALL
          else if |parts| == 3 then SameForScope(o, parts[2], s)
          else SameForLongKey(o, parts[2], s))
  }

  lemma TenantCoversAllBut(s: string)
    ensures ScopeCovers(TENANT, s) <==> s != ALL
  {
    assert |ALL| == 3 && |TENANT| == 6;
  }

  lemma SystemAdminAgrees(o: Prototype, r: string, a: string, s: string)
    ensures AgreeAt(o, SYSTEM_ADMIN, r, a, s) <==> r == "system" && a == "admin" && s != ALL
  {
    SystemAdminParts();
    GrantsBySplit(SYSTEM_ADMIN, r, a, s);
    TenantCoversAllBut(s);
  }

  lemma ScopesAgree(o: Prototype, g: string, s: string)
    ensures (AtLeast(o, g, s) || g == s <==> ScopeCovers(g, s)) <==> SameForScope(o, g, s)
    ensures (AtLeast(o, g, s) <==> ScopeOrder(s) == 0) <==> SameForLongKey(o, g, s)
  {
  }

  /** For every permission and every well-formed requirement: exactly when console and server answer alike. */
  lemma AgreeAtIff(o: Prototype, p: string, r: string, a: string, s: string)
    requires Simple(r, a, s)
    ensures AgreeAt(o, p, r, a, s) <==> SameAnswer(o, p, r, a, s)
  {
    if p == SYSTEM_ADMIN {
      SystemAdminParts();
      SystemAdminAgrees(o, r, a, s);
    } else if p != PLATFORM_ADMIN {
      var parts := Split(p, ':');
      ConsoleBySplit(o, p, r, a, s);
      GrantsBySplit(p, r, a, s);
      TenantCoversAllBut(s);
      if |parts| >= 3 {
        ServerScope(parts, s);
        ScopesAgree(o, parts[2], s);
      }
    }
  }

  /** The platform administrator's key; or no two-part key, no inherited name and a known scope only at the end. */
  predicate Regular(o: Prototype, p: string) {
    p == PLATFORM_ADMIN ||
    var parts := Split(p, ':');
    && |parts| != 2
    && (|parts| >= 3 ==> !Inherited(o, parts[2]))
    && (|parts| > 3 ==> ScopeOrder(parts[2]) == 0)
  }

  lemma RegularAgrees(o: Prototype, p: string, r: string, a: string, s: string)
    requires Regular(o, p) && Simple(r, a, s) && !Inherited(o, s)
    ensures AgreeAt(o, p, r, a, s)
  {
    SystemAdminParts();
    AgreeAtIff(o, p, r, a, s);
  }

  /** A scope that is neither known nor inherited. */
  lemma UnknownScope(o: Prototype) returns (s: string)
    ensures ':' !in s && ScopeOrder(s) == 0 && !Inherited(o, s)
  {
    var lengths := set name | name in o.names :: |name|;
    var n := 0;
    if lengths != {} {
      MaxExists(lengths);
      n :| n in lengths && forall x | x in lengths :: x <= n;
    }
    s := Stretch(n + 11);
    assert |ALL| == 3 && |TENANT| == 6 && |DEPARTMENT| == 10 && |OWN| == 3;
    assert s in o.names ==> |s| in lengths;
  }

  lemma OwnIsSimple()
    ensures ':' !in OWN && OWN != ALL && ScopeOrder(OWN) == 1
  {
    assert OWN[0] != ALL[0];
  }

  /** For every other permission, a requirement on which exactly one of the two says yes. */
  lemma WitnessDiffers(o: Prototype, p: string) returns (r: string, a: string, s: string)
    requires !Regular(o, p)
    ensures Simple(r, a, s) && !Inherited(o, s) && !AgreeAt(o, p, r, a, s)
  {
    OwnIsSimple();
    if p == SYSTEM_ADMIN {
      r, a, s := "", "", OWN;
    } else {
      var parts := Split(p, ':');
      JoinSplit(p, ':');
      r, a := parts[0], parts[1];
      if |parts| == 2 {
        s := OWN;
      } else if Inherited(o, parts[2]) {
        s := UnknownScope(o);
      } else {
        s := parts[2];
      }
    }
    AgreeAtIff(o, p, r, a, s);
  }

  /** The two checks agree on every requirement whose scope is no inherited name iff the permission is regular. */
  lemma AgreeIff(o: Prototype, p: string)
    ensures (forall r, a, s | Simple(r, a, s) && !Inherited(o, s) :: AgreeAt(o, p, r, a, s)) <==> Regular(o, p)
  {
    if Regular(o, p) {
      forall r, a, s | Simple(r, a, s) && !Inherited(o, s)
        ensures AgreeAt(o, p, r, a, s)
      {
        RegularAgrees(o, p, r, a, s);
      }
    } else {
      var r, a, s := WitnessDiffers(o, p);
    }
  }

  lemma ColonFreeAgrees(o: Prototype, p: string, r: string, a: string, s: string)
    requires (p == PLATFORM_ADMIN || ':' !in p) && Simple(r, a, s)
    ensures AgreeAt(o, p, r, a, s)
  {
    ColonFreeIsOnePart(p);
    SystemAdminParts();
    AgreeAtIff(o, p, r, a, s);
  }

  lemma RegularHasThreeParts(o: Prototype, p: string)
    requires Regular(o, p) && p != PLATFORM_ADMIN && ':' in p
    ensures var parts := Split(p, ':');
            |parts| >= 3 && ':' !in parts[0] && ':' !in parts[1] && !Inherited(o, parts[2]) && p != SYSTEM_ADMIN
  {
    ColonFreeIsOnePart(p);
    JoinSplit(p, ':');
    SystemAdminParts();
  }

  lemma NotTheSameAt(o: Prototype, p: string, parts: seq<string>, name: string)
    requires p != PLATFORM_ADMIN && p != SYSTEM_ADMIN && parts == Split(p, ':') && |parts| >= 3
    requires Inherited(o, name) && !Inherited(o, parts[2])
    ensures !SameAnswer(o, p, parts[0], parts[1], name)
  {
  }

  /** A regular key with a colon differs at every inherited name. */
  lemma InheritedNameShows(o: Prototype, p: string, name: string)
    requires Inherited(o, name) && ':' !in name && Regular(o, p) && p != PLATFORM_ADMIN && ':' in p
    ensures exists r, a :: Simple(r, a, name) && !AgreeAt(o, p, r, a, name)
  {
    RegularHasThreeParts(o, p);
    var parts := Split(p, ':');
    NotTheSameAt(o, p, parts, name);
    AgreeAtIff(o, p, parts[0], parts[1], name);
    assert Simple(parts[0], parts[1], name);
  }

  ghost predicate AgreeEverywhere(o: Prototype, p: string) {
    forall r, a, s | Simple(r, a, s) :: AgreeAt(o, p, r, a, s)
  }

  /** On all requirements they agree only for the platform administrator's key and for keys without a colon. */
  lemma AgreeEverywhereIff(o: Prototype, p: string, name: string)
    requires Inherited(o, name) && ':' !in name
    ensures AgreeEverywhere(o, p) <==> p == PLATFORM_ADMIN || ':' !in p
  {
    if p == PLATFORM_ADMIN || ':' !in p {
      forall r, a, s | Simple(r, a, s)
        ensures AgreeAt(o, p, r, a, s)
      {
        ColonFreeAgrees(o, p, r, a, s);
      }
    } else if Regular(o, p) {
      InheritedNameShows(o, p, name);
      var r, a :| Simple(r, a, name) && !AgreeAt(o, p, r, a, name);
    } else {
      var r, a, s := WitnessDiffers(o, p);
    }
  }

  lemma ColonFreeIsOnePart(p: string)
    ensures |Split(p, ':')| == 1 <==> ':' !in p
  {
    JoinSplit(p, ':');
    if ':' !in p {
      CutOfFree(p, ':');
    }
  }

  /** A user who is no administrator and has only regular permissions gets the same answer from both. */
  lemma ConsoleMatchesServer(o: Prototype, perms: seq<string>, r: string, a: string, s: string)
    requires Simple(r, a, s) && !Inherited(o, s) && forall i | 0 <= i < |perms| :: Regular(o, perms[i])
    ensures HasPermissionConsole(o, perms, Key(r, a, s), false, false) <==> HasPermission(perms, r, a, s)
  {
    ConsoleByPermission(o, perms, Key(r, a, s));
    forall i | 0 <= i < |perms|
      ensures ConsoleGrants(o, perms[i], Key(r, a, s)) <==> Grants(perms[i], r, a, s)
    {
      RegularAgrees(o, perms[i], r, a, s);
    }
  }

  lemma ConstructorIsInherited(atLeast: (string, string) -> bool)
    ensures Inherited(ObjectPrototype(atLeast), "constructor") && ':' !in "constructor"
  {
    assert |"constructor"| == 11;
    assert |ALL| == 3 && |TENANT| == 6 && |DEPARTMENT| == 10 && |OWN| == 3;
  }

  lemma UsersKeyIsThreeParts()
    ensures ':' !in "users" && ':' !in "read" && ':' !in ALL
    ensures Split(Key("users", "read", ALL), ':') == ["users", "read", ALL]
    ensures Key("users", "read", ALL) != PLATFORM_ADMIN && Key("users", "read", ALL) != SYSTEM_ADMIN
    ensures ScopeOrder(ALL) == 4
  {
    SplitKey("users", "read", ALL);
    SystemAdminParts();
    assert Key("users", "read", ALL)[0] == 'u';
  }

  /** A single regular key of three parts, at an inherited name. */
  lemma OneKeyAt(o: Prototype, p: string, r: string, a: string, g: string, name: string)
    requires p == Key(r, a, g) && Simple(r, a, g) && p != PLATFORM_ADMIN && p != SYSTEM_ADMIN
    requires Inherited(o, name) && ':' !in name && !Inherited(o, g)
    ensures !HasPermissionConsole(o, [p], Key(r, a, name), false, false) && HasPermission([p], r, a, name)
  {
    SplitKey(r, a, g);
    ConsoleBySplit(o, p, r, a, name);
    ConsoleByPermission(o, [p], Key(r, a, name));
    KeyGrants(r, a, g, r, a, name);
    assert Grants([p][0], r, a, name);
  }

  /** Whoever may read all users may, for the server only, read users in the scope named `constructor`. */
  lemma InheritedNameDiffers(atLeast: (string, string) -> bool)
    ensures var key := Key("users", "read", ALL);
            var required := Key("users", "read", "constructor");
            && !HasPermissionConsole(ObjectPrototype(atLeast), [key], required, false, false)
            && HasPermission([key], "users", "read", "constructor")
  {
    ConstructorIsInherited(atLeast);
    UsersKeyIsThreeParts();
    OneKeyAt(ObjectPrototype(atLeast), Key("users", "read", ALL), "users", "read", ALL, "constructor");
  }
}
