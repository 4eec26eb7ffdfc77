/** The route table: matching, the first rule that decides, and which rules can ever decide. */
module Routes {
  import opened Prelude
  import opened Splitting
  import opened Permissions

  datatype Rule = Rule(httpMethod: string, pattern: string, resource: string, action: string, scope: string)

  function Segments(path: string): seq<string> {
    Split(Trim(path, {'/'}), '/')
  }

  predicate Wildcard(segment: string) {
    segment != "" && segment[0] == '{' && segment[|segment| - 1] == '}'
  }

  predicate MatchSegments(pp: seq<string>, ap: seq<string>) {
    |pp| == |ap| && forall i | 0 <= i < |pp| :: Wildcard(pp[i]) || pp[i] == ap[i]
  }

  predicate MatchRoute(pattern: string, path: string) {
    MatchSegments(Segments(pattern), Segments(path))
  }

  predicate Matches(rule: Rule, httpMethod: string, path: string) {
    rule.httpMethod == httpMethod && MatchRoute(rule.pattern, path)
  }

  /** (matched, allowed); a request no rule matches is not allowed. */
  function CheckRoutePermission(table: seq<Rule>, httpMethod: string, path: string, perms: seq<string>): (bool, bool) {
    if table == [] then (false, false)
    else if Matches(table[0], httpMethod, path) then
      (true, HasPermission(perms, table[0].resource, table[0].action, table[0].scope))
    else CheckRoutePermission(table[1..], httpMethod, path, perms)
  }

  /** Rule `i` decides the request: it matches, and no earlier rule does. */
  predicate Decides(table: seq<Rule>, i: int, httpMethod: string, path: string) {
    && 0 <= i < |table|
    && Matches(table[i], httpMethod, path)
    && forall j | 0 <= j < i :: !Matches(table[j], httpMethod, path)
  }

  /** A request is matched when some rule decides it, and allowed when that rule's permission is held. */
  lemma {:induction false} CheckMeaning(table: seq<Rule>, httpMethod: string, path: string, perms: seq<string>)
    ensures var (matched, allowed) := CheckRoutePermission(table, httpMethod, path, perms);
            && (matched <==> exists i :: Decides(table, i, httpMethod, path))
            && (allowed <==> exists i :: Decides(table, i, httpMethod, path)
                              && HasPermission(perms, table[i].resource, table[i].action, table[i].scope))
  {
    if table != [] {
      if Matches(table[0], httpMethod, path) {
        assert Decides(table, 0, httpMethod, path);
        assert forall i | Decides(table, i, httpMethod, path) :: i == 0;
      } else {
        CheckMeaning(table[1..], httpMethod, path, perms);
        forall i
          ensures Decides(table[1..], i, httpMethod, path) <==> i >= 0 && Decides(table, i + 1, httpMethod, path)
        {
          DecidesShift(table, i, httpMethod, path);
        }
        assert forall i | Decides(table, i, httpMethod, path) :: Decides(table[1..], i - 1, httpMethod, path);
      }
    }
  }

  lemma DecidesShift(table: seq<Rule>, i: int, httpMethod: string, path: string)
    requires table != [] && !Matches(table[0], httpMethod, path)
    ensures Decides(table[1..], i, httpMethod, path) <==> i >= 0 && Decides(table, i + 1, httpMethod, path)
  {
    if i >= 0 && Decides(table, i + 1, httpMethod, path) {
      forall j | 0 <= j < i
        ensures !Matches(table[1..][j], httpMethod, path)
      {
        assert table[1..][j] == table[j + 1];
      }
    }
    if Decides(table[1..], i, httpMethod, path) {
      forall j | 0 <= j < i + 1
        ensures !Matches(table[j], httpMethod, path)
      {
        if j > 0 {
          assert table[1..][j - 1] == table[j];
        }
      }
    }
  }

  // ----- Roles and routes

  lemma {:induction false} CheckIsMonotone(
      table: seq<Rule>, httpMethod: string, path: string, perms: seq<string>, more: seq<string>)
    requires forall p | p in perms :: p in more
    ensures var (matched, allowed) := CheckRoutePermission(table, httpMethod, path, perms);
            var (matched', allowed') := CheckRoutePermission(table, httpMethod, path, more);
            matched == matched' && (allowed ==> allowed')
  {
    if table != [] {
      var rule := table[0];
      if Matches(rule, httpMethod, path) {
        if HasPermission(perms, rule.resource, rule.action, rule.scope) {
          HasPermissionIsMonotone(perms, more, rule.resource, rule.action, rule.scope, rule.scope);
        }
      } else {
        CheckIsMonotone(table[1..], httpMethod, path, perms, more);
      }
    }
  }

  /** For every permission table and every route table, what the auditor may do the administrators may do. */
  lemma HigherRolesMayMore(sps: seq<SystemPermission>, table: seq<Rule>, httpMethod: string, path: string)
    ensures CheckRoutePermission(table, httpMethod, path, RoleKeys(TenantAuditor, sps)).1
            ==> CheckRoutePermission(table, httpMethod, path, RoleKeys(TenantAdmin, sps)).1
    ensures CheckRoutePermission(table, httpMethod, path, RoleKeys(TenantAdmin, sps)).1
            ==> CheckRoutePermission(table, httpMethod, path, RoleKeys(PlatformAdmin, sps)).1
    ensures CheckRoutePermission(table, httpMethod, path, RoleKeys(UserSelf, sps)).1
            ==> CheckRoutePermission(table, httpMethod, path, RoleKeys(PlatformAdmin, sps)).1
  {
    RoleHierarchy(sps);
    SubsequenceMembers(RoleKeys(TenantAuditor, sps), RoleKeys(TenantAdmin, sps));
    SubsequenceMembers(RoleKeys(TenantAdmin, sps), RoleKeys(PlatformAdmin, sps));
    SubsequenceMembers(RoleKeys(UserSelf, sps), RoleKeys(PlatformAdmin, sps));
    CheckIsMonotone(table, httpMethod, path, RoleKeys(TenantAuditor, sps), RoleKeys(TenantAdmin, sps));
    CheckIsMonotone(table, httpMethod, path, RoleKeys(TenantAdmin, sps), RoleKeys(PlatformAdmin, sps));
    CheckIsMonotone(table, httpMethod, path, RoleKeys(UserSelf, sps), RoleKeys(PlatformAdmin, sps));
  }

  // ----- Rules that never decide

  /** Every path the second pattern matches the first one matches: decided segment by segment. */
  predicate Covers(pp: seq<string>, qq: seq<string>) {
    |pp| == |qq| && forall i | 0 <= i < |pp| :: Wildcard(pp[i]) || (pp[i] == qq[i] && !Wildcard(qq[i]))
  }

  /** The pattern's wildcards filled in with one segment. */
  function Fill(qq: seq<string>, segment: string): (r: seq<string>)
    ensures |r| == |qq|
  {
    seq(|qq|, i requires 0 <= i < |qq| => if Wildcard(qq[i]) then segment else qq[i])
  }

  /** No literal segment of the pattern is this one. */
  predicate Unused(pp: seq<string>, segment: string) {
    forall i | 0 <= i < |pp| :: pp[i] != segment
  }

  lemma FillIsGeneric(pp: seq<string>, qq: seq<string>, segment: string)
    requires Unused(pp, segment)
    ensures MatchSegments(pp, Fill(qq, segment)) <==> Covers(pp, qq)
  {
    var ap := Fill(qq, segment);
    if |pp| == |qq| {
      forall i | 0 <= i < |pp|
        ensures (Wildcard(pp[i]) || pp[i] == ap[i]) <==> (Wildcard(pp[i]) || (pp[i] == qq[i] && !Wildcard(qq[i])))
      {
      }
    }
  }

  lemma CoversMeans(pp: seq<string>, qq: seq<string>, ap: seq<string>)
    requires Covers(pp, qq) && MatchSegments(qq, ap)
    ensures MatchSegments(pp, ap)
  {
  }

  // ----- Paths from segments

  /** Segments that a trimmed path can have. */
  predicate Proper(ss: seq<string>) {
    && ss != []
    && Free(ss, '/')
    && (|ss| == 1 || (ss[0] != "" && ss[|ss| - 1] != ""))
  }

  lemma {:induction false} JoinedEnds(ss: seq<string>)
    requires ss != [] && Free(ss, '/') && ss[|ss| - 1] != ""
    ensures var s := Join(ss, '/'); s != "" && s[|s| - 1] != '/'
  {
    if |ss| == 1 {
      assert ss[0][|ss[0]| - 1] in ss[0];
    } else {
      JoinedEnds(ss[1..]);
    }
  }

  lemma JoinedIsTrimmed(ss: seq<string>)
    requires Proper(ss)
    ensures Trimmed(Join(ss, '/'), {'/'})
  {
    if ss[|ss| - 1] != "" {
      JoinedEnds(ss);
      assert ss[0][0] in ss[0];
      assert Join(ss, '/')[0] == ss[0][0];
    }
  }

  lemma SegmentsOfJoined(ss: seq<string>)
    requires Proper(ss)
    ensures Segments(Join(ss, '/')) == ss
  {
    JoinedIsTrimmed(ss);
    SplitJoin(ss, '/');
  }

  /** A wildcard is a segment in braces. */
  lemma WildcardIff(segment: string)
    ensures Wildcard(segment) <==> exists inner :: segment == "{" + inner + "}"
  {
    if Wildcard(segment) {
      assert segment == "{" + segment[1..|segment| - 1] + "}";
    }
  }

  predicate Slashes(s: string) {
    AllIn(s, {'/'})
  }

  /** Slashes at either end of a pattern or a path do not count. */
  lemma SlashesDoNotCount(pattern: string, path: string, a: string, b: string, c: string, d: string)
    requires Slashes(a) && Slashes(b) && Slashes(c) && Slashes(d)
    ensures MatchRoute(a + pattern + b, c + path + d) <==> MatchRoute(pattern, path)
  {
    TrimCuts(a, pattern, b, {'/'});
    TrimCuts(c, path, d, {'/'});
  }

  /** A pattern and a path match iff they have as many segments, each the same as the other's or in braces. */
  lemma MatchIff(pp: seq<string>, ap: seq<string>)
    requires Proper(pp) && Proper(ap)
    ensures MatchRoute(Join(pp, '/'), Join(ap, '/')) <==>
            |pp| == |ap| && forall i | 0 <= i < |pp| :: pp[i] == ap[i] || exists inner :: pp[i] == "{" + inner + "}"
  {
    SegmentsOfJoined(pp);
    SegmentsOfJoined(ap);
    forall i | 0 <= i < |pp|
      ensures Wildcard(pp[i]) <==> exists inner :: pp[i] == "{" + inner + "}"
    {
      WildcardIff(pp[i]);
    }
  }

  lemma {:induction false} JoinHasEnds(ss: seq<string>)
    requires |ss| > 1
    ensures var s := Join(ss, '/');
            s != "" && (ss[0] == "" ==> s[0] == '/') && (ss[|ss| - 1] == "" ==> s[|s| - 1] == '/')
  {
    if |ss| > 2 {
      JoinHasEnds(ss[1..]);
    }
  }

  lemma SegmentsAreProper(path: string)
    ensures Proper(Segments(path))
  {
    var s := Trim(path, {'/'});
    TrimIsTrimmed(path, {'/'});
    JoinSplit(s, '/');
    if |Split(s, '/')| > 1 {
      JoinHasEnds(Split(s, '/'));
    }
  }

  lemma FillIsProper(qq: seq<string>, segment: string)
    requires Proper(qq) && segment != "" && '/' !in segment
    ensures Proper(Fill(qq, segment))
  {
  }

  // ----- A segment that no rule uses

  function Longest(ss: seq<string>): (n: nat)
    ensures forall i | 0 <= i < |ss| :: |ss[i]| <= n
  {
    if ss == [] then 0
    else
      var n := Longest(ss[1..]);
      assert forall i | 0 < i < |ss| :: ss[i] == ss[1..][i - 1];
      if n < |ss[0]| then |ss[0]| else n
  }

  function LongestInTable(table: seq<Rule>): (n: nat)
    ensures forall i | 0 <= i < |table| :: Longest(Segments(table[i].pattern)) <= n
  {
    if table == [] then 0
    else
      var n, m := LongestInTable(table[1..]), Longest(Segments(table[0].pattern));
      assert forall i | 0 < i < |table| :: table[i] == table[1..][i - 1];
      if n < m then m else n
  }

  /** A path that matches rule `j`, and of the other rules only those that cover it. */
  function GenericPath(table: seq<Rule>, j: nat): string
    requires j < |table|
  {
    Join(Fill(Segments(table[j].pattern), Stretch(LongestInTable(table) + 1)), '/')
  }

  lemma GenericPathMatches(table: seq<Rule>, i: nat, j: nat)
    requires i < |table| && j < |table|
    ensures MatchRoute(table[i].pattern, GenericPath(table, j))
            <==> Covers(Segments(table[i].pattern), Segments(table[j].pattern))
  {
    var pp, qq := Segments(table[i].pattern), Segments(table[j].pattern);
    var unused := Stretch(LongestInTable(table) + 1);
    SegmentsAreProper(table[j].pattern);
    FillIsProper(qq, unused);
    SegmentsOfJoined(Fill(qq, unused));
    assert Longest(pp) < |unused|;
    FillIsGeneric(pp, qq, unused);
  }

  /** The rule comes after one with the same method whose pattern covers its own. */
  predicate Shadowed(table: seq<Rule>, j: nat)
    requires j < |table|
  {
    exists i | 0 <= i < j ::
      table[i].httpMethod == table[j].httpMethod && Covers(Segments(table[i].pattern), Segments(table[j].pattern))
  }

  /** A rule decides no request at all if and only if a single earlier rule covers it. */
  lemma DeadRuleIff(table: seq<Rule>, j: nat)
    requires j < |table|
    ensures (forall httpMethod, path :: !Decides(table, j, httpMethod, path)) <==> Shadowed(table, j)
  {
    if Shadowed(table, j) {
      var i :| 0 <= i < j && table[i].httpMethod == table[j].httpMethod
               && Covers(Segments(table[i].pattern), Segments(table[j].pattern));
      forall httpMethod, path
        ensures !Decides(table, j, httpMethod, path)
      {
        if Matches(table[j], httpMethod, path) {
          CoversMeans(Segments(table[i].pattern), Segments(table[j].pattern), Segments(path));
          assert Matches(table[i], httpMethod, path);
        }
      }
    } else {
      var path := GenericPath(table, j);
      GenericPathMatches(table, j, j);
      forall i: nat | i < j
        ensures !Matches(table[i], table[j].httpMethod, path)
      {
        GenericPathMatches(table, i, j);
      }
      assert CoversItself(table[j].pattern);
      assert Decides(table, j, table[j].httpMethod, path);
    }
  }

  predicate CoversItself(pattern: string) {
    Covers(Segments(pattern), Segments(pattern))
  }

  /** One rule covers another on every path exactly when its pattern does so segment by segment. */
  lemma CoversIff(p: string, q: string)
    ensures (forall path | MatchRoute(q, path) :: MatchRoute(p, path)) <==> Covers(Segments(p), Segments(q))
  {
    if Covers(Segments(p), Segments(q)) {
      forall path | MatchRoute(q, path)
        ensures MatchRoute(p, path)
      {
        CoversMeans(Segments(p), Segments(q), Segments(path));
      }
    } else {
      var table := [Rule("", p, "", "", ""), Rule("", q, "", "", "")];
      GenericPathMatches(table, 0, 1);
      GenericPathMatches(table, 1, 1);
      var path := GenericPath(table, 1);
      assert CoversItself(q);
      assert table[0].pattern == p && table[1].pattern == q;
      assert MatchRoute(q, path) && !MatchRoute(p, path);
    }
  }

  // ----- The rules for users

  const ID_PATTERN := "/api/v1/users/{id}"
  const EXPORT_PATTERN := "/api/v1/users/export"

  function ReadOneUser(): Rule {
    Rule("GET", ID_PATTERN, "users", "read", OWN)
  }

  function ExportUsers(): Rule {
    Rule("GET", EXPORT_PATTERN, "users", "export", TENANT)
  }

  lemma SegmentsOfRooted(ss: seq<string>)
    requires Proper(ss) && ss[0] != ""
    ensures Segments("/" + Join(ss, '/')) == ss
  {
    JoinedIsTrimmed(ss);
    var s := Join(ss, '/');
    assert s != "" by {
      assert s[..|ss[0]|] == ss[0];
    }
    assert ("/" + s)[1..] == s;
    assert TrimLeft("/" + s, {'/'}) == s;
    SplitJoin(ss, '/');
  }

  /** The segments of `/api/v1/users/` and a last segment. */
  lemma UserPath(last: string)
    requires last != "" && '/' !in last
    ensures Segments("/api/v1/users/" + last) == ["api", "v1", "users", last]
  {
    var ss := ["api", "v1", "users", last];
    assert ss[1..] == ["v1", "users", last];
    assert ss[1..][1..] == ["users", last];
    assert ss[1..][1..][1..] == [last];
    assert Join(["users", last], '/') == "users/" + last;
    assert Join(["v1", "users", last], '/') == "v1/users/" + last;
    assert Join(ss, '/') == "api/v1/users/" + last;
    SegmentsOfRooted(ss);
    assert "/" + Join(ss, '/') == "/api/v1/users/" + last;
  }

  lemma IdIsWildcard()
    ensures Segments(ID_PATTERN) == ["api", "v1", "users", "{id}"] && Wildcard("{id}")
  {
    UserPath("{id}");
    assert ID_PATTERN == "/api/v1/users/" + "{id}";
  }

  lemma ExportIsLiteral()
    ensures Segments(EXPORT_PATTERN) == ["api", "v1", "users", "export"]
  {
    UserPath("export");
    assert EXPORT_PATTERN == "/api/v1/users/" + "export";
  }

  lemma CoversAtLast(a: string, b: string, c: string, w: string, d: string)
    requires Wildcard(w) && !Wildcard(a) && !Wildcard(b) && !Wildcard(c)
    ensures Covers([a, b, c, w], [a, b, c, d])
  {
  }

  lemma IdCoversExport()
    ensures Covers(Segments(ID_PATTERN), Segments(EXPORT_PATTERN))
  {
    IdIsWildcard();
    ExportIsLiteral();
    CoversAtLast("api", "v1", "users", "{id}", "export");
  }

  /**
   In every table where the rule for one user precedes the rule for exporting users, as in the
   repository's, the export rule decides no request.
   */
  lemma ExportRuleNeverDecides(table: seq<Rule>, i: nat, j: nat, httpMethod: string, path: string)
    requires i < j < |table| && table[i] == ReadOneUser() && table[j] == ExportUsers()
    ensures !Decides(table, j, httpMethod, path)
  {
    IdCoversExport();
    assert Shadowed(table, j);
    DeadRuleIff(table, j);
  }
}
