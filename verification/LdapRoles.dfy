/** Directory groups mapped to application roles. */
module LdapRoles {
  import opened Prelude

  datatype Mapping = Mapping(groupDN: string, role: string)

  /** The `memberOf` attribute: absent, one value, or several. */
  datatype MemberOf = Absent | One(group: string) | Many(groups: seq<string>)

  function Groups(m: MemberOf): seq<string> {
    match m
    case Absent => []
    case One(g) => [g]
    case Many(gs) => gs
  }

  /** Some group is the mapping's, under the case folding given. */
  predicate Applies(fold: (string, string) -> bool, groups: seq<string>, m: Mapping) {
    exists j | 0 <= j < |groups| :: fold(groups[j], m.groupDN)
  }

  /** Mapping `i` is the first that applies and names its role. */
  predicate Introduces(fold: (string, string) -> bool, groups: seq<string>, ms: seq<Mapping>, i: int) {
    && 0 <= i < |ms|
    && Applies(fold, groups, ms[i])
    && forall k | 0 <= k < i :: !(Applies(fold, groups, ms[k]) && ms[k].role == ms[i].role)
  }

  /** The roles of the mappings that introduce one, in the order of the mappings. */
  function Roles(fold: (string, string) -> bool, groups: seq<string>, ms: seq<Mapping>, n: nat): seq<string>
    requires n <= |ms|
  {
    if n == 0 then []
    else Roles(fold, groups, ms, n - 1) + if Introduces(fold, groups, ms, n - 1) then [ms[n - 1].role] else []
  }

  predicate NoRepeats(rs: seq<string>) {
    forall i, j | 0 <= i < j < |rs| :: rs[i] != rs[j]
  }

  /** A role is given if and only if a mapping for it applies, and given once. */
  lemma {:induction false} RolesMeaning(fold: (string, string) -> bool, groups: seq<string>, ms: seq<Mapping>, n: nat)
    requires n <= |ms|
    ensures forall role :: role in Roles(fold, groups, ms, n)
                           <==> exists i | 0 <= i < n :: Applies(fold, groups, ms[i]) && ms[i].role == role
    ensures NoRepeats(Roles(fold, groups, ms, n))
  {
    if n > 0 {
      RolesMeaning(fold, groups, ms, n - 1);
      var rs := Roles(fold, groups, ms, n - 1);
      assert Introduces(fold, groups, ms, n - 1) ==> ms[n - 1].role !in rs;
      assert forall i | 0 <= i < |rs| :: rs[i] in rs;
      assert Roles(fold, groups, ms, n) == if Introduces(fold, groups, ms, n - 1) then rs + [ms[n - 1].role] else rs;
    }
  }

  /** The inner loop: the mapping's role is added once if some group is the mapping's and the role is not there yet. */
  method AddRole(fold: (string, string) -> bool, groups: seq<string>, m: Mapping, before: seq<string>, seenBefore: set<string>)
    returns (roles: seq<string>, seen: set<string>)
    requires seenBefore == Elements(before)
    ensures roles == if m.role !in before && Applies(fold, groups, m) then before + [m.role] else before
    ensures seen == Elements(roles)
  {
    roles, seen := before, seenBefore;
    for j := 0 to |groups|
      invariant seen == Elements(roles)
      invariant roles == if m.role !in before && Applies(fold, groups[..j], m) then before + [m.role] else before
    {
      AppliesSnoc(fold, groups, j, m);
      if fold(groups[j], m.groupDN) && m.role !in seen {
        roles := roles + [m.role];
        seen := seen + {m.role};
      }
    }
    assert groups[..|groups|] == groups;
  }

  lemma RolesStep(fold: (string, string) -> bool, groups: seq<string>, ms: seq<Mapping>, i: nat)
    requires i < |ms|
    ensures var before := Roles(fold, groups, ms, i);
            Roles(fold, groups, ms, i + 1) ==
              if ms[i].role !in before && Applies(fold, groups, ms[i]) then before + [ms[i].role] else before
  {
    var before := Roles(fold, groups, ms, i);
    RolesMeaning(fold, groups, ms, i);
    assert ms[i].role in before <==> exists k | 0 <= k < i :: Applies(fold, groups, ms[k]) && ms[k].role == ms[i].role;
    assert before + [] == before;
  }

  method MapGroupsToRoles(fold: (string, string) -> bool, ms: seq<Mapping>, memberOf: MemberOf) returns (roles: seq<string>)
    ensures roles == Roles(fold, Groups(memberOf), ms, |ms|)
  {
    var groups := Groups(memberOf);
    var seen: set<string> := {};
    roles := [];
    for i := 0 to |ms|
      invariant roles == Roles(fold, groups, ms, i)
      invariant seen == Elements(roles)
    {
      RolesStep(fold, groups, ms, i);
      roles, seen := AddRole(fold, groups, ms[i], roles, seen);
    }
  }

  lemma AppliesSnoc(fold: (string, string) -> bool, groups: seq<string>, j: nat, m: Mapping)
    requires j < |groups|
    ensures Applies(fold, groups[..j + 1], m) <==> Applies(fold, groups[..j], m) || fold(groups[j], m.groupDN)
  {
    if Applies(fold, groups[..j], m) {
      var k :| 0 <= k < j && fold(groups[..j][k], m.groupDN);
      assert fold(groups[..j + 1][k], m.groupDN);
    }
    assert groups[..j + 1][j] == groups[j];
  }

  lemma {:induction false} NoGroupsNoRoles(fold: (string, string) -> bool, ms: seq<Mapping>, n: nat)
    requires n <= |ms|
    ensures Roles(fold, [], ms, n) == []
  {
    if n > 0 {
      NoGroupsNoRoles(fold, ms, n - 1);
    }
  }

  /** A single value counts as a list of one, and an attribute that is missing as none. */
  lemma OneIsAList(fold: (string, string) -> bool, ms: seq<Mapping>, g: string)
    ensures Roles(fold, Groups(One(g)), ms, |ms|) == Roles(fold, Groups(Many([g])), ms, |ms|)
    ensures Roles(fold, Groups(Absent), ms, |ms|) == []
  {
    NoGroupsNoRoles(fold, ms, |ms|);
  }

  /** A user in group `g`, alone or among others, has the role of every mapping that folds with it, and no other. */
  lemma MemberHasRole(fold: (string, string) -> bool, ms: seq<Mapping>, g: string, groups: seq<string>, role: string)
    ensures role in Roles(fold, Groups(One(g)), ms, |ms|)
            <==> exists i | 0 <= i < |ms| :: fold(g, ms[i].groupDN) && ms[i].role == role
    ensures g in groups && role in Roles(fold, Groups(One(g)), ms, |ms|) ==> role in Roles(fold, Groups(Many(groups)), ms, |ms|)
  {
    RolesMeaning(fold, Groups(One(g)), ms, |ms|);
    RolesMeaning(fold, Groups(Many(groups)), ms, |ms|);
    forall m: Mapping
      ensures Applies(fold, Groups(One(g)), m) <==> fold(g, m.groupDN)
      ensures g in groups && fold(g, m.groupDN) ==> Applies(fold, groups, m)
    {
      assert Groups(One(g))[0] == g;
    }
  }
}
