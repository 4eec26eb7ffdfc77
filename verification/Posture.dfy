/** Device posture: a weighted score, compliance, and why a better device never fares worse. */
module Posture {
  import opened Int64
  import V = Versions

  datatype Check = Check(name: string, required: bool, weight: int, minValue: string)

  datatype Policy = Policy(tenant: string, checks: seq<Check>, minScore: int, action: string)

  datatype Input = Input(
    deviceId: string,
    osVersion: string,
    diskEncrypted: bool,
    jailbroken: bool,
    screenLock: bool,
    mdmEnrolled: bool,
    certValid: bool)

  datatype CheckResult = CheckResult(name: string, passed: bool)

  datatype Verdict = Verdict(deviceId: string, score: int, compliant: bool, action: string, checks: seq<CheckResult>)

  /** An unknown check passes. */
  predicate Passes(check: Check, input: Input) {
    if check.name == "os_version" then
      check.minValue == "" || V.CompareVersions(input.osVersion, check.minValue) >= 0
    else if check.name == "disk_encrypted" then input.diskEncrypted
    else if check.name == "jailbroken" then !input.jailbroken
    else if check.name == "screen_lock" then input.screenLock
    else if check.name == "mdm_enrolled" then input.mdmEnrolled
    else if check.name == "cert_valid" then input.certValid
    else true
  }

  // ----- What a policy adds up to

  /** The weight of the checks that `passed` says are met, as an unbounded sum. */
  function Weight(checks: seq<Check>, passed: Check -> bool): int {
    if checks == [] then 0
    else
      var last := checks[|checks| - 1];
      Weight(checks[..|checks| - 1], passed) + if passed(last) then last.weight else 0
  }

  function Total(checks: seq<Check>): int {
    Weight(checks, c => true)
  }

  function Earned(checks: seq<Check>, input: Input): int {
    Weight(checks, c => Passes(c, input))
  }

  function Score(checks: seq<Check>, input: Input): int {
    var total := Wrap(Total(checks));
    if total > 0 then Quotient(Wrap(Wrap(Earned(checks, input)) * 100), total) else 100
  }

  predicate RequiredMet(checks: seq<Check>, passed: Check -> bool) {
    forall i | 0 <= i < |checks| && checks[i].required :: passed(checks[i])
  }

  predicate RequiredPass(checks: seq<Check>, input: Input) {
    RequiredMet(checks, c => Passes(c, input))
  }

  predicate Compliant(policy: Policy, input: Input) {
    RequiredPass(policy.checks, input) && Score(policy.checks, input) >= policy.minScore
  }

  function Results(checks: seq<Check>, passed: Check -> bool): seq<CheckResult> {
    seq(|checks|, i requires 0 <= i < |checks| => CheckResult(checks[i].name, passed(checks[i])))
  }

  function CheckResults(checks: seq<Check>, input: Input): seq<CheckResult> {
    Results(checks, c => Passes(c, input))
  }

  function DefaultPolicy(tenant: string): Policy {
    Policy(
      tenant,
      [ Check("os_version", false, 15, "13.0"),
        Check("disk_encrypted", true, 25, ""),
        Check("jailbroken", true, 30, ""),
        Check("screen_lock", false, 10, ""),
        Check("mdm_enrolled", false, 10, ""),
        Check("cert_valid", true, 10, "")],
      70,
      "block")
  }

  lemma WeightSnoc(checks: seq<Check>, i: nat, passed: Check -> bool)
    requires i < |checks|
    ensures Weight(checks[..i + 1], passed) == Weight(checks[..i], passed) + if passed(checks[i]) then checks[i].weight else 0
  {
    assert checks[..i + 1][..i] == checks[..i];
  }

  /** `sum += weight` when the check counts, in 64 bits. */
  lemma AddWeight(checks: seq<Check>, i: nat, passed: Check -> bool)
    requires i < |checks|
    ensures Wrap(Weight(checks[..i + 1], passed))
            == if passed(checks[i]) then Wrap(Wrap(Weight(checks[..i], passed)) + checks[i].weight)
               else Wrap(Weight(checks[..i], passed))
  {
    WeightSnoc(checks, i, passed);
    WrapEarly(Weight(checks[..i], passed), 1, checks[i].weight);
  }

  lemma AddTotal(checks: seq<Check>, i: nat)
    requires i < |checks|
    ensures Wrap(Total(checks[..i + 1])) == Wrap(Wrap(Total(checks[..i])) + checks[i].weight)
  {
    AddWeight(checks, i, c => true);
  }

  lemma ResultsSnoc(checks: seq<Check>, i: nat, passed: Check -> bool)
    requires i < |checks|
    ensures Results(checks[..i + 1], passed) == Results(checks[..i], passed) + [CheckResult(checks[i].name, passed(checks[i]))]
    ensures RequiredMet(checks[..i + 1], passed) <==> RequiredMet(checks[..i], passed) && (checks[i].required ==> passed(checks[i]))
  {
    assert checks[..i + 1] == checks[..i] + [checks[i]];
  }

  class Engine {
    var policies: map<string, Policy>

    constructor ()
      ensures policies == map[]
    {
      policies := map[];
    }

    method SetPolicy(tenant: string, policy: Policy)
      modifies this
      ensures GetPolicy(tenant) == policy.(tenant := tenant)
      ensures forall t | t != tenant :: GetPolicy(t) == old(GetPolicy(t))
    {
      policies := policies[tenant := policy.(tenant := tenant)];
    }

    function GetPolicy(tenant: string): Policy
      reads this
    {
      if tenant in policies then policies[tenant] else DefaultPolicy(tenant)
    }

    method Evaluate(tenant: string, input: Input) returns (r: Verdict)
      ensures var policy := GetPolicy(tenant);
              && r.deviceId == input.deviceId
              && r.checks == CheckResults(policy.checks, input)
              && r.score == Score(policy.checks, input)
              && r.compliant == Compliant(policy, input)
              && r.action == if r.compliant then "allow" else policy.action
    {
      var policy := GetPolicy(tenant);
      r := EvaluatePolicy(policy, input);
    }
  }

  method EvaluatePolicy(policy: Policy, input: Input) returns (r: Verdict)
    ensures r.deviceId == input.deviceId
    ensures r.checks == CheckResults(policy.checks, input)
    ensures r.score == Score(policy.checks, input)
    ensures r.compliant == Compliant(policy, input)
    ensures r.action == if r.compliant then "allow" else policy.action
  {
    var total, earned, compliant, results := Tally(policy.checks, c => Passes(c, input));
    var score := 100;
    if total > 0 {
      score := Quotient(Wrap(earned * 100), total);
    }
    compliant := compliant && score >= policy.minScore;
    r := Verdict(input.deviceId, score, compliant, if compliant then "allow" else policy.action, results);
  }

  /** The loop over the checks. */
  method Tally(checks: seq<Check>, evaluate: Check -> bool)
    returns (total: int, earned: int, compliant: bool, results: seq<CheckResult>)
    ensures total == Wrap(Total(checks)) && earned == Wrap(Weight(checks, evaluate))
    ensures compliant == RequiredMet(checks, evaluate) && results == Results(checks, evaluate)
  {
    total, earned, compliant, results := 0, 0, true, [];
    for i := 0 to |checks|
      invariant total == Wrap(Total(checks[..i]))
      invariant earned == Wrap(Weight(checks[..i], evaluate))
      invariant compliant == RequiredMet(checks[..i], evaluate)
      invariant results == Results(checks[..i], evaluate)
    {
      var check := checks[i];
      var passed := evaluate(check);
      results := results + [CheckResult(check.name, passed)];
      AddTotal(checks, i);
      AddWeight(checks, i, evaluate);
      ResultsSnoc(checks, i, evaluate);
      total := Wrap(total + check.weight);
      if passed {
        earned := Wrap(earned + check.weight);
      }
      if check.required && !passed {
        compliant := false;
      }
    }
    assert checks[..|checks|] == checks;
  }

  // ----- Better devices

  /** `d` is at least as good as `e` on everything a check can ask. */
  predicate AtLeastAsGood(d: Input, e: Input) {
    && V.CompareVersions(d.osVersion, e.osVersion) >= 0
    && (e.diskEncrypted ==> d.diskEncrypted)
    && (d.jailbroken ==> e.jailbroken)
    && (e.screenLock ==> d.screenLock)
    && (e.mdmEnrolled ==> d.mdmEnrolled)
    && (e.certValid ==> d.certValid)
  }

  lemma BetterPasses(check: Check, d: Input, e: Input)
    requires AtLeastAsGood(d, e) && Passes(check, e)
    ensures Passes(check, d)
  {
    if check.name == "os_version" && check.minValue != "" {
      V.CompareTransitive(d.osVersion, e.osVersion, check.minValue);
    }
  }

  predicate NonNegative(checks: seq<Check>) {
    forall i | 0 <= i < |checks| :: checks[i].weight >= 0
  }

  lemma {:induction false} WeightGrows(checks: seq<Check>, few: Check -> bool, many: Check -> bool)
    requires NonNegative(checks) && forall c | few(c) :: many(c)
    ensures 0 <= Weight(checks, few) <= Weight(checks, many)
  {
    if checks != [] {
      WeightGrows(checks[..|checks| - 1], few, many);
    }
  }

  /** Weights that are not negative and whose sum, times a hundred, fits in 64 bits. */
  predicate Reasonable(checks: seq<Check>) {
    NonNegative(checks) && Fits(100 * Total(checks))
  }

  lemma EarnedWithinTotal(checks: seq<Check>, input: Input)
    requires Reasonable(checks)
    ensures 0 <= Earned(checks, input) <= Total(checks)
  {
    WeightGrows(checks, c => Passes(c, input), c => true);
  }

  /** The score without its machine arithmetic. */
  lemma ScoreIsPercentage(checks: seq<Check>, input: Input)
    requires Reasonable(checks)
    ensures Score(checks, input) == if Total(checks) > 0 then 100 * Earned(checks, input) / Total(checks) else 100
  {
    EarnedWithinTotal(checks, input);
  }

  lemma QuotientsOrdered(a: int, b: int, n: int)
    requires a <= b && n > 0
    ensures a / n <= b / n
  {
    if b / n < a / n {
      ProductsOrdered(b / n + 1, a / n, n);
    }
  }

  /** The score is a percentage, and a better device has no lower one. */
  lemma ScoreIsMonotone(checks: seq<Check>, d: Input, e: Input)
    requires Reasonable(checks) && AtLeastAsGood(d, e)
    ensures 0 <= Score(checks, e) <= Score(checks, d) <= 100
  {
    ScoreIsPercentage(checks, d);
    ScoreIsPercentage(checks, e);
    EarnedWithinTotal(checks, d);
    EarnedWithinTotal(checks, e);
    forall c | Passes(c, e)
      ensures Passes(c, d)
    {
      BetterPasses(c, d, e);
    }
    WeightGrows(checks, c => Passes(c, e), c => Passes(c, d));
    var total := Total(checks);
    if total > 0 {
      QuotientsOrdered(0, 100 * Earned(checks, e), total);
      QuotientsOrdered(100 * Earned(checks, e), 100 * Earned(checks, d), total);
      QuotientsOrdered(100 * Earned(checks, d), 100 * total, total);
      QuotientIs(100 * total, total, 100);
    }
  }

  /** A device that is at least as good as a compliant one is compliant. */
  lemma ComplianceIsMonotone(policy: Policy, d: Input, e: Input)
    requires Reasonable(policy.checks) && AtLeastAsGood(d, e) && Compliant(policy, e)
    ensures Compliant(policy, d)
  {
    ScoreIsMonotone(policy.checks, d, e);
    forall i | 0 <= i < |policy.checks| && policy.checks[i].required
      ensures Passes(policy.checks[i], d)
    {
      BetterPasses(policy.checks[i], d, e);
    }
  }

  /** The laws hold of the policy that a tenant without one of its own gets; its weights sum to a hundred. */
  lemma DefaultIsReasonable(tenant: string)
    ensures Reasonable(DefaultPolicy(tenant).checks) && Total(DefaultPolicy(tenant).checks) == 100
  {
    var checks := DefaultPolicy(tenant).checks;
    assert checks[..0] == [] && checks[..6] == checks;
    WeightSnoc(checks, 0, c => true);
    WeightSnoc(checks, 1, c => true);
    WeightSnoc(checks, 2, c => true);
    WeightSnoc(checks, 3, c => true);
    WeightSnoc(checks, 4, c => true);
    WeightSnoc(checks, 5, c => true);
  }

  // ----- What the checks ask

  /** Each named check asks for one thing, whatever its weight, and a check of any other name for nothing. */
  lemma CheckMeaning(check: Check, input: Input)
    ensures check.name == "os_version" ==>
              (Passes(check, input) <==> check.minValue == "" || V.CompareVersions(input.osVersion, check.minValue) >= 0)
    ensures check.name == "disk_encrypted" ==> Passes(check, input) == input.diskEncrypted
    ensures check.name == "jailbroken" ==> Passes(check, input) == !input.jailbroken
    ensures check.name == "screen_lock" ==> Passes(check, input) == input.screenLock
    ensures check.name == "mdm_enrolled" ==> Passes(check, input) == input.mdmEnrolled
    ensures check.name == "cert_valid" ==> Passes(check, input) == input.certValid
    ensures check.name !in ["os_version", "disk_encrypted", "jailbroken", "screen_lock", "mdm_enrolled", "cert_valid"] ==>
              Passes(check, input)
  {
    DifferentNames();
  }

  lemma DifferentNames()
    ensures "jailbroken" != "os_version" && "cert_valid" != "os_version" && "cert_valid" != "jailbroken"
    ensures |"disk_encrypted"| == 14 && |"screen_lock"| == 11 && |"mdm_enrolled"| == 12
    ensures |"os_version"| == 10 && |"jailbroken"| == 10 && |"cert_valid"| == 10
  {
    assert "jailbroken"[0] == 'j' && "os_version"[0] == 'o' && "cert_valid"[0] == 'c';
  }

  function Points(earned: bool, weight: int): int {
    if earned then weight else 0
  }

  lemma {:induction false} WeightOfSix(checks: seq<Check>, passed: Check -> bool)
    requires |checks| == 6
    ensures Weight(checks, passed) ==
            Points(passed(checks[0]), checks[0].weight) + Points(passed(checks[1]), checks[1].weight)
            + Points(passed(checks[2]), checks[2].weight) + Points(passed(checks[3]), checks[3].weight)
            + Points(passed(checks[4]), checks[4].weight) + Points(passed(checks[5]), checks[5].weight)
  {
    assert checks[..0] == [] && checks[..6] == checks;
    WeightSnoc(checks, 0, passed);
    WeightSnoc(checks, 1, passed);
    WeightSnoc(checks, 2, passed);
    WeightSnoc(checks, 3, passed);
    WeightSnoc(checks, 4, passed);
    WeightSnoc(checks, 5, passed);
  }

  /** The score under the policy of a tenant without one of its own. */
  lemma DefaultScore(tenant: string, input: Input)
    ensures Score(DefaultPolicy(tenant).checks, input) ==
            Points(V.CompareVersions(input.osVersion, "13.0") >= 0, 15) + Points(input.diskEncrypted, 25)
            + Points(!input.jailbroken, 30) + Points(input.screenLock, 10)
            + Points(input.mdmEnrolled, 10) + Points(input.certValid, 10)
  {
    var checks := DefaultPolicy(tenant).checks;
    DefaultIsReasonable(tenant);
    ScoreIsPercentage(checks, input);
    WeightOfSix(checks, c => Passes(c, input));
    DefaultPasses(tenant, input);
    QuotientIs(100 * Earned(checks, input), 100, Earned(checks, input));
  }

  lemma DefaultPasses(tenant: string, input: Input)
    ensures var checks := DefaultPolicy(tenant).checks;
            && Passes(checks[0], input) == (V.CompareVersions(input.osVersion, "13.0") >= 0)
            && Passes(checks[1], input) == input.diskEncrypted && Passes(checks[2], input) == !input.jailbroken
            && Passes(checks[3], input) == input.screenLock && Passes(checks[4], input) == input.mdmEnrolled
            && Passes(checks[5], input) == input.certValid
  {
    var checks := DefaultPolicy(tenant).checks;
    CheckMeaning(checks[0], input);
    CheckMeaning(checks[1], input);
    CheckMeaning(checks[2], input);
    CheckMeaning(checks[3], input);
    CheckMeaning(checks[4], input);
    CheckMeaning(checks[5], input);
  }

  /** Under it a device is compliant iff it meets the three required checks and at least one of the other three; any other is blocked. */
  lemma DefaultCompliantIff(tenant: string, input: Input)
    ensures Compliant(DefaultPolicy(tenant), input) <==>
            && input.diskEncrypted && !input.jailbroken && input.certValid
            && (V.CompareVersions(input.osVersion, "13.0") >= 0 || input.screenLock || input.mdmEnrolled)
    ensures DefaultPolicy(tenant).action == "block" && DefaultPolicy(tenant).tenant == tenant
  {
    DefaultScore(tenant, input);
    DefaultRequires(tenant, input);
  }

  lemma DefaultRequires(tenant: string, input: Input)
    ensures RequiredPass(DefaultPolicy(tenant).checks, input) <==> input.diskEncrypted && !input.jailbroken && input.certValid
  {
    DefaultPasses(tenant, input);
    RequiredOfSix(DefaultPolicy(tenant).checks, c => Passes(c, input));
  }

  lemma RequiredOfSix(checks: seq<Check>, passed: Check -> bool)
    requires |checks| == 6 && checks[1].required && checks[2].required && checks[5].required
    requires !checks[0].required && !checks[3].required && !checks[4].required
    ensures RequiredMet(checks, passed) <==> passed(checks[1]) && passed(checks[2]) && passed(checks[5])
  {
  }

  // ----- Where machine arithmetic shows

  lemma {:induction false} WeightsAgree(checks: seq<Check>, p: Check -> bool, q: Check -> bool)
    requires forall i | 0 <= i < |checks| :: p(checks[i]) == q(checks[i])
    ensures Weight(checks, p) == Weight(checks, q)
  {
    if checks != [] {
      WeightsAgree(checks[..|checks| - 1], p, q);
    }
  }

  lemma HundredTimes(w: int)
    requires 0 < w && Fits(w)
    ensures Quotient(Wrap(w * 100), w) == 100 <==> Fits(100 * w)
  {
    if Fits(100 * w) {
      QuotientIs(100 * w, w, 100);
    } else {
      WrapTurns(w * 100);
      var k: int :| Wrap(w * 100) == w * 100 + k * MODULUS;
      assert k <= -1;
      assert Wrap(w * 100) < 100 * w;
      var p := Wrap(w * 100);
      if p >= 0 {
        assert p / w < 100 by {
          QuotientBelow(p, w);
        }
      }
    }
  }

  lemma QuotientBelow(p: int, w: int)
    requires w > 0 && 0 <= p < 100 * w
    ensures p / w < 100
  {
  }

  /** A device that passes every check scores 100 if and only if the total weight, if positive, times a hundred fits. */
  lemma FullMarksIff(checks: seq<Check>, input: Input)
    requires forall i | 0 <= i < |checks| :: Passes(checks[i], input)
    ensures Score(checks, input) == 100 <==> Wrap(Total(checks)) <= 0 || Fits(100 * Wrap(Total(checks)))
  {
    WeightsAgree(checks, c => Passes(c, input), c => true);
    if Wrap(Total(checks)) > 0 {
      HundredTimes(Wrap(Total(checks)));
    }
  }

  /** The weight of 2^62 that a passing device is scored zero for. */
  lemma HugeWeightScoresZero(input: Input)
    ensures Score([Check("other", false, 0x4000_0000_0000_0000, "")], input) == 0
  {
    var c := Check("other", false, 0x4000_0000_0000_0000, "");
    assert [c][..0] == [] && [c][..1] == [c];
    WeightSnoc([c], 0, x => true);
    WeightSnoc([c], 0, x => Passes(x, input));
    assert Total([c]) == c.weight && Earned([c], input) == c.weight;
    TurnsAreLost(0, 25);
    assert Wrap(c.weight * 100) == 0;
    QuotientIs(0, c.weight, 0);
  }
}
