/**
 * The static rule verifier: each rule of the three `verification_hints` families becomes
 * one check; only `must_contain_any` and `must_not_contain` checks gate the verdict.
 * The families differ in case handling: `must_contain_any` compares lower-cased text,
 * `must_not_contain` and `should_contain` compare the text as written.
 */
module ContractVerifier {
  import opened Wrappers
  import opened TextOps
  import opened Standards

  datatype CheckKind = MustContainAny | MustNotContain | ShouldContain

  /** One entry of `checks`: `{type, rule, severity, passed, found}`. */
  datatype Check = Check(kind: CheckKind, rule: string, severity: string, passed: bool, found: Option<string>)

  /** The verification report: `{passed, critical_failed, checks}`. */
  datatype Report = Report(passed: bool, criticalFailed: bool, checks: seq<Check>)

  /** Pattern `p` is found in `code`, lower-casing both sides when `ignoreCase` holds. */
  predicate Found(p: string, code: string, ignoreCase: bool)
  {
    if ignoreCase then Contains(Lower(code), Lower(p)) else Contains(code, p)
  }

  /** The first pattern, in list order, that is found in `code`. */
  function FirstFound(patterns: seq<string>, code: string, ignoreCase: bool): (r: Option<string>)
    ensures r.None? <==> forall i :: 0 <= i < |patterns| ==> !Found(patterns[i], code, ignoreCase)
    ensures r.Some? ==> exists k :: (0 <= k < |patterns| && patterns[k] == r.value
      && Found(patterns[k], code, ignoreCase)
      && forall i :: 0 <= i < k ==> !Found(patterns[i], code, ignoreCase))
  {
    if patterns == [] then None
    else if Found(patterns[0], code, ignoreCase) then Some(patterns[0])
    else
      var r := FirstFound(patterns[1..], code, ignoreCase);
      assert forall i :: 0 < i < |patterns| ==> patterns[i] == patterns[1..][i - 1];
      r
  }

  /** The inner pattern loop: scan the patterns in order and stop at the first one found. */
  method FindFirst(patterns: seq<string>, code: string, ignoreCase: bool) returns (found: Option<string>)
    ensures found == FirstFound(patterns, code, ignoreCase)
  {
    found := None;
    var i := 0;
    while i < |patterns|
      invariant 0 <= i <= |patterns|
      invariant FirstFound(patterns, code, ignoreCase) == FirstFound(patterns[i..], code, ignoreCase)
    {
      if Found(patterns[i], code, ignoreCase) {
        found := Some(patterns[i]);
        break;
      }
      assert patterns[i..][1..] == patterns[i + 1..];
      i := i + 1;
    }
  }

  /**
   * The check one rule yields. A missing `patterns` is empty, a missing `reason` is `''`,
   * a missing `severity` is `'medium'`; `should_contain` checks always carry `'low'`.
   */
  function CheckRule(kind: CheckKind, rule: Rule, code: string): (c: Check)
    ensures c.kind == kind && c.rule == rule.reason.GetOr("")
    ensures c.found == FirstFound(rule.patterns.GetOr([]), code, kind == MustContainAny)
    ensures kind == MustContainAny ==>
      (c.passed <==> exists i :: 0 <= i < |rule.patterns.GetOr([])| && Found(rule.patterns.GetOr([])[i], code, true))
    ensures kind == MustNotContain ==>
      (c.passed <==> forall i :: 0 <= i < |rule.patterns.GetOr([])| ==> !Found(rule.patterns.GetOr([])[i], code, false))
    ensures kind == ShouldContain ==>
      (c.passed <==> exists i :: 0 <= i < |rule.patterns.GetOr([])| && Found(rule.patterns.GetOr([])[i], code, false))
    ensures kind == ShouldContain ==> c.severity == "low"
    ensures kind != ShouldContain ==> c.severity == rule.severity.GetOr("medium")
  {
    var found := FirstFound(rule.patterns.GetOr([]), code, kind == MustContainAny);
    var reason := rule.reason.GetOr("");
    match kind
    case MustContainAny => Check(kind, reason, rule.severity.GetOr("medium"), found.Some?, found)
    case MustNotContain => Check(kind, reason, rule.severity.GetOr("medium"), found.None?, found)
    case ShouldContain => Check(kind, reason, "low", found.Some?, found)
  }

  /** One family's checks, one per rule, in rule order. */
  function FamilyChecks(kind: CheckKind, rules: seq<Rule>, code: string): (cs: seq<Check>)
    ensures |cs| == |rules|
    ensures forall i :: 0 <= i < |rules| ==> cs[i] == CheckRule(kind, rules[i], code)
  {
    seq(|rules|, i requires 0 <= i < |rules| => CheckRule(kind, rules[i], code))
  }

  /** Every check passed. */
  predicate AllPassed(checks: seq<Check>)
  {
    forall i :: 0 <= i < |checks| ==> checks[i].passed
  }

  /** Some check failed with severity `'critical'`. */
  predicate CriticalFailure(checks: seq<Check>)
  {
    exists i :: 0 <= i < |checks| && !checks[i].passed && checks[i].severity == "critical"
  }

  /** How appending one check moves the two flags. */
  lemma AppendCheck(checks: seq<Check>, c: Check)
    ensures AllPassed(checks + [c]) == (AllPassed(checks) && c.passed)
    ensures CriticalFailure(checks + [c]) == (CriticalFailure(checks) || (!c.passed && c.severity == "critical"))
  {
    var all := checks + [c];
    assert all[|checks|] == c;
    assert forall i :: 0 <= i < |checks| ==> all[i] == checks[i];
  }

  /** The checks that can gate the verdict: all `must_contain_any` ones, then all `must_not_contain` ones. */
  function GatedChecks(code: string, hints: VerificationHints): (checks: seq<Check>)
  {
    FamilyChecks(MustContainAny, hints.mustContainAny.GetOr([]), code)
      + FamilyChecks(MustNotContain, hints.mustNotContain.GetOr([]), code)
  }

  /** The report `verify` produces, as a function of the code and the hints. */
  function Verdict(code: string, hints: VerificationHints): (report: Report)
  {
    var gated := GatedChecks(code, hints);
    var advisory := FamilyChecks(ShouldContain, hints.shouldContain.GetOr([]), code);
    Report(AllPassed(gated) && !CriticalFailure(gated), CriticalFailure(gated), gated + advisory)
  }

  /** `verify`: three loops append one check per rule and keep the two flags. */
  method Verify(code: string, hints: VerificationHints) returns (report: Report)
    ensures report == Verdict(code, hints)
  {
    var checks: seq<Check> := [];
    var allPassed := true;
    var criticalFailed := false;

    var rules := hints.mustContainAny.GetOr([]);
    var i := 0;
    while i < |rules|
      invariant 0 <= i <= |rules|
      invariant checks == FamilyChecks(MustContainAny, rules[..i], code)
      invariant allPassed == AllPassed(checks)
      invariant criticalFailed == CriticalFailure(checks)
    {
      var rule := rules[i];
      var patterns := rule.patterns.GetOr([]);
      var reason := rule.reason.GetOr("");
      var severity := rule.severity.GetOr("medium");
      var found := FindFirst(patterns, code, true);
      var passed := found.Some?;
      if !passed && severity == "critical" {
        criticalFailed := true;
      }
      if !passed {
        allPassed := false;
      }
      AppendCheck(checks, Check(MustContainAny, reason, severity, passed, found));
      checks := checks + [Check(MustContainAny, reason, severity, passed, found)];
      i := i + 1;
    }
    assert rules[..i] == rules;
    var mustContain := checks;

    rules := hints.mustNotContain.GetOr([]);
    i := 0;
    while i < |rules|
      invariant 0 <= i <= |rules|
      invariant checks == mustContain + FamilyChecks(MustNotContain, rules[..i], code)
      invariant allPassed == AllPassed(checks)
      invariant criticalFailed == CriticalFailure(checks)
    {
      var rule := rules[i];
      var patterns := rule.patterns.GetOr([]);
      var reason := rule.reason.GetOr("");
      var severity := rule.severity.GetOr("medium");
      var found := FindFirst(patterns, code, false);
      var passed := found.None?;
      if !passed && severity == "critical" {
        criticalFailed := true;
      }
      if !passed {
        allPassed := false;
      }
      AppendCheck(checks, Check(MustNotContain, reason, severity, passed, found));
      checks := checks + [Check(MustNotContain, reason, severity, passed, found)];
      i := i + 1;
    }
    assert rules[..i] == rules;
    var gated := checks;
    assert gated == GatedChecks(code, hints);

    rules := hints.shouldContain.GetOr([]);
    i := 0;
    while i < |rules|
      invariant 0 <= i <= |rules|
      invariant checks == gated + FamilyChecks(ShouldContain, rules[..i], code)
    {
      var rule := rules[i];
      var patterns := rule.patterns.GetOr([]);
      var reason := rule.reason.GetOr("");
      var found := FindFirst(patterns, code, false);
      checks := checks + [Check(ShouldContain, reason, "low", found.Some?, found)];
      i := i + 1;
    }
    assert rules[..i] == rules;

    report := Report(allPassed && !criticalFailed, criticalFailed, checks);
  }

  /**
   * The gating rules of the verdict: a critical failure implies the verdict fails, and the
   * verdict passes exactly when every `must_contain_any` and `must_not_contain` check passed.
   */
  lemma VerdictGating(code: string, hints: VerificationHints)
    ensures Verdict(code, hints).criticalFailed ==> !Verdict(code, hints).passed
    ensures Verdict(code, hints).passed <==> AllPassed(GatedChecks(code, hints))
    ensures Verdict(code, hints).criticalFailed <==> CriticalFailure(GatedChecks(code, hints))
  {
    var gated := GatedChecks(code, hints);
    if CriticalFailure(gated) {
      var i :| 0 <= i < |gated| && !gated[i].passed && gated[i].severity == "critical";
      assert !AllPassed(gated);
    }
  }

  /** `should_contain` rules never change `passed` or `critical_failed`. */
  lemma AdvisoryNeverGates(code: string, hints: VerificationHints, advisory: Option<seq<Rule>>)
    ensures var other := hints.(shouldContain := advisory);
      Verdict(code, other).passed == Verdict(code, hints).passed
      && Verdict(code, other).criticalFailed == Verdict(code, hints).criticalFailed
  {
  }

  /**
   * The layout of `checks`: one entry per rule, all `must_contain_any` checks first, then all
   * `must_not_contain` checks, then all `should_contain` checks, each family in rule order.
   */
  lemma ReportLayout(code: string, hints: VerificationHints)
    ensures var any := hints.mustContainAny.GetOr([]);
      var none := hints.mustNotContain.GetOr([]);
      var should := hints.shouldContain.GetOr([]);
      var checks := Verdict(code, hints).checks;
      && |checks| == |any| + |none| + |should|
      && (forall i :: 0 <= i < |any| ==> checks[i] == CheckRule(MustContainAny, any[i], code))
      && (forall i :: 0 <= i < |none| ==> checks[|any| + i] == CheckRule(MustNotContain, none[i], code))
      && (forall i :: 0 <= i < |should| ==> checks[|any| + |none| + i] == CheckRule(ShouldContain, should[i], code))
  {
  }

  /** A rule without patterns: its `must_contain_any` check always fails, its `must_not_contain` check always passes. */
  lemma EmptyPatternRules(code: string, reason: Option<string>, severity: Option<string>, patterns: Option<seq<string>>)
    requires patterns.None? || patterns == Some([])
    ensures !CheckRule(MustContainAny, Rule(patterns, reason, severity), code).passed
    ensures CheckRule(MustNotContain, Rule(patterns, reason, severity), code).passed
    ensures CheckRule(MustNotContain, Rule(patterns, reason, severity), code).found == None
  {
  }

  /** The sample deliverable checked at the bottom of the verifier module, line by line. */
  const SampleHead := "\n" + "import "
  const SampleMiddle := "\n" + "from flask import Flask\n" + "def login(username, password):\n" + "    hashed "
  const SampleBeforeAssignment := SampleHead + "bcrypt" + SampleMiddle
  const SampleAfterAssignment := " bcrypt.hashpw(password" + ".encode(), bcrypt.gensalt())\n"
    + "    return {\"token\": \"jwt_token\"}\n"
  const SampleCode := SampleBeforeAssignment + "=" + SampleAfterAssignment

  /** Its hints: a critical `bcrypt`/`hashlib` requirement and a critical ban on `password =`. */
  const SampleHints := VerificationHints(
    Some([Rule(Some(["bcrypt", "hashlib"]), Some("密码哈希"), Some("critical"))]),
    Some([Rule(Some(["password ="]), Some("明文密码"), Some("critical"))]),
    None)

  lemma SampleHasBcrypt()
    ensures Found("bcrypt", SampleCode, true)
  {
    var before := SampleHead;
    var after := SampleMiddle + "=" + SampleAfterAssignment;
    assert SampleCode == before + "bcrypt" + after;
    LowerAppend(before + "bcrypt", after);
    LowerAppend(before, "bcrypt");
    assert Lower("bcrypt") == "bcrypt";
    ContainsAt("bcrypt", "bcrypt", 0);
    ContainsInside(Lower(before), "bcrypt", Lower(after), "bcrypt");
  }

  lemma NoEqualsBeforeAssignment()
    ensures '=' !in SampleBeforeAssignment
  {
    assert '=' !in SampleHead;
    assert '=' !in "bcrypt";
    assert '=' !in "\n" + "from flask import Flask\n";
    assert '=' !in "def login(username, password):\n";
    assert '=' !in "    hashed ";
  }

  lemma NoEqualsAfterAssignment()
    ensures '=' !in SampleAfterAssignment
  {
    assert '=' !in " bcrypt.hashpw(password";
    assert '=' !in ".encode(), bcrypt.gensalt())\n";
    assert '=' !in "    return {\"token\": \"jwt_token\"}\n";
  }

  lemma SampleBeforeAssignmentEnd()
    ensures SampleBeforeAssignment[|SampleBeforeAssignment| - 9..] != "password =" [..9]
  {
    var a := SampleBeforeAssignment;
    var tail := "    hashed ";
    assert a[|a| - 9..] == tail[2..];
    assert tail[2..][0] == ' ' != "password =" [..9][0];
  }

  lemma SampleHasNoPlaintextPassword()
    ensures !Found("password =", SampleCode, false)
  {
    NoEqualsBeforeAssignment();
    NoEqualsAfterAssignment();
    SampleBeforeAssignmentEnd();
    assert "=" == ['='];
    AbsentByAnchor(SampleBeforeAssignment, '=', SampleAfterAssignment, "password =", 9);
  }

  /**
   * The verifier's own example: the `bcrypt` rule passes with `found = "bcrypt"`, the
   * `password =` rule passes, and the verdict is `passed` without a critical failure.
   */
  lemma SampleVerdict()
    ensures Verdict(SampleCode, SampleHints) == Report(true, false, [
      Check(MustContainAny, "密码哈希", "critical", true, Some("bcrypt")),
      Check(MustNotContain, "明文密码", "critical", true, None)])
  {
    SampleHasBcrypt();
    SampleHasNoPlaintextPassword();
    var checks := Verdict(SampleCode, SampleHints).checks;
    assert checks[0] == Check(MustContainAny, "密码哈希", "critical", true, Some("bcrypt"));
    assert checks[1] == Check(MustNotContain, "明文密码", "critical", true, None);
  }

  /** A deliverable holding a plaintext assignment `password = "abc"` fails the ban critically. */
  lemma PlaintextPasswordFails()
    ensures var hints := VerificationHints(None, Some([Rule(Some(["password ="]), Some("明文密码"), Some("critical"))]), None);
      Verdict("password = \"abc\"", hints) == Report(false, true, [
        Check(MustNotContain, "明文密码", "critical", false, Some("password ="))])
  {
    ContainsAt("password = \"abc\"", "password =", 0);
    var hints := VerificationHints(None, Some([Rule(Some(["password ="]), Some("明文密码"), Some("critical"))]), None);
    var checks := Verdict("password = \"abc\"", hints).checks;
    assert checks[0] == Check(MustNotContain, "明文密码", "critical", false, Some("password ="));
    assert !checks[0].passed && checks[0].severity == "critical";
  }
}
