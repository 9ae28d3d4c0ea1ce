/** The password-strength policy applied at signup (`is_strong_password`). */
module PasswordPolicy {
  import opened Seqs
  import opened PyText

  /** The five strength rules, in the order they are checked. */
  datatype Rule = MinLength | Uppercase | Lowercase | Digit | Special

  const Rules: seq<Rule> := [MinLength, Uppercase, Lowercase, Digit, Special]

  /** `re.search(r'[A-Z]', pw)` and the like: some character of `pw` is in the class. */
  predicate HasUpper(pw: string) { exists i | 0 <= i < |pw| :: IsAsciiUpper(pw[i]) }
  predicate HasLower(pw: string) { exists i | 0 <= i < |pw| :: IsAsciiLower(pw[i]) }
  predicate HasDigit(pw: string) { exists i | 0 <= i < |pw| :: IsAsciiDigit(pw[i]) }
  /** `[^A-Za-z0-9]`: any character that is not an ASCII letter or digit, whitespace and
      non-ASCII characters included. */
  predicate HasSpecial(pw: string) { exists i | 0 <= i < |pw| :: !IsAsciiAlnum(pw[i]) }

  predicate Holds(r: Rule, pw: string)
  {
    match r
    case MinLength => |pw| >= 8
    case Uppercase => HasUpper(pw)
    case Lowercase => HasLower(pw)
    case Digit => HasDigit(pw)
    case Special => HasSpecial(pw)
  }

  /** The human-readable requirement reported when a rule fails. */
  function Requirement(r: Rule): string
  {
    match r
    case MinLength => "at least 8 characters"
    case Uppercase => "an uppercase letter"
    case Lowercase => "a lowercase letter"
    case Digit => "a digit"
    case Special => "a special character"
  }

  const Requirements: seq<string> := Map(Requirement, Rules)

  /** Reference definition: the requirements of the failing rules, in rule order. */
  function Deficiencies(pw: string): seq<string>
  {
    Map(Requirement, Filter(Rules, r => !Holds(r, pw)))
  }

  /** The requirement of rule `r` if `failing` says it fails. */
  function Report(r: Rule, failing: Rule -> bool): seq<string>
  {
    if failing(r) then [Requirement(r)] else []
  }

  function Selected(r: Rule, failing: Rule -> bool): seq<Rule>
  {
    if failing(r) then [r] else []
  }

  /** The failing rules, rule by rule. */
  lemma FailingRules(f: Rule -> bool)
    ensures Filter(Rules, f) ==
      Selected(MinLength, f) + (Selected(Uppercase, f) + (Selected(Lowercase, f)
      + (Selected(Digit, f) + Selected(Special, f))))
  {
    var t4: seq<Rule> := [Special];
    var t3 := [Digit] + t4;
    var t2 := [Lowercase] + t3;
    var t1 := [Uppercase] + t2;
    assert Rules == [MinLength] + t1;
    assert [Special] + [] == t4;
    FilterCons(Special, [], f);
    FilterCons(Digit, t4, f);
    FilterCons(Lowercase, t3, f);
    FilterCons(Uppercase, t2, f);
    FilterCons(MinLength, t1, f);
  }

  /** Filtering the five rules, rule by rule, for any notion of failure. */
  lemma RequirementsOfFailing(f: Rule -> bool)
    ensures Map(Requirement, Filter(Rules, f)) ==
      Report(MinLength, f) + Report(Uppercase, f) + Report(Lowercase, f)
      + Report(Digit, f) + Report(Special, f)
  {
    FailingRules(f);
    var s0, s1, s2, s3, s4 := Selected(MinLength, f), Selected(Uppercase, f),
      Selected(Lowercase, f), Selected(Digit, f), Selected(Special, f);
    MapAppend(Requirement, s0, s1 + (s2 + (s3 + s4)));
    MapAppend(Requirement, s1, s2 + (s3 + s4));
    MapAppend(Requirement, s2, s3 + s4);
    MapAppend(Requirement, s3, s4);
    MapReport(MinLength, f);
    MapReport(Uppercase, f);
    MapReport(Lowercase, f);
    MapReport(Digit, f);
    MapReport(Special, f);
    var m0, m1, m2, m3, m4 := Report(MinLength, f), Report(Uppercase, f), Report(Lowercase, f), Report(Digit, f), Report(Special, f);
    assert Map(Requirement, Filter(Rules, f)) == m0 + (m1 + (m2 + (m3 + m4)));
    ConcatAssoc(m2, m3, m4);
    ConcatAssoc(m1, m2, m3 + m4);
    ConcatAssoc(m1 + m2, m3, m4);
    ConcatAssoc(m0, m1, m2 + (m3 + m4));
    ConcatAssoc(m0 + m1, m2, m3 + m4);
    ConcatAssoc(m0 + m1 + m2, m3, m4);
  }

  lemma MapReport(r: Rule, f: Rule -> bool)
    ensures Map(Requirement, Selected(r, f)) == Report(r, f)
  {
  }

  /** `is_strong_password`: one check after the other, appending the requirement of each
      failing rule. */
  method IsStrongPassword(pw: string) returns (errors: seq<string>)
    ensures errors == Deficiencies(pw)
  {
    ghost var failing := r => !Holds(r, pw);
    RequirementsOfFailing(failing);
    errors := [];
    if |pw| < 8 {
      errors := errors + ["at least 8 characters"];
    }
    assert errors == Report(MinLength, failing);
    if !HasUpper(pw) {
      errors := errors + ["an uppercase letter"];
    }
    assert errors == Report(MinLength, failing) + Report(Uppercase, failing);
    if !HasLower(pw) {
      errors := errors + ["a lowercase letter"];
    }
    assert errors == Report(MinLength, failing) + Report(Uppercase, failing) + Report(Lowercase, failing);
    if !HasDigit(pw) {
      errors := errors + ["a digit"];
    }
    assert errors == Report(MinLength, failing) + Report(Uppercase, failing) + Report(Lowercase, failing)
      + Report(Digit, failing);
    if !HasSpecial(pw) {
      errors := errors + ["a special character"];
    }
  }

  /** A password is accepted exactly when it meets all five rules. */
  lemma StrongIffAllRulesHold(pw: string)
    ensures Deficiencies(pw) == [] <==>
      && |pw| >= 8
      && (exists i :: 0 <= i < |pw| && 'A' <= pw[i] <= 'Z')
      && (exists i :: 0 <= i < |pw| && 'a' <= pw[i] <= 'z')
      && (exists i :: 0 <= i < |pw| && '0' <= pw[i] <= '9')
      && (exists i :: 0 <= i < |pw| && !IsAsciiAlnum(pw[i]))
  {
    var failing := Filter(Rules, r => !Holds(r, pw));
    forall r | r in Rules ensures r in failing <==> !Holds(r, pw) {
      FilterMembership(Rules, r => !Holds(r, pw), r);
    }
    assert failing == [] <==> forall r :: r in Rules ==> Holds(r, pw);
  }

  lemma RequirementInjective(r: Rule, s: Rule)
    ensures Requirement(r) == Requirement(s) ==> r == s
  {
  }

  /** Each requirement is reported exactly when its own rule fails. */
  lemma {:induction false} RequirementReportedIffRuleFails(pw: string, r: Rule)
    ensures Requirement(r) in Deficiencies(pw) <==> !Holds(r, pw)
  {
    var f := r => !Holds(r, pw);
    var failing := Filter(Rules, f);
    FilterMembership(Rules, f, r);
    if Requirement(r) in Deficiencies(pw) {
      var k :| 0 <= k < |failing| && Requirement(failing[k]) == Requirement(r);
      RequirementInjective(failing[k], r);
      assert failing[k] in failing;
    }
    if !Holds(r, pw) {
      var k :| 0 <= k < |failing| && failing[k] == r;
      assert Deficiencies(pw)[k] == Requirement(r);
    }
  }

  /** The report follows the fixed order of the requirements, so it has no duplicates and
      at most five entries. */
  lemma DeficienciesInRuleOrder(pw: string)
    ensures IsSubsequence(Deficiencies(pw), Requirements)
    ensures Distinct(Deficiencies(pw))
    ensures |Deficiencies(pw)| <= 5
  {
    FilterIsSubsequence(Rules, r => !Holds(r, pw));
    MapSubsequence(Requirement, Filter(Rules, r => !Holds(r, pw)), Rules);
    assert Distinct(Requirements);
    SubsequenceDistinct(Deficiencies(pw), Requirements);
    SubsequenceLength(Deficiencies(pw), Requirements);
  }

  /** A password that breaks one rule only is told exactly that rule. */
  lemma OnlyOneRuleFails(pw: string, r: Rule)
    requires !Holds(r, pw)
    requires forall s :: s != r ==> Holds(s, pw)
    ensures Deficiencies(pw) == [Requirement(r)]
  {
  }

  /** The empty password fails every rule. */
  lemma EmptyPasswordFailsAll()
    ensures Deficiencies("") == Requirements
  {
  }

  lemma ExampleStrongPassword()
    ensures Deficiencies("Abcdef1!") == []
  {
    assert IsAsciiUpper("Abcdef1!"[0]) && IsAsciiLower("Abcdef1!"[1]);
    assert IsAsciiDigit("Abcdef1!"[6]) && !IsAsciiAlnum("Abcdef1!"[7]);
  }
}
