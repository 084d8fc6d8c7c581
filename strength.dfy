/**
  The rule evaluator of `updateStrength` (script.js): four composition checks
  over the password, a score that counts the satisfied checks, a label taken
  from a fixed five-entry table, the parallel requirements list built from the
  same checks, and the all-pass override.
*/
module Strength {
  import opened Text

  /** `/[a-z]/.test(pwd)` */
  predicate HasLower(pwd: string) { exists i :: 0 <= i < |pwd| && IsAsciiLower(pwd[i]) }
  /** `/[A-Z]/.test(pwd)` */
  predicate HasUpper(pwd: string) { exists i :: 0 <= i < |pwd| && IsAsciiUpper(pwd[i]) }
  /** `/\d/.test(pwd)`: without the `u` flag `\d` is exactly `[0-9]`. */
  predicate HasDigit(pwd: string) { exists i :: 0 <= i < |pwd| && IsAsciiDigit(pwd[i]) }
  /**
    `/[^A-Za-z0-9]/.test(pwd)`. The regular expression runs over UTF-16 code
    units; a character outside the Basic Multilingual Plane is two surrogate
    code units, both outside the class, so testing whole characters agrees.
  */
  predicate HasSymbol(pwd: string) {
    exists i :: 0 <= i < |pwd| && !(IsAsciiLetter(pwd[i]) || IsAsciiDigit(pwd[i]))
  }
  /** `pwd.length >= 8`, with the length in UTF-16 code units. */
  predicate LongEnough(pwd: string): (long: bool)
    ensures |pwd| >= 8 ==> long
    ensures long ==> |pwd| >= 4
  {
    Utf16Length(pwd) >= 8
  }

  /** The four checks in the order the score and the requirements list use them. */
  function Checks(pwd: string): (checks: seq<bool>)
    ensures |checks| == 4
  {
    [LongEnough(pwd), HasLower(pwd) && HasUpper(pwd), HasDigit(pwd), HasSymbol(pwd)]
  }

  /** Number of `true` entries. */
  function CountTrue(bs: seq<bool>): (n: nat)
    ensures n <= |bs|
    ensures n == |bs| <==> forall i :: 0 <= i < |bs| ==> bs[i]
    ensures n == 0 <==> forall i :: 0 <= i < |bs| ==> !bs[i]
    decreases |bs|
  {
    if bs == [] then 0 else (if bs[0] then 1 else 0) + CountTrue(bs[1..])
  }

  /** The score before the override: one point per satisfied check. */
  function BaseScore(pwd: string): (score: nat)
    ensures score <= 4
    ensures score == 4 <==>
      LongEnough(pwd) && HasLower(pwd) && HasUpper(pwd) && HasDigit(pwd) && HasSymbol(pwd)
    ensures score == 0 <==>
      !LongEnough(pwd) && !(HasLower(pwd) && HasUpper(pwd)) && !HasDigit(pwd) && !HasSymbol(pwd)
  {
    var checks := Checks(pwd);
    assert checks[0] == LongEnough(pwd) && checks[1] == (HasLower(pwd) && HasUpper(pwd));
    assert checks[2] == HasDigit(pwd) && checks[3] == HasSymbol(pwd);
    CountTrue(checks)
  }

  /** The base score is one point for each satisfied check, added in order. */
  lemma BaseScoreCountsChecks(pwd: string)
    ensures BaseScore(pwd) ==
      (if LongEnough(pwd) then 1 else 0) + (if HasLower(pwd) && HasUpper(pwd) then 1 else 0)
      + (if HasDigit(pwd) then 1 else 0) + (if HasSymbol(pwd) then 1 else 0)
  {
    var checks := Checks(pwd);
    assert checks[1..][1..][1..][1..] == [];
    assert checks[1..][1..][1..][0] == HasSymbol(pwd);
    assert checks[1..][1..][0] == HasDigit(pwd);
    assert checks[1..][0] == (HasLower(pwd) && HasUpper(pwd));
    assert CountTrue(checks[1..][1..][1..]) == if HasSymbol(pwd) then 1 else 0;
    assert CountTrue(checks[1..][1..]) == (if HasDigit(pwd) then 1 else 0) + CountTrue(checks[1..][1..][1..]);
    assert CountTrue(checks[1..]) == (if HasLower(pwd) && HasUpper(pwd) then 1 else 0) + CountTrue(checks[1..][1..]);
  }

  /** The label table, indexed by score. */
  const Labels: seq<string> := ["Too Short", "Weak", "Fair", "Strong", "Very Strong"]
  const VeryStrong: string := "Very Strong"

  /** One entry of the requirements breakdown. */
  datatype Requirement = Requirement(test: bool, caption: string)

  const RequirementLabels: seq<string> :=
    ["At least 8 characters", "Mixed lower + upper case", "At least one digit", "At least one symbol"]

  /** The requirements list, built from the same four checks as the score. */
  function Requirements(pwd: string): (reqs: seq<Requirement>)
    ensures |reqs| == 4
  {
    [ Requirement(LongEnough(pwd), RequirementLabels[0]),
      Requirement(HasLower(pwd) && HasUpper(pwd), RequirementLabels[1]),
      Requirement(HasDigit(pwd), RequirementLabels[2]),
      Requirement(HasSymbol(pwd), RequirementLabels[3]) ]
  }

  /** `requirements.filter(r => r.test).length` */
  function PassedCount(reqs: seq<Requirement>): (n: nat)
    ensures n <= |reqs|
    decreases |reqs|
  {
    if reqs == [] then 0 else (if reqs[0].test then 1 else 0) + PassedCount(reqs[1..])
  }

  /** Each requirement tests the check at the same position, under its fixed label. */
  lemma RequirementsMirrorChecks(pwd: string)
    ensures forall i :: 0 <= i < 4 ==>
      Requirements(pwd)[i].test == Checks(pwd)[i] && Requirements(pwd)[i].caption == RequirementLabels[i]
  {
  }

  /** `passedCount` equals the base score: both count the same four checks. */
  lemma {:induction false} PassedCountIsBaseScore(pwd: string)
    ensures PassedCount(Requirements(pwd)) == BaseScore(pwd)
  {
    var reqs := Requirements(pwd);
    var checks := Checks(pwd);
    assert reqs[1..][1..][1..][1..] == [] && checks[1..][1..][1..][1..] == [];
    assert PassedCount(reqs[1..][1..][1..]) == CountTrue(checks[1..][1..][1..]);
    assert PassedCount(reqs[1..][1..]) == CountTrue(checks[1..][1..]);
    assert PassedCount(reqs[1..]) == CountTrue(checks[1..]);
  }

  /**
    The override fires exactly when the base score is already 4, and then
    forces the meter to 4 and the label to "Very Strong" = `Labels[4]`: it
    never changes what the base score displays.
  */
  lemma OverrideAgreesWithScore(pwd: string)
    ensures var reqs := Requirements(pwd);
      (PassedCount(reqs) == |reqs| <==> BaseScore(pwd) == 4)
      && (PassedCount(reqs) == |reqs| ==> |reqs| == BaseScore(pwd) && VeryStrong == Labels[BaseScore(pwd)])
  {
    PassedCountIsBaseScore(pwd);
  }

  /** The label for a base score; only the top score reads "Very Strong". */
  lemma LabelIsVeryStrongOnlyAtFour(score: nat)
    requires score < |Labels|
    ensures Labels[score] == VeryStrong <==> score == 4
  {
    assert |Labels[score]| == |VeryStrong| ==> score == 4;
  }

  /** Under 8 UTF-16 code units the label is never "Very Strong" and the override cannot fire. */
  lemma ShortIsNeverVeryStrong(pwd: string)
    requires Utf16Length(pwd) < 8
    ensures BaseScore(pwd) <= 3
    ensures Labels[BaseScore(pwd)] != VeryStrong
    ensures PassedCount(Requirements(pwd)) < |Requirements(pwd)|
  {
    PassedCountIsBaseScore(pwd);
    LabelIsVeryStrongOnlyAtFour(BaseScore(pwd));
  }

  /** The empty password satisfies no requirement: score 0, "Too Short". */
  lemma EmptyIsTooShort()
    ensures BaseScore([]) == 0 && Labels[BaseScore([])] == "Too Short"
    ensures forall i :: 0 <= i < 4 ==> !Requirements([])[i].test
  {
  }

  /** "Abcdef1!" passes every requirement and scores 4, "Very Strong". */
  lemma AllFourExample()
    ensures BaseScore("Abcdef1!") == 4 && Labels[4] == VeryStrong
    ensures forall i :: 0 <= i < 4 ==> Requirements("Abcdef1!")[i].test
  {
    var pwd := "Abcdef1!";
    assert IsAsciiLower(pwd[1]) && IsAsciiUpper(pwd[0]) && IsAsciiDigit(pwd[6]);
    assert !(IsAsciiLetter(pwd[7]) || IsAsciiDigit(pwd[7]));
    assert Utf16Length(pwd) >= |pwd| == 8;
  }
}
