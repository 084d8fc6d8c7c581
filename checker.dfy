/**
  `updateStrength` (script.js) as one pass over the password: the score
  counted up check by check, the label looked up, the frequency table built
  for a non-empty password, the dictionary lookup, the requirements list and
  its all-pass override, and the breach text. The page elements it writes
  become the fields of the returned view.
*/
module Checker {
  import opened Wrappers
  import opened Text
  import opened HexEncoding
  import opened Strength
  import opened Frequency
  import Dictionary
  import BreachClient

  /** What one run of `updateStrength` puts on the page. */
  datatype View = View(
    meter: nat,                               // meter.value
    caption: string,                          // txt.textContent
    frequencies: Option<map<char, nat>>,      // the table the entropy is computed from, if any
    common: bool,                             // the dictionary warning is shown
    requirements: seq<Requirement>,           // the breakdown list
    breach: BreachClient.BreachStatus)        // the breach request and text

  method UpdateStrength(pwd: string, dictionary: Dictionary.CommonPasswords,
                        sha1: string -> Sha1Digest, send: BreachClient.BreachQuery -> BreachClient.HttpReply)
    returns (view: View)
    ensures view.meter == BaseScore(pwd) && view.meter <= 4
    ensures view.caption == Labels[BaseScore(pwd)]
    ensures view.caption == VeryStrong <==> LongEnough(pwd) && HasLower(pwd) && HasUpper(pwd) && HasDigit(pwd) && HasSymbol(pwd)
    ensures view.requirements == Requirements(pwd)
    ensures view.frequencies.None? <==> pwd == []
    ensures view.frequencies.Some? ==> view.frequencies.value == Freq(pwd)
    ensures view.common <==> pwd in dictionary.words
    ensures view.breach == BreachClient.BreachView(pwd, sha1, send)
  {
    var score := 0;
    var hasLower, hasUpper, hasDigit, hasSymbol := HasLower(pwd), HasUpper(pwd), HasDigit(pwd), HasSymbol(pwd);
    if LongEnough(pwd) { score := score + 1; }
    if hasLower && hasUpper { score := score + 1; }
    if hasDigit { score := score + 1; }
    if hasSymbol { score := score + 1; }
    BaseScoreCountsChecks(pwd);

    var meter := score;
    var caption := Labels[score];

    var frequencies := None;
    if pwd != [] {
      var freq := CharFrequencies(pwd);
      frequencies := Some(freq);
    }

    var common := pwd in dictionary.words;

    var requirements := Requirements(pwd);
    var passedCount := PassedCount(requirements);
    OverrideAgreesWithScore(pwd);
    if passedCount == |requirements| {
      caption := VeryStrong;
      meter := |requirements|;
    }
    LabelIsVeryStrongOnlyAtFour(score);

    var breach := BreachClient.BreachView(pwd, sha1, send);
    view := View(meter, caption, frequencies, common, requirements, breach);
  }
}
