/**
  The counting step of the entropy estimate in `updateStrength` (script.js):
  `for (let c of pwd) freq[c] = (freq[c]||0) + 1`. The loop iterates whole
  characters (code points), so the table is keyed by `char`. The logarithmic
  sum itself is floating point and not part of this model; what is modelled
  is the probability mass the sum is taken over.
*/
module Frequency {
  import opened Text

  /** The frequency table the loop has built after reading `s`. */
  function Freq(s: string): (m: map<char, nat>)
    decreases |s|
  {
    if s == [] then map[]
    else
      var m, c := Freq(s[..|s| - 1]), s[|s| - 1];
      m[c := (if c in m then m[c] else 0) + 1]
  }

  /**
    The keys of the table are exactly the distinct characters of `s`, and each
    character's entry is its number of occurrences, hence at least 1.
  */
  lemma {:induction false} FreqCountsOccurrences(s: string)
    ensures forall c :: c in Freq(s) <==> c in s
    ensures forall c :: c in Freq(s) ==> Freq(s)[c] == multiset(s)[c] >= 1
    decreases |s|
  {
    if s != [] {
      var init, c := s[..|s| - 1], s[|s| - 1];
      assert s == init + [c];
      FreqCountsOccurrences(init);
    }
  }

  /** The counting loop itself. */
  method CharFrequencies(pwd: string) returns (freq: map<char, nat>)
    ensures freq == Freq(pwd)
  {
    freq := map[];
    for i := 0 to |pwd|
      invariant freq == Freq(pwd[..i])
    {
      var c := pwd[i];
      assert pwd[..i + 1][..i] == pwd[..i];
      freq := freq[c := (if c in freq then freq[c] else 0) + 1];
    }
    assert pwd[..|pwd|] == pwd;
  }

  /**
    The distinct characters of `s`, each once: the keys `Object.values` visits.
    Only the sum over them is taken, so their order does not matter.
  */
  function Distinct(s: string): (d: seq<char>)
    ensures forall c :: c in d <==> c in s
    ensures forall i, j :: 0 <= i < j < |d| ==> d[i] != d[j]
    decreases |s|
  {
    if s == [] then []
    else
      var d := Distinct(s[..|s| - 1]);
      if s[|s| - 1] in d then d else d + [s[|s| - 1]]
  }

  /** Sum of the table's entries over `keys`. */
  function Total(m: map<char, nat>, keys: seq<char>): nat
    decreases |keys|
  {
    if keys == [] then 0
    else (if keys[0] in m then m[keys[0]] else 0) + Total(m, keys[1..])
  }

  lemma {:induction false} TotalAppend(m: map<char, nat>, keys: seq<char>, k: char)
    ensures Total(m, keys + [k]) == Total(m, keys) + (if k in m then m[k] else 0)
    decreases |keys|
  {
    if keys != [] {
      assert (keys + [k])[1..] == keys[1..] + [k];
      TotalAppend(m, keys[1..], k);
    }
  }

  lemma {:induction false} TotalIgnoresOtherKeys(m: map<char, nat>, keys: seq<char>, k: char, v: nat)
    requires k !in keys
    ensures Total(m[k := v], keys) == Total(m, keys)
    decreases |keys|
  {
    if keys != [] {
      TotalIgnoresOtherKeys(m, keys[1..], k, v);
    }
  }

  lemma {:induction false} TotalBump(m: map<char, nat>, keys: seq<char>, k: char)
    requires k in keys
    requires forall i, j :: 0 <= i < j < |keys| ==> keys[i] != keys[j]
    ensures Total(m[k := (if k in m then m[k] else 0) + 1], keys) == Total(m, keys) + 1
    decreases |keys|
  {
    var v := (if k in m then m[k] else 0) + 1;
    if keys[0] == k {
      assert k !in keys[1..] by {
        forall j | 0 <= j < |keys[1..]| ensures keys[1..][j] != k {
          assert keys[0] != keys[j + 1];
        }
      }
      TotalIgnoresOtherKeys(m, keys[1..], k, v);
    } else {
      TotalBump(m, keys[1..], k);
    }
  }

  /**
    The counts add up to the number of characters read: summing the table over
    its keys (each exactly once) gives `|s|`.
  */
  lemma {:induction false} CountsSumToLength(s: string)
    ensures Total(Freq(s), Distinct(s)) == |s|
    decreases |s|
  {
    if s != [] {
      var init, c := s[..|s| - 1], s[|s| - 1];
      CountsSumToLength(init);
      var m, d := Freq(init), Distinct(init);
      if c in d {
        TotalBump(m, d, c);
      } else {
        FreqCountsOccurrences(init);
        TotalAppend(m[c := 1], d, c);
        TotalIgnoresOtherKeys(m, d, c, 1);
      }
    }
  }

  /**
    The total probability `sum(count / denominator)` the entropy loop sums
    over, for a given denominator.
  */
  function ProbabilityMass(pwd: string, denominator: nat): real
    requires denominator > 0
  {
    Total(Freq(pwd), Distinct(pwd)) as real / denominator as real
  }

  /**
    As written, the loop divides by `pwd.length`, the UTF-16 length, while the
    counts are per code point: for characters outside the Basic Multilingual
    Plane the probabilities no longer add up to 1. "😀😀" (one distinct
    character) gets mass 1/2, so its entropy comes out as 0.5 bits/char
    instead of 0.
  */
  lemma AsWrittenMassFallsShort()
    ensures Utf16Length("\U{1F600}\U{1F600}") == 4
    ensures ProbabilityMass("\U{1F600}\U{1F600}", Utf16Length("\U{1F600}\U{1F600}")) == 0.5
  {
    var s := "\U{1F600}\U{1F600}";
    CountsSumToLength(s);
    assert s[..1][..0] == [];
    assert Utf16Length(s[..1]) == 2;
  }

  /** As written, any password holding an astral character is short of mass 1. */
  lemma AsWrittenMassBelowOne(pwd: string)
    requires exists i :: 0 <= i < |pwd| && pwd[i] as int > 0xFFFF
    ensures Utf16Length(pwd) > |pwd|
    ensures ProbabilityMass(pwd, Utf16Length(pwd)) < 1.0
  {
    CountsSumToLength(pwd);
    QuotientBelowOne(|pwd| as real, Utf16Length(pwd) as real);
  }

  lemma QuotientBelowOne(a: real, b: real)
    requires 0.0 <= a < b
    ensures a / b < 1.0
  {
  }

  /**
    Corrected: dividing by the number of characters counted (code points)
    makes the probabilities of a non-empty password sum to exactly 1.
  */
  lemma CodePointMassIsOne(pwd: string)
    requires pwd != []
    ensures ProbabilityMass(pwd, |pwd|) == 1.0
  {
    CountsSumToLength(pwd);
    SelfQuotient(|pwd| as real);
  }

  lemma SelfQuotient(x: real)
    requires x > 0.0
    ensures x / x == 1.0
  {
  }
}
