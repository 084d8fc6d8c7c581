/**
  String built-ins shared by the browser script and the Python server:
  splitting on a one-character separator (JavaScript `String.prototype.split`
  and Python `str.split` agree for that case), ASCII upper-casing, ASCII
  character classes and the UTF-16 length JavaScript reports as `.length`.
*/
module Text {

  predicate IsAsciiLower(c: char) { 'a' <= c <= 'z' }
  predicate IsAsciiUpper(c: char) { 'A' <= c <= 'Z' }
  predicate IsAsciiLetter(c: char) { IsAsciiLower(c) || IsAsciiUpper(c) }
  predicate IsAsciiDigit(c: char) { '0' <= c <= '9' }

  /** Number of occurrences of `c` in `s`. */
  function Occurrences(s: string, c: char): nat {
    multiset(s)[c]
  }

  /**
    `s.split(sep)`: the maximal separator-free pieces of `s`, empty pieces
    included, so `n` separators give `n + 1` pieces.
  */
  function Split(s: string, sep: char): (parts: seq<string>)
    ensures |parts| >= 1
    decreases |s|
  {
    assert s != [] ==> s == [s[0]] + s[1..];
    if s == [] then [[]]
    else
      var rest := Split(s[1..], sep);
      if s[0] == sep then [[]] + rest
      else [[s[0]] + rest[0]] + rest[1..]
  }

  /** `n` separators give `n + 1` pieces. */
  lemma {:induction false} SplitCount(s: string, sep: char)
    ensures |Split(s, sep)| == Occurrences(s, sep) + 1
    decreases |s|
  {
    if s != [] {
      SplitCount(s[1..], sep);
      assert s == [s[0]] + s[1..];
      assert multiset(s) == multiset{s[0]} + multiset(s[1..]);
    }
  }

  /** No piece contains the separator. */
  lemma {:induction false} SplitPiecesAreSeparatorFree(s: string, sep: char)
    ensures forall i :: 0 <= i < |Split(s, sep)| ==> sep !in Split(s, sep)[i]
    decreases |s|
  {
    if s != [] {
      SplitPiecesAreSeparatorFree(s[1..], sep);
    }
  }

  /** `parts.join(sep)`: the inverse of `Split`. */
  function Join(parts: seq<string>, sep: char): string
    decreases |parts|
  {
    if |parts| == 0 then []
    else if |parts| == 1 then parts[0]
    else parts[0] + [sep] + Join(parts[1..], sep)
  }

  /** Prepending a character to the first piece prepends it to the joined string. */
  lemma JoinPrependChar(c: char, parts: seq<string>, sep: char)
    requires |parts| >= 1
    ensures Join([[c] + parts[0]] + parts[1..], sep) == [c] + Join(parts, sep)
  {
    var ps := [[c] + parts[0]] + parts[1..];
    if |parts| > 1 {
      assert ps[1..] == parts[1..];
    }
  }

  /** An empty first piece contributes only its separator. */
  lemma JoinAfterEmpty(parts: seq<string>, sep: char)
    requires |parts| >= 1
    ensures Join([[]] + parts, sep) == [sep] + Join(parts, sep)
  {
    assert ([[]] + parts)[1..] == parts;
  }

  /** Splitting and joining again gives back the original string. */
  lemma {:induction false} JoinSplit(s: string, sep: char)
    ensures Join(Split(s, sep), sep) == s
    decreases |s|
  {
    if s != [] {
      var rest := Split(s[1..], sep);
      JoinSplit(s[1..], sep);
      assert [s[0]] + s[1..] == s;
      if s[0] == sep {
        assert Split(s, sep) == [[]] + rest;
        JoinAfterEmpty(rest, sep);
      } else {
        assert Split(s, sep) == [[s[0]] + rest[0]] + rest[1..];
        JoinPrependChar(s[0], rest, sep);
      }
    }
  }

  /** A separator-free piece followed by the separator splits off as one piece. */
  lemma {:induction false} SplitAfterPiece(a: string, sep: char, rest: string)
    requires sep !in a
    ensures Split(a + [sep] + rest, sep) == [a] + Split(rest, sep)
    decreases |a|
  {
    var s := a + [sep] + rest;
    if a == [] {
      assert s[1..] == rest;
    } else {
      assert s[1..] == a[1..] + [sep] + rest;
      SplitAfterPiece(a[1..], sep, rest);
      assert [a[0]] + a[1..] == a;
    }
  }

  /** A separator-free string splits into itself alone. */
  lemma {:induction false} SplitWithoutSeparator(a: string, sep: char)
    requires sep !in a
    ensures Split(a, sep) == [a]
    decreases |a|
  {
    if a != [] {
      SplitWithoutSeparator(a[1..], sep);
      assert [a[0]] + a[1..] == a;
    }
  }

  /** Joining separator-free pieces and splitting again gives back the pieces. */
  lemma {:induction false} SplitJoin(parts: seq<string>, sep: char)
    requires |parts| >= 1
    requires forall i :: 0 <= i < |parts| ==> sep !in parts[i]
    ensures Split(Join(parts, sep), sep) == parts
    decreases |parts|
  {
    if |parts| == 1 {
      SplitWithoutSeparator(parts[0], sep);
    } else {
      SplitJoin(parts[1..], sep);
      SplitAfterPiece(parts[0], sep, Join(parts[1..], sep));
      assert [parts[0]] + parts[1..] == parts;
    }
  }

  /** ASCII upper-casing of one character. */
  function UpperChar(c: char): (u: char)
    ensures !IsAsciiLower(u)
    ensures IsAsciiLetter(c) <==> IsAsciiLetter(u)
    ensures !IsAsciiLower(c) ==> u == c
    ensures IsAsciiLower(c) ==> IsAsciiUpper(u) && u as int - 'A' as int == c as int - 'a' as int
  {
    if IsAsciiLower(c) then (c as int - 32) as char else c
  }

  /** `s.toUpperCase()` / `s.upper()` restricted to ASCII letters. */
  function Upper(s: string): (u: string)
    ensures |u| == |s|
    ensures forall i :: 0 <= i < |s| ==> u[i] == UpperChar(s[i])
    decreases |s|
  {
    if s == [] then [] else [UpperChar(s[0])] + Upper(s[1..])
  }

  lemma {:induction false} UpperConcat(a: string, b: string)
    ensures Upper(a + b) == Upper(a) + Upper(b)
    decreases |a|
  {
    if a != [] {
      assert (a + b)[1..] == a[1..] + b;
      UpperConcat(a[1..], b);
    } else {
      assert a + b == b;
    }
  }

  /** A string without lower-case ASCII letters is its own upper-casing. */
  lemma UpperOfUpper(s: string)
    requires forall i :: 0 <= i < |s| ==> !IsAsciiLower(s[i])
    ensures Upper(s) == s
  {
  }

  /** Upper-casing twice is upper-casing once. */
  lemma UpperIdempotent(s: string)
    ensures Upper(Upper(s)) == Upper(s)
  {
    assert forall i :: 0 <= i < |s| ==> Upper(Upper(s))[i] == Upper(s)[i];
  }

  /** Every piece upper-cased. */
  function UpperAll(ss: seq<string>): (us: seq<string>)
    ensures |us| == |ss|
    ensures forall i :: 0 <= i < |ss| ==> us[i] == Upper(ss[i])
  {
    seq(|ss|, i requires 0 <= i < |ss| => Upper(ss[i]))
  }

  /**
    Upper-casing commutes with splitting on a separator that is not a letter:
    the pieces of the upper-cased string are the upper-cased pieces.
  */
  lemma {:induction false} SplitUpper(s: string, sep: char)
    requires !IsAsciiLetter(sep)
    ensures Split(Upper(s), sep) == UpperAll(Split(s, sep))
    decreases |s|
  {
    if s != [] {
      var u, rest := Upper(s), Split(s[1..], sep);
      SplitUpper(s[1..], sep);
      assert u[1..] == Upper(s[1..]);
      assert u[0] == sep <==> s[0] == sep;
      if s[0] != sep {
        assert Upper([s[0]] + rest[0]) == [u[0]] + Upper(rest[0]);
      }
    }
  }

  /**
    `s.length` in JavaScript: the number of UTF-16 code units, two for each
    character outside the Basic Multilingual Plane.
  */
  function Utf16Length(s: string): (n: nat)
    ensures |s| <= n <= 2 * |s|
    ensures n == |s| <==> forall i :: 0 <= i < |s| ==> s[i] as int <= 0xFFFF
    ensures |s| == 1 ==> n == (if s[0] as int > 0xFFFF then 2 else 1)
    decreases |s|
  {
    if s == [] then 0
    else Utf16Length(s[..|s| - 1]) + (if s[|s| - 1] as int > 0xFFFF then 2 else 1)
  }

  /**
    The code units of a concatenation are those of its parts; with the
    one-character case above this fixes `.length` as one unit per character
    plus one more per character outside the Basic Multilingual Plane.
  */
  lemma {:induction false} Utf16LengthConcat(a: string, b: string)
    ensures Utf16Length(a + b) == Utf16Length(a) + Utf16Length(b)
    decreases |b|
  {
    if b == [] {
      assert a + b == a;
    } else {
      var init := b[..|b| - 1];
      assert (a + b)[..|a + b| - 1] == a + init;
      Utf16LengthConcat(a, init);
    }
  }

  /** Drops leading characters satisfying `isSpace`. */
  function TrimStartBy(s: string, isSpace: char -> bool): (t: string)
    ensures |t| <= |s| && t == s[|s| - |t|..]
    ensures t != [] ==> !isSpace(t[0])
    decreases |s|
  {
    if s != [] && isSpace(s[0]) then TrimStartBy(s[1..], isSpace) else s
  }

  /** Drops trailing characters satisfying `isSpace`. */
  function TrimEndBy(s: string, isSpace: char -> bool): (t: string)
    ensures |t| <= |s| && t == s[..|t|]
    ensures t != [] ==> !isSpace(t[|t| - 1])
    decreases |s|
  {
    if s != [] && isSpace(s[|s| - 1]) then TrimEndBy(s[..|s| - 1], isSpace) else s
  }

  lemma {:induction false} TrimStartBySkipsSpaces(s: string, isSpace: char -> bool)
    ensures forall i :: 0 <= i < |s| - |TrimStartBy(s, isSpace)| ==> isSpace(s[i])
    decreases |s|
  {
    if s != [] && isSpace(s[0]) {
      TrimStartBySkipsSpaces(s[1..], isSpace);
    }
  }

  lemma {:induction false} TrimEndBySkipsSpaces(s: string, isSpace: char -> bool)
    ensures forall i :: |TrimEndBy(s, isSpace)| <= i < |s| ==> isSpace(s[i])
    decreases |s|
  {
    if s != [] && isSpace(s[|s| - 1]) {
      TrimEndBySkipsSpaces(s[..|s| - 1], isSpace);
    }
  }

  /**
    Strips characters satisfying `isSpace` from both ends (JavaScript
    `trim`, Python `strip`, each with its own notion of whitespace).
  */
  function TrimBy(s: string, isSpace: char -> bool): (t: string)
    ensures t != [] ==> !isSpace(t[0]) && !isSpace(t[|t| - 1])
  {
    var u := TrimStartBy(s, isSpace);
    var t := TrimEndBy(u, isSpace);
    assert t != [] ==> t[0] == u[0];
    t
  }

  /**
    The stripped string is the slice of `s` that starts at offset `k`, and
    everything outside the slice is whitespace.
  */
  lemma TrimBySlice(s: string, isSpace: char -> bool)
    ensures var t, k := TrimBy(s, isSpace), |s| - |TrimStartBy(s, isSpace)|;
      k + |t| <= |s| && t == s[k..k + |t|]
      && (forall i :: 0 <= i < k ==> isSpace(s[i]))
      && (forall i :: k + |t| <= i < |s| ==> isSpace(s[i]))
  {
    TrimByIsSlice(s, isSpace);
    TrimStartBySkipsSpaces(s, isSpace);
    TrimByTrailingSpaces(s, isSpace);
  }

  lemma TrimByIsSlice(s: string, isSpace: char -> bool)
    ensures var t, k := TrimBy(s, isSpace), |s| - |TrimStartBy(s, isSpace)|;
      k + |t| <= |s| && t == s[k..k + |t|]
  {
    var u := TrimStartBy(s, isSpace);
    var t := TrimEndBy(u, isSpace);
    var k := |s| - |u|;
    assert u == s[k..];
    assert t == u[..|t|];
  }

  lemma TrimByTrailingSpaces(s: string, isSpace: char -> bool)
    ensures var t, k := TrimBy(s, isSpace), |s| - |TrimStartBy(s, isSpace)|;
      forall i :: k + |t| <= i < |s| ==> isSpace(s[i])
  {
    var u := TrimStartBy(s, isSpace);
    var t := TrimEndBy(u, isSpace);
    var k := |s| - |u|;
    TrimEndBySkipsSpaces(u, isSpace);
    forall i | k + |t| <= i < |s| ensures isSpace(s[i]) {
      assert s[i] == u[i - k];
    }
  }

  /** A character that is not whitespace survives stripping. */
  lemma TrimByKeepsNonSpace(s: string, isSpace: char -> bool, i: int) returns (j: int)
    requires 0 <= i < |s| && !isSpace(s[i])
    ensures 0 <= j < |TrimBy(s, isSpace)| && TrimBy(s, isSpace)[j] == s[i]
  {
    TrimBySlice(s, isSpace);
    j := i - (|s| - |TrimStartBy(s, isSpace)|);
  }

  /** Only strings made of whitespace strip to nothing. */
  lemma TrimByEmptiesBlank(s: string, isSpace: char -> bool)
    ensures TrimBy(s, isSpace) == [] <==> forall i :: 0 <= i < |s| ==> isSpace(s[i])
  {
    var u := TrimStartBy(s, isSpace);
    TrimStartBySkipsSpaces(s, isSpace);
    TrimEndBySkipsSpaces(u, isSpace);
    assert TrimEndBy(u, isSpace) == [] ==> u == [] by {
      if TrimEndBy(u, isSpace) == [] && u != [] {
        assert false;
      }
    }
  }

  /** A string without whitespace at either end strips to itself. */
  lemma TrimByOfTrimmed(w: string, isSpace: char -> bool)
    requires w != [] ==> !isSpace(w[0]) && !isSpace(w[|w| - 1])
    ensures TrimBy(w, isSpace) == w
  {
    assert TrimStartBy(w, isSpace) == w;
  }
}
