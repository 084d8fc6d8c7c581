/**
  The common-password dictionary (script.js): the word list is split on
  newlines, each line trimmed, the non-empty ones added to a set; the
  strength check then asks whether the raw password is in that set.
*/
module Dictionary {
  import opened Text

  /**
    The characters `String.prototype.trim` removes: the WhiteSpace and
    LineTerminator productions of ECMA-262 (tab, vertical tab, form feed,
    zero-width no-break space, every space separator of Unicode category Zs,
    line feed, carriage return, line and paragraph separators).
  */
  predicate IsJsWhitespace(c: char) {
    c == '\t' || c == '\n' || c == '\U{000B}' || c == '\U{000C}' || c == '\r'
    || c == ' ' || c == '\U{00A0}' || c == '\U{1680}' || ('\U{2000}' <= c <= '\U{200A}')
    || c == '\U{2028}' || c == '\U{2029}' || c == '\U{202F}' || c == '\U{205F}'
    || c == '\U{3000}' || c == '\U{FEFF}'
  }

  /** `s.trim()` */
  function Trim(s: string): (t: string)
    ensures t != [] ==> !IsJsWhitespace(t[0]) && !IsJsWhitespace(t[|t| - 1])
  {
    TrimBy(s, IsJsWhitespace)
  }

  /** Trimming an already trimmed string changes nothing. */
  lemma TrimIdempotent(s: string)
    ensures Trim(Trim(s)) == Trim(s)
  {
    TrimByOfTrimmed(Trim(s), IsJsWhitespace);
  }

  /** The words of a list of lines: each trimmed, the empty ones dropped. */
  function WordsOf(lines: seq<string>): (words: set<string>)
    ensures forall w :: w in words ==> w != []
  {
    set l | l in lines && Trim(l) != [] :: Trim(l)
  }

  lemma WordsOfAppend(lines: seq<string>, l: string)
    ensures WordsOf(lines + [l]) == WordsOf(lines) + (if Trim(l) != [] then {Trim(l)} else {})
  {
  }

  /** The set the loader builds from the text of the word list. */
  function DictionaryWords(text: string): set<string>
  {
    WordsOf(Split(text, '\n'))
  }

  /**
    A word is a non-empty trimmed line, so a password that is empty or begins
    or ends with whitespace is never found, even when its trimmed form is on
    the list. (The loaded set is `WordsOf(Split(text, '\n'))`.)
  */
  lemma WordsAreTrimmedLines(lines: seq<string>, w: string)
    ensures w in WordsOf(lines) <==>
      w != [] && exists i :: 0 <= i < |lines| && Trim(lines[i]) == w
    ensures w in WordsOf(lines) ==> !IsJsWhitespace(w[0]) && !IsJsWhitespace(w[|w| - 1])
  {
    if w != [] && exists i :: 0 <= i < |lines| && Trim(lines[i]) == w {
      var i :| 0 <= i < |lines| && Trim(lines[i]) == w;
      assert lines[i] in lines;
    }
  }

  /**
    A word list whose lines are already clean (non-empty, trimmed, no line
    feeds) loads as exactly the set of its lines.
  */
  lemma {:induction false} CleanListLoadsItsLines(words: seq<string>)
    requires |words| >= 1
    requires forall i :: 0 <= i < |words| ==> words[i] != [] && '\n' !in words[i] && Trim(words[i]) == words[i]
    ensures DictionaryWords(Join(words, '\n')) == set w | w in words
  {
    SplitJoin(words, '\n');
  }

  /** Two clean lines load as exactly those two words. */
  lemma TwoCleanLines(a: string, b: string)
    requires a != [] && !IsJsWhitespace(a[0]) && !IsJsWhitespace(a[|a| - 1])
    requires b != [] && !IsJsWhitespace(b[0]) && !IsJsWhitespace(b[|b| - 1])
    ensures WordsOf([a, b]) == {a, b}
  {
    TrimByOfTrimmed(a, IsJsWhitespace);
    TrimByOfTrimmed(b, IsJsWhitespace);
    var lines := [a, b];
    forall w ensures w in WordsOf(lines) <==> w == a || w == b {
      WordsAreTrimmedLines(lines, w);
      assert Trim(lines[0]) == a && Trim(lines[1]) == b;
    }
  }

  /**
    Lookup is exact and case-sensitive: with the lines "password" and
    "123456" loaded, "password" is found and "Password" is not.
  */
  lemma CaseSensitiveExample(a: string, b: string)
    requires a == "password" && b == "123456"
    ensures a in WordsOf([a, b])
    ensures "Password" !in WordsOf([a, b])
  {
    TwoCleanLines(a, b);
    assert "Password" != a by { assert "Password"[0] != a[0]; }
    assert "Password" != b by { assert |"Password"| != |b|; }
  }

  /** The loaded common-password set (the `commonPasswords` global). */
  class CommonPasswords {
    var words: set<string>

    /** Before the list is fetched, and after a failed fetch, the set is empty. */
    constructor ()
      ensures words == {}
    {
      words := {};
    }

    /** `text.split('\n').forEach(...)`: adds every trimmed, non-empty line of the word list. */
    method Load(text: string)
      modifies this
      ensures words == old(words) + DictionaryWords(text)
    {
      AddLines(Split(text, '\n'));
    }

    /** The `forEach` callback over the lines: `const w = pw.trim(); if (w) commonPasswords.add(w);` */
    method AddLines(lines: seq<string>)
      modifies this
      ensures words == old(words) + WordsOf(lines)
    {
      for i := 0 to |lines|
        invariant words == old(words) + WordsOf(lines[..i])
      {
        var w := Trim(lines[i]);
        assert lines[..i + 1] == lines[..i] + [lines[i]];
        WordsOfAppend(lines[..i], lines[i]);
        if w != [] {
          words := words + {w};
        }
      }
      assert lines[..|lines|] == lines;
    }
  }
}
