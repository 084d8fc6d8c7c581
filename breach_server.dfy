/**
  The server half of the breach check (app.py): `breach_check` validates the
  prefix/suffix pair, asks the Have I Been Pwned range API for every hash
  suffix sharing the 5-character prefix, and scans the `HASH:COUNT` lines of
  the answer for the first one whose hash equals the suffix, ignoring case.

  `requests.get` is the parameter `fetch` (the URL asked for, to the answer);
  the answer's text is given already cut into lines.
*/
module BreachServer {
  import opened Wrappers
  import opened Text

  const HibpRangeUrl: string := "https://api.pwnedpasswords.com/range/"

  // ---------------------------------------------------------------------
  // Python's int(str), base 10

  /**
    The characters `int()` strips around the number. CPython first turns every
    non-ASCII character that `str.isspace` accepts (next line, no-break space,
    the Zs separators, line and paragraph separators) into a space, then strips
    ASCII whitespace: tab to carriage return and space. The information
    separators U+001C..U+001F satisfy `str.isspace` but are ASCII, so they are
    kept and make `int()` raise.
  */
  predicate IsPySpace(c: char) {
    ('\t' <= c <= '\r') || c == ' '
    || c == '\U{0085}' || c == '\U{00A0}' || c == '\U{1680}' || ('\U{2000}' <= c <= '\U{200A}')
    || c == '\U{2028}' || c == '\U{2029}' || c == '\U{202F}' || c == '\U{205F}' || c == '\U{3000}'
  }

  /**
    A digit string as `int()` accepts it: at least one digit, starting with a
    digit, and every underscore directly followed by a digit (so underscores
    only ever stand alone between two digits).
  */
  predicate ValidDigits(s: string) {
    s != [] && IsAsciiDigit(s[0]) && forall i :: 0 <= i < |s| ==> DigitOrJoiner(s, i)
  }

  /** Position `i` holds a digit, or an underscore with a digit right after it. */
  predicate DigitOrJoiner(s: string, i: int)
    requires 0 <= i < |s|
  {
    IsAsciiDigit(s[i]) || (s[i] == '_' && i + 1 < |s| && IsAsciiDigit(s[i + 1]))
  }

  /** The decimal value of the digits of `s`, underscores skipped. */
  function DigitsValue(s: string): nat
    decreases |s|
  {
    if s == [] then 0
    else
      var init, c := s[..|s| - 1], s[|s| - 1];
      if IsAsciiDigit(c) then 10 * DigitsValue(init) + (c as int - '0' as int)
      else DigitsValue(init)
  }

  /**
    `int(s)`: surrounding whitespace stripped, an optional sign, then a digit
    string; anything else raises `ValueError` (`None` here). A result is only
    ever produced from a string holding at least one digit.
  */
  function PyInt(s: string): (r: Option<int>)
    ensures r.Some? ==> var t := TrimBy(s, IsPySpace); t != [] && IsAsciiDigit(t[|t| - 1])
  {
    var t := TrimBy(s, IsPySpace);
    assert t != [] && ValidDigits(t[1..]) ==> DigitOrJoiner(t[1..], |t[1..]| - 1);
    assert ValidDigits(t) ==> DigitOrJoiner(t, |t| - 1);
    if t != [] && (t[0] == '+' || t[0] == '-') then
      if ValidDigits(t[1..]) then
        var v: int := DigitsValue(t[1..]);
        Some(if t[0] == '-' then -v else v)
      else None
    else if ValidDigits(t) then Some(DigitsValue(t))
    else None
  }

  /**
    The unit separator U+001F is not stripped: `int('\x1f5')` raises. (It is
    the one information separator `splitlines` leaves inside a line.)
  */
  lemma PyIntKeepsSeparators(s: string)
    requires s == "\U{001F}5"
    ensures PyInt(s).None?
  {
    assert !IsPySpace(s[0]) && !IsPySpace(s[1]);
    TrimByOfTrimmed(s, IsPySpace);
    assert !IsAsciiDigit(s[0]);
  }

  /** A digit string never holds a letter. */
  lemma ValidDigitsHasNoLetter(s: string, j: int)
    requires 0 <= j < |s| && IsAsciiLetter(s[j])
    ensures !ValidDigits(s)
  {
    assert !DigitOrJoiner(s, j);
  }

  /** A string holding an ASCII letter anywhere is not an integer: `int("12a")` raises. */
  lemma PyIntRejectsLetters(s: string, i: int)
    requires 0 <= i < |s| && IsAsciiLetter(s[i])
    ensures PyInt(s) == None
  {
    var t := TrimBy(s, IsPySpace);
    assert !IsPySpace(s[i]);
    var j := TrimByKeepsNonSpace(s, IsPySpace, i);
    if t[0] == '+' || t[0] == '-' {
      ValidDigitsHasNoLetter(t[1..], j - 1);
    } else {
      ValidDigitsHasNoLetter(t, j);
    }
  }

  /** `int()` does not care about letter case: upper-casing never changes its answer. */
  lemma PyIntIgnoresCase(s: string)
    ensures PyInt(Upper(s)) == PyInt(s)
  {
    if exists i :: 0 <= i < |s| && IsAsciiLetter(s[i]) {
      var i :| 0 <= i < |s| && IsAsciiLetter(s[i]);
      PyIntRejectsLetters(s, i);
      PyIntRejectsLetters(Upper(s), i);
    } else {
      assert Upper(s) == s;
    }
  }

  /** The decimal digits of `n`, most significant first, without leading zeros. */
  function Digits(n: nat): (s: string)
    ensures s != [] && (|s| > 1 ==> s[0] != '0')
    ensures forall i :: 0 <= i < |s| ==> IsAsciiDigit(s[i])
    decreases n
  {
    if n < 10 then [('0' as int + n) as char]
    else Digits(n / 10) + [('0' as int + n % 10) as char]
  }

  /** `str(n)`: the decimal form Python prints, with `-` for negative numbers. */
  function Decimal(n: int): (s: string)
    ensures s != [] && IsAsciiDigit(s[|s| - 1])
    ensures ':' !in s
  {
    if n < 0 then ['-'] + Digits(-n) else Digits(n)
  }

  lemma DigitsAreValid(n: nat)
    ensures ValidDigits(Digits(n))
  {
  }

  lemma {:induction false} DigitsValueOfDigits(n: nat)
    ensures DigitsValue(Digits(n)) == n
    decreases n
  {
    if n >= 10 {
      DigitsValueOfDigits(n / 10);
      var s := Digits(n);
      assert s[..|s| - 1] == Digits(n / 10);
    }
  }

  /** `int(str(n)) == n`: the count printed by the range API reads back as that number. */
  lemma PyIntOfDecimal(n: int)
    ensures PyInt(Decimal(n)) == Some(n)
  {
    var s := Decimal(n);
    var d: nat := if n < 0 then -n else n;
    var digits := Digits(d);
    DigitsValueOfDigits(d);
    DigitsAreValid(d);
    assert !IsPySpace(s[0]) && !IsPySpace(s[|s| - 1]);
    TrimByOfTrimmed(s, IsPySpace);
    if n < 0 {
      assert s[1..] == digits;
    } else {
      assert s == digits && s[0] != '+' && s[0] != '-';
    }
  }

  // ---------------------------------------------------------------------
  // The range-response scan

  /** What the scan over the lines ends with. */
  datatype ScanResult =
    | Matched(count: int)   // the first matching line's count
    | NoMatch               // every line read, none matched
    | Malformed             // a line raised `ValueError` first

  /** `h, count = line.split(':')` succeeds only for exactly two pieces. */
  predicate WellFormed(line: string) {
    |Split(line, ':')| == 2
  }

  function HashPart(line: string): string
    requires WellFormed(line)
  {
    Split(line, ':')[0]
  }

  function CountPart(line: string): string
    requires WellFormed(line)
  {
    Split(line, ':')[1]
  }

  /** `h.upper() == suffix.upper()` for a well-formed line. */
  predicate Matches(line: string, suffix: string) {
    WellFormed(line) && Upper(HashPart(line)) == Upper(suffix)
  }

  /** A line the loop reads past: it unpacks, and its hash is another one. */
  predicate PassesOver(line: string, suffix: string) {
    WellFormed(line) && !Matches(line, suffix)
  }

  /**
    The `for line in ...` loop with its fall-through: the count of the first
    matching line, `NoMatch` when there is none, `Malformed` when a line
    before it (or its own count) cannot be unpacked or read as an integer.
  */
  function ScanLines(lines: seq<string>, suffix: string): (r: ScanResult)
    ensures r.Matched? ==>
      (exists i :: 0 <= i < |lines| && Matches(lines[i], suffix) && PyInt(CountPart(lines[i])) == Some(r.count))
    decreases |lines|
  {
    if lines == [] then NoMatch
    else
      var parts := Split(lines[0], ':');
      if |parts| != 2 then Malformed
      else if Upper(parts[0]) == Upper(suffix) then CountOutcome(parts[1])
      else
        var r := ScanLines(lines[1..], suffix);
        assert r.Matched? ==>
          (exists i :: 1 <= i < |lines| && Matches(lines[i], suffix) && PyInt(CountPart(lines[i])) == Some(r.count)) by {
          if r.Matched? {
            var i :| 0 <= i < |lines[1..]| && Matches(lines[1..][i], suffix)
              && PyInt(CountPart(lines[1..][i])) == Some(r.count);
            assert lines[1..][i] == lines[i + 1];
          }
        }
        r
  }

  /** The end of the scan at a matching line: its count, or a failure when that is not an integer. */
  function CountOutcome(count: string): ScanResult {
    match PyInt(count)
    case Some(n) => Matched(n)
    case None => Malformed
  }

  /**
    The scan decides at the first line it does not read past: a line that
    does not unpack fails the request, a matching line answers with its count
    (or fails when the count is not an integer), and a line read past hands
    over to the rest.
  */
  lemma {:induction false} ScanStopsAtFirst(lines: seq<string>, suffix: string, i: int)
    requires 0 <= i < |lines|
    requires forall j :: 0 <= j < i ==> PassesOver(lines[j], suffix)
    ensures !WellFormed(lines[i]) ==> ScanLines(lines, suffix) == Malformed
    ensures Matches(lines[i], suffix) ==>
      ScanLines(lines, suffix) == CountOutcome(CountPart(lines[i]))
    ensures PassesOver(lines[i], suffix) ==> ScanLines(lines, suffix) == ScanLines(lines[i + 1..], suffix)
    decreases i
  {
    if i > 0 {
      assert PassesOver(lines[0], suffix);
      ScanStopsAtFirst(lines[1..], suffix, i - 1);
      assert lines[1..][i - 1] == lines[i];
      assert lines[1..][i..] == lines[i + 1..];
    }
  }

  /** Line `i` is the first line not read past, it matches, and its count reads as `n`. */
  predicate FirstMatchAt(lines: seq<string>, suffix: string, i: int, n: int) {
    0 <= i < |lines| && (forall j :: 0 <= j < i ==> PassesOver(lines[j], suffix))
    && Matches(lines[i], suffix) && PyInt(CountPart(lines[i])) == Some(n)
  }

  lemma {:induction false} ScanFindsFirstMatch(lines: seq<string>, suffix: string, n: int)
    requires ScanLines(lines, suffix) == Matched(n)
    ensures exists i :: FirstMatchAt(lines, suffix, i, n)
    decreases |lines|
  {
    if Matches(lines[0], suffix) {
      assert FirstMatchAt(lines, suffix, 0, n);
    } else {
      ScanFindsFirstMatch(lines[1..], suffix, n);
      var i :| FirstMatchAt(lines[1..], suffix, i, n);
      forall j | 0 <= j < i + 1 ensures PassesOver(lines[j], suffix) {
        if j > 0 {
          assert lines[j] == lines[1..][j - 1];
        }
      }
      assert lines[i + 1] == lines[1..][i];
      assert FirstMatchAt(lines, suffix, i + 1, n);
    }
  }

  /** The answer is `{'count': n}` exactly for the count `n` of the first matching line. */
  lemma ScanMatchedIsFirstMatch(lines: seq<string>, suffix: string, n: int)
    ensures ScanLines(lines, suffix) == Matched(n) <==> exists i :: FirstMatchAt(lines, suffix, i, n)
  {
    if ScanLines(lines, suffix) == Matched(n) {
      ScanFindsFirstMatch(lines, suffix, n);
    }
    if exists i :: FirstMatchAt(lines, suffix, i, n) {
      var i :| FirstMatchAt(lines, suffix, i, n);
      ScanStopsAtFirst(lines, suffix, i);
    }
  }

  /** `{'count': 0}` by fall-through exactly when every line is read past. */
  lemma {:induction false} ScanNoMatchReadsAll(lines: seq<string>, suffix: string)
    ensures ScanLines(lines, suffix) == NoMatch <==> forall i :: 0 <= i < |lines| ==> PassesOver(lines[i], suffix)
    decreases |lines|
  {
    if lines != [] {
      ScanNoMatchReadsAll(lines[1..], suffix);
      if forall i :: 0 <= i < |lines| ==> PassesOver(lines[i], suffix) {
        assert forall i :: 0 <= i < |lines[1..]| ==> lines[1..][i] == lines[i + 1];
      }
      if ScanLines(lines, suffix) == NoMatch {
        assert forall i :: 1 <= i < |lines| ==> lines[i] == lines[1..][i - 1];
      }
    }
  }

  /**
    A response whose every line unpacks and carries an integer count never
    fails the scan: it finds a count exactly when some line matches.
  */
  lemma {:induction false} ScanOfReadableLines(lines: seq<string>, suffix: string)
    requires forall i :: 0 <= i < |lines| ==> WellFormed(lines[i]) && PyInt(CountPart(lines[i])).Some?
    ensures ScanLines(lines, suffix) != Malformed
    ensures ScanLines(lines, suffix).Matched? <==> exists i :: 0 <= i < |lines| && Matches(lines[i], suffix)
    decreases |lines|
  {
    if lines != [] {
      assert WellFormed(lines[0]) && PyInt(CountPart(lines[0])).Some?;
      assert forall i :: 0 <= i < |lines[1..]| ==> lines[1..][i] == lines[i + 1];
      ScanOfReadableLines(lines[1..], suffix);
      if !Matches(lines[0], suffix) && exists i :: 0 <= i < |lines| && Matches(lines[i], suffix) {
        var i :| 0 <= i < |lines| && Matches(lines[i], suffix);
        assert Matches(lines[1..][i - 1], suffix);
      }
    }
  }

  /** The suffix's letter case never matters. */
  lemma {:induction false} ScanIgnoresSuffixCase(lines: seq<string>, s1: string, s2: string)
    requires Upper(s1) == Upper(s2)
    ensures ScanLines(lines, s1) == ScanLines(lines, s2)
    decreases |lines|
  {
    if lines != [] {
      ScanIgnoresSuffixCase(lines[1..], s1, s2);
    }
  }

  /** Two lines equal up to letter case are treated alike. */
  lemma LineIgnoresCase(l1: string, l2: string)
    requires Upper(l1) == Upper(l2)
    ensures |Split(l1, ':')| == |Split(l2, ':')|
    ensures WellFormed(l1) ==>
      Upper(HashPart(l1)) == Upper(HashPart(l2)) && PyInt(CountPart(l1)) == PyInt(CountPart(l2))
  {
    SplitUpper(l1, ':');
    SplitUpper(l2, ':');
    if WellFormed(l1) {
      var p1, p2 := Split(l1, ':'), Split(l2, ':');
      assert UpperAll(p1) == UpperAll(p2);
      assert Upper(p1[1]) == Upper(p2[1]);
      PyIntIgnoresCase(p1[1]);
      PyIntIgnoresCase(p2[1]);
    }
  }

  /** The response lines' letter case never matters either, hashes and counts alike. */
  lemma {:induction false} ScanIgnoresLineCase(l1: seq<string>, l2: seq<string>, suffix: string)
    requires |l1| == |l2|
    requires forall i :: 0 <= i < |l1| ==> Upper(l1[i]) == Upper(l2[i])
    ensures ScanLines(l1, suffix) == ScanLines(l2, suffix)
    decreases |l1|
  {
    if l1 != [] {
      LineIgnoresCase(l1[0], l2[0]);
      ScanIgnoresLineCase(l1[1..], l2[1..], suffix);
    }
  }

  /** `line` unpacks into the hash `hash` and a count that reads as `count`. */
  predicate Lists(line: string, hash: string, count: int) {
    WellFormed(line) && HashPart(line) == hash && PyInt(CountPart(line)) == Some(count)
  }

  /**
    Over a response that lists `hashes` with `counts`, the scan never fails:
    it finds a count exactly when some listed hash equals the suffix up to
    case, and then it is the count listed with such a hash.
  */
  lemma ScanOfListing(hashes: seq<string>, counts: seq<int>, lines: seq<string>, suffix: string)
    requires |hashes| == |counts| == |lines|
    requires forall i :: 0 <= i < |lines| ==> Lists(lines[i], hashes[i], counts[i])
    ensures var r := ScanLines(lines, suffix);
      r != Malformed
      && (r.Matched? <==> exists i :: 0 <= i < |hashes| && Upper(hashes[i]) == Upper(suffix))
      && (r.Matched? ==> exists i :: 0 <= i < |hashes| && Upper(hashes[i]) == Upper(suffix) && r.count == counts[i])
  {
    var r := ScanLines(lines, suffix);
    ScanOfReadableLines(lines, suffix);
    if exists i :: 0 <= i < |hashes| && Upper(hashes[i]) == Upper(suffix) {
      var i :| 0 <= i < |hashes| && Upper(hashes[i]) == Upper(suffix);
      assert Matches(lines[i], suffix);
    }
    if r.Matched? {
      var i :| 0 <= i < |lines| && Matches(lines[i], suffix) && PyInt(CountPart(lines[i])) == Some(r.count);
      assert Lists(lines[i], hashes[i], counts[i]);
    }
  }

  /** A line of the range API's format, `HASH:COUNT`. */
  function RangeLine(hash: string, count: int): (line: string)
    requires ':' !in hash
    ensures Lists(line, hash, count)
  {
    SplitAfterPiece(hash, ':', Decimal(count));
    SplitWithoutSeparator(Decimal(count), ':');
    PyIntOfDecimal(count);
    hash + [':'] + Decimal(count)
  }

  // ---------------------------------------------------------------------
  // The handler

  /** The answer `requests.get` delivers: none (it raised) or a status and the text's lines. */
  datatype Upstream = Unreachable | Response(status: int, lines: seq<string>)

  /** What `breach_check` answers. */
  datatype Reply =
    | InvalidHashParts      // {'error': 'Invalid hash parts'}, 400
    | HibpServiceError      // {'error': 'HIBP service error'}, 502
    | CountReply(count: int) // {'count': n}, 200
    | InternalError          // an exception escaped the handler, 500

  function StatusCode(r: Reply): int {
    match r
    case InvalidHashParts => 400
    case HibpServiceError => 502
    case CountReply(_) => 200
    case InternalError => 500
  }

  /** One request: the upstream URL asked for (if any) and the reply. */
  datatype Exchange = Exchange(upstreamUrl: Option<string>, reply: Reply)

  /**
    `not prefix or not suffix or len(prefix) != 5` is false: both present and
    non-empty, and the prefix exactly five characters long. The suffix's
    length is not checked.
  */
  predicate ValidHashParts(prefix: Option<string>, suffix: Option<string>) {
    prefix.Some? && prefix.value != [] && suffix.Some? && suffix.value != [] && |prefix.value| == 5
  }

  /** How the scan's end becomes the reply: no match answers 0, a `ValueError` is a 500. */
  function ScanReply(r: ScanResult): (reply: Reply)
    ensures StatusCode(reply) == 200 <==> !r.Malformed?
  {
    match r
    case Matched(n) => CountReply(n)
    case NoMatch => CountReply(0)
    case Malformed => InternalError
  }

  /**
    `breach_check` as a function of the request's `prefix` and `suffix`
    (`None` when absent or null) and of the upstream service.
  */
  function BreachCheck(prefix: Option<string>, suffix: Option<string>, fetch: string -> Upstream): (e: Exchange)
    ensures StatusCode(e.reply) == 400 <==> !ValidHashParts(prefix, suffix)
    ensures e.upstreamUrl.None? <==> !ValidHashParts(prefix, suffix)
    ensures e.upstreamUrl.Some? ==> e.upstreamUrl.value == HibpRangeUrl + prefix.value
    ensures ValidHashParts(prefix, suffix) ==>
      var up := fetch(HibpRangeUrl + prefix.value);
      (StatusCode(e.reply) == 502 <==> up.Response? && up.status != 200)
      && (up.Response? && up.status == 200 ==> e.reply == ScanReply(ScanLines(up.lines, suffix.value)))
      && (up.Unreachable? ==> StatusCode(e.reply) == 500)
  {
    if !ValidHashParts(prefix, suffix) then Exchange(None, InvalidHashParts)
    else
      var url := HibpRangeUrl + prefix.value;
      match fetch(url)
      case Unreachable => Exchange(Some(url), InternalError)
      case Response(status, lines) =>
        if status != 200 then Exchange(Some(url), HibpServiceError)
        else Exchange(Some(url), ScanReply(ScanLines(lines, suffix.value)))
  }

  /** The handler as written: the guard, the upstream call, the loop with its early returns. */
  method HandleBreachCheck(prefix: Option<string>, suffix: Option<string>, fetch: string -> Upstream)
    returns (e: Exchange)
    ensures e == BreachCheck(prefix, suffix, fetch)
  {
    if prefix.None? || prefix.value == [] || suffix.None? || suffix.value == [] || |prefix.value| != 5 {
      return Exchange(None, InvalidHashParts);
    }
    var url := HibpRangeUrl + prefix.value;
    var resp := fetch(url);
    if resp.Unreachable? {
      return Exchange(Some(url), InternalError);
    }
    if resp.status != 200 {
      return Exchange(Some(url), HibpServiceError);
    }
    var lines := resp.lines;
    for i := 0 to |lines|
      invariant ScanLines(lines[i..], suffix.value) == ScanLines(lines, suffix.value)
    {
      var parts := Split(lines[i], ':');
      assert lines[i..][0] == lines[i] && lines[i..][1..] == lines[i + 1..];
      if |parts| != 2 {
        return Exchange(Some(url), InternalError);
      }
      var h, count := parts[0], parts[1];
      if Upper(h) == Upper(suffix.value) {
        match PyInt(count)
        case Some(n) => return Exchange(Some(url), CountReply(n));
        case None => return Exchange(Some(url), InternalError);
      }
    }
    return Exchange(Some(url), CountReply(0));
  }
}
