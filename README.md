# Password strength checker — a Dafny model

This project models the password-evaluation engine of a small web app and proves properties about it. The engine is split between two files:

- `script.js`, in the browser. It scores a password against four composition rules and labels it. It counts character frequencies for the entropy estimate. It looks the password up in a common-password list. It prints the SHA-256 digest in hexadecimal. It sends a k-anonymous breach query: the SHA-1 digest in upper-case hex, split into a 5-character prefix and a 35-character suffix.
- `app.py`, on the server. It validates that query, asks the Have I Been Pwned range API for every hash sharing the prefix, and scans the `HASH:COUNT` lines of the answer. It returns the count of the first line whose hash equals the suffix, ignoring case.

The modules:

- `Text`: the string built-ins both sides use. Splitting on one character, joining, ASCII upper-casing, stripping with a given whitespace predicate, and the UTF-16 length that JavaScript reports as `.length`.
- `Strength`: the four checks, the score, the label table, the requirements list and the all-pass override.
- `Frequency`: the character-counting loop and the probability mass the entropy is summed over.
- `Dictionary`: the common-password set as a class. Its `Load` and `AddLines` methods add trimmed, non-empty lines.
- `HexEncoding`: byte-to-hex encoding. A hexadecimal parser is the reference the encoding is proved against.
- `BreachClient`: the query the browser builds (`checkBreach`), the breach text `updateStrength` shows, and `showHash`.
- `BreachServer`: `breach_check` as a specification function and as a method with the source's loop. Python's `int()` is modelled as well, because the count parser decides whether a line fails.
- `Protocol`: client and server composed end to end.
- `Checker`: `updateStrength` as one method returning everything the page would show.

Platform services become function parameters:

- SHA-1 and SHA-256 of the UTF-8 bytes (FIPS 180-4, sections 6.1 and 6.2; RFC 3629). Their result types fix the digest at 20 and 32 bytes.
- The POST to the server and the reading of its JSON reply.
- `requests.get` on the range API.

## Model

| member | source | states |
|---|---|---|
| Text.Split | script.js:31 | `split` on one character always yields at least one piece |
| Text.SplitCount | app.py:25 | `n` separators give `n + 1` pieces, so a line unpacks into `h, count` exactly when it holds one `:` |
| Text.SplitPiecesAreSeparatorFree | script.js:31 | no piece contains the separator |
| Text.JoinSplit | script.js:31 | joining the pieces with the separator gives back the original text |
| Text.SplitJoin | script.js:31 | separator-free pieces joined and split again come back unchanged |
| Text.UpperChar | script.js:134 | a lower-case ASCII letter becomes its own capital (same offset from `A` as from `a`); every other character is unchanged; the result is never lower-case |
| Text.Upper | app.py:26 | upper-casing keeps the length and maps every character through `UpperChar` |
| Text.UpperConcat | script.js:134 | upper-casing distributes over concatenation |
| Text.UpperIdempotent | app.py:26 | upper-casing twice is upper-casing once |
| Text.UpperOfUpper | app.py:26 | a string with no lower-case letter, such as the client's upper-case hex suffix, is its own upper-casing |
| Text.SplitUpper | app.py:25-26 | splitting on a non-letter commutes with upper-casing |
| Text.Utf16Length | script.js:60 | `.length` of one character is 2 outside the Basic Multilingual Plane and 1 inside; in general it lies between the number of characters and twice that, and equals the number of characters iff none is outside the plane |
| Text.Utf16LengthConcat | script.js:60 | `.length` of a concatenation is the sum of the parts' lengths, so with the one-character case it is one unit per character plus one per astral character |
| Text.TrimStartBy | script.js:32 | the result is a suffix of the input that does not start with whitespace |
| Text.TrimEndBy | script.js:32 | the result is a prefix of the input that does not end with whitespace |
| Text.TrimStartBySkipsSpaces | script.js:32 | everything dropped from the front is whitespace |
| Text.TrimEndBySkipsSpaces | script.js:32 | everything dropped from the back is whitespace |
| Text.TrimBy | script.js:32 | the stripped string neither starts nor ends with whitespace |
| Text.TrimBySlice | script.js:32 | the stripped string is a contiguous slice of the input, and everything outside the slice is whitespace |
| Text.TrimByKeepsNonSpace | app.py:27 | a non-whitespace character of the input survives in the stripped string |
| Text.TrimByEmptiesBlank | script.js:33 | a string strips to empty iff it is all whitespace |
| Text.TrimByOfTrimmed | script.js:32 | a string without whitespace at either end strips to itself |
| Strength.HasLower | script.js:55 | `/[a-z]/.test(pwd)`: some character is a lower-case ASCII letter |
| Strength.HasUpper | script.js:56 | `/[A-Z]/.test(pwd)`: some character is an upper-case ASCII letter |
| Strength.HasDigit | script.js:57 | `/\d/.test(pwd)`: some character is an ASCII digit |
| Strength.HasSymbol | script.js:58 | `/[^A-Za-z0-9]/.test(pwd)`: some character is neither an ASCII letter nor a digit |
| Strength.LongEnough | script.js:60 | `pwd.length >= 8` in code units: 8 characters always suffice, and fewer than 4 never do |
| Strength.Checks | script.js:55-63 | there are exactly four checks |
| Strength.CountTrue | script.js:60-63 | the count is at most the number of checks; it is all of them iff every check holds, and zero iff none does |
| Strength.BaseScore | script.js:55-63 | the score lies in 0..4; it is 4 iff all four rules hold and 0 iff none does |
| Strength.BaseScoreCountsChecks | script.js:60-63 | the score is one point per satisfied check: length, mixed case, digit, symbol |
| Strength.Requirements | script.js:90-95 | the breakdown has exactly four entries |
| Strength.PassedCount | script.js:102 | `passedCount` is at most the number of requirements |
| Strength.RequirementsMirrorChecks | script.js:90-95 | each requirement tests the same predicate as the score at the same position, under its fixed caption |
| Strength.PassedCountIsBaseScore | script.js:102 | `passedCount` equals the base score |
| Strength.OverrideAgreesWithScore | script.js:103-106 | the override fires iff the base score is 4, and then its meter value and "Very Strong" equal what the base score already shows |
| Strength.LabelIsVeryStrongOnlyAtFour | script.js:67-68 | `labels[score]` is "Very Strong" only for score 4 |
| Strength.ShortIsNeverVeryStrong | script.js:60-106 | under 8 UTF-16 code units the score is at most 3, the label is not "Very Strong" and the override cannot fire |
| Strength.EmptyIsTooShort | script.js:52-68 | the empty password scores 0, reads "Too Short" and fails every requirement |
| Strength.AllFourExample | script.js:55-68 | "Abcdef1!" passes all four requirements and reads "Very Strong" |
| Frequency.Freq | script.js:72-73 | the table after reading the characters in order, one increment per character (its meaning is proved in `FreqCountsOccurrences`) |
| Frequency.FreqCountsOccurrences | script.js:73 | the table's keys are exactly the password's characters, and each entry is that character's number of occurrences, at least 1 |
| Frequency.CharFrequencies | script.js:72-73 | the counting loop builds exactly the table `Freq(pwd)` |
| Frequency.Distinct | script.js:75 | the keys `Object.values` visits: exactly the password's characters, each once |
| Frequency.CountsSumToLength | script.js:72-73 | the counts add up to the number of characters read |
| Frequency.ProbabilityMass | script.js:75-76 | the sum of `cnt / denominator` over the table's entries (its value is proved in `AsWrittenMassBelowOne` and `CodePointMassIsOne`) |
| Frequency.AsWrittenMassFallsShort | script.js:76 | dividing by `pwd.length` gives "😀😀" (4 code units) a probability mass of 0.5 |
| Frequency.AsWrittenMassBelowOne | script.js:76 | with any astral character the probabilities sum to less than 1 |
| Frequency.CodePointMassIsOne | script.js:75-78 | dividing by the number of characters counted makes the probabilities of a non-empty password sum to 1 |
| Dictionary.IsJsWhitespace | script.js:32 | the characters `trim` removes: ECMA-262 WhiteSpace and LineTerminator |
| Dictionary.Trim | script.js:32 | the trimmed line neither starts nor ends with JavaScript whitespace |
| Dictionary.TrimIdempotent | script.js:32 | trimming twice is trimming once |
| Dictionary.WordsOf | script.js:31-33 | the set the `forEach` builds from a list of lines; it never holds the empty string |
| Dictionary.DictionaryWords | script.js:31 | the set loaded from the text, split on `\n` (its contents are proved in `WordsAreTrimmedLines` and `CleanListLoadsItsLines`) |
| Dictionary.WordsOfAppend | script.js:31-33 | one more line adds its trimmed form, if that is non-empty, and nothing else |
| Dictionary.WordsAreTrimmedLines | script.js:31-33 | a word is in the set iff it is the non-empty trimmed form of some line, so it never starts or ends with whitespace |
| Dictionary.CleanListLoadsItsLines | script.js:31-33 | a list of clean, newline-free lines joined by `\n` loads as exactly the set of its lines |
| Dictionary.TwoCleanLines | script.js:31-33 | two clean lines load as exactly those two words |
| Dictionary.CaseSensitiveExample | script.js:85 | with "password" loaded, "password" is found and "Password" is not |
| Dictionary.CommonPasswords.constructor | script.js:9 | the set starts empty |
| Dictionary.CommonPasswords.Load | script.js:31-33 | loading adds exactly the trimmed, non-empty lines of the text |
| Dictionary.CommonPasswords.AddLines | script.js:31-33 | the `forEach` adds exactly the trimmed, non-empty lines it visits |
| HexEncoding.HexDigit | script.js:133 | a nibble prints as a lower-case hexadecimal digit |
| HexEncoding.ToBase16 | script.js:133 | `toString(16)` is non-empty, with no leading zero unless it is "0" |
| HexEncoding.PadStart | script.js:133 | `padStart` reaches the width, fills with the pad character and keeps the string at the end |
| HexEncoding.ByteHex | script.js:133 | a byte prints as exactly two digits: high nibble, then low nibble |
| HexEncoding.ByteHexIsLowerHex | script.js:133 | both digits of a byte are lower-case hexadecimal |
| HexEncoding.Hex | script.js:132-134 | the encoding is two characters per byte |
| HexEncoding.HexIsLowerHex | script.js:155-157 | the encoding holds lower-case hexadecimal digits only |
| HexEncoding.ParseHexOfHex | script.js:155-157 | parsing the encoding gives back the bytes |
| HexEncoding.ParseHexOfUpperHex | script.js:132-134 | parsing the upper-cased encoding gives back the bytes |
| HexEncoding.UpperHexDigits | script.js:134 | upper-casing lower-case hex yields upper-case hex digits only |
| HexEncoding.HexInjective | script.js:155-157 | different digests never print the same |
| BreachClient.QueryFor | script.js:132-136 | the prefix is 5 and the suffix 35 upper-case hex digits, and together they parse back to the SHA-1 digest |
| BreachClient.CheckBreach | script.js:137-143 | it throws iff the reply is not ok or its body does not parse; otherwise it returns a count iff the body has a `count` field, and then exactly that count (`undefined` only when the field is absent) |
| BreachClient.BreachView | script.js:109-125 | an empty password sends no request and leaves the text blank; otherwise the query for its digest is sent; "Pwned" iff the reply is ok with a positive count; "Error checking breaches" iff the reply is not ok or unparseable |
| BreachClient.ShowHash | script.js:147-159 | empty output for the empty password; otherwise 64 lower-case hex digits that parse back to the SHA-256 digest |
| BreachServer.IsPySpace | app.py:27 | the characters `int()` strips: ASCII tab to carriage return and space, plus the non-ASCII `str.isspace` characters; not U+001C..U+001F |
| BreachServer.ValidDigits | app.py:27 | the digit strings `int()` accepts: digits, with single underscores only between two digits |
| BreachServer.PyInt | app.py:27 | `int(count)`: a value only for a stripped text that ends in a digit, otherwise `ValueError` (its meaning is proved in the lemmas below) |
| BreachServer.PyIntKeepsSeparators | app.py:27 | `int('\x1f5')` raises: the unit separator, which `splitlines` leaves inside a line, is not stripped |
| BreachServer.PyIntRejectsLetters | app.py:27 | `int()` of a string holding an ASCII letter raises |
| BreachServer.PyIntIgnoresCase | app.py:27 | upper-casing never changes what `int()` answers |
| BreachServer.ValidDigitsHasNoLetter | app.py:27 | a digit string accepted by `int()` contains no letter |
| BreachServer.Digits | app.py:27 | decimal digits, no leading zero |
| BreachServer.Decimal | app.py:27 | `str(n)` ends in a digit and holds no `:` |
| BreachServer.DigitsAreValid | app.py:27 | `int()` accepts the digits of any natural number |
| BreachServer.DigitsValueOfDigits | app.py:27 | the digits of `n` read back as `n` |
| BreachServer.PyIntOfDecimal | app.py:27 | `int(str(n)) == n` for every integer |
| BreachServer.WellFormed | app.py:25 | `h, count = line.split(':')` unpacks: exactly two pieces |
| BreachServer.Matches | app.py:26 | the line unpacks and `h.upper() == suffix.upper()` |
| BreachServer.ScanLines | app.py:24-29 | a found count belongs to a matching line whose count part reads as that number |
| BreachServer.ScanStopsAtFirst | app.py:24-27 | past lines that unpack and do not match, the scan fails at a line that does not unpack, answers with the count of a matching line, and otherwise moves on |
| BreachServer.ScanFindsFirstMatch | app.py:24-27 | a found count comes from the first line the scan does not read past |
| BreachServer.ScanMatchedIsFirstMatch | app.py:24-27 | the result is count `n` iff the first line not read past matches and its count reads as `n` |
| BreachServer.ScanNoMatchReadsAll | app.py:24-29 | falling through to `{'count': 0}` happens iff every line unpacks and none matches |
| BreachServer.ScanOfReadableLines | app.py:24-29 | when every line unpacks with an integer count, the scan never fails, and it finds a count iff some line matches |
| BreachServer.ScanIgnoresSuffixCase | app.py:26 | changing the letter case of the suffix never changes the result |
| BreachServer.LineIgnoresCase | app.py:25-27 | two lines equal up to case split alike, hash parts equal up to case, counts read alike |
| BreachServer.ScanIgnoresLineCase | app.py:24-27 | changing the letter case of the response lines never changes the result |
| BreachServer.ScanOfListing | app.py:24-29 | over a listing of hashes and counts, the scan finds a count iff some listed hash equals the suffix up to case, and the count is one listed with such a hash |
| BreachServer.RangeLine | app.py:23 | `HASH:COUNT` unpacks into that hash and a count part reading as that count |
| BreachServer.ValidHashParts | app.py:16 | the negation of `not prefix or not suffix or len(prefix) != 5`: both present and non-empty, the prefix five characters long |
| BreachServer.ScanReply | app.py:27-29 | the scan's end as a reply: status 200 iff no line raised, with 0 when nothing matched |
| BreachServer.BreachCheck | app.py:11-29 | 400 iff the prefix or suffix is missing or empty or the prefix is not 5 characters long, whatever the suffix's length; no upstream request iff 400; the request goes to the range URL plus the prefix; 502 iff upstream answers with a status other than 200; a 200 from upstream gives the scan's count, with 0 for no match and 500 for a bad line; an upstream exception gives 500 |
| BreachServer.HandleBreachCheck | app.py:11-29 | the guard, the upstream call and the loop with its early returns compute exactly `BreachCheck` |
| Protocol.AsHttpReply | script.js:142-143 | `res.ok` holds iff the server answered 200, and then the body carries the count |
| Protocol.ClientQueriesAreValid | app.py:16-19 | every query the browser sends passes validation, and only its 5-character prefix goes upstream |
| Protocol.ServedReply | app.py:16-29 | the reply to the browser's own query, by upstream outcome |
| Protocol.EndToEnd | script.js:112-124 | for a non-empty password, an upstream failure or non-200 status reads "Error checking breaches"; otherwise the text follows the server's scan for the 35-character suffix |
| Protocol.PwnedExactlyWhenListed | app.py:24-29 | with a range response in the service's own format, a non-empty password reads "Pwned" iff its suffix is listed, with the count listed for it, and "Never seen" otherwise |
| Checker.UpdateStrength | script.js:50-126 | the page shows the base score and `labels[score]` (after the override), the four requirements, the frequency table iff the password is non-empty, the dictionary warning iff the raw password is in the set, and the breach status of `BreachView` |

## Left out

- DOM lookups, event wiring, `innerHTML`/`classList` writes and the dark-mode toggle. The model returns the values shown, not their display.
- The entropy sum `-p * log2(p)` and `toFixed(2)`. This is floating point; the model covers the frequency table and the probability mass it is summed over.
- `toLocaleString` on the breach count. This is locale formatting.
- Fetching the dictionary file. `Load` takes the text; a failed fetch leaves the set empty, as the constructor does.
- The race between overlapping `updateStrength` calls completing out of order. This is concurrency.
- Lone surrogates in the password. Dafny characters are Unicode scalar values, so a password holding an unpaired surrogate cannot be represented.
- `crypto.subtle.digest` and `TextEncoder`. They are the parameters `sha1` and `sha256`, opaque apart from their output lengths.
- Flask routing, CORS and `jsonify`. The JSON request body is reduced to `prefix` and `suffix` as optional strings. A body that is not a JSON object is not modelled. Non-string values are not modelled either: a falsy one (`0`, `[]`, `false`) gets the 400 of a missing value; any prefix gets 400 when the suffix is missing or falsy; with a truthy suffix, a truthy non-string prefix raises at `len` (a number or `true`) or, if its length is 5, at the URL concatenation (500), and a list or object of another length gets 400; a truthy non-string suffix passes validation and raises only at `suffix.upper()`, so a response without lines still answers `{'count': 0}`.
- `resp.text.splitlines()`. The response text is given already split into lines.
- The mismatch between the client's `API_URL` and the server route `/api/breach-check`. The model assumes the request reaches the handler.
- A JSON `count` that is not an integer. Only integer counts, a missing `count` and an unparseable body are modelled.
- Text.Upper: upper-cases ASCII letters only, whereas Python `str.upper` and JavaScript `toUpperCase` map all of Unicode. For example, `'ß'.upper()` is `'SS'`. The hex digits the client produces are ASCII, but a suffix holding other letters is compared in ASCII only.
- Frequency.Distinct: lists the keys in first-seen order. `Object.values` lists integer-like keys ("0" to "9") first, in ascending order, and only then the others in insertion order. The model takes only the sum over the keys, which does not depend on their order.
- BreachServer.PyInt: accepts ASCII digits only, whereas Python's `int()` also accepts other Unicode decimal digits. It also has no digit-count limit, whereas recent Python versions refuse strings of more than 4300 digits.

## Findings

| source | as written | input that shows it | evidently intended | confidence | as-written member | corrected member |
|---|---|---|---|---|---|---|
| script.js:76 | `cnt / pwd.length` divides per-code-point counts by the UTF-16 length | "😀😀": one distinct character, `pwd.length` 4, probabilities sum to 0.5, entropy 0.5 bits/char instead of 0 | divide by the number of characters the loop counted, so the probabilities sum to 1 | not executed | Frequency.AsWrittenMassFallsShort | Frequency.CodePointMassIsOne |
