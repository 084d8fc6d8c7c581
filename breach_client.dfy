/**
  The browser side of the breach check and the hash display (script.js):
  `checkBreach` hashes the password with SHA-1, sends only the upper-case
  hexadecimal digest split into a 5-character prefix and a 35-character
  suffix, and reads back a count; `updateStrength` turns the outcome into the
  breach text; `showHash` prints the SHA-256 digest in lower-case hexadecimal.

  The platform calls are parameters: `sha1` and `sha256` stand for
  `crypto.subtle.digest` applied to the UTF-8 encoding of the password (their
  result types fix the digest lengths), `send` for the POST to the server and
  the reading of its JSON reply.
*/
module BreachClient {
  import opened Wrappers
  import opened Text
  import opened HexEncoding

  /** The JSON body `{prefix, suffix}` of the request. */
  datatype BreachQuery = BreachQuery(prefix: string, suffix: string)

  /**
    What `res.json()` yields, as far as `.count` is concerned: a body that does
    not parse (or parses to `null`, so reading `.count` throws), an integer
    count, or an object without a `count` field (`.count` is `undefined`).
  */
  datatype JsonBody = Unparseable | CountField(count: int) | NoCountField

  /** The HTTP reply: `res.ok` and the body. */
  datatype HttpReply = HttpReply(ok: bool, body: JsonBody)

  /** What `checkBreach` settles to: a value (`undefined` when absent) or a thrown error. */
  datatype CheckOutcome = Returned(count: Option<int>) | Threw

  /** The text `updateStrength` shows under the password. */
  datatype BreachText = Blank | Pwned(times: int) | NeverSeen | CheckFailed

  /** The request sent (if any) and the text shown. */
  datatype BreachStatus = BreachStatus(request: Option<BreachQuery>, text: BreachText)

  /**
    `hex.slice(0, 5)` and `hex.slice(5)` of the upper-case digest: a
    5-character prefix and a 35-character suffix, upper-case hexadecimal
    digits only, which together decode back to the digest.
  */
  function QueryFor(digest: Sha1Digest): (q: BreachQuery)
    ensures |q.prefix| == 5 && |q.suffix| == 35
    ensures forall i :: 0 <= i < 5 ==> IsUpperHexDigit(q.prefix[i])
    ensures forall i :: 0 <= i < 35 ==> IsUpperHexDigit(q.suffix[i])
    ensures ParseHex(q.prefix + q.suffix) == Some(digest)
  {
    var hex := Upper(Hex(digest));
    HexIsLowerHex(digest);
    UpperHexDigits(Hex(digest));
    ParseHexOfUpperHex(digest);
    assert hex[..5] + hex[5..] == hex;
    BreachQuery(hex[..5], hex[5..])
  }

  /** `checkBreach(password)`: one request, then `res.ok` and `.count`. */
  function CheckBreach(digest: Sha1Digest, send: BreachQuery -> HttpReply): (r: CheckOutcome)
    ensures r == Threw <==> !send(QueryFor(digest)).ok || send(QueryFor(digest)).body.Unparseable?
    ensures r.Returned? ==> (r.count.Some? <==> send(QueryFor(digest)).body.CountField?)
    ensures r.Returned? && r.count.Some? ==> send(QueryFor(digest)).body == CountField(r.count.value)
  {
    var reply := send(QueryFor(digest));
    if !reply.ok then Threw
    else match reply.body
      case Unparseable => Threw
      case CountField(n) => Returned(Some(n))
      case NoCountField => Returned(None)
  }

  /**
    The breach part of `updateStrength`: the text is cleared; an empty
    password sends nothing and leaves it blank; otherwise a positive count
    reads "Pwned", anything else returned (zero, a negative number, no count)
    reads "Never seen", and any failure reads "Error checking breaches".
  */
  function BreachView(pwd: string, sha1: string -> Sha1Digest, send: BreachQuery -> HttpReply): (v: BreachStatus)
    ensures v.request.None? <==> pwd == []
    ensures pwd == [] ==> v.text == Blank
    ensures pwd != [] ==> v.request == Some(QueryFor(sha1(pwd))) && v.text != Blank
    ensures v.text.Pwned? <==>
      pwd != [] && send(QueryFor(sha1(pwd))).ok
      && send(QueryFor(sha1(pwd))).body.CountField? && send(QueryFor(sha1(pwd))).body.count > 0
    ensures v.text.Pwned? ==> v.text.times == send(QueryFor(sha1(pwd))).body.count
    ensures v.text == CheckFailed <==>
      pwd != [] && (!send(QueryFor(sha1(pwd))).ok || send(QueryFor(sha1(pwd))).body.Unparseable?)
  {
    if pwd == [] then BreachStatus(None, Blank)
    else
      var query := QueryFor(sha1(pwd));
      var text :=
        match CheckBreach(sha1(pwd), send)
        case Threw => CheckFailed
        case Returned(Some(n)) => if n > 0 then Pwned(n) else NeverSeen
        case Returned(None) => NeverSeen;
      BreachStatus(Some(query), text)
  }

  /**
    `showHash`: nothing for the empty password, otherwise the SHA-256 digest
    as exactly 64 lower-case hexadecimal digits that decode back to it.
  */
  function ShowHash(pwd: string, sha256: string -> Sha256Digest): (out: string)
    ensures pwd == [] ==> out == []
    ensures pwd != [] ==> |out| == 64 && ParseHex(out) == Some(sha256(pwd))
    ensures forall i :: 0 <= i < |out| ==> IsLowerHexDigit(out[i])
  {
    if pwd == [] then []
    else
      var digest := sha256(pwd);
      ParseHexOfHex(digest);
      HexIsLowerHex(digest);
      Hex(digest)
  }
}
