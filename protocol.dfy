/**
  The browser and the server together: the client's request reaches
  `breach_check` (script.js posts `{prefix, suffix}`, app.py answers), and the
  server's reply comes back as the `res.ok` flag and JSON body `checkBreach`
  reads. Flask turns an exception escaping the handler into an HTML error
  page, which `res.json()` cannot parse.
*/
module Protocol {
  import opened Wrappers
  import opened Text
  import opened HexEncoding
  import BreachClient
  import BreachServer

  /** The HTTP reply as the browser sees it: `res.ok` holds for status 200 only among the four. */
  function AsHttpReply(r: BreachServer.Reply): (h: BreachClient.HttpReply)
    ensures h.ok <==> BreachServer.StatusCode(r) == 200
    ensures h.ok ==> r.CountReply? && h.body == BreachClient.CountField(r.count)
  {
    match r
    case CountReply(n) => BreachClient.HttpReply(true, BreachClient.CountField(n))
    case InternalError => BreachClient.HttpReply(false, BreachClient.Unparseable)
    case _ => BreachClient.HttpReply(false, BreachClient.NoCountField)
  }

  /** The server as the client's transport: the query's fields become `prefix` and `suffix`. */
  function Serve(fetch: string -> BreachServer.Upstream): BreachClient.BreachQuery -> BreachClient.HttpReply {
    (q: BreachClient.BreachQuery) => AsHttpReply(BreachServer.BreachCheck(Some(q.prefix), Some(q.suffix), fetch).reply)
  }

  /** What the browser ends up showing for the scan's outcome. */
  function Shown(r: BreachServer.ScanResult): BreachClient.BreachText {
    match r
    case Matched(n) => if n > 0 then BreachClient.Pwned(n) else BreachClient.NeverSeen
    case NoMatch => BreachClient.NeverSeen
    case Malformed => BreachClient.CheckFailed
  }

  /**
    Every query the client sends passes the server's validation, and the
    upstream service is asked only for the 5-character prefix of the digest.
  */
  lemma ClientQueriesAreValid(digest: Sha1Digest, fetch: string -> BreachServer.Upstream)
    ensures var q := BreachClient.QueryFor(digest);
      BreachServer.ValidHashParts(Some(q.prefix), Some(q.suffix))
      && BreachServer.BreachCheck(Some(q.prefix), Some(q.suffix), fetch).upstreamUrl
         == Some(BreachServer.HibpRangeUrl + q.prefix)
      && |q.prefix| == 5
  {
  }

  /** The reply the client receives for its own query, given what the upstream service answers. */
  lemma ServedReply(pwd: string, sha1: string -> Sha1Digest, fetch: string -> BreachServer.Upstream)
    ensures var q := BreachClient.QueryFor(sha1(pwd));
      var up := fetch(BreachServer.HibpRangeUrl + q.prefix);
      Serve(fetch)(q) ==
        if up.Unreachable? then BreachClient.HttpReply(false, BreachClient.Unparseable)
        else if up.status != 200 then BreachClient.HttpReply(false, BreachClient.NoCountField)
        else AsHttpReply(BreachServer.ScanReply(BreachServer.ScanLines(up.lines, q.suffix)))
  {
    var q := BreachClient.QueryFor(sha1(pwd));
    ClientQueriesAreValid(sha1(pwd), fetch);
    assert Serve(fetch)(q) == AsHttpReply(BreachServer.BreachCheck(Some(q.prefix), Some(q.suffix), fetch).reply);
  }

  /**
    End to end, for a non-empty password: an upstream failure or a non-200
    status reads "Error checking breaches"; otherwise the text follows the
    scan of the range response for the 35-character suffix.
  */
  lemma EndToEnd(pwd: string, sha1: string -> Sha1Digest, fetch: string -> BreachServer.Upstream)
    requires pwd != []
    ensures var q := BreachClient.QueryFor(sha1(pwd));
      var up := fetch(BreachServer.HibpRangeUrl + q.prefix);
      var text := BreachClient.BreachView(pwd, sha1, Serve(fetch)).text;
      (up.Unreachable? || up.status != 200 ==> text == BreachClient.CheckFailed)
      && (up.Response? && up.status == 200 ==> text == Shown(BreachServer.ScanLines(up.lines, q.suffix)))
  {
    ServedReply(pwd, sha1, fetch);
  }

  /**
    With a range response in the service's own format (`HASH:COUNT` lines,
    every count positive), a non-empty password reads "Pwned" exactly when
    its suffix is listed, in either letter case, and then with the count of
    a listed line.
  */
  lemma PwnedExactlyWhenListed(pwd: string, sha1: string -> Sha1Digest, fetch: string -> BreachServer.Upstream,
                               hashes: seq<string>, counts: seq<int>, lines: seq<string>)
    requires pwd != []
    requires |hashes| == |counts| == |lines|
    requires forall i :: 0 <= i < |lines| ==>
      ':' !in hashes[i] && counts[i] > 0 && lines[i] == BreachServer.RangeLine(hashes[i], counts[i])
    requires fetch(BreachServer.HibpRangeUrl + BreachClient.QueryFor(sha1(pwd)).prefix) == BreachServer.Response(200, lines)
    ensures var suffix, text := BreachClient.QueryFor(sha1(pwd)).suffix, BreachClient.BreachView(pwd, sha1, Serve(fetch)).text;
      (text.Pwned? <==> exists i :: 0 <= i < |hashes| && Upper(hashes[i]) == suffix)
      && (text.Pwned? ==> exists i :: 0 <= i < |hashes| && Upper(hashes[i]) == suffix && text.times == counts[i])
      && (!text.Pwned? ==> text == BreachClient.NeverSeen)
  {
    var q := BreachClient.QueryFor(sha1(pwd));
    EndToEnd(pwd, sha1, fetch);
    UpperOfUpper(q.suffix);
    BreachServer.ScanOfListing(hashes, counts, lines, q.suffix);
  }
}
