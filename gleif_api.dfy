/** The minimal GLEIF JSON:API client: URL resolution against a base, a GET
    with a fixed number of attempts and a wait after each unsuccessful one,
    and the attributes block of an LEI record. */
module GleifApiUtils {
  import opened Wrappers
  import opened Strings
  import opened Seqs

  const DefaultBaseUrl := "https://api.gleif.org/api/v1"
  const DefaultRetries := 3

  /** A decoded JSON document. */
  datatype Json =
    | JNull
    | JBool(b: bool)
    | JNum(n: int)
    | JStr(s: string)
    | JArray(items: seq<Json>)
    | JObject(fields: map<string, Json>)

  const EmptyObject: Json := JObject(map[])

  /** Python truthiness of the decoded value. */
  predicate Truthy(j: Json)
  {
    match j
    case JNull => false
    case JBool(b) => b
    case JNum(n) => n != 0
    case JStr(s) => s != ""
    case JArray(items) => items != []
    case JObject(fields) => fields != map[]
  }

  /** What one GET attempt gives: the request raises, or a status and the
      body decoded as JSON (`None` when it is not JSON). */
  datatype Attempt = Raised | Answer(status: int, body: Option<Json>)

  /** What the client does to the outside world, in order. `Sleep(e)` waits
      `backoff` raised to the power `e`. */
  datatype Event = Request(url: string) | Sleep(exponent: nat)

  datatype Error =
    | RequestRaised(url: string)
    | BodyNotJson(url: string)
    | NoGetMethod(value: Json)

  /** The events of one GET and what it returns. */
  datatype Outcome = Outcome(events: seq<Event>, result: Result<Json, Error>)

  /** The URL `_get` requests: a path beginning with `http` as given,
      anything else below the base with its leading slashes removed. */
  function ResolveUrl(base: string, pathOrUrl: string): string
  {
    if StartsWith(pathOrUrl, "http") then pathOrUrl else base + "/" + LStrip(pathOrUrl, '/')
  }

  /** A relative path is joined to a slash-free base with exactly one slash. */
  lemma RelativePathSeam(rawBase: string, path: string)
    requires !StartsWith(path, "http")
    ensures var base := RStrip(rawBase, '/'); var u := ResolveUrl(base, path);
      && StartsWith(u, base + "/")
      && (base == [] || u[|base| - 1] != '/')
      && (|u| == |base| + 1 || u[|base| + 1] != '/')
      && u[|base| + 1..] == LStrip(path, '/')
  {
    var base := RStrip(rawBase, '/');
    RStripRemovesTrailing(rawBase, '/');
    var u := ResolveUrl(base, path);
    assert u == (base + "/") + LStrip(path, '/');
    assert u[..|base| + 1] == base + "/";
    if base != [] {
      assert base[|base| - 1..] == [base[|base| - 1]];
    }
  }

  /** Leading slashes on a relative path make no difference. */
  lemma LeadingSlashIgnored(base: string, path: string)
    requires !StartsWith(path, "http")
    ensures ResolveUrl(base, "/" + path) == ResolveUrl(base, path)
  {
    var s := "/" + path;
    assert s[1..] == path;
    assert !StartsWith(s, "http") by {
      assert s[0] == '/';
    }
  }

  /** The record of `lei` at the default base. */
  lemma LeiRecordUrl(lei: string)
    ensures ResolveUrl(DefaultBaseUrl, "lei-records/" + lei) == DefaultBaseUrl + "/lei-records/" + lei
  {
    var p := "lei-records/" + lei;
    assert p[0] == 'l';
    assert !StartsWith(p, "http") by {
      assert p[..4][1] == 'e';
    }
    assert LStrip(p, '/') == p;
  }

  /** A client with the default settings sends at most `DefaultRetries` (three)
      requests for an LEI record, all to its record URL. */
  lemma DefaultClientLookup(lei: string, server: (string, nat) -> Attempt)
    ensures ResolveUrl(DefaultBaseUrl, "lei-records/" + lei) == DefaultBaseUrl + "/lei-records/" + lei
    ensures RequestCount(Attempts(DefaultBaseUrl + "/lei-records/" + lei, 0, DefaultRetries, server).events) <= 3
  {
    LeiRecordUrl(lei);
    AtMostRetriesRequests(DefaultBaseUrl + "/lei-records/" + lei, 0, DefaultRetries, server);
  }

  /** `_get` from attempt `i` on, when `retries` attempts are allowed and
      `server(url, j)` is what attempt `j` gives. */
  function Attempts(url: string, i: nat, retries: int, server: (string, nat) -> Attempt): Outcome
    decreases retries - i
  {
    if i >= retries then Outcome([], Ok(EmptyObject))
    else match server(url, i)
      case Raised => Outcome([Request(url)], Err(RequestRaised(url)))
      case Answer(status, body) =>
        if status == 200 then
          Outcome([Request(url)], if body.Some? then Ok(body.value) else Err(BodyNotJson(url)))
        else
          var rest := Attempts(url, i + 1, retries, server);
          Outcome([Request(url), Sleep(i + 1)] + rest.events, rest.result)
  }

  /** The events of attempts `from` up to `to`, each answered with a status
      other than 200: every request followed by its wait. */
  function FailedRounds(url: string, from: nat, to: nat): (ev: seq<Event>)
    ensures |ev| == 2 * (if to > from then to - from else 0)
    decreases if to > from then to - from else 0
  {
    if from >= to then [] else [Request(url), Sleep(from + 1)] + FailedRounds(url, from + 1, to)
  }

  /** The attempts before `j` answered with a status other than 200. */
  predicate FailedUpTo(url: string, from: nat, j: nat, server: (string, nat) -> Attempt)
  {
    forall k: nat :: from <= k < j ==> server(url, k).Answer? && server(url, k).status != 200
  }

  function RequestCount(events: seq<Event>): nat
    decreases |events|
  {
    if events == [] then 0 else (if events[0].Request? then 1 else 0) + RequestCount(events[1..])
  }

  lemma {:induction false} RequestCountAppend(a: seq<Event>, b: seq<Event>)
    ensures RequestCount(a + b) == RequestCount(a) + RequestCount(b)
    decreases |a|
  {
    if a == [] {
      AppendEmpty(b);
    } else {
      assert (a + b)[1..] == a[1..] + b;
      RequestCountAppend(a[1..], b);
    }
  }

  /** Unsuccessful attempts only add their request and wait in front of
      what the remaining attempts do. */
  lemma {:induction false} FailedPrefix(url: string, i: nat, j: nat, retries: int, server: (string, nat) -> Attempt)
    requires i <= j <= retries && FailedUpTo(url, i, j, server)
    ensures var rest := Attempts(url, j, retries, server);
      Attempts(url, i, retries, server) == Outcome(FailedRounds(url, i, j) + rest.events, rest.result)
    decreases if j > i then j - i else 0
  {
    if i < j {
      assert server(url, i).Answer? && server(url, i).status != 200;
      FailedPrefix(url, i + 1, j, retries, server);
      var rest := Attempts(url, j, retries, server);
      AppendAssoc([Request(url), Sleep(i + 1)], FailedRounds(url, i + 1, j), rest.events);
    }
  }

  /** At most `retries` requests are made; none when `retries <= 0`. */
  lemma {:induction false} AtMostRetriesRequests(url: string, i: nat, retries: int, server: (string, nat) -> Attempt)
    ensures RequestCount(Attempts(url, i, retries, server).events) <= (if retries > i then retries - i else 0)
    ensures retries <= i ==> Attempts(url, i, retries, server) == Outcome([], Ok(EmptyObject))
    decreases retries - i
  {
    if i < retries {
      match server(url, i)
      case Raised =>
      case Answer(status, body) =>
        if status != 200 {
          var rest := Attempts(url, i + 1, retries, server);
          AtMostRetriesRequests(url, i + 1, retries, server);
          RequestCountAppend([Request(url), Sleep(i + 1)], rest.events);
          assert [Request(url), Sleep(i + 1)][1..] == [Sleep(i + 1)];
        }
    }
  }

  /** When every allowed attempt is answered with a status other than 200,
      nothing is raised: the result is `{}`, and each request, the last one
      included, is followed by its wait. */
  lemma AllAttemptsFail(url: string, retries: nat, server: (string, nat) -> Attempt)
    requires FailedUpTo(url, 0, retries, server)
    ensures Attempts(url, 0, retries, server) == Outcome(FailedRounds(url, 0, retries), Ok(EmptyObject))
  {
    FailedPrefix(url, 0, retries, retries, server);
  }

  /** The body of the first 200 answer is returned, after the failed
      attempts before it and with no wait after it. */
  lemma FirstSuccessReturned(url: string, j: nat, retries: int, server: (string, nat) -> Attempt, body: Json)
    requires j < retries && FailedUpTo(url, 0, j, server)
    requires server(url, j) == Answer(200, Some(body))
    ensures Attempts(url, 0, retries, server) == Outcome(FailedRounds(url, 0, j) + [Request(url)], Ok(body))
  {
    FailedPrefix(url, 0, j, retries, server);
  }

  /** `(payload.get("data") or {}).get("attributes", {}) or {}`, with the
      `AttributeError` of a value that is not an object. */
  function LeiAttributes(payload: Json): (r: Result<Json, Error>)
    ensures r.Ok? ==> payload.JObject?
    ensures r.Ok? && r.value != EmptyObject ==>
      "data" in payload.fields && payload.fields["data"].JObject?
      && "attributes" in payload.fields["data"].fields
      && payload.fields["data"].fields["attributes"] == r.value && Truthy(r.value)
  {
    if !payload.JObject? then Err(NoGetMethod(payload))
    else
      var data := if "data" in payload.fields then payload.fields["data"] else JNull;
      var block := if Truthy(data) then data else EmptyObject;
      if !block.JObject? then Err(NoGetMethod(block))
      else
        var attrs := if "attributes" in block.fields then block.fields["attributes"] else EmptyObject;
        Ok(if Truthy(attrs) then attrs else EmptyObject)
  }

  /** Which payloads give which attributes. */
  lemma LeiAttributesCases(payload: Json)
    ensures payload.JObject? && ("data" !in payload.fields || !Truthy(payload.fields["data"]))
      ==> LeiAttributes(payload) == Ok(EmptyObject)
    ensures (payload.JObject? && "data" in payload.fields && payload.fields["data"].JObject?
             && "attributes" in payload.fields["data"].fields
             && Truthy(payload.fields["data"].fields["attributes"]))
      ==> LeiAttributes(payload) == Ok(payload.fields["data"].fields["attributes"])
    ensures LeiAttributes(payload).Err? <==>
      !payload.JObject? || ("data" in payload.fields && Truthy(payload.fields["data"]) && !payload.fields["data"].JObject?)
  {
  }

  /** An LEI lookup whose attempts all failed answers `{}`. */
  lemma ExhaustedLookupIsEmpty(url: string, retries: nat, server: (string, nat) -> Attempt)
    requires FailedUpTo(url, 0, retries, server)
    ensures Attempts(url, 0, retries, server).result.Ok?
    ensures LeiAttributes(Attempts(url, 0, retries, server).result.value) == Ok(EmptyObject)
  {
    AllAttemptsFail(url, retries, server);
  }

  class GleifApi {
    const baseUrl: string
    const retries: int
    /** The requests made and the waits done, in order. */
    var log: seq<Event>

    /** Header, timeout, back-off factor and session are not modelled. */
    constructor (baseUrl: string, retries: int)
      ensures this.baseUrl == RStrip(baseUrl, '/') && this.retries == retries && log == []
    {
      this.baseUrl := RStrip(baseUrl, '/');
      this.retries := retries;
      log := [];
    }

    /** `_get(path_or_url)`: at most `retries` attempts; the first 200's
        JSON is returned, and `{}` once the attempts are used up. */
    method Get(pathOrUrl: string, server: (string, nat) -> Attempt) returns (r: Result<Json, Error>)
      modifies this
      ensures var o := Attempts(ResolveUrl(baseUrl, pathOrUrl), 0, retries, server);
        log == old(log) + o.events && r == o.result
    {
      var url := ResolveUrl(baseUrl, pathOrUrl);
      var i: nat := 0;
      while i < retries
        invariant retries > 0 ==> i <= retries
        invariant Attempts(url, 0, retries, server) == Prepend(FailedRounds(url, 0, i), Attempts(url, i, retries, server))
        invariant log == old(log) + FailedRounds(url, 0, i)
        decreases retries - i
      {
        var resp := server(url, i);
        log := log + [Request(url)];
        if resp.Raised? || resp.status == 200 {
          StopsAt(url, i, retries, server);
          AppendAssoc(old(log), FailedRounds(url, 0, i), [Request(url)]);
          if resp.Raised? {
            return Err(RequestRaised(url));
          }
          if resp.body.None? {
            return Err(BodyNotJson(url));
          }
          return Ok(resp.body.value);
        }
        log := log + [Sleep(i + 1)];
        Advance(url, i, retries, server);
        AppendAssoc(old(log), FailedRounds(url, 0, i), [Request(url), Sleep(i + 1)]);
        AppendAssoc(old(log) + FailedRounds(url, 0, i), [Request(url)], [Sleep(i + 1)]);
        i := i + 1;
      }
      ExhaustedAt(url, i, retries, server);
      return Ok(EmptyObject);
    }

    /** `fetch_lei_attrs(lei)`. */
    method FetchLeiAttrs(lei: string, server: (string, nat) -> Attempt) returns (r: Result<Json, Error>)
      modifies this
      ensures var o := Attempts(ResolveUrl(baseUrl, "lei-records/" + lei), 0, retries, server);
        log == old(log) + o.events
        && r == (if o.result.Err? then Err(o.result.error) else LeiAttributes(o.result.value))
    {
      var payload := Get("lei-records/" + lei, server);
      if payload.Err? {
        return Err(payload.error);
      }
      return LeiAttributes(payload.value);
    }
  }

  /** What the attempt that ends the loop early gives. */
  function StopResult(url: string, a: Attempt): Result<Json, Error>
  {
    if a.Raised? then Err(RequestRaised(url))
    else if a.body.Some? then Ok(a.body.value)
    else Err(BodyNotJson(url))
  }

  /** `events` done before the outcome `o`. */
  function Prepend(events: seq<Event>, o: Outcome): Outcome
  {
    Outcome(events + o.events, o.result)
  }

  /** Attempt `i` failed: the loop moves on to attempt `i + 1`. */
  lemma Advance(url: string, i: nat, retries: int, server: (string, nat) -> Attempt)
    requires i < retries && server(url, i).Answer? && server(url, i).status != 200
    requires Attempts(url, 0, retries, server) == Prepend(FailedRounds(url, 0, i), Attempts(url, i, retries, server))
    ensures Attempts(url, 0, retries, server) == Prepend(FailedRounds(url, 0, i + 1), Attempts(url, i + 1, retries, server))
    ensures FailedRounds(url, 0, i + 1) == FailedRounds(url, 0, i) + [Request(url), Sleep(i + 1)]
  {
    FailedRoundsAppend(url, 0, i);
    var rest := Attempts(url, i + 1, retries, server);
    assert Attempts(url, i, retries, server) == Prepend([Request(url), Sleep(i + 1)], rest);
    AppendAssoc(FailedRounds(url, 0, i), [Request(url), Sleep(i + 1)], rest.events);
  }

  /** Attempt `i` raised or was answered with 200: the loop ends with it. */
  lemma StopsAt(url: string, i: nat, retries: int, server: (string, nat) -> Attempt)
    requires i < retries && (server(url, i).Raised? || server(url, i).status == 200)
    requires Attempts(url, 0, retries, server) == Prepend(FailedRounds(url, 0, i), Attempts(url, i, retries, server))
    ensures Attempts(url, 0, retries, server)
         == Outcome(FailedRounds(url, 0, i) + [Request(url)], StopResult(url, server(url, i)))
  {
  }

  /** The loop ran out of attempts. */
  lemma ExhaustedAt(url: string, i: nat, retries: int, server: (string, nat) -> Attempt)
    requires i >= retries
    requires Attempts(url, 0, retries, server) == Prepend(FailedRounds(url, 0, i), Attempts(url, i, retries, server))
    ensures Attempts(url, 0, retries, server) == Outcome(FailedRounds(url, 0, i), Ok(EmptyObject))
  {
    AppendEmpty(FailedRounds(url, 0, i));
  }

  lemma {:induction false} FailedRoundsAppend(url: string, from: nat, to: nat)
    requires from <= to
    ensures FailedRounds(url, from, to + 1) == FailedRounds(url, from, to) + [Request(url), Sleep(to + 1)]
    decreases if to > from then to - from else 0
  {
    if from < to {
      FailedRoundsAppend(url, from + 1, to);
    }
  }
}
