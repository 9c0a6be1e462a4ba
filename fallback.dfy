/**
 * The relay (transit gateway) transport: the configured base URL, the upload of an STA
 * to the recipient's gateway with a retention TTL, and the poll loop that appends each
 * fetched envelope and deletes from the relay exactly those that were appended.
 */
module Fallback {
  import opened Wrappers
  import opened Crypto
  import opened Records
  import opened Storage
  import opened State

  /** The reachability descriptor (HRD) published through the signalling nodes. */
  datatype DirectReach = DirectReach(webrtc: Option<bool>)
  datatype FallbackReach = FallbackReach(transitGateway: Option<string>, ttlSeconds: Option<int>)
  datatype Reachability = Reachability(direct: Option<DirectReach>, fallback: Option<FallbackReach>)
  datatype Hrd = Hrd(hik: string, signPublicJwk: Json, dhPublicJwk: Json, reachability: Option<Reachability>)

  /** The retention used when the HRD gives none. */
  const DEFAULT_TTL_SECONDS := 300

  /** `replace(/\/$/, '')`: one trailing slash removed, if there is one. */
  function StripTrailingSlash(s: string): (r: string)
    ensures r + "/" == s || r == s
    ensures r == s <==> (|s| == 0 || s[|s| - 1] != '/')
  {
    if |s| > 0 && s[|s| - 1] == '/' then s[..|s| - 1] else s
  }

  /** Only one slash goes: a URL ending in two slashes keeps one. */
  lemma StripOnlyOne(s: string)
    requires |s| >= 2 && s[|s| - 1] == '/' && s[|s| - 2] == '/'
    ensures StripTrailingSlash(s) == s[..|s| - 1]
    ensures |StripTrailingSlash(s)| > 0 && StripTrailingSlash(s)[|StripTrailingSlash(s)| - 1] == '/'
  {
  }

  /** `mustTransitBase`: fails when the base is unset or empty, otherwise strips one trailing slash. */
  function MustTransitBase(transitBase: Option<string>): (r: Result<string>)
    ensures r.Failure? <==> transitBase.None? || transitBase.value == ""
    ensures r.Success? ==> r.value + "/" == transitBase.value || r.value == transitBase.value
    ensures r.Success? && r.value == transitBase.value ==> transitBase.value[|transitBase.value| - 1] != '/'
  {
    if transitBase.None? || transitBase.value == "" then Failure("Transit base not configured. Set VITE_TRANSIT_BASE.")
    else Success(StripTrailingSlash(transitBase.value))
  }

  function HrdGateway(hrd: Hrd): Option<string>
  {
    if hrd.reachability.Some? && hrd.reachability.value.fallback.Some? then hrd.reachability.value.fallback.value.transitGateway
    else None
  }

  function HrdTtl(hrd: Hrd): Option<int>
  {
    if hrd.reachability.Some? && hrd.reachability.value.fallback.Some? then hrd.reachability.value.fallback.value.ttlSeconds
    else None
  }

  /** The gateway: the HRD's `transit_gateway` when present and non-empty, else the base; one trailing slash removed. */
  function TransitGateway(hrd: Hrd, base: string): (g: string)
    ensures HrdGateway(hrd).Some? && HrdGateway(hrd).value != "" ==> g == StripTrailingSlash(HrdGateway(hrd).value)
    ensures HrdGateway(hrd).None? || HrdGateway(hrd).value == "" ==> g == StripTrailingSlash(base)
  {
    var gw := HrdGateway(hrd);
    StripTrailingSlash(if gw.Some? && gw.value != "" then gw.value else base)
  }

  /** The TTL: the HRD's `ttl_seconds` unless null or undefined (so 0 is kept), else 300. */
  function TransitTtl(hrd: Hrd): (ttl: int)
    ensures HrdTtl(hrd).Some? ==> ttl == HrdTtl(hrd).value
    ensures HrdTtl(hrd).None? ==> ttl == DEFAULT_TTL_SECONDS
  {
    match HrdTtl(hrd)
    case Some(t) => t
    case None => DEFAULT_TTL_SECONDS
  }

  /** The `PUT /upload?hik=<to>&ttl=<ttl>` request with body `{ sta, senderSignPublicJwk }`. */
  datatype Upload = Upload(gateway: string, hik: string, ttl: int, sta: STA, senderSignPublicJwk: Json)

  /**
   * The request `sendToTransit` issues; it fails before any request when no base is
   * configured. Its boolean result is the `ok` of the response to this request.
   */
  function SendToTransit(transitBase: Option<string>, sta: STA, hrd: Hrd, senderSignPublicJwk: Json): (r: Result<Upload>)
    ensures r.Failure? <==> MustTransitBase(transitBase).Failure?
    ensures r.Success? ==> r.value.hik == sta.to && r.value.sta == sta && r.value.senderSignPublicJwk == senderSignPublicJwk
    ensures r.Success? ==> r.value.gateway == TransitGateway(hrd, MustTransitBase(transitBase).value)
    ensures r.Success? ==> r.value.ttl == TransitTtl(hrd)
  {
    match MustTransitBase(transitBase)
    case Failure(e) => Failure(e)
    case Success(base) => Success(Upload(TransitGateway(hrd, base), sta.to, TransitTtl(hrd), sta, senderSignPublicJwk))
  }

  /** Without a gateway in the HRD the configured base is stripped twice: `mustTransitBase`, then again. */
  lemma DefaultGatewayStrippedTwice(transitBase: string, sta: STA, hrd: Hrd, jwk: Json)
    requires transitBase != ""
    requires HrdGateway(hrd).None?
    ensures SendToTransit(Some(transitBase), sta, hrd, jwk).value.gateway == StripTrailingSlash(StripTrailingSlash(transitBase))
  {
  }

  // ---------------------------------------------------------------------------------
  // pollTransit

  /** One item of the `GET /poll` response. */
  datatype Envelope = Envelope(id: string, sta: STA, senderSignPublicJwk: Json)

  /** The HTTP requests the poll issues, in order. */
  datatype Request = PollRequest(base: string, hik: string) | DeleteRequest(base: string, hik: string, id: string)

  /**
   * The envelopes processed in order against the three stores: each is appended under the
   * key imported from its JWK, `commits[i]` being whether its transaction completes. The
   * result holds the final stores and, per envelope, whether it was appended.
   */
  function ApplyEnvelopes(p: Primitives, l: Ledger, envs: seq<Envelope>, commits: seq<bool>): (r: (Ledger, seq<bool>))
    requires |commits| == |envs|
    ensures |r.1| == |envs|
  {
    if envs == [] then (l, [])
    else
      var n := |envs| - 1;
      var (before, flags) := ApplyEnvelopes(p, l, envs[..n], commits[..n]);
      var ok := ValidateSTA(p, before, envs[n].sta, p.importJwk(envs[n].senderSignPublicJwk)) && commits[n];
      (if ok then Appended(before, envs[n].sta) else before, flags + [ok])
  }

  /** A relay delete for each appended envelope, in order. */
  function DeleteRequests(base: string, hik: string, envs: seq<Envelope>, flags: seq<bool>): seq<Request>
    requires |flags| == |envs|
  {
    if envs == [] then []
    else
      var n := |envs| - 1;
      DeleteRequests(base, hik, envs[..n], flags[..n]) + (if flags[n] then [DeleteRequest(base, hik, envs[n].id)] else [])
  }

  /** The STAs of the appended envelopes, in order. */
  function AppendedStas(envs: seq<Envelope>, flags: seq<bool>): seq<STA>
    requires |flags| == |envs|
  {
    if envs == [] then []
    else
      var n := |envs| - 1;
      AppendedStas(envs[..n], flags[..n]) + (if flags[n] then [envs[n].sta] else [])
  }

  /** How many envelopes the poll loop gets through when envelope `throwsAt` throws (none throws when it is past the end). */
  function Processed(count: nat, throwsAt: nat): (k: nat)
    ensures k <= count
    ensures k < count <==> throwsAt < count
    ensures k < count ==> k == throwsAt
  {
    if throwsAt < count then throwsAt else count
  }

  /**
   * `pollTransit`. `pollOk` is the `ok` of the poll response, or `None` when the poll `fetch`
   * throws (the relay is unreachable), which rejects the poll. `envelopes` is the body and
   * `commits[i]` whether the append transaction of envelope `i` completes. `throwsAt` is the
   * first envelope whose key import or `appendSTA` throws (its signature is not base64, or a
   * read of the stores fails); the exception leaves the loop there and rejects the poll.
   * Returns the requests issued to the relay and whether the poll completed.
   */
  method PollTransit(db: Database, p: Primitives, transitBase: Option<string>, hik: Hik, pollOk: Option<bool>,
                     envelopes: seq<Envelope>, commits: seq<bool>, throwsAt: nat)
    returns (requests: seq<Request>, r: Result<()>)
    requires |commits| == |envelopes|
    modifies db`chain, db`syncLog, db`messages
    ensures MustTransitBase(transitBase).Failure? ==>
      r.Failure? && requests == [] && db.LedgerView() == old(db.LedgerView())
    ensures MustTransitBase(transitBase).Success? && pollOk.None? ==>
      r.Failure? && requests == [PollRequest(MustTransitBase(transitBase).value, hik.hikHash)]
      && db.LedgerView() == old(db.LedgerView())
    ensures MustTransitBase(transitBase).Success? && pollOk == Some(false) ==>
      r.Success? && requests == [PollRequest(MustTransitBase(transitBase).value, hik.hikHash)]
      && db.LedgerView() == old(db.LedgerView())
    ensures MustTransitBase(transitBase).Success? && pollOk == Some(true) ==>
      var base := MustTransitBase(transitBase).value;
      var k := Processed(|envelopes|, throwsAt);
      var (after, flags) := ApplyEnvelopes(p, old(db.LedgerView()), envelopes[..k], commits[..k]);
      && db.LedgerView() == after
      && requests == [PollRequest(base, hik.hikHash)] + DeleteRequests(base, hik.hikHash, envelopes[..k], flags)
      && (r.Failure? <==> throwsAt < |envelopes|)
  {
    var b := MustTransitBase(transitBase);
    if b.Failure? {
      return [], Failure(b.error);
    }
    var base := b.value;
    requests := [PollRequest(base, hik.hikHash)];
    if pollOk.None? {
      return requests, Failure("poll fetch threw");
    }
    if !pollOk.value {
      return requests, Success(());
    }
    ghost var start := db.LedgerView();
    ghost var flags: seq<bool> := [];
    var k := Processed(|envelopes|, throwsAt);
    for i := 0 to k
      invariant |flags| == i
      invariant (db.LedgerView(), flags) == ApplyEnvelopes(p, start, envelopes[..i], commits[..i])
      invariant requests == [PollRequest(base, hik.hikHash)] + DeleteRequests(base, hik.hikHash, envelopes[..i], flags)
    {
      var env := envelopes[i];
      var senderSignPublicKey := p.importJwk(env.senderSignPublicJwk);
      var appended := AppendSTA(db, p, env.sta, senderSignPublicKey, commits[i]);
      if appended {
        requests := requests + [DeleteRequest(base, hik.hikHash, env.id)];
      }
      PollStep(p, start, envelopes, commits, i);
      DeleteStep(base, hik.hikHash, envelopes, flags + [appended], i);
      flags := flags + [appended];
    }
    if k < |envelopes| {
      r := Failure("appendSTA threw");
    } else {
      r := Success(());
    }
  }

  /** One more envelope processed. */
  lemma PollStep(p: Primitives, l: Ledger, envs: seq<Envelope>, commits: seq<bool>, i: int)
    requires |commits| == |envs| && 0 <= i < |envs|
    ensures var (before, flags) := ApplyEnvelopes(p, l, envs[..i], commits[..i]);
      var ok := ValidateSTA(p, before, envs[i].sta, p.importJwk(envs[i].senderSignPublicJwk)) && commits[i];
      ApplyEnvelopes(p, l, envs[..i + 1], commits[..i + 1]) == (if ok then Appended(before, envs[i].sta) else before, flags + [ok])
  {
    assert envs[..i + 1][..i] == envs[..i];
    assert commits[..i + 1][..i] == commits[..i];
  }

  /** One more envelope's delete, if it was appended. */
  lemma DeleteStep(base: string, hik: string, envs: seq<Envelope>, flags: seq<bool>, i: int)
    requires 0 <= i < |envs| && |flags| == i + 1
    ensures DeleteRequests(base, hik, envs[..i + 1], flags) ==
      DeleteRequests(base, hik, envs[..i], flags[..i]) + (if flags[i] then [DeleteRequest(base, hik, envs[i].id)] else [])
  {
    assert envs[..i + 1][..i] == envs[..i];
  }

  // ---------------------------------------------------------------------------------
  // What a poll does to the stores and to the relay

  /** The chain grows by exactly the appended envelopes' STAs, in order. */
  lemma {:induction false} PollChainGrowth(p: Primitives, l: Ledger, envs: seq<Envelope>, commits: seq<bool>)
    requires |commits| == |envs|
    ensures var (after, flags) := ApplyEnvelopes(p, l, envs, commits);
      after.chain == l.chain + AppendedStas(envs, flags)
  {
    if envs != [] {
      var n := |envs| - 1;
      PollChainGrowth(p, l, envs[..n], commits[..n]);
      var (before, flags) := ApplyEnvelopes(p, l, envs[..n], commits[..n]);
      var (after, flags') := ApplyEnvelopes(p, l, envs, commits);
      assert flags'[..n] == flags;
    }
  }

  /** A poll keeps the chain invariant. */
  lemma {:induction false} PollKeepsWellFormed(p: Primitives, l: Ledger, envs: seq<Envelope>, commits: seq<bool>)
    requires |commits| == |envs|
    requires WellFormed(p, l)
    ensures WellFormed(p, ApplyEnvelopes(p, l, envs, commits).0)
  {
    if envs != [] {
      var n := |envs| - 1;
      PollKeepsWellFormed(p, l, envs[..n], commits[..n]);
      var (before, flags) := ApplyEnvelopes(p, l, envs[..n], commits[..n]);
      var key := p.importJwk(envs[n].senderSignPublicJwk);
      if ValidateSTA(p, before, envs[n].sta, key) && commits[n] {
        AppendKeepsWellFormed(p, before, envs[n].sta, key);
      }
    }
  }

  /**
   * A relay delete is issued for an id exactly when some envelope with that id was
   * appended; an envelope that was rejected leaves no delete behind it.
   */
  lemma {:induction false} DeletesExactlyAppended(base: string, hik: string, envs: seq<Envelope>, flags: seq<bool>, id: string)
    requires |flags| == |envs|
    ensures DeleteRequest(base, hik, id) in DeleteRequests(base, hik, envs, flags) <==>
      exists i :: 0 <= i < |envs| && flags[i] && envs[i].id == id
  {
    if envs != [] {
      var n := |envs| - 1;
      DeletesExactlyAppended(base, hik, envs[..n], flags[..n], id);
      if exists i :: 0 <= i < |envs| && flags[i] && envs[i].id == id {
        var i :| 0 <= i < |envs| && flags[i] && envs[i].id == id;
        if i < n {
          assert envs[..n][i] == envs[i] && flags[..n][i] == flags[i];
        }
      }
      if exists i :: 0 <= i < n && flags[..n][i] && envs[..n][i].id == id {
        var i :| 0 <= i < n && flags[..n][i] && envs[..n][i].id == id;
        assert flags[i] && envs[i].id == id;
      }
    }
  }

  /** Every request after the poll is a delete, one per appended envelope. */
  lemma {:induction false} DeleteCount(base: string, hik: string, envs: seq<Envelope>, flags: seq<bool>)
    requires |flags| == |envs|
    ensures |DeleteRequests(base, hik, envs, flags)| == |AppendedStas(envs, flags)|
    ensures forall q :: q in DeleteRequests(base, hik, envs, flags) ==> q.DeleteRequest? && q.base == base && q.hik == hik
  {
    if envs != [] {
      var n := |envs| - 1;
      DeleteCount(base, hik, envs[..n], flags[..n]);
    }
  }
}
