/** From the server's challenge to the header it gets back, over every run. */
module DigestWire {
  import opened Text
  import Challenge
  import Digest
  import opened DigestHeader
  import opened DigestSession

  type Params = Challenge.Params

  /** The usable challenges a host has sent, in order. */
  function Answers(es: seq<Event>, host: string): (answers: seq<Params>)
    ensures forall i | 0 <= i < |answers| :: "realm" in answers[i] && "nonce" in answers[i]
  {
    if es == [] then [] else
      var e := es[|es| - 1];
      Answers(es[..|es| - 1], host) +
      (if e.Answer? && e.host == host && Usable(e.params) then [e.params.value] else [])
  }

  predicate SameOffer(a: Params, b: Params) {
    Get(a, "realm") == Get(b, "realm") && Get(a, "nonce") == Get(b, "nonce")
  }

  /** The last challenge with a realm or a nonce other than those of the challenge before it. */
  predicate Renews(answers: seq<Params>, j: nat) {
    && j < |answers| && (j == 0 || !SameOffer(answers[j - 1], answers[j]))
    && forall k | j < k < |answers| :: SameOffer(answers[k - 1], answers[k])
  }

  /** Everything in the session but the count is what the challenge said. */
  predicate From(s: Session, params: Params) {
    && Get(params, "realm") == Some(s.realm) && Get(params, "nonce") == Some(s.nonce)
    && s.qop == Get(params, "qop") && s.algorithm == Get(params, "algorithm") && s.opaqueData == Get(params, "opaque")
  }

  ghost predicate Answered(sessions: Sessions, answers: seq<Params>, host: string) {
    if host !in sessions then answers == [] else exists j: nat :: MadeBy(sessions[host], answers, j)
  }

  /** The session is what the challenge that last renewed it said. */
  predicate MadeBy(s: Session, answers: seq<Params>, j: nat) {
    Renews(answers, j) && From(s, answers[j]) && SameOffer(answers[j], answers[|answers| - 1])
  }

  lemma RenewsMore(answers: seq<Params>, j: nat, params: Params)
    requires Renews(answers, j) && SameOffer(answers[j], answers[|answers| - 1])
    ensures var more := answers + [params];
            if SameOffer(answers[|answers| - 1], params) then Renews(more, j) && SameOffer(more[j], params)
            else Renews(more, |answers|)
  {
    var more := answers + [params];
    assert forall k | 0 <= k < |answers| :: more[k] == answers[k];
  }

  /** In every run each session was made by the challenge that last renewed it. */
  lemma {:induction false} RunAnswered(es: seq<Event>, host: string)
    ensures Answered(RunSessions(es), Answers(es, host), host)
  {
    hide MadeBy, Get;
    if es != [] {
      var front, e := es[..|es| - 1], es[|es| - 1];
      RunAnswered(front, host);
      var before, answers := RunSessions(front), Answers(front, host);
      if e.host == host && e.Answer? && Usable(e.params) {
        StepAnswered(before, answers, host, e.params.value);
      } else {
        assert answers + [] == answers;
        if e.host == host && e.Sign? && host in before { UseKeeps(before[host], answers); }
      }
    }
  }

  lemma UseKeeps(s: Session, answers: seq<Params>)
    ensures forall j: nat :: MadeBy(Use(s), answers, j) <==> MadeBy(s, answers, j)
  {
  }

  lemma StepAnswered(before: Sessions, answers: seq<Params>, host: string, params: Params)
    requires Answered(before, answers, host) && "realm" in params && "nonce" in params
    ensures Answered(before[host := Challenged(before, host, params)], answers + [params], host)
  {
    var more, s := answers + [params], Challenged(before, host, params);
    if host in before {
      var j: nat :| MadeBy(before[host], answers, j);
      RenewsMore(answers, j, params);
      assert more[j] == answers[j] && more[|answers|] == params;
      var i := if SameOffer(answers[|answers| - 1], params) then j else |answers|;
      assert MadeBy(s, more, i);
    } else {
      assert MadeBy(s, more, 0);
    }
  }

  /** What a server finds in a header, in terms of its own challenge and the caller's request. */
  ghost predicate Echoes(params: Params, challenge: Params, username: string, uri: string, nc: nat, cnonce: string) {
    && Get(params, "username") == Some(username) && Get(params, "uri") == Some(uri)
    && Get(params, "realm") == Get(challenge, "realm") && Get(params, "nonce") == Get(challenge, "nonce")
    && Get(params, "opaque") == Get(challenge, "opaque")
    && ("algorithm" in params <==> "algorithm" in challenge)
    && ("algorithm" in params ==> params["algorithm"] == Upper(challenge["algorithm"]))
    && ("qop" in params <==> "qop" in challenge && Lists(challenge["qop"], "auth"))
    && ("qop" in params ==>
          && params["qop"] == "auth" && "nc" in params && Digest.HexValue(params["nc"]) == nc
          && Get(params, "cnonce") == Some(cnonce))
  }

  /** In every run, the header issued from a host's session echoes the challenge that last renewed
      the session, with the session's count. */
  lemma HeaderEchoes(hash: Digest.Hash, auth: DigestAuth, es: seq<Event>, host: string, httpMethod: string,
                     uri: string, cnonce: string)
    requires host in RunSessions(es)
    requires Digest.Echoable(auth.RequestFor(RunSessions(es)[host], httpMethod, uri, cnonce))
    ensures var s := RunSessions(es)[host];
            var header := Digest.Authorization(hash, auth.RequestFor(s, httpMethod, uri, cnonce));
            exists params, j: nat ::
              && Challenge.FindDigest(Challenge.Parse(header)) == Some(params) && Renews(Answers(es, host), j)
              && Echoes(params, Answers(es, host)[j], auth.username, uri, s.nc, cnonce)
  {
    hide Challenge.Parse, Challenge.FindDigest, Digest.Authorization, Digest.Echoable, RunSessions, Answers, Lists,
      NamesSession, Digest.HexValue, SameOffer;
    RunAnswered(es, host);
    var s := RunSessions(es)[host];
    var r := auth.RequestFor(s, httpMethod, uri, cnonce);
    HeaderTells(hash, r);
    var header := Digest.Authorization(hash, r);
    var params :| Challenge.FindDigest(Challenge.Parse(header)) == Some(params) && Tells(r, params);
    var j: nat :| MadeBy(s, Answers(es, host), j);
    assert Echoes(params, Answers(es, host)[j], auth.username, uri, s.nc, cnonce);
  }

  /** And a server that knows the password and saw the method computes the response in it. */
  lemma HeaderAccepted(hash: Digest.Hash, auth: DigestAuth, s: Session, httpMethod: string, uri: string, cnonce: string)
    requires s.algorithm.Some? ==> Digest.RfcAlgorithm(s.algorithm.value).Some?
    ensures var header := Digest.Authorization(hash, auth.RequestFor(s, httpMethod, uri, cnonce));
            exists params :: Challenge.FindDigest(Challenge.Parse(header)) == Some(params) && "response" in params
              && Digest.ServerResponse(hash, params, auth.password, httpMethod) == Some(params["response"])
  {
    hide Challenge.Parse, Challenge.FindDigest, Digest.Authorization, Digest.ServerResponse, Digest.RfcAlgorithm;
    Digest.ServerAgrees(hash, auth.RequestFor(s, httpMethod, uri, cnonce));
  }
}
