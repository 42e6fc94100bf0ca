/** The per-host Digest session: a challenge opens or renews it, and every header built from
    it carries the next nonce count. */
module DigestSession {
  import opened Text
  import Challenge
  import Digest
  import DigestHeader

  datatype Session = Session(
    realm: string, nonce: string, nc: nat, qop: Option<string>, algorithm: Option<string>, opaqueData: Option<string>)

  type Sessions = map<string, Session>

  /** What a request sees of a session: one use of a nonce. */
  datatype Issue = Issue(host: string, realm: string, nonce: string, nc: nat)

  // ---------- one step ----------

  function Get(params: Challenge.Params, key: string): (v: Option<string>) {
    if key in params then Some(params[key]) else None
  }

  function NewSession(params: Challenge.Params): (s: Session)
    requires "realm" in params && "nonce" in params
  {
    Session(params["realm"], params["nonce"], 0, Get(params, "qop"), Get(params, "algorithm"), Get(params, "opaque"))
  }

  function Use(s: Session): (t: Session) {
    s.(nc := s.nc + 1)
  }

  /** The session a usable challenge leaves behind: renewed when the nonce or the realm
      changed, continued otherwise; used once either way. */
  function Challenged(sessions: Sessions, host: string, params: Challenge.Params): (s: Session)
    requires "realm" in params && "nonce" in params
  {
    var s := if host in sessions then sessions[host] else NewSession(params);
    Use(if s.nonce != params["nonce"] || s.realm != params["realm"] then NewSession(params) else s)
  }

  predicate Usable(params: Option<Challenge.Params>) {
    params.Some? && "realm" in params.value && "nonce" in params.value
  }

  datatype Event =
    | Sign(host: string)
    | Answer(host: string, params: Option<Challenge.Params>)

  /** The session that the step stores and issues from, if any. */
  function Stored(sessions: Sessions, e: Event): (s: Option<Session>) {
    match e
    case Sign(host) => if host in sessions then Some(Use(sessions[host])) else None
    case Answer(host, params) => if Usable(params) then Some(Challenged(sessions, host, params.value)) else None
  }

  function Step(sessions: Sessions, e: Event): (next: Sessions) {
    match Stored(sessions, e)
    case None => sessions
    case Some(s) => sessions[e.host := s]
  }

  function IssueOf(host: string, s: Session): (i: Issue) {
    Issue(host, s.realm, s.nonce, s.nc)
  }

  // ---------- the signer ----------

  class DigestAuth {
    const username: string
    const password: string
    var sessions: Sessions

    constructor (username: string, password: string)
      ensures this.username == username && this.password == password && sessions == map[]
    {
      this.username := username;
      this.password := password;
      sessions := map[];
    }

    function RequestFor(s: Session, httpMethod: string, uri: string, cnonce: string): (r: Digest.Request) {
      Digest.Request(username, password, httpMethod, uri, s.realm, s.nonce, s.nc, cnonce, s.qop, s.algorithm,
                     s.opaqueData)
    }

    method SignRequest(hash: Digest.Hash, host: string, httpMethod: string, uri: string, cnonce: string)
      returns (header: Option<string>)
      modifies this
      ensures sessions == Step(old(sessions), Sign(host))
      ensures header == match Stored(old(sessions), Sign(host))
                        case None => None
                        case Some(s) => Some(Digest.Authorization(hash, RequestFor(s, httpMethod, uri, cnonce)))
    {
      if host !in sessions { return None; }
      var s := sessions[host];
      s := s.(nc := s.nc + 1);
      sessions := sessions[host := s];
      header := Some(Digest.Authorization(hash, RequestFor(s, httpMethod, uri, cnonce)));
    }

    method ChallengeResponse(hash: Digest.Hash, wwwAuthenticate: string, host: string, httpMethod: string,
                             uri: string, cnonce: string)
      returns (header: Option<string>)
      modifies this
      ensures var e := Answer(host, Challenge.FindDigest(Challenge.Parse(wwwAuthenticate)));
              && sessions == Step(old(sessions), e)
              && header == match Stored(old(sessions), e)
                           case None => None
                           case Some(s) => Some(Digest.Authorization(hash, RequestFor(s, httpMethod, uri, cnonce)))
    {
      hide Challenge.Parse, Challenge.FindDigest, Digest.Authorization;
      var challenges := Challenge.ParseChallenges(wwwAuthenticate);
      var found := Challenge.FindDigest(challenges);
      if found.None? || "realm" !in found.value || "nonce" !in found.value { return None; }
      var params := found.value;
      var realm, nonce := params["realm"], params["nonce"];
      if host !in sessions {
        sessions := sessions[host := NewSession(params)];
      }
      var s := sessions[host];
      if s.nonce != nonce || s.realm != realm {
        s := Session(realm, nonce, 0, Get(params, "qop"), Get(params, "algorithm"), Get(params, "opaque"));
      }
      s := s.(nc := s.nc + 1);
      sessions := sessions[host := s];
      header := Some(Digest.Authorization(hash, RequestFor(s, httpMethod, uri, cnonce)));
    }
  }

  /** The issued values are the ones on the wire: a server parsing the header finds the
      session's realm and nonce, and its count whenever the session uses `qop=auth`. */
  lemma IssueOnTheWire(hash: Digest.Hash, auth: DigestAuth, s: Session, httpMethod: string, uri: string, cnonce: string)
    requires Digest.Echoable(auth.RequestFor(s, httpMethod, uri, cnonce))
    ensures var r := auth.RequestFor(s, httpMethod, uri, cnonce);
            exists params :: Challenge.FindDigest(Challenge.Parse(Digest.Authorization(hash, r))) == Some(params)
              && Get(params, "realm") == Some(s.realm) && Get(params, "nonce") == Some(s.nonce)
              && (if s.qop.Some? && DigestHeader.Lists(s.qop.value, "auth")
                  then "nc" in params && Digest.HexValue(params["nc"]) == s.nc else "qop" !in params)
  {
    hide Challenge.Parse, Challenge.FindDigest, Digest.Authorization, DigestHeader.Lists, Digest.HexValue;
    DigestHeader.HeaderTells(hash, auth.RequestFor(s, httpMethod, uri, cnonce));
  }

  // ---------- runs ----------

  function RunSessions(es: seq<Event>): (s: Sessions) {
    if es == [] then map[] else Step(RunSessions(es[..|es| - 1]), es[|es| - 1])
  }

  /** Everything issued over a run, in order. */
  function Log(es: seq<Event>): (log: seq<Issue>) {
    if es == [] then [] else
      var e := es[|es| - 1];
      Log(es[..|es| - 1]) +
      match Stored(RunSessions(es[..|es| - 1]), e)
      case None => []
      case Some(s) => [IssueOf(e.host, s)]
  }

  function HostLog(log: seq<Issue>, host: string): (l: seq<Issue>) {
    if log == [] then [] else
      var last := log[|log| - 1];
      HostLog(log[..|log| - 1], host) + (if last.host == host then [last] else [])
  }

  predicate SameNonce(a: Issue, b: Issue) {
    a.realm == b.realm && a.nonce == b.nonce
  }

  /** Counts start at 1 and go up by one, starting again exactly when the nonce or the realm changes. */
  predicate CountsUp(l: seq<Issue>) {
    forall i | 0 <= i < |l| :: CountAt(l, i)
  }

  predicate CountAt(l: seq<Issue>, i: nat)
    requires i < |l|
  {
    l[i].nc == if i > 0 && SameNonce(l[i - 1], l[i]) then l[i - 1].nc + 1 else 1
  }

  ghost predicate Tracks(sessions: Sessions, log: seq<Issue>, host: string) {
    var l := HostLog(log, host);
    && CountsUp(l)
    && (if host in sessions then l != [] && l[|l| - 1] == IssueOf(host, sessions[host]) else l == [])
  }

  lemma HostLogAppend(log: seq<Issue>, i: Issue, host: string)
    ensures HostLog(log + [i], host) == HostLog(log, host) + (if i.host == host then [i] else [])
  {
    assert (log + [i])[..|log|] == log;
  }

  lemma {:induction false} RunTracks(es: seq<Event>, host: string)
    ensures Tracks(RunSessions(es), Log(es), host)
  {
    hide CountsUp, Stored, HostLog;
    if es == [] {
      NothingTracked(host);
    } else {
      var front, e := es[..|es| - 1], es[|es| - 1];
      RunTracks(front, host);
      var before, log := RunSessions(front), Log(front);
      var stored := Stored(before, e);
      if stored.Some? {
        HostLogAppend(log, IssueOf(e.host, stored.value), host);
        assert HostLog(log, host) + [] == HostLog(log, host);
        if e.host == host { StoredCounts(before, log, e); }
      } else {
        assert log + [] == log;
      }
    }
  }

  lemma NothingTracked(host: string)
    ensures HostLog([], host) == [] && CountsUp([])
  {
  }

  /** What a step stores continues its host's count. */
  lemma StoredCounts(sessions: Sessions, log: seq<Issue>, e: Event)
    requires Tracks(sessions, log, e.host) && Stored(sessions, e).Some?
    ensures CountsUp(HostLog(log, e.host) + [IssueOf(e.host, Stored(sessions, e).value)])
  {
    var l, i := HostLog(log, e.host), IssueOf(e.host, Stored(sessions, e).value);
    var longer := l + [i];
    forall k | 0 <= k < |longer| ensures CountAt(longer, k) {
      if k < |l| {
        assert CountAt(l, k);
      } else if e.host in sessions {
        assert l[|l| - 1] == IssueOf(e.host, sessions[e.host]);
      }
    }
  }

  /** In every run, the counts issued for a host between changes of nonce or realm are
      exactly 1, 2, 3, ...: the issue `k` places into such a stretch has count `k + 1`. */
  lemma CountsInOrder(es: seq<Event>, host: string, start: nat, k: nat)
    requires var l := HostLog(Log(es), host);
             && start + k < |l|
             && (start == 0 || !SameNonce(l[start - 1], l[start]))
             && forall j | start < j <= start + k :: SameNonce(l[j - 1], l[j])
    ensures HostLog(Log(es), host)[start + k].nc == k + 1
  {
    RunTracks(es, host);
    StretchCounts(HostLog(Log(es), host), start, k);
  }

  lemma {:induction false} StretchCounts(l: seq<Issue>, start: nat, k: nat)
    requires CountsUp(l) && start + k < |l|
    requires start == 0 || !SameNonce(l[start - 1], l[start])
    requires forall j | start < j <= start + k :: SameNonce(l[j - 1], l[j])
    ensures l[start + k].nc == k + 1 && SameNonce(l[start], l[start + k])
  {
    assert CountAt(l, start + k);
    if k > 0 {
      StretchCounts(l, start, k - 1);
      assert SameNonce(l[start + k - 1], l[start + k]);
    }
  }

  // ---------- hosts do not interfere ----------

  function EventsOf(es: seq<Event>, host: string): (r: seq<Event>) {
    if es == [] then [] else
      var e := es[|es| - 1];
      EventsOf(es[..|es| - 1], host) + (if e.host == host then [e] else [])
  }

  function SessionOf(sessions: Sessions, host: string): (s: Option<Session>) {
    if host in sessions then Some(sessions[host]) else None
  }

  lemma RunAppend(es: seq<Event>, e: Event)
    ensures RunSessions(es + [e]) == Step(RunSessions(es), e)
    ensures Log(es + [e]) == Log(es) + match Stored(RunSessions(es), e)
                                       case None => []
                                       case Some(s) => [IssueOf(e.host, s)]
  {
    assert (es + [e])[..|es|] == es;
  }

  /** What a step stores depends on its own host's session only. */
  lemma StoredLocal(a: Sessions, b: Sessions, e: Event)
    requires SessionOf(a, e.host) == SessionOf(b, e.host)
    ensures Stored(a, e) == Stored(b, e)
    ensures SessionOf(Step(a, e), e.host) == SessionOf(Step(b, e), e.host)
  {
  }

  /** Over every run, a host's session and everything issued for it are what the events of
      that host alone would have produced. */
  lemma {:induction false} HostsIndependent(es: seq<Event>, host: string)
    ensures HostLog(Log(es), host) == Log(EventsOf(es, host))
    ensures SessionOf(RunSessions(es), host) == SessionOf(RunSessions(EventsOf(es, host)), host)
  {
    hide Stored, HostLog;
    if es == [] {
      NothingTracked(host);
    } else {
      var front, e := es[..|es| - 1], es[|es| - 1];
      assert front + [e] == es;
      HostsIndependent(front, host);
      var own := EventsOf(front, host);
      RunAppend(front, e);
      RunAppend(own, e);
      var stored := Stored(RunSessions(front), e);
      if stored.Some? { HostLogAppend(Log(front), IssueOf(e.host, stored.value), host); }
      assert Log(front) + [] == Log(front) && HostLog(Log(front), host) + [] == HostLog(Log(front), host);
      if e.host == host {
        StoredLocal(RunSessions(front), RunSessions(own), e);
      } else {
        assert own + [] == own;
      }
    }
  }

  // ---------- no nonce use is repeated ----------

  predicate NoRepeats(l: seq<Issue>) {
    forall i, j | 0 <= i < j < |l| :: l[i] != l[j]
  }

  /** No nonce that was given up comes back. */
  predicate NoReturns(l: seq<Issue>) {
    forall i, k, j | 0 <= i < k < j < |l| && SameNonce(l[i], l[j]) :: SameNonce(l[i], l[k])
  }

  /** The stretch of one nonce that position `j` lies in. */
  lemma {:induction false} StretchStart(l: seq<Issue>, j: nat) returns (start: nat)
    requires j < |l|
    ensures start <= j && (start == 0 || !SameNonce(l[start - 1], l[start]))
    ensures forall i | start < i <= j :: SameNonce(l[i - 1], l[i])
    ensures forall i | start <= i <= j :: SameNonce(l[i], l[j])
  {
    if j > 0 && SameNonce(l[j - 1], l[j]) {
      start := StretchStart(l, j - 1);
    } else {
      start := j;
    }
  }

  lemma NoReturnsNoRepeats(l: seq<Issue>, i: nat, j: nat)
    requires CountsUp(l) && NoReturns(l) && i < j < |l|
    ensures l[i] != l[j]
  {
    if SameNonce(l[i], l[j]) {
      var start := StretchStart(l, j);
      assert start <= i;
      StretchCounts(l, start, j - start);
      StretchCounts(l, start, i - start);
    }
  }

  /** A nonce that comes back starts again at 1, as it did the first time. */
  lemma ReturnRepeats(l: seq<Issue>, i: nat, k: nat, j: nat)
    requires CountsUp(l) && i < k < j < |l| && SameNonce(l[i], l[j]) && !SameNonce(l[i], l[k])
    ensures exists a, b :: 0 <= a < b < |l| && SameNonce(l[a], l[b]) && l[a].nc == l[b].nc
  {
    var a := StretchStart(l, i);
    var b := StretchStart(l, j);
    assert k < b;
    StretchCounts(l, a, 0);
    StretchCounts(l, b, 0);
    assert SameNonce(l[a], l[i]) && SameNonce(l[b], l[j]);
  }

  lemma NoRepeatsIffNoReturns(l: seq<Issue>, host: string)
    requires CountsUp(l) && forall i | 0 <= i < |l| :: l[i].host == host
    ensures NoRepeats(l) <==> NoReturns(l)
  {
    if NoReturns(l) {
      forall i, j | 0 <= i < j < |l| ensures l[i] != l[j] {
        NoReturnsNoRepeats(l, i, j);
      }
    } else {
      var i, k, j :| 0 <= i < k < j < |l| && SameNonce(l[i], l[j]) && !SameNonce(l[i], l[k]);
      ReturnRepeats(l, i, k, j);
      var a, b :| 0 <= a < b < |l| && SameNonce(l[a], l[b]) && l[a].nc == l[b].nc;
      assert l[a] == l[b];
    }
  }

  lemma {:induction false} HostLogMembers(log: seq<Issue>, host: string)
    ensures forall i :: i in HostLog(log, host) <==> i in log && i.host == host
  {
    if log != [] {
      var front, last := log[..|log| - 1], log[|log| - 1];
      HostLogMembers(front, host);
      assert log == front + [last];
    }
  }

  lemma {:induction false} NoRepeatsAnyHost(log: seq<Issue>, host: string)
    requires NoRepeats(log)
    ensures NoRepeats(HostLog(log, host))
  {
    if log != [] {
      var front, last := log[..|log| - 1], log[|log| - 1];
      assert front + [last] == log;
      NoRepeatsAppend(front, last);
      NoRepeatsAnyHost(front, host);
      NoRepeatsOfHost(front, last, host);
    }
  }

  /** A repeated issue is repeated in its own host's log. */
  lemma {:induction false} RepeatHasHost(log: seq<Issue>) returns (host: string)
    requires !NoRepeats(log)
    ensures !NoRepeats(HostLog(log, host))
  {
    var front, last := log[..|log| - 1], log[|log| - 1];
    assert front + [last] == log;
    NoRepeatsAppend(front, last);
    if NoRepeats(front) {
      host := last.host;
    } else {
      host := RepeatHasHost(front);
    }
    NoRepeatsOfHost(front, last, host);
  }

  lemma NoRepeatsOfHost(log: seq<Issue>, i: Issue, host: string)
    ensures NoRepeats(HostLog(log + [i], host)) <==>
            NoRepeats(HostLog(log, host)) && (host == i.host ==> i !in log)
  {
    HostLogAppend(log, i, host);
    HostLogMembers(log, host);
    NoRepeatsAppend(HostLog(log, host), i);
    assert HostLog(log, host) + [] == HostLog(log, host);
  }

  lemma NoRepeatsAppend(l: seq<Issue>, i: Issue)
    ensures NoRepeats(l + [i]) <==> NoRepeats(l) && i !in l
  {
    var m := l + [i];
    assert forall k | 0 <= k < |l| :: m[k] == l[k];
    assert m[|l|] == i;
    assert i in l ==> exists k :: 0 <= k < |l| && m[k] == m[|l|];
  }

  // ---------- what the servers offered ----------

  type Nonce = (string, string)

  /** The (realm, nonce) pairs a host was usably challenged with, in order. */
  function Offers(es: seq<Event>, host: string): (ps: seq<Nonce>) {
    if es == [] then [] else
      var e := es[|es| - 1];
      Offers(es[..|es| - 1], host) +
      if e.Answer? && e.host == host && Usable(e.params) then
        [(e.params.value["realm"], e.params.value["nonce"])]
      else []
  }

  /** No pair comes back after another one. */
  predicate NoneReturns(ps: seq<Nonce>) {
    forall i, k, j | 0 <= i < k < j < |ps| && ps[i] == ps[j] :: ps[k] == ps[i]
  }

  function Nonces(l: seq<Issue>): (ps: seq<Nonce>)
    ensures |ps| == |l|
  {
    seq(|l|, i requires 0 <= i < |l| => (l[i].realm, l[i].nonce))
  }

  lemma NoncesAppend(l: seq<Issue>, i: Issue)
    ensures Nonces(l + [i]) == Nonces(l) + [(i.realm, i.nonce)]
  {
  }

  lemma NoReturnsNonces(l: seq<Issue>)
    ensures NoReturns(l) <==> NoneReturns(Nonces(l))
  {
    var ps := Nonces(l);
    assert forall i, j | 0 <= i < |l| && 0 <= j < |l| :: SameNonce(l[i], l[j]) <==> ps[i] == ps[j];
  }

  /** A further pair keeps the property exactly when it is new or the latest one again. */
  lemma NoneReturnsAppend(ps: seq<Nonce>, p: Nonce)
    ensures NoneReturns(ps + [p]) <==> NoneReturns(ps) && (p in ps ==> ps[|ps| - 1] == p)
  {
    var qs, n := ps + [p], |ps|;
    assert qs[n] == p && forall i | 0 <= i < n :: qs[i] == ps[i];
    if p in ps && ps[n - 1] != p {
      var i :| 0 <= i < n && ps[i] == p;
      assert qs[i] == qs[n] && qs[n - 1] != qs[i] && i < n - 1 < n;
    }
  }

  /** Two sequences that agree on their members, their last one and whether a pair returns. */
  ghost predicate Alike(ps: seq<Nonce>, qs: seq<Nonce>) {
    && (forall p :: p in ps <==> p in qs)
    && (ps != [] && qs != [] ==> ps[|ps| - 1] == qs[|qs| - 1])
    && (NoneReturns(ps) <==> NoneReturns(qs))
  }

  lemma AlikeAppend(ps: seq<Nonce>, qs: seq<Nonce>, p: Nonce)
    requires Alike(ps, qs)
    ensures Alike(ps + [p], qs + [p])
    ensures qs != [] && qs[|qs| - 1] == p ==> Alike(ps + [p], qs)
  {
    hide NoneReturns;
    NoneReturnsAppend(ps, p);
    NoneReturnsAppend(qs, p);
    if ps != [] { assert ps[0] in ps; }
    if qs != [] { assert qs[|qs| - 1] in qs; }
  }

  /** Issues repeat the pair offered last, so they return exactly when the offers do. */
  lemma {:induction false} IssuesFollowOffers(es: seq<Event>, host: string)
    ensures Alike(Nonces(HostLog(Log(es), host)), Offers(es, host))
    ensures var s, os := SessionOf(RunSessions(es), host), Offers(es, host);
            if s.None? then os == [] else os != [] && os[|os| - 1] == (s.value.realm, s.value.nonce)
  {
    hide Alike, Stored, HostLog, Nonces, NoneReturns;
    if es == [] {
      NothingTracked(host);
      NothingOffered();
    } else {
      var front, e := es[..|es| - 1], es[|es| - 1];
      assert front + [e] == es;
      IssuesFollowOffers(front, host);
      RunAppend(front, e);
      var sessions, log, os := RunSessions(front), Log(front), Offers(front, host);
      assert log + [] == log && HostLog(log, host) + [] == HostLog(log, host) && os + [] == os;
      StoredOffer(sessions, e);
      var stored := Stored(sessions, e);
      if stored.Some? {
        var i := IssueOf(e.host, stored.value);
        HostLogAppend(log, i, host);
        NoncesAppend(HostLog(log, host), i);
        AlikeAppend(Nonces(HostLog(log, host)), os, (i.realm, i.nonce));
      }
    }
  }

  lemma NothingOffered()
    ensures Alike(Nonces([]), [])
  {
  }

  /** A usable challenge stores the pair it offers; signing stores the session's own. */
  lemma StoredOffer(sessions: Sessions, e: Event)
    ensures var s := Stored(sessions, e);
            match e
            case Sign(host) =>
              s.Some? == (host in sessions) &&
              (s.Some? ==> (s.value.realm, s.value.nonce) == (sessions[host].realm, sessions[host].nonce))
            case Answer(host, params) =>
              s.Some? == Usable(params) &&
              (s.Some? ==> (s.value.realm, s.value.nonce) == (params.value["realm"], params.value["nonce"]))
  {
  }

  /** Over every run across any hosts, no (host, realm, nonce, count) is issued twice
      exactly when no host is ever challenged again with a nonce it had given up. */
  lemma NeverReusedIffNoReturns(es: seq<Event>)
    ensures NoRepeats(Log(es)) <==> forall host :: NoneReturns(Offers(es, host))
  {
    hide NoRepeats, NoneReturns, HostLog, Nonces;
    var log := Log(es);
    if NoRepeats(log) {
      forall host ensures NoneReturns(Offers(es, host)) {
        NoRepeatsAnyHost(log, host);
        RunRepeatsIffReturns(es, host);
      }
    } else {
      var host := RepeatHasHost(log);
      RunRepeatsIffReturns(es, host);
    }
  }

  /** A server that goes back to an earlier nonce gets a use of it that it has seen before. */
  lemma ReturnReuses(host: string, realm: string, a: string, b: string)
    requires a != b
    ensures var first, second := Answer(host, Some(map["realm" := realm, "nonce" := a])),
                                 Answer(host, Some(map["realm" := realm, "nonce" := b]));
            var log := Log([first, second, first]);
            |log| == 3 && log[0] == log[2] == Issue(host, realm, a, 1)
  {
    KeysDiffer();
    var pa, pb := map["realm" := realm, "nonce" := a], map["realm" := realm, "nonce" := b];
    Renewed(host, pa, pb);
  }

  lemma KeysDiffer()
    ensures "realm" != "nonce"
  {
  }

  lemma Renewed(host: string, pa: Challenge.Params, pb: Challenge.Params)
    requires Usable(Some(pa)) && Usable(Some(pb)) && pa["nonce"] != pb["nonce"]
    ensures var e, f := Answer(host, Some(pa)), Answer(host, Some(pb));
            var a, b := NewSession(pa), NewSession(pb);
            Log([e, f, e]) == [IssueOf(host, Use(a)), IssueOf(host, Use(b)), IssueOf(host, Use(a))]
  {
    var e, f := Answer(host, Some(pa)), Answer(host, Some(pb));
    var a, b := Use(NewSession(pa)), Use(NewSession(pb));
    var start: Sessions := map[];
    assert Stored(start, e) == Some(a) && Stored(start[host := a], f) == Some(b);
    assert Stored(start[host := a][host := b], e) == Some(a);
    hide Stored, RunSessions, Log, Use, NewSession;
    NothingRun();
    OneIssue([], e, a);
    OneIssue([] + [e], f, b);
    OneIssue([] + [e] + [f], e, a);
    assert [] + [e] + [f] + [e] == [e, f, e];
  }

  lemma NothingRun()
    ensures RunSessions([]) == map[] && Log([]) == []
  {
  }

  lemma OneIssue(es: seq<Event>, e: Event, s: Session)
    requires Stored(RunSessions(es), e) == Some(s)
    ensures RunSessions(es + [e]) == RunSessions(es)[e.host := s]
    ensures Log(es + [e]) == Log(es) + [IssueOf(e.host, s)]
  {
    hide Stored;
    RunAppend(es, e);
  }

  lemma RunRepeatsIffReturns(es: seq<Event>, host: string)
    ensures NoRepeats(HostLog(Log(es), host)) <==> NoneReturns(Offers(es, host))
  {
    hide NoRepeats, NoneReturns, NoReturns, HostLog, Nonces, CountsUp, Log;
    RunTracks(es, host);
    HostLogMembers(Log(es), host);
    var l := HostLog(Log(es), host);
    assert forall i | 0 <= i < |l| :: l[i] in l;
    NoRepeatsIffNoReturns(l, host);
    NoReturnsNonces(l);
    IssuesFollowOffers(es, host);
  }
}
