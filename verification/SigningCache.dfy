/** The SigV4 signing key and its process-wide cache: look up under the lock, derive
    outside it, store under the lock again. */
module SigningCache {
  import opened Text

  /** Byte strings, and a keyed hash about which nothing is assumed. */
  type Bytes = string
  type Hmac = (Bytes, Bytes) -> Bytes

  datatype Inputs = Inputs(secret: string, date: string, region: string, service: string)

  /** The uncached HMAC chain over date, region and service. */
  function Derive(hmac: Hmac, t: Inputs): (key: Bytes) {
    hmac(hmac(hmac(hmac("AWS4" + t.secret, t.date), t.region), t.service), "aws4_request")
  }

  function CacheKey(t: Inputs): (k: string) {
    t.secret + "|" + t.date + "|" + t.region + "|" + t.service
  }

  type Cache = map<string, Bytes>

  const CAPACITY := 8

  function Store(cache: Cache, k: string, v: Bytes): (next: Cache) {
    (if |cache| > CAPACITY then map[] else cache)[k := v]
  }

  /** One caller running alone: its key and the cache it leaves behind. */
  function Call(hmac: Hmac, cache: Cache, t: Inputs): (r: (Bytes, Cache)) {
    var k := CacheKey(t);
    if k in cache then (cache[k], cache) else (Derive(hmac, t), Store(cache, k, Derive(hmac, t)))
  }

  // ---------- the cache object ----------

  class KeyCache {
    var cache: Cache

    constructor ()
      ensures cache == map[]
    {
      cache := map[];
    }

    /** The first critical section, the chain, the second. */
    method DeriveSigningKey(hmac: Hmac, t: Inputs) returns (key: Bytes)
      modifies this
      ensures (key, cache) == Call(hmac, old(cache), t)
    {
      var cacheKey := t.secret + "|" + t.date + "|" + t.region + "|" + t.service;
      if cacheKey in cache { return cache[cacheKey]; }
      var kDate := hmac("AWS4" + t.secret, t.date);
      var kRegion := hmac(kDate, t.region);
      var kService := hmac(kRegion, t.service);
      key := hmac(kService, "aws4_request");
      if |cache| > 8 { cache := map[]; }
      cache := cache[cacheKey := key];
    }
  }

  // ---------- threads ----------

  /** A thread between its two critical sections: before or after deriving the key. */
  datatype Thread = Missed(t: Inputs) | Derived(t: Inputs, key: Bytes)

  datatype State = State(cache: Cache, threads: map<nat, Thread>, returned: seq<(Inputs, Bytes)>)

  datatype Action = Lookup(id: nat, t: Inputs) | Compute(id: nat) | Insert(id: nat)

  function Step(hmac: Hmac, s: State, a: Action): (next: State) {
    match a
    case Lookup(id, t) =>
      if id in s.threads then s
      else if CacheKey(t) in s.cache then s.(returned := s.returned + [(t, s.cache[CacheKey(t)])])
      else s.(threads := s.threads[id := Missed(t)])
    case Compute(id) =>
      if id in s.threads && s.threads[id].Missed? then
        s.(threads := s.threads[id := Derived(s.threads[id].t, Derive(hmac, s.threads[id].t))])
      else s
    case Insert(id) =>
      if id in s.threads && s.threads[id].Derived? then
        var Derived(t, key) := s.threads[id];
        State(Store(s.cache, CacheKey(t), key), s.threads - {id}, s.returned + [(t, key)])
      else s
  }

  /** Any interleaving of any number of threads. */
  function Run(hmac: Hmac, actions: seq<Action>): (s: State) {
    if actions == [] then State(map[], map[], [])
    else Step(hmac, Run(hmac, actions[..|actions| - 1]), actions[|actions| - 1])
  }

  /** The three steps of a thread that nobody interrupts are one call of the method. */
  lemma AloneIsCall(hmac: Hmac, s: State, id: nat, t: Inputs)
    requires id !in s.threads
    ensures var (key, cache) := Call(hmac, s.cache, t);
            Step(hmac, Step(hmac, Step(hmac, s, Lookup(id, t)), Compute(id)), Insert(id)) ==
            State(cache, s.threads, s.returned + [(t, key)])
  {
    hide Derive, CacheKey, Store;
    if CacheKey(t) !in s.cache {
      var missed := s.threads[id := Missed(t)];
      var derived := missed[id := Derived(t, Derive(hmac, t))];
      assert derived - {id} == s.threads;
    }
  }

  ghost predicate Uses(actions: seq<Action>, inputs: iset<Inputs>) {
    forall i | 0 <= i < |actions| && actions[i].Lookup? :: actions[i].t in inputs
  }

  ghost predicate LooksUp(actions: seq<Action>, t: Inputs) {
    exists i :: 0 <= i < |actions| && actions[i].Lookup? && actions[i].t == t
  }

  /** Every returned key is the uncached chain for the caller's own inputs. */
  ghost predicate Right(hmac: Hmac, s: State) {
    forall i | 0 <= i < |s.returned| :: s.returned[i].1 == Derive(hmac, s.returned[i].0)
  }

  /** Inputs that share a cache key share their signing key. */
  ghost predicate Separable(hmac: Hmac, inputs: iset<Inputs>) {
    forall t, u | t in inputs && u in inputs && CacheKey(t) == CacheKey(u) :: Derive(hmac, t) == Derive(hmac, u)
  }

  ghost predicate Made(hmac: Hmac, inputs: iset<Inputs>, k: string, v: Bytes) {
    exists t :: t in inputs && CacheKey(t) == k && Derive(hmac, t) == v
  }

  ghost predicate Invariant(hmac: Hmac, inputs: iset<Inputs>, s: State) {
    && |s.cache| <= CAPACITY + 1
    && (forall k | k in s.cache :: Made(hmac, inputs, k, s.cache[k]))
    && (forall id | id in s.threads ::
          s.threads[id].t in inputs && (s.threads[id].Derived? ==> s.threads[id].key == Derive(hmac, s.threads[id].t)))
  }

  lemma StoreSize(cache: Cache, k: string, v: Bytes)
    requires |cache| <= CAPACITY + 1
    ensures |Store(cache, k, v)| <= CAPACITY + 1
  {
    var base := if |cache| > CAPACITY then map[] else cache;
    assert base[k := v].Keys == base.Keys + {k};
    assert |base.Keys| == |base|;
  }

  lemma StepInvariant(hmac: Hmac, inputs: iset<Inputs>, s: State, a: Action)
    requires Invariant(hmac, inputs, s) && (a.Lookup? ==> a.t in inputs)
    ensures Invariant(hmac, inputs, Step(hmac, s, a))
  {
    hide Derive, CacheKey;
    if a.Insert? && a.id in s.threads && s.threads[a.id].Derived? {
      hide Store;
      StoreInvariant(hmac, inputs, s.cache, s.threads[a.id].t);
    }
  }

  lemma StoreInvariant(hmac: Hmac, inputs: iset<Inputs>, cache: Cache, t: Inputs)
    requires |cache| <= CAPACITY + 1 && t in inputs
    requires forall k | k in cache :: Made(hmac, inputs, k, cache[k])
    ensures var next := Store(cache, CacheKey(t), Derive(hmac, t));
            |next| <= CAPACITY + 1 && forall k | k in next :: Made(hmac, inputs, k, next[k])
  {
    hide Derive, CacheKey;
    StoreSize(cache, CacheKey(t), Derive(hmac, t));
    assert Made(hmac, inputs, CacheKey(t), Derive(hmac, t));
  }

  lemma StepRight(hmac: Hmac, inputs: iset<Inputs>, s: State, a: Action)
    requires Invariant(hmac, inputs, s) && (a.Lookup? ==> a.t in inputs)
    requires Separable(hmac, inputs) && Right(hmac, s)
    ensures Right(hmac, Step(hmac, s, a))
  {
    hide Derive, CacheKey, Store;
    if a.Lookup? && CacheKey(a.t) in s.cache {
      assert Made(hmac, inputs, CacheKey(a.t), s.cache[CacheKey(a.t)]);
    }
  }

  lemma {:induction false} RunInvariant(hmac: Hmac, inputs: iset<Inputs>, actions: seq<Action>)
    requires Uses(actions, inputs)
    ensures Invariant(hmac, inputs, Run(hmac, actions))
    ensures Separable(hmac, inputs) ==> Right(hmac, Run(hmac, actions))
  {
    hide Invariant, Separable, Right, Step;
    if actions == [] {
      NothingStored(hmac, inputs);
    } else {
      var front := actions[..|actions| - 1];
      RunInvariant(hmac, inputs, front);
      StepInvariant(hmac, inputs, Run(hmac, front), actions[|actions| - 1]);
      if Separable(hmac, inputs) { StepRight(hmac, inputs, Run(hmac, front), actions[|actions| - 1]); }
    }
  }

  lemma NothingStored(hmac: Hmac, inputs: iset<Inputs>)
    ensures Invariant(hmac, inputs, State(map[], map[], [])) && Right(hmac, State(map[], map[], []))
  {
  }

  /** The cache is right in every interleaving of callers with the given inputs exactly
      when no two of those inputs with different signing keys share a cache key. */
  lemma RightIffSeparable(hmac: Hmac, inputs: iset<Inputs>)
    ensures (forall actions | Uses(actions, inputs) :: Right(hmac, Run(hmac, actions))) <==> Separable(hmac, inputs)
  {
    if Separable(hmac, inputs) {
      forall actions | Uses(actions, inputs) ensures Right(hmac, Run(hmac, actions)) {
        RunInvariant(hmac, inputs, actions);
      }
    } else {
      var t, u :| t in inputs && u in inputs && CacheKey(t) == CacheKey(u) && Derive(hmac, t) != Derive(hmac, u);
      WrongRun(hmac, t, u);
      SerialUses([t, u], inputs);
    }
  }

  lemma RunStep(hmac: Hmac, actions: seq<Action>, a: Action)
    ensures Run(hmac, actions + [a]) == Step(hmac, Run(hmac, actions), a)
  {
    assert (actions + [a])[..|actions|] == actions;
  }

  /** Callers one after another, each uninterrupted. */
  function Serial(ts: seq<Inputs>): (actions: seq<Action>) {
    if ts == [] then [] else Serial(ts[..|ts| - 1]) + [Lookup(0, ts[|ts| - 1]), Compute(0), Insert(0)]
  }

  lemma {:induction false} SerialUses(ts: seq<Inputs>, inputs: iset<Inputs>)
    requires forall i | 0 <= i < |ts| :: ts[i] in inputs
    ensures Uses(Serial(ts), inputs)
  {
    if ts != [] { SerialUses(ts[..|ts| - 1], inputs); }
  }

  /** One more uninterrupted caller is one more call. */
  lemma SerialStep(hmac: Hmac, ts: seq<Inputs>)
    requires ts != [] && Run(hmac, Serial(ts[..|ts| - 1])).threads == map[]
    ensures var s := Run(hmac, Serial(ts[..|ts| - 1]));
            var t := ts[|ts| - 1];
            var (key, cache) := Call(hmac, s.cache, t);
            Run(hmac, Serial(ts)) == State(cache, map[], s.returned + [(t, key)])
  {
    var front, t := Serial(ts[..|ts| - 1]), ts[|ts| - 1];
    assert Serial(ts) == front + [Lookup(0, t), Compute(0), Insert(0)];
    hide Serial, Run, Step, Call;
    RunThree(hmac, front, Lookup(0, t), Compute(0), Insert(0));
    AloneIsCall(hmac, Run(hmac, front), 0, t);
  }

  lemma RunThree(hmac: Hmac, actions: seq<Action>, a: Action, b: Action, c: Action)
    ensures Run(hmac, actions + [a, b, c]) == Step(hmac, Step(hmac, Step(hmac, Run(hmac, actions), a), b), c)
  {
    hide Run, Step;
    RunStep(hmac, actions, a);
    RunStep(hmac, actions + [a], b);
    RunStep(hmac, actions + [a] + [b], c);
    assert actions + [a, b, c] == actions + [a] + [b] + [c];
  }

  /** The second of two colliding callers gets the first one's key. */
  lemma WrongRun(hmac: Hmac, t: Inputs, u: Inputs)
    requires CacheKey(t) == CacheKey(u) && Derive(hmac, t) != Derive(hmac, u)
    ensures !Right(hmac, Run(hmac, Serial([t, u])))
  {
    hide Derive, CacheKey, Run, Serial;
    assert [t][..0] == [] && [t, u][..1] == [t];
    NothingRun(hmac);
    SerialStep(hmac, [t]);
    SerialStep(hmac, [t, u]);
    assert Run(hmac, Serial([t, u])).returned[1] == (u, Derive(hmac, t));
  }

  lemma NothingRun(hmac: Hmac)
    ensures Run(hmac, Serial([])) == State(map[], map[], [])
  {
  }

  // ---------- how full the cache gets ----------

  /** The cache never holds more than nine keys. */
  lemma CacheBounded(hmac: Hmac, actions: seq<Action>)
    ensures |Run(hmac, actions).cache| <= 9
  {
    var used := iset t: Inputs | LooksUp(actions, t);
    RunInvariant(hmac, used, actions);
  }

  ghost predicate DistinctKeys(ts: seq<Inputs>) {
    forall i, j | 0 <= i < j < |ts| :: CacheKey(ts[i]) != CacheKey(ts[j])
  }

  ghost function KeySet(ts: seq<Inputs>): (ks: set<string>) {
    set i | 0 <= i < |ts| :: CacheKey(ts[i])
  }

  lemma KeySetAppend(ts: seq<Inputs>, t: Inputs)
    requires DistinctKeys(ts + [t])
    ensures DistinctKeys(ts) && CacheKey(t) !in KeySet(ts) && KeySet(ts + [t]) == KeySet(ts) + {CacheKey(t)}
  {
    hide CacheKey;
    var more := ts + [t];
    assert more[|ts|] == t && forall i | 0 <= i < |ts| :: more[i] == ts[i];
  }

  /** Up to nine callers in a row with different cache keys fill the cache with all of them. */
  lemma {:induction false} SerialFills(hmac: Hmac, ts: seq<Inputs>)
    requires DistinctKeys(ts) && |ts| <= 9
    ensures var s := Run(hmac, Serial(ts)); s.threads == map[] && s.cache.Keys == KeySet(ts) && |s.cache| == |ts|
  {
    hide Run, Serial, DistinctKeys, Derive, CacheKey, KeySet;
    if ts == [] {
      NothingRun(hmac);
      NoKeys();
    } else {
      var front, t := ts[..|ts| - 1], ts[|ts| - 1];
      assert front + [t] == ts;
      KeySetAppend(front, t);
      SerialFills(hmac, front);
      SerialStep(hmac, ts);
      var cache := Run(hmac, Serial(front)).cache;
      assert cache[CacheKey(t) := Derive(hmac, t)].Keys == cache.Keys + {CacheKey(t)};
      assert |cache.Keys| == |cache|;
    }
  }

  lemma NoKeys()
    ensures KeySet([]) == {}
  {
  }

  /** Nine of the inputs have pairwise different cache keys. */
  ghost predicate NineKeys(inputs: iset<Inputs>) {
    exists ts: seq<Inputs> :: |ts| == 9 && DistinctKeys(ts) && forall i | 0 <= i < 9 :: ts[i] in inputs
  }

  /** Inputs behind the keys of a cache. */
  lemma {:induction false} Behind(hmac: Hmac, inputs: iset<Inputs>, cache: Cache, keys: set<string>, n: nat)
    returns (ts: seq<Inputs>)
    requires keys <= cache.Keys && n <= |keys|
    requires forall k | k in cache :: Made(hmac, inputs, k, cache[k])
    ensures |ts| == n && DistinctKeys(ts)
    ensures forall i | 0 <= i < n :: ts[i] in inputs && CacheKey(ts[i]) in keys
    decreases n
  {
    hide CacheKey, Derive;
    ts := [];
    if n > 0 {
      var k :| k in keys;
      assert Made(hmac, inputs, k, cache[k]);
      var t :| t in inputs && CacheKey(t) == k;
      var rest := Behind(hmac, inputs, cache, keys - {k}, n - 1);
      ts := rest + [t];
    }
  }

  /** The comment in the code promises at most eight keys.  That holds in every run exactly
      when no nine of the callers' inputs have pairwise different cache keys. */
  lemma EightIffNoNine(hmac: Hmac, inputs: iset<Inputs>)
    ensures (forall actions | Uses(actions, inputs) :: |Run(hmac, actions).cache| <= 8) <==> !NineKeys(inputs)
  {
    hide Run, Uses, DistinctKeys;
    if NineKeys(inputs) {
      var ts: seq<Inputs> :| |ts| == 9 && DistinctKeys(ts) && forall i | 0 <= i < 9 :: ts[i] in inputs;
      SerialFills(hmac, ts);
      SerialUses(ts, inputs);
      assert |Run(hmac, Serial(ts)).cache| == 9;
    } else {
      forall actions | Uses(actions, inputs) ensures |Run(hmac, actions).cache| <= 8 {
        RunInvariant(hmac, inputs, actions);
        var cache := Run(hmac, actions).cache;
        if |cache| > 8 {
          assert |cache.Keys| == |cache|;
          var ts := Behind(hmac, inputs, cache, cache.Keys, 9);
        }
      }
    }
  }

  /** Nine secrets of different lengths reach nine keys, whatever the hash. */
  lemma NineReached(hmac: Hmac, date: string, region: string, service: string)
    ensures var ts := seq(9, i requires 0 <= i < 9 => Inputs(seq(i, _ => 'k'), date, region, service));
            |Run(hmac, Serial(ts)).cache| == 9
  {
    var ts := seq(9, i requires 0 <= i < 9 => Inputs(seq(i, _ => 'k'), date, region, service));
    forall i, j | 0 <= i < j < |ts| ensures CacheKey(ts[i]) != CacheKey(ts[j]) {
      assert |CacheKey(ts[i])| == i + 3 + |date| + |region| + |service|;
      assert |CacheKey(ts[j])| == j + 3 + |date| + |region| + |service|;
    }
    SerialFills(hmac, ts);
  }

  // ---------- which inputs are separable ----------

  /** Nothing after the secret contains the separator. */
  predicate Clean(t: Inputs) {
    '|' !in t.date && '|' !in t.region && '|' !in t.service
  }

  /** Clean inputs with the same cache key are the same inputs, whatever the secret is. */
  lemma CleanKeysDistinct(t: Inputs, u: Inputs)
    requires Clean(t) && Clean(u) && CacheKey(t) == CacheKey(u)
    ensures t == u
  {
    LastSeparator('|', t.secret + "|" + t.date + "|" + t.region, t.service,
                  u.secret + "|" + u.date + "|" + u.region, u.service);
    LastSeparator('|', t.secret + "|" + t.date, t.region, u.secret + "|" + u.date, u.region);
    LastSeparator('|', t.secret, t.date, u.secret, u.date);
  }

  /** In every interleaving of callers with clean inputs, every key handed out is the
      uncached chain for its own inputs. */
  lemma CleanRunsRight(hmac: Hmac, actions: seq<Action>)
    requires forall i | 0 <= i < |actions| && actions[i].Lookup? :: Clean(actions[i].t)
    ensures Right(hmac, Run(hmac, actions))
  {
    var clean := iset t: Inputs | Clean(t);
    forall t, u | t in clean && u in clean && CacheKey(t) == CacheKey(u)
      ensures Derive(hmac, t) == Derive(hmac, u)
    {
      CleanKeysDistinct(t, u);
    }
    RunInvariant(hmac, clean, actions);
  }

  // ---------- for every hash ----------

  /** No two different inputs share a cache key. */
  ghost predicate KeysTellApart(inputs: iset<Inputs>) {
    forall t, u | t in inputs && u in inputs && CacheKey(t) == CacheKey(u) :: t == u
  }

  function Ones(n: nat): (s: string)
    ensures |s| == n && '0' !in s
  {
    seq(n, _ => '1')
  }

  /** A keyed hash that forgets nothing. */
  function Pairing(key: Bytes, data: Bytes): (r: Bytes) {
    Ones(|key|) + "0" + (key + data)
  }

  lemma PairingInjective(k: Bytes, d: Bytes, l: Bytes, e: Bytes)
    requires Pairing(k, d) == Pairing(l, e)
    ensures k == l && d == e
  {
    FirstSeparator('0', Ones(|k|), k + d, Ones(|l|), l + e);
    assert k == (k + d)[..|k|] && d == (k + d)[|k|..];
    assert l == (l + e)[..|l|] && e == (l + e)[|l|..];
  }

  /** The key and the data of a pairing. */
  function Unpair(r: Bytes): (p: (Bytes, Bytes)) {
    var n := IndexOf(r, '0');
    if 2 * n + 1 <= |r| then (r[n + 1..2 * n + 1], r[2 * n + 1..]) else ("", r)
  }

  lemma UnpairPairing(key: Bytes, data: Bytes)
    ensures Unpair(Pairing(key, data)) == (key, data)
  {
    IndexAfter(Ones(|key|), '0', key + data);
    var r, n := Pairing(key, data), |key|;
    assert r[n + 1..] == key + data;
    assert r[n + 1..2 * n + 1] == r[n + 1..][..n] && r[2 * n + 1..] == r[n + 1..][n..];
  }

  /** The layers of the signing key, read back through a hash that forgets nothing: the fixed
      suffix over the service, the region, the date and the prefixed secret. */
  lemma ChainReads(t: Inputs)
    ensures var (kService, suffix) := Unpair(Derive(Pairing, t));
            var (kRegion, service) := Unpair(kService);
            var (kDate, region) := Unpair(kRegion);
            var (secret, date) := Unpair(kDate);
            && suffix == "aws4_request" && service == t.service && region == t.region && date == t.date
            && secret == "AWS4" + t.secret
  {
    var a := Pairing("AWS4" + t.secret, t.date);
    var b := Pairing(a, t.region);
    var c := Pairing(b, t.service);
    assert Derive(Pairing, t) == Pairing(c, "aws4_request");
    hide Pairing, Unpair, Derive;
    UnpairPairing("AWS4" + t.secret, t.date);
    UnpairPairing(a, t.region);
    UnpairPairing(b, t.service);
    UnpairPairing(c, "aws4_request");
  }

  lemma PairingDerives(t: Inputs, u: Inputs)
    requires Derive(Pairing, t) == Derive(Pairing, u)
    ensures t == u
  {
    var a, b := Pairing("AWS4" + t.secret, t.date), Pairing("AWS4" + u.secret, u.date);
    var c, d := Pairing(a, t.region), Pairing(b, u.region);
    assert Pairing(Pairing(c, t.service), "aws4_request") == Pairing(Pairing(d, u.service), "aws4_request");
    hide Pairing;
    PairingInjective(Pairing(c, t.service), "aws4_request", Pairing(d, u.service), "aws4_request");
    PairingInjective(c, t.service, d, u.service);
    PairingInjective(a, t.region, b, u.region);
    PairingInjective("AWS4" + t.secret, t.date, "AWS4" + u.secret, u.date);
    assert ("AWS4" + t.secret)[4..] == t.secret && ("AWS4" + u.secret)[4..] == u.secret;
  }

  /** Whatever the hash is, every key handed out in every interleaving is right, exactly when
      no two different inputs of the callers share a cache key. */
  lemma RightForEveryHash(inputs: iset<Inputs>)
    ensures (forall hmac: Hmac, actions | Uses(actions, inputs) :: Right(hmac, Run(hmac, actions))) <==>
            KeysTellApart(inputs)
  {
    hide Right, Run, Uses, CacheKey, Derive;
    if KeysTellApart(inputs) {
      forall hmac: Hmac, actions | Uses(actions, inputs) ensures Right(hmac, Run(hmac, actions)) {
        RunInvariant(hmac, inputs, actions);
      }
    } else {
      var t, u :| t in inputs && u in inputs && CacheKey(t) == CacheKey(u) && t != u;
      if Derive(Pairing, t) == Derive(Pairing, u) { PairingDerives(t, u); }
      WrongRun(Pairing, t, u);
      SerialUses([t, u], inputs);
    }
  }

  /** A separator inside the region makes two scopes collide, and for some hash the second
      caller is then handed the key of the first. */
  lemma SeparatorCollides(secret: string, date: string)
    ensures var t, u := Inputs(secret, date, "eu|s3", "x"), Inputs(secret, date, "eu", "s3|x");
            && CacheKey(t) == CacheKey(u)
            && exists hmac: Hmac :: !Right(hmac, Run(hmac, Serial([t, u])))
  {
    var t, u := Inputs(secret, date, "eu|s3", "x"), Inputs(secret, date, "eu", "s3|x");
    var head := secret + "|" + date + "|";
    assert CacheKey(t) == head + "eu|s3|x" == CacheKey(u);
    hide CacheKey, Right, Run, Serial, Derive;
    assert |t.service| != |u.service|;
    if Derive(Pairing, t) == Derive(Pairing, u) { PairingDerives(t, u); }
    WrongRun(Pairing, t, u);
  }
}
