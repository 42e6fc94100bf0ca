/** The k6 timer table: set, clear, reset and pump, with callbacks that may themselves set
    and clear timers.  Every operation is written to a log, and what the log of any run
    can look like is what is proved. */
module Timers {

  datatype Timer = Timer(at: int, interval: bool, ms: int)

  /** What a callback does, in order.  `clock` is what `Date.now()` gives it. */
  datatype Action =
    | SetTimer(clock: int, ms: int, interval: bool)
    | ClearTimer(id: nat)
    | ResetTimers(clock: int)

  /** `pump` numbers the pump that is running or, between pumps, the last one. */
  datatype Event =
    | Registered(id: nat, clock: int, ms: int, interval: bool, pump: nat)
    | Fired(id: nat, now: int, pump: nat)
    | Cleared(id: nat)
    | Expired(id: nat, now: int)

  type Log = seq<Event>

  datatype State = State(timers: map<nat, Timer>, lastId: nat, pumps: nat, log: Log)

  const INITIAL := State(map[], 0, 0, [])

  // ---------- the operations ----------

  function Register(s: State, clock: int, ms: int, interval: bool): (r: State) {
    var id := s.lastId + 1;
    var t := Timer(clock + ms, interval, ms);
    State(s.timers[id := t], id, s.pumps, s.log + [Registered(id, clock, ms, interval, s.pumps)])
  }

  function Clear(s: State, id: nat): (r: State) {
    s.(timers := s.timers - {id}, log := s.log + [Cleared(id)])
  }

  function ExpireIds(s: State, ids: seq<nat>, now: int): (r: State)
    decreases |ids|
  {
    if ids == [] then s else ExpireIds(ExpireOne(s, ids[0], now), ids[1..], now)
  }

  function ExpireOne(s: State, id: nat, now: int): (r: State) {
    if id in s.timers && !s.timers[id].interval && now >= s.timers[id].at
    then s.(timers := s.timers - {id}, log := s.log + [Expired(id, now)]) else s
  }

  lemma NothingExpires(now: int)
    ensures forall s: State :: ExpireIds(s, [], now) == s
  {
  }

  lemma ExpireNext(s: State, ids: seq<nat>, i: nat, now: int)
    requires i < |ids|
    ensures ExpireIds(s, ids[i..], now) == ExpireIds(ExpireOne(s, ids[i], now), ids[i + 1..], now)
  {
    hide ExpireOne;
    assert ids[i..][0] == ids[i] && ids[i..][1..] == ids[i + 1..];
  }

  lemma OthersStay(s: State, id: nat, now: int, other: nat)
    requires other != id && other in s.timers
    ensures other in ExpireOne(s, id, now).timers
  {
  }

  /** Drop the one-shots that are past due; the caller throws when there were too many timers. */
  function Reset(s: State, now: int): (r: State) {
    ExpireIds(s, IdsUpTo(s.timers, s.lastId), now)
  }

  function Act(s: State, a: Action): (r: State) {
    match a
    case SetTimer(clock, ms, interval) => Register(s, clock, ms, interval)
    case ClearTimer(id) => Clear(s, id)
    case ResetTimers(clock) => Reset(s, clock)
  }

  function ActAll(s: State, actions: seq<Action>): (r: State)
    decreases |actions|
  {
    if actions == [] then s else ActAll(Act(s, actions[0]), actions[1..])
  }

  /** Re-arm or remove the timer, before its callback runs. */
  function Fire(s: State, id: nat, now: int): (r: State)
    requires id in s.timers
  {
    var t := s.timers[id];
    s.(timers := if t.interval then s.timers[id := t.(at := now + t.ms)] else s.timers - {id},
       log := s.log + [Fired(id, now, s.pumps)])
  }

  function PumpOne(s: State, id: nat, now: int, actions: seq<Action>): (r: State) {
    if id !in s.timers || now < s.timers[id].at then s else ActAll(Fire(s, id, now), actions)
  }

  /** `Object.keys` lists integer keys in ascending order. */
  function IdsUpTo(timers: map<nat, Timer>, n: nat): (ids: seq<nat>)
    ensures forall id :: id in ids <==> 1 <= id <= n && id in timers
    ensures forall i, j | 0 <= i < j < |ids| :: ids[i] < ids[j]
  {
    if n == 0 then []
    else
      var front := IdsUpTo(timers, n - 1);
      assert forall i | 0 <= i < |front| :: front[i] in front;
      front + (if n in timers then [n] else [])
  }

  /** `callback(id)` is what the callback of timer `id` does in this pump. */
  function PumpIds(s: State, ids: seq<nat>, now: int, callback: nat -> seq<Action>): (r: State)
    decreases |ids|
  {
    if ids == [] then s else PumpIds(PumpOne(s, ids[0], now, callback(ids[0])), ids[1..], now, callback)
  }

  function Pump(s: State, now: int, callback: nat -> seq<Action>): (r: State) {
    PumpIds(s.(pumps := s.pumps + 1), IdsUpTo(s.timers, s.lastId), now, callback)
  }

  // ---------- the table object ----------

  class TimerTable {
    var timers: map<nat, Timer>
    var lastId: nat
    ghost var pumps: nat
    ghost var log: Log

    ghost function Now(): (s: State)
      reads this
    {
      State(timers, lastId, pumps, log)
    }

    constructor ()
      ensures Now() == INITIAL
    {
      timers := map[];
      lastId := 0;
      pumps := 0;
      log := [];
    }

    method SetTimeout(clock: int, ms: int) returns (id: nat)
      modifies this
      ensures Now() == Register(old(Now()), clock, ms, false) && id == lastId
      ensures log == old(log) + [Registered(id, clock, ms, false, pumps)]
    {
      lastId := lastId + 1;
      id := lastId;
      timers := timers[id := Timer(clock + ms, false, ms)];
      log := log + [Registered(id, clock, ms, false, pumps)];
    }

    method SetInterval(clock: int, ms: int) returns (id: nat)
      modifies this
      ensures Now() == Register(old(Now()), clock, ms, true) && id == lastId
      ensures log == old(log) + [Registered(id, clock, ms, true, pumps)]
    {
      lastId := lastId + 1;
      id := lastId;
      timers := timers[id := Timer(clock + ms, true, ms)];
      log := log + [Registered(id, clock, ms, true, pumps)];
    }

    method ClearTimer(id: nat)
      modifies this
      ensures Now() == Clear(old(Now()), id)
    {
      timers := timers - {id};
      log := log + [Cleared(id)];
    }

    method RunCallback(actions: seq<Action>)
      modifies this
      ensures Now() == ActAll(old(Now()), actions)
    {
      for i := 0 to |actions|
        invariant ActAll(Now(), actions[i..]) == ActAll(old(Now()), actions)
      {
        assert actions[i..][0] == actions[i] && actions[i..][1..] == actions[i + 1..];
        match actions[i]
        case SetTimer(clock, ms, interval) =>
          if interval { var _ := SetInterval(clock, ms); } else { var _ := SetTimeout(clock, ms); }
        case ClearTimer(id) => ClearTimer(id);
        case ResetTimers(clock) => var _ := ResetTimers(clock);
      }
    }

    /** One round of the pump: skip, or re-arm or remove and then call back. */
    method PumpTimer(id: nat, now: int, actions: seq<Action>)
      modifies this
      ensures Now() == PumpOne(old(Now()), id, now, actions)
    {
      hide ActAll;
      if id !in timers || now < timers[id].at { return; }
      var t := timers[id];
      if t.interval {
        timers := timers[id := t.(at := now + t.ms)];
      } else {
        timers := timers - {id};
      }
      log := log + [Fired(id, now, pumps)];
      RunCallback(actions);
    }

    method PumpTimers(now: int, callback: nat -> seq<Action>)
      modifies this
      ensures Now() == Pump(old(Now()), now, callback)
    {
      hide PumpOne, IdsUpTo;
      var ids := IdsUpTo(timers, lastId);
      pumps := pumps + 1;
      assert ids[0..] == ids;
      for i := 0 to |ids|
        invariant PumpIds(Now(), ids[i..], now, callback) == Pump(old(Now()), now, callback)
      {
        assert ids[i..][0] == ids[i] && ids[i..][1..] == ids[i + 1..];
        PumpTimer(ids[i], now, callback(ids[i]));
      }
      assert ids[|ids|..] == [];
    }

    /** One round of the reset: a due one-shot is dropped. */
    method ExpireTimer(id: nat, now: int)
      requires id in timers
      modifies this
      ensures Now() == ExpireOne(old(Now()), id, now)
    {
      if !timers[id].interval && now >= timers[id].at {
        timers := timers - {id};
        log := log + [Expired(id, now)];
      }
    }

    method ResetTimers(now: int) returns (withinLimit: bool)
      modifies this
      ensures Now() == Reset(old(Now()), now)
      ensures withinLimit <==> |IdsUpTo(old(timers), old(lastId))| <= 10_000
    {
      hide IdsUpTo, ExpireOne, ExpireIds;
      var ids := IdsUpTo(timers, lastId);
      var count := 0;
      assert ids[0..] == ids && forall j | 0 <= j < |ids| :: ids[j] in ids;
      NothingExpires(now);
      for i := 0 to |ids|
        invariant ExpireIds(Now(), ids[i..], now) == Reset(old(Now()), now)
        invariant count == i
        invariant forall j | i <= j < |ids| :: ids[j] in timers
      {
        ExpireNext(Now(), ids, i, now);
        count := count + 1;
        forall j | i < j < |ids| ensures ids[j] in ExpireOne(Now(), ids[i], now).timers {
          OthersStay(Now(), ids[i], now, ids[j]);
        }
        ExpireTimer(ids[i], now);
      }
      assert ids[|ids|..] == [];
      withinLimit := count <= 10_000;
    }
  }

  // ---------- what the log says about one timer ----------

  /** A live timer as the log tells it; `stamp` is the pump it was registered or last fired in. */
  datatype Entry = Dead | Live(timer: Timer, stamp: nat)

  function After(e: Entry, ev: Event, id: nat): (r: Entry) {
    if ev.id != id then e
    else match ev
      case Registered(_, clock, ms, interval, pump) => Live(Timer(clock + ms, interval, ms), pump)
      case Fired(_, now, pump) =>
        if e.Live? && e.timer.interval then Live(e.timer.(at := now + e.timer.ms), pump) else Dead
      case Cleared(_) => Dead
      case Expired(_, _) => Dead
  }

  function EntryOf(log: Log, id: nat): (e: Entry) {
    if log == [] then Dead else After(EntryOf(log[..|log| - 1], id), log[|log| - 1], id)
  }

  function Issued(log: Log): (n: nat) {
    if log == [] then 0 else Issued(log[..|log| - 1]) + (if log[|log| - 1].Registered? then 1 else 0)
  }

  /** An event that may follow a log: a registration takes the next id; only a live, due timer
      fires, in a later pump than the one it was registered or last fired in; and only a live,
      due one-shot expires. */
  predicate Allowed(log: Log, ev: Event) {
    match ev
    case Registered(id, _, _, _, _) => id == Issued(log) + 1
    case Fired(id, now, pump) =>
      var e := EntryOf(log, id);
      e.Live? && now >= e.timer.at && e.stamp < pump
    case Expired(id, now) =>
      var e := EntryOf(log, id);
      e.Live? && now >= e.timer.at && !e.timer.interval
    case Cleared(_) => true
  }

  predicate Legal(log: Log) {
    log == [] || (Legal(log[..|log| - 1]) && Allowed(log[..|log| - 1], log[|log| - 1]))
  }

  predicate TimerOf(timers: map<nat, Timer>, id: nat, e: Entry) {
    if id in timers then e.Live? && e.timer == timers[id] else e.Dead?
  }

  /** The table is what its log says. */
  ghost predicate Coherent(s: State) {
    && Legal(s.log)
    && Issued(s.log) == s.lastId
    && (forall id: nat :: TimerOf(s.timers, id, EntryOf(s.log, id)))
    && (forall id | id in s.timers :: 1 <= id <= s.lastId)
    && (forall id: nat :: EntryOf(s.log, id).Live? ==> EntryOf(s.log, id).stamp <= s.pumps)
  }

  lemma LogStep(log: Log, ev: Event)
    ensures forall id: nat :: EntryOf(log + [ev], id) == After(EntryOf(log, id), ev, id)
    ensures Issued(log + [ev]) == Issued(log) + (if ev.Registered? then 1 else 0)
    ensures Legal(log + [ev]) <==> Legal(log) && Allowed(log, ev)
  {
    assert (log + [ev])[..|log|] == log;
  }

  lemma RegisterCoherent(s: State, clock: int, ms: int, interval: bool)
    requires Coherent(s)
    ensures Coherent(Register(s, clock, ms, interval))
  {
    hide EntryOf, Legal, Issued;
    LogStep(s.log, Registered(s.lastId + 1, clock, ms, interval, s.pumps));
  }

  lemma ClearCoherent(s: State, id: nat)
    requires Coherent(s)
    ensures Coherent(Clear(s, id))
  {
    hide EntryOf, Legal, Issued;
    LogStep(s.log, Cleared(id));
  }

  lemma FireCoherent(s: State, id: nat, now: int)
    requires Coherent(s) && id in s.timers && now >= s.timers[id].at && EntryOf(s.log, id).stamp < s.pumps
    ensures Coherent(Fire(s, id, now))
  {
    hide EntryOf, Legal, Issued;
    assert TimerOf(s.timers, id, EntryOf(s.log, id));
    LogStep(s.log, Fired(id, now, s.pumps));
  }

  /** What a callback cannot change: the entries of timers that exist already, except by
      clearing them. */
  ghost predicate Untouched(s: State, t: State, id: nat) {
    EntryOf(t.log, id) == EntryOf(s.log, id) || EntryOf(t.log, id).Dead?
  }

  lemma {:induction false} ExpireCoherent(s: State, ids: seq<nat>, now: int)
    requires Coherent(s)
    ensures var t := ExpireIds(s, ids, now);
            && Coherent(t) && t.pumps == s.pumps && s.lastId == t.lastId
            && forall id: nat :: Untouched(s, t, id)
    decreases |ids|
  {
    hide Legal, Issued, EntryOf;
    if ids != [] {
      var id := ids[0];
      if id in s.timers && !s.timers[id].interval && now >= s.timers[id].at {
        var t := s.(timers := s.timers - {id}, log := s.log + [Expired(id, now)]);
        assert TimerOf(s.timers, id, EntryOf(s.log, id));
        LogStep(s.log, Expired(id, now));
        assert Coherent(t);
        ExpireCoherent(t, ids[1..], now);
        var u := ExpireIds(t, ids[1..], now);
        forall other: nat ensures Untouched(s, u, other) {
          assert Untouched(s, t, other) && Untouched(t, u, other);
        }
      } else {
        ExpireCoherent(s, ids[1..], now);
      }
    }
  }

  lemma {:induction false} ActAllCoherent(s: State, actions: seq<Action>)
    requires Coherent(s)
    ensures var t := ActAll(s, actions);
            && Coherent(t) && t.pumps == s.pumps && s.lastId <= t.lastId
            && forall id: nat | id <= s.lastId :: Untouched(s, t, id)
    decreases |actions|
  {
    if actions != [] {
      var t := Act(s, actions[0]);
      match actions[0] {
        case SetTimer(clock, ms, interval) =>
          RegisterCoherent(s, clock, ms, interval);
          LogStep(s.log, Registered(s.lastId + 1, clock, ms, interval, s.pumps));
        case ClearTimer(id) =>
          ClearCoherent(s, id);
          LogStep(s.log, Cleared(id));
        case ResetTimers(clock) => ExpireCoherent(s, IdsUpTo(s.timers, s.lastId), clock);
      }
      hide Coherent, EntryOf;
      ActAllCoherent(t, actions[1..]);
      var u := ActAll(t, actions[1..]);
      forall id: nat | id <= s.lastId ensures Untouched(s, u, id) {
        assert Untouched(s, t, id) && Untouched(t, u, id);
      }
    }
  }

  /** Timers still to come in a pump have not fired in it and were there when it began. */
  ghost predicate Fresh(s: State, ids: seq<nat>) {
    && (forall i, j | 0 <= i < j < |ids| :: ids[i] < ids[j])
    && (forall i | 0 <= i < |ids| :: ids[i] <= s.lastId)
    && (forall i | 0 <= i < |ids| :: EntryOf(s.log, ids[i]).Live? ==> EntryOf(s.log, ids[i]).stamp < s.pumps)
  }

  lemma PumpOneCoherent(s: State, id: nat, now: int, actions: seq<Action>)
    requires Coherent(s) && id <= s.lastId
    requires EntryOf(s.log, id).Live? ==> EntryOf(s.log, id).stamp < s.pumps
    ensures var t := PumpOne(s, id, now, actions);
            && Coherent(t) && t.pumps == s.pumps && s.lastId <= t.lastId
            && forall other: nat | other <= s.lastId && other != id :: Untouched(s, t, other)
  {
    if id in s.timers && now >= s.timers[id].at {
      assert TimerOf(s.timers, id, EntryOf(s.log, id));
      FireCoherent(s, id, now);
      LogStep(s.log, Fired(id, now, s.pumps));
      hide Coherent, EntryOf;
      var f := Fire(s, id, now);
      ActAllCoherent(f, actions);
      var t := ActAll(f, actions);
      forall other: nat | other <= s.lastId && other != id ensures Untouched(s, t, other) {
        assert Untouched(f, t, other) && EntryOf(f.log, other) == EntryOf(s.log, other);
      }
    }
  }

  lemma {:induction false} PumpIdsCoherent(s: State, ids: seq<nat>, now: int, callback: nat -> seq<Action>)
    requires Coherent(s) && Fresh(s, ids)
    ensures Coherent(PumpIds(s, ids, now, callback))
    ensures PumpIds(s, ids, now, callback).pumps == s.pumps
    decreases |ids|
  {
    if ids != [] {
      hide Coherent;
      PumpOneCoherent(s, ids[0], now, callback(ids[0]));
      var t := PumpOne(s, ids[0], now, callback(ids[0]));
      forall i | 0 <= i < |ids| - 1 ensures Untouched(s, t, ids[1..][i]) {
        assert ids[1..][i] == ids[i + 1] && ids[i + 1] != ids[0];
      }
      assert Fresh(t, ids[1..]);
      PumpIdsCoherent(t, ids[1..], now, callback);
    }
  }

  lemma PumpCoherent(s: State, now: int, callback: nat -> seq<Action>)
    requires Coherent(s)
    ensures Coherent(Pump(s, now, callback))
  {
    hide PumpIds, Legal, Issued;
    var ids := IdsUpTo(s.timers, s.lastId);
    assert forall i | 0 <= i < |ids| :: ids[i] in ids;
    PumpIdsCoherent(s.(pumps := s.pumps + 1), ids, now, callback);
  }

  // ---------- runs ----------

  datatype Operation =
    | Do(action: Action)
    | PumpAt(now: int, callback: nat -> seq<Action>)

  function Apply(s: State, op: Operation): (r: State) {
    match op
    case Do(a) => Act(s, a)
    case PumpAt(now, callback) => Pump(s, now, callback)
  }

  function Run(ops: seq<Operation>): (s: State) {
    if ops == [] then INITIAL else Apply(Run(ops[..|ops| - 1]), ops[|ops| - 1])
  }

  /** In every run the table agrees with its log, and the log is legal. */
  lemma {:induction false} RunCoherent(ops: seq<Operation>)
    ensures Coherent(Run(ops))
  {
    if ops != [] {
      var s := Run(ops[..|ops| - 1]);
      RunCoherent(ops[..|ops| - 1]);
      match ops[|ops| - 1]
      case Do(SetTimer(clock, ms, interval)) => RegisterCoherent(s, clock, ms, interval);
      case Do(ClearTimer(id)) => ClearCoherent(s, id);
      case PumpAt(now, callback) => PumpCoherent(s, now, callback);
      case Do(ResetTimers(clock)) => ExpireCoherent(s, IdsUpTo(s.timers, s.lastId), clock);
    }
  }

  // ---------- what every legal log satisfies ----------

  lemma {:induction false} LegalPrefix(log: Log, n: nat)
    requires Legal(log) && n <= |log|
    ensures Legal(log[..n])
    decreases |log|
  {
    if n == |log| {
      assert log[..n] == log;
    } else {
      LegalPrefix(log[..|log| - 1], n);
      assert log[..|log| - 1][..n] == log[..n];
    }
  }

  lemma LegalAt(log: Log, q: nat)
    requires Legal(log) && q < |log|
    ensures Legal(log[..q]) && Allowed(log[..q], log[q])
  {
    LegalPrefix(log, q);
    LegalPrefix(log, q + 1);
    assert log[..q + 1][..q] == log[..q] && log[..q + 1][q] == log[q];
  }

  /** The event that a live entry comes from: nothing has touched the timer since. */
  ghost predicate Source(log: Log, id: nat, e: Entry, p: nat) {
    && p < |log| && log[p].id == id
    && (forall k | p < k < |log| :: log[k].id != id)
    && match log[p]
       case Registered(_, clock, ms, interval, pump) => e == Live(Timer(clock + ms, interval, ms), pump)
       case Fired(_, now, pump) =>
         var before := EntryOf(log[..p], id);
         before.Live? && before.timer.interval && e == Live(before.timer.(at := now + before.timer.ms), pump)
       case _ => false
  }

  lemma {:induction false} LiveSource(log: Log, id: nat) returns (p: nat)
    requires EntryOf(log, id).Live?
    ensures Source(log, id, EntryOf(log, id), p)
  {
    var front, last := log[..|log| - 1], log[|log| - 1];
    if last.id == id {
      p := |log| - 1;
    } else {
      p := LiveSource(front, id);
      assert front[..p] == log[..p];
    }
  }

  /** A firing comes from a registration, or from an earlier firing, that nothing has touched since. */
  lemma FiringSource(log: Log, q: nat) returns (p: nat, e: Entry)
    requires Legal(log) && q < |log| && log[q].Fired?
    ensures p < q && e == EntryOf(log[..q], log[q].id) && Source(log[..q], log[q].id, e, p)
    ensures e.Live? && log[q].now >= e.timer.at && e.stamp < log[q].pump
    ensures log[..q][p] == log[p] && log[..q][..p] == log[..p]
    ensures forall k | p < k < q :: log[k].id != log[q].id
  {
    LegalAt(log, q);
    p := LiveSource(log[..q], log[q].id);
    e := EntryOf(log[..q], log[q].id);
    forall k | p < k < q ensures log[k].id != log[q].id { assert log[..q][k] == log[k]; }
  }

  lemma {:induction false} IssuedCount(log: Log)
    requires Legal(log)
    ensures forall p | 0 <= p < |log| && log[p].Registered? :: 1 <= log[p].id <= Issued(log)
    ensures forall p, q | 0 <= p < q < |log| && log[p].Registered? && log[q].Registered? :: log[p].id < log[q].id
  {
    if log != [] {
      var front := log[..|log| - 1];
      IssuedCount(front);
      assert forall p | 0 <= p < |front| :: log[p] == front[p];
    }
  }

  /** Ids are handed out in increasing order and never reused. */
  lemma IdsNeverReused(ops: seq<Operation>, p: nat, q: nat)
    requires var log := Run(ops).log; p < q < |log| && log[p].Registered? && log[q].Registered?
    ensures Run(ops).log[p].id < Run(ops).log[q].id
  {
    RunCoherent(ops);
    IssuedCount(Run(ops).log);
  }

  /** Between being put to rest and firing, a timer is registered. */
  lemma {:induction false} WokenByRegistration(log: Log, p: nat, q: nat)
    requires Legal(log) && p < q < |log| && log[q].Fired? && log[p].id == log[q].id
    requires log[p].Cleared? || log[p].Expired?
    ensures exists r :: p < r < q && log[r].Registered? && log[r].id == log[q].id
    decreases q
  {
    var r, e := FiringSource(log, q);
    assert p <= r;
    if log[r].Fired? {
      WokenByRegistration(log, p, r);
    }
  }

  /** A timer that has been registered and then cleared (or dropped by a reset) never fires again. */
  lemma NeverFiresAfterClear(ops: seq<Operation>, a: nat, p: nat, q: nat)
    requires var log := Run(ops).log;
             && a < p < q < |log| && log[a].Registered? && log[a].id == log[p].id == log[q].id
             && (log[p].Cleared? || log[p].Expired?)
    ensures !Run(ops).log[q].Fired?
  {
    RunCoherent(ops);
    var log := Run(ops).log;
    IssuedCount(log);
    if log[q].Fired? {
      WokenByRegistration(log, p, q);
    }
  }

  /** A live entry has the kind and delay of the one registration of its id. */
  lemma {:induction false} EntryKind(log: Log, id: nat) returns (a: nat)
    requires Legal(log) && EntryOf(log, id).Live?
    ensures a < |log| && log[a].Registered? && log[a].id == id
    ensures var e := EntryOf(log, id); e.timer.interval == log[a].interval && e.timer.ms == log[a].ms
    decreases |log|
  {
    var p := LiveSource(log, id);
    if log[p].Registered? {
      a := p;
    } else {
      LegalPrefix(log, p);
      a := EntryKind(log[..p], id);
    }
  }

  /** A one-shot fires at most once, ever. */
  lemma OneShotOnce(ops: seq<Operation>, a: nat, p: nat, q: nat)
    requires var log := Run(ops).log;
             && a < |log| && p < q < |log| && log[a].Registered? && !log[a].interval
             && log[p].Fired? && log[a].id == log[p].id == log[q].id
    ensures !Run(ops).log[q].Fired?
  {
    hide Run, Legal, EntryOf, Issued;
    RunCoherent(ops);
    var log := Run(ops).log;
    if log[q].Fired? { SecondFiring(log, p, q); }
    IssuedCount(log);
  }

  /** Whatever fires twice is an interval, each firing in a later pump and, when nothing
      happened to it in between, at least its delay after the one before. */
  lemma {:induction false} SecondFiring(log: Log, p: nat, q: nat)
    requires Legal(log) && p < q < |log| && log[p].Fired? && log[q].Fired? && log[p].id == log[q].id
    ensures log[p].pump < log[q].pump
    ensures exists a :: 0 <= a < p && log[a].Registered? && log[a].id == log[q].id && log[a].interval
              && ((forall k | p < k < q :: log[k].id != log[q].id) ==> log[q].now >= log[p].now + log[a].ms)
    decreases q
  {
    var r, e := FiringSource(log, q);
    assert p <= r;
    if r == p {
      LegalPrefix(log, p);
      assert log[..q][..p] == log[..p];
      var a := EntryKind(log[..p], log[q].id);
    } else if log[r].Fired? {
      SecondFiring(log, p, r);
    } else {
      NotRegisteredLate(log, p, r);
    }
  }

  /** A timer is registered before it fires, and never after. */
  lemma NotRegisteredLate(log: Log, p: nat, r: nat)
    requires Legal(log) && p < r < |log| && log[p].Fired? && log[p].id == log[r].id
    ensures !log[r].Registered?
  {
    LegalAt(log, p);
    var a := EntryKind(log[..p], log[p].id);
    assert log[..p][a] == log[a];
    IssuedCount(log);
  }

  /** No timer fires before it is due: the first firing is no earlier than the time set at
      registration, and it is in a later pump than the one the timer was registered in. */
  lemma FirstFiringDue(ops: seq<Operation>, a: nat, q: nat)
    requires var log := Run(ops).log;
             && a < |log| && q < |log| && log[a].Registered? && log[q].Fired? && log[a].id == log[q].id
             && forall k | 0 <= k < q && log[k].Fired? :: log[k].id != log[q].id
    ensures var log := Run(ops).log; a < q && log[q].now >= log[a].clock + log[a].ms && log[a].pump < log[q].pump
  {
    RunCoherent(ops);
    var log := Run(ops).log;
    var p, e := FiringSource(log, q);
    IssuedCount(log);
    assert log[p].Registered?;
    assert p == a;
  }

  /** The timer's firings are at times that do not go back. */
  predicate TimesAscend(log: Log, id: nat) {
    forall p, q | 0 <= p < q < |log| && log[p].Fired? && log[q].Fired? && log[p].id == log[q].id == id ::
      log[p].now <= log[q].now
  }

  /** No firing at all is earlier than that, if the delay is not negative or the clock does not go
      back between firings. */
  lemma NoFiringEarly(ops: seq<Operation>, a: nat, q: nat)
    requires var log := Run(ops).log;
             && a < |log| && q < |log| && log[a].Registered? && log[q].Fired? && log[a].id == log[q].id
             && (log[a].ms >= 0 || TimesAscend(log, log[a].id))
    ensures var log := Run(ops).log; a < q && log[q].now >= log[a].clock + log[a].ms
  {
    hide Run, TimesAscend;
    RunCoherent(ops);
    FiringsDue(Run(ops).log, a, q);
  }

  lemma {:induction false} FiringsDue(log: Log, a: nat, q: nat)
    requires Legal(log) && a < |log| && q < |log| && log[a].Registered? && log[q].Fired? && log[a].id == log[q].id
    requires log[a].ms >= 0 || TimesAscend(log, log[a].id)
    ensures a < q && log[q].now >= log[a].clock + log[a].ms
    decreases q
  {
    var p, e := FiringSource(log, q);
    IssuedCount(log);
    if log[p].Fired? {
      FiringsDue(log, a, p);
      LegalPrefix(log, p);
      var b := EntryKind(log[..p], log[q].id);
      assert log[..p][b] == log[b];
      assert b == a;
    } else {
      assert p == a;
    }
  }

  /** Neither can be dropped: an interval of -10 set at 100 fires at 95 and, if the clock has gone
      back, again at 86. */
  lemma NegativeDelayEarly()
    ensures var idle := (_: nat) => [];
            Run([Do(SetTimer(100, -10, true)), PumpAt(95, idle), PumpAt(86, idle)]).log ==
            [Registered(1, 100, -10, true, 0), Fired(1, 95, 1), Fired(1, 86, 2)]
  {
    hide Run, Pump;
    var idle: nat -> seq<Action> := (_: nat) => [];
    RunThree(Do(SetTimer(100, -10, true)), PumpAt(95, idle), PumpAt(86, idle));
    var s := Register(INITIAL, 100, -10, true);
    LonePump(s, 95, idle);
    LonePump(Pump(s, 95, idle), 86, idle);
  }

  lemma RunThree(a: Operation, b: Operation, c: Operation)
    ensures Run([a, b, c]) == Apply(Apply(Apply(INITIAL, a), b), c)
  {
    hide Apply;
    assert [a, b, c][..2] == [a, b] && [a, b][..1] == [a] && [a][..0] == [];
    assert Run([]) == INITIAL;
    assert Run([a]) == Apply(INITIAL, a);
    assert Run([a, b]) == Apply(Run([a]), b);
  }

  /** A pump of one due interval whose callback does nothing. */
  lemma LonePump(s: State, now: int, callback: nat -> seq<Action>)
    requires s.lastId == 1 && s.timers.Keys == {1} && s.timers[1].interval && now >= s.timers[1].at && callback(1) == []
    ensures Pump(s, now, callback) ==
            State(map[1 := s.timers[1].(at := now + s.timers[1].ms)], 1, s.pumps + 1,
                  s.log + [Fired(1, now, s.pumps + 1)])
  {
    assert IdsUpTo(s.timers, 0) == [] && IdsUpTo(s.timers, 1) == [1];
    assert [1][1..] == [];
    var u := s.(pumps := s.pumps + 1);
    var f := PumpOne(u, 1, now, []);
    assert f.timers == map[1 := s.timers[1].(at := now + s.timers[1].ms)];
    assert PumpIds(u, [1], now, callback) == PumpIds(f, [], now, callback) == f;
  }

  /** Over every run, an interval's successive firings are in successive pumps and at least
      its delay apart. */
  lemma IntervalSpacing(ops: seq<Operation>, a: nat, p: nat, q: nat)
    requires var log := Run(ops).log;
             && a < |log| && p < q < |log| && log[a].Registered? && log[p].Fired? && log[q].Fired?
             && log[a].id == log[p].id == log[q].id && (forall k | p < k < q :: log[k].id != log[q].id)
    ensures var log := Run(ops).log;
            log[a].interval && log[p].pump < log[q].pump && log[q].now >= log[p].now + log[a].ms
  {
    hide Run, Legal, EntryOf, Issued;
    RunCoherent(ops);
    var log := Run(ops).log;
    SecondFiring(log, p, q);
    IssuedCount(log);
  }

  /** A timer registered during a pump, or before it, fires only in later pumps. */
  lemma NeverInItsOwnPump(ops: seq<Operation>, a: nat, q: nat)
    requires var log := Run(ops).log;
             a < |log| && q < |log| && log[a].Registered? && log[q].Fired? && log[a].id == log[q].id
    ensures Run(ops).log[a].pump < Run(ops).log[q].pump
  {
    RunCoherent(ops);
    PumpAfterRegistration(Run(ops).log, a, q);
  }

  lemma {:induction false} PumpAfterRegistration(log: Log, a: nat, q: nat)
    requires Legal(log) && a < |log| && q < |log| && log[a].Registered? && log[q].Fired? && log[a].id == log[q].id
    ensures log[a].pump < log[q].pump
    decreases q
  {
    var p, e := FiringSource(log, q);
    if log[p].Fired? {
      PumpAfterRegistration(log, a, p);
    } else {
      IssuedCount(log);
      assert p == a;
    }
  }

  // ---------- what a pump does not miss ----------

  lemma {:induction false} ExpireKeeps(s: State, ids: seq<nat>, now: int, id: nat)
    ensures var t := ExpireIds(s, ids, now);
            s.lastId == t.lastId && (id in t.timers ==> id in s.timers && t.timers[id] == s.timers[id])
    decreases |ids|
  {
    if ids != [] {
      var due := ids[0] in s.timers && !s.timers[ids[0]].interval && now >= s.timers[ids[0]].at;
      var next := if due then s.(timers := s.timers - {ids[0]}, log := s.log + [Expired(ids[0], now)]) else s;
      ExpireKeeps(next, ids[1..], now, id);
    }
  }

  lemma {:induction false} ActAllKeeps(s: State, actions: seq<Action>, id: nat)
    requires id <= s.lastId
    ensures var t := ActAll(s, actions);
            s.lastId <= t.lastId && (id in t.timers ==> id in s.timers && t.timers[id] == s.timers[id])
    decreases |actions|
  {
    hide IdsUpTo;
    if actions != [] {
      if actions[0].ResetTimers? { ExpireKeeps(s, IdsUpTo(s.timers, s.lastId), actions[0].clock, id); }
      ActAllKeeps(Act(s, actions[0]), actions[1..], id);
    }
  }

  /** A due timer in the snapshot is gone or re-armed when the pump is over. */
  lemma {:induction false} PumpIdsServes(s: State, ids: seq<nat>, now: int, callback: nat -> seq<Action>, id: nat)
    requires id <= s.lastId && forall i | 0 <= i < |ids| :: ids[i] <= s.lastId
    ensures var t := PumpIds(s, ids, now, callback);
            id in t.timers ==>
              && id in s.timers
              && (t.timers[id] == s.timers[id] ||
                  (s.timers[id].interval && t.timers[id] == s.timers[id].(at := now + s.timers[id].ms)))
    ensures var t := PumpIds(s, ids, now, callback);
            id in ids && id in t.timers && s.timers[id].at <= now ==>
              s.timers[id].interval && t.timers[id].at == now + s.timers[id].ms
    decreases |ids|
  {
    if ids != [] {
      var t := PumpOne(s, ids[0], now, callback(ids[0]));
      if ids[0] in s.timers && now >= s.timers[ids[0]].at {
        ActAllKeeps(Fire(s, ids[0], now), callback(ids[0]), id);
      }
      assert id in ids ==> id == ids[0] || id in ids[1..];
      PumpIdsServes(t, ids[1..], now, callback, id);
    }
  }

  /** After a pump at `now`, of the timers that were there before it, every due one-shot is
      gone and every due interval that is still there is re-armed from `now`. */
  lemma PumpServesAllDue(ops: seq<Operation>, now: int, callback: nat -> seq<Action>, id: nat)
    requires id in Run(ops).timers && Run(ops).timers[id].at <= now
    ensures var s, t := Run(ops), Pump(Run(ops), now, callback);
            id in t.timers ==> s.timers[id].interval && t.timers[id].at == now + s.timers[id].ms
  {
    hide Run, PumpIds;
    var s := Run(ops);
    RunIds(ops);
    var ids := IdsUpTo(s.timers, s.lastId);
    assert forall i | 0 <= i < |ids| :: ids[i] in ids;
    PumpIdsServes(s.(pumps := s.pumps + 1), ids, now, callback, id);
  }

  lemma RunIds(ops: seq<Operation>)
    ensures forall id | id in Run(ops).timers :: 1 <= id <= Run(ops).lastId
  {
    hide Run;
    RunCoherent(ops);
  }

  // ---------- what is asked for is done ----------

  lemma {:induction false} ExpireLogs(s: State, ids: seq<nat>, now: int)
    ensures s.log <= ExpireIds(s, ids, now).log && ExpireIds(s, ids, now).pumps == s.pumps
    decreases |ids|
  {
    if ids != [] {
      var due := ids[0] in s.timers && !s.timers[ids[0]].interval && now >= s.timers[ids[0]].at;
      var next := if due then s.(timers := s.timers - {ids[0]}, log := s.log + [Expired(ids[0], now)]) else s;
      ExpireLogs(next, ids[1..], now);
    }
  }

  lemma ActLogs(s: State, a: Action)
    ensures s.log <= Act(s, a).log && Act(s, a).pumps == s.pumps
  {
    if a.ResetTimers? { ExpireLogs(s, IdsUpTo(s.timers, s.lastId), a.clock); }
  }

  lemma {:induction false} ActAllLogs(s: State, actions: seq<Action>)
    ensures s.log <= ActAll(s, actions).log && ActAll(s, actions).pumps == s.pumps
    decreases |actions|
  {
    hide Act;
    if actions != [] {
      ActLogs(s, actions[0]);
      ActAllLogs(Act(s, actions[0]), actions[1..]);
    }
  }

  /** From position `from` on, the log shows that the timer was registered as asked, or cleared. */
  ghost predicate Shown(log: Log, from: nat, a: Action) {
    match a
    case SetTimer(clock, ms, interval) =>
      exists j :: from <= j < |log| && log[j].Registered? && RegisteredAs(log[j], clock, ms, interval)
    case ClearTimer(id) => exists j :: from <= j < |log| && log[j] == Cleared(id)
    case ResetTimers(_) => true
  }

  predicate RegisteredAs(e: Event, clock: int, ms: int, interval: bool)
    requires e.Registered?
  {
    e.clock == clock && e.ms == ms && e.interval == interval
  }

  lemma ShownLater(log: Log, longer: Log, from: nat, later: nat, a: Action)
    requires Shown(log, later, a) && log <= longer && from <= later
    ensures Shown(longer, from, a)
  {
    match a
    case SetTimer(clock, ms, interval) =>
      var j :| later <= j < |log| && log[j].Registered? && RegisteredAs(log[j], clock, ms, interval);
      assert longer[j] == log[j];
    case ClearTimer(id) =>
      var j :| later <= j < |log| && log[j] == Cleared(id);
      assert longer[j] == log[j];
    case ResetTimers(_) =>
  }

  lemma ActShown(s: State, a: Action)
    ensures Shown(Act(s, a).log, |s.log|, a)
  {
    var log := Act(s, a).log;
    if a.SetTimer? {
      assert log[|s.log|].Registered? && RegisteredAs(log[|s.log|], a.clock, a.ms, a.interval);
    } else if a.ClearTimer? {
      assert log[|s.log|] == Cleared(a.id);
    }
  }

  lemma {:induction false} ActAllShown(s: State, actions: seq<Action>, i: nat)
    requires i < |actions|
    ensures Shown(ActAll(s, actions).log, |s.log|, actions[i])
    decreases |actions|
  {
    hide Act, Shown;
    var next := Act(s, actions[0]);
    ActLogs(s, actions[0]);
    ActAllLogs(next, actions[1..]);
    if i == 0 {
      ActShown(s, actions[0]);
      ShownLater(next.log, ActAll(s, actions).log, |s.log|, |s.log|, actions[0]);
    } else {
      ActAllShown(next, actions[1..], i - 1);
      ShownLater(ActAll(s, actions).log, ActAll(s, actions).log, |s.log|, |next.log|, actions[i]);
    }
  }

  /** A timer is as it was, or the log shows that it was cleared or expired. */
  ghost predicate KeptOrGone(s: State, t: State, id: nat) {
    || (id in s.timers && id in t.timers && t.timers[id] == s.timers[id])
    || exists k :: |s.log| <= k < |t.log| && t.log[k].id == id && (t.log[k].Cleared? || t.log[k].Expired?)
  }

  lemma KeptOrGoneTwice(s: State, t: State, u: State, id: nat)
    requires s.log <= t.log <= u.log && KeptOrGone(s, t, id) && KeptOrGone(t, u, id)
    ensures KeptOrGone(s, u, id)
  {
    if !(id in s.timers && id in t.timers && t.timers[id] == s.timers[id]) {
      var k :| |s.log| <= k < |t.log| && t.log[k].id == id && (t.log[k].Cleared? || t.log[k].Expired?);
      assert u.log[k] == t.log[k];
    }
  }

  lemma {:induction false} ExpireKeepsOrShows(s: State, ids: seq<nat>, now: int, id: nat)
    requires id in s.timers
    ensures KeptOrGone(s, ExpireIds(s, ids, now), id)
    decreases |ids|
  {
    if ids != [] {
      var due := ids[0] in s.timers && !s.timers[ids[0]].interval && now >= s.timers[ids[0]].at;
      var next := if due then s.(timers := s.timers - {ids[0]}, log := s.log + [Expired(ids[0], now)]) else s;
      ExpireLogs(next, ids[1..], now);
      if due && ids[0] == id {
        assert next.log[|s.log|] == Expired(id, now);
        assert ExpireIds(s, ids, now).log[|s.log|] == next.log[|s.log|];
      } else {
        ExpireKeepsOrShows(next, ids[1..], now, id);
        hide ExpireIds;
        KeptOrGoneTwice(s, next, ExpireIds(next, ids[1..], now), id);
      }
    }
  }

  lemma ActKeepsOrShows(s: State, a: Action, id: nat)
    requires id in s.timers && id <= s.lastId
    ensures KeptOrGone(s, Act(s, a), id)
  {
    match a
    case SetTimer(_, _, _) =>
    case ClearTimer(other) => assert Act(s, a).log[|s.log|] == Cleared(other);
    case ResetTimers(clock) => ExpireKeepsOrShows(s, IdsUpTo(s.timers, s.lastId), clock, id);
  }

  lemma {:induction false} ActAllKeepsOrShows(s: State, actions: seq<Action>, id: nat)
    requires id in s.timers && id <= s.lastId
    ensures KeptOrGone(s, ActAll(s, actions), id)
    decreases |actions|
  {
    hide KeptOrGone;
    if actions == [] {
      KeptAsIs(s, id);
    } else {
      var next := Act(s, actions[0]);
      ActKeepsOrShows(s, actions[0], id);
      ActLogs(s, actions[0]);
      ActIds(s, actions[0]);
      hide Act;
      ActAllLogs(next, actions[1..]);
      if id in next.timers {
        ActAllKeepsOrShows(next, actions[1..], id);
        KeptOrGoneTwice(s, next, ActAll(next, actions[1..]), id);
      } else {
        GoneForGood(s, next, ActAll(next, actions[1..]), id);
      }
    }
  }

  lemma KeptAsIs(s: State, id: nat)
    requires id in s.timers
    ensures KeptOrGone(s, s, id)
  {
  }

  lemma GoneForGood(s: State, t: State, u: State, id: nat)
    requires KeptOrGone(s, t, id) && id !in t.timers && t.log <= u.log
    ensures KeptOrGone(s, u, id)
  {
    var k :| |s.log| <= k < |t.log| && t.log[k].id == id && (t.log[k].Cleared? || t.log[k].Expired?);
    assert u.log[k] == t.log[k];
  }

  lemma ActIds(s: State, a: Action)
    ensures s.lastId <= Act(s, a).lastId
  {
    hide IdsUpTo;
    if a.ResetTimers? { ExpireKeeps(s, IdsUpTo(s.timers, s.lastId), a.clock, 0); }
  }

  /** In the log from position `from` on, the timer fires or is put to rest. */
  ghost predicate Served(log: Log, from: nat, id: nat, now: int) {
    exists k :: from <= k < |log| && log[k].id == id
      && ((log[k].Fired? && log[k].now == now) || log[k].Cleared? || log[k].Expired?)
  }

  lemma ServedLater(log: Log, longer: Log, from: nat, later: nat, id: nat, now: int)
    requires Served(log, later, id, now) && log <= longer && from <= later
    ensures Served(longer, from, id, now)
  {
    var k :| later <= k < |log| && log[k].id == id
      && ((log[k].Fired? && log[k].now == now) || log[k].Cleared? || log[k].Expired?);
    assert longer[k] == log[k];
  }

  lemma PumpOneLogs(s: State, id: nat, now: int, actions: seq<Action>)
    ensures s.log <= PumpOne(s, id, now, actions).log
    ensures PumpOne(s, id, now, actions).pumps == s.pumps
    ensures id in s.timers && now >= s.timers[id].at ==> Served(PumpOne(s, id, now, actions).log, |s.log|, id, now)
  {
    if id in s.timers && now >= s.timers[id].at {
      var f := Fire(s, id, now);
      ActAllLogs(f, actions);
      assert f.log[|s.log|] == Fired(id, now, s.pumps);
      assert PumpOne(s, id, now, actions).log[|s.log|] == f.log[|s.log|];
    }
  }

  lemma {:induction false} PumpIdsLogs(s: State, ids: seq<nat>, now: int, callback: nat -> seq<Action>)
    ensures s.log <= PumpIds(s, ids, now, callback).log
    decreases |ids|
  {
    hide PumpOne;
    if ids != [] {
      PumpOneLogs(s, ids[0], now, callback(ids[0]));
      PumpIdsLogs(PumpOne(s, ids[0], now, callback(ids[0])), ids[1..], now, callback);
    }
  }

  lemma PumpOneKeeps(s: State, id: nat, now: int, actions: seq<Action>, other: nat)
    requires other != id && other in s.timers && other <= s.lastId
    ensures KeptOrGone(s, PumpOne(s, id, now, actions), other) && s.lastId <= PumpOne(s, id, now, actions).lastId
  {
    if id in s.timers && now >= s.timers[id].at {
      var f := Fire(s, id, now);
      ActAllKeepsOrShows(f, actions, other);
      ActAllKeeps(f, actions, other);
      ActAllLogs(f, actions);
      hide ActAll;
      assert KeptOrGone(s, f, other);
      KeptOrGoneTwice(s, f, ActAll(f, actions), other);
    }
  }

  lemma {:induction false} PumpIdsFires(s: State, ids: seq<nat>, now: int, callback: nat -> seq<Action>, id: nat)
    requires id in ids && id in s.timers && id <= s.lastId && now >= s.timers[id].at
    ensures Served(PumpIds(s, ids, now, callback).log, |s.log|, id, now)
    decreases |ids|
  {
    hide PumpOne, Served, KeptOrGone;
    var t := PumpOne(s, ids[0], now, callback(ids[0]));
    PumpOneLogs(s, ids[0], now, callback(ids[0]));
    PumpIdsLogs(t, ids[1..], now, callback);
    var end := PumpIds(s, ids, now, callback).log;
    if ids[0] == id {
      ServedLater(t.log, end, |s.log|, |s.log|, id, now);
    } else {
      PumpOneKeeps(s, ids[0], now, callback(ids[0]), id);
      assert id in ids[1..];
      if id in t.timers && t.timers[id] == s.timers[id] {
        PumpIdsFires(t, ids[1..], now, callback, id);
        ServedLater(end, end, |s.log|, |t.log|, id, now);
      } else {
        GoneIsServed(s, t, id, now);
        ServedLater(t.log, end, |s.log|, |s.log|, id, now);
      }
    }
  }

  lemma GoneIsServed(s: State, t: State, id: nat, now: int)
    requires KeptOrGone(s, t, id) && !(id in s.timers && id in t.timers && t.timers[id] == s.timers[id])
    ensures Served(t.log, |s.log|, id, now)
  {
  }

  /** The last event of a timer decides its entry. */
  lemma {:induction false} EntryFrom(log: Log, p: nat, id: nat)
    requires p < |log| && log[p].id == id && forall k | p < k < |log| :: log[k].id != id
    ensures EntryOf(log, id) == After(EntryOf(log[..p], id), log[p], id)
  {
    if p < |log| - 1 {
      var front := log[..|log| - 1];
      EntryFrom(front, p, id);
      assert front[..p] == log[..p] && front[p] == log[p];
    }
  }

  /** A timer that was registered and then left alone is served by the first pump at or after
      its clock and delay: it fires in it, unless another callback of that pump puts it to rest. */
  lemma DuePumpFires(ops: seq<Operation>, now: int, callback: nat -> seq<Action>, a: nat)
    requires var log := Run(ops).log;
             && a < |log| && log[a].Registered? && (forall k | a < k < |log| :: log[k].id != log[a].id)
             && now >= log[a].clock + log[a].ms
    ensures var s := Run(ops); Served(Pump(s, now, callback).log, |s.log|, s.log[a].id, now)
  {
    hide Run, Served;
    var s := Run(ops);
    RunCoherent(ops);
    EntryFrom(s.log, a, s.log[a].id);
    LivePumpFires(s, now, callback, s.log[a].id);
  }

  /** The same of an interval after a firing, at or after that time and its delay. */
  lemma DueIntervalFires(ops: seq<Operation>, now: int, callback: nat -> seq<Action>, a: nat, p: nat)
    requires var log := Run(ops).log;
             && a < p < |log| && log[a].Registered? && log[a].interval && log[p].Fired? && log[a].id == log[p].id
             && (forall k | p < k < |log| :: log[k].id != log[p].id) && now >= log[p].now + log[a].ms
    ensures var s := Run(ops); Served(Pump(s, now, callback).log, |s.log|, s.log[a].id, now)
  {
    hide Run, Served;
    var s := Run(ops);
    RunCoherent(ops);
    LegalAt(s.log, p);
    var b := EntryKind(s.log[..p], s.log[p].id);
    assert s.log[..p][b] == s.log[b];
    IssuedCount(s.log);
    assert b == a;
    EntryFrom(s.log, p, s.log[p].id);
    LivePumpFires(s, now, callback, s.log[a].id);
  }

  lemma LivePumpFires(s: State, now: int, callback: nat -> seq<Action>, id: nat)
    requires Coherent(s) && EntryOf(s.log, id).Live? && now >= EntryOf(s.log, id).timer.at
    ensures Served(Pump(s, now, callback).log, |s.log|, id, now)
  {
    hide PumpIds, Served, Legal, Issued, EntryOf;
    assert TimerOf(s.timers, id, EntryOf(s.log, id));
    PumpIdsFires(s.(pumps := s.pumps + 1), IdsUpTo(s.timers, s.lastId), now, callback, id);
  }

  /** The callback of a timer that fires is run: what it asks for is in the log after the firing. */
  lemma {:induction false} FiringRunsCallback(s: State, ids: seq<nat>, now: int, callback: nat -> seq<Action>, k: nat,
                                              i: nat)
    requires Coherent(s) && Fresh(s, ids) && |s.log| <= k < |PumpIds(s, ids, now, callback).log|
    requires PumpIds(s, ids, now, callback).log[k].Fired? && i < |callback(PumpIds(s, ids, now, callback).log[k].id)|
    ensures var log := PumpIds(s, ids, now, callback).log; Shown(log, k + 1, callback(log[k].id)[i])
    decreases |ids|
  {
    hide Coherent, Shown;
    assert ids != [];
    var t, log := PumpOne(s, ids[0], now, callback(ids[0])), PumpIds(s, ids, now, callback).log;
    PumpIdsLogs(t, ids[1..], now, callback);
    if k < |t.log| {
      FiringInOne(s, ids[0], now, callback(ids[0]), k);
      var f := Fire(s, ids[0], now);
      ActAllShown(f, callback(ids[0]), i);
      ShownLater(t.log, log, k + 1, |f.log|, callback(ids[0])[i]);
    } else {
      NextFresh(s, ids, now, callback);
      FiringRunsCallback(t, ids[1..], now, callback, k, i);
    }
  }

  lemma NextFresh(s: State, ids: seq<nat>, now: int, callback: nat -> seq<Action>)
    requires ids != [] && Coherent(s) && Fresh(s, ids)
    ensures var t := PumpOne(s, ids[0], now, callback(ids[0])); Coherent(t) && Fresh(t, ids[1..])
  {
    hide Coherent;
    PumpOneCoherent(s, ids[0], now, callback(ids[0]));
    var t := PumpOne(s, ids[0], now, callback(ids[0]));
    forall i | 0 <= i < |ids| - 1 ensures Untouched(s, t, ids[1..][i]) {
      assert ids[1..][i] == ids[i + 1] && ids[i + 1] != ids[0];
    }
  }

  /** Callbacks do not fire timers. */
  lemma {:induction false} ActAllNoFiring(s: State, actions: seq<Action>, k: nat)
    requires |s.log| <= k < |ActAll(s, actions).log|
    ensures !ActAll(s, actions).log[k].Fired?
    decreases |actions|
  {
    assert actions != [];
    var next := Act(s, actions[0]);
    ActAllLogs(next, actions[1..]);
    if k < |next.log| {
      if actions[0].ResetTimers? { ExpireNoFiring(s, IdsUpTo(s.timers, s.lastId), actions[0].clock, k); }
      assert ActAll(s, actions).log[k] == next.log[k];
    } else {
      ActAllNoFiring(next, actions[1..], k);
    }
  }

  lemma {:induction false} ExpireNoFiring(s: State, ids: seq<nat>, now: int, k: nat)
    requires |s.log| <= k < |ExpireIds(s, ids, now).log|
    ensures !ExpireIds(s, ids, now).log[k].Fired?
    decreases |ids|
  {
    assert ids != [];
    var due := ids[0] in s.timers && !s.timers[ids[0]].interval && now >= s.timers[ids[0]].at;
    var next := if due then s.(timers := s.timers - {ids[0]}, log := s.log + [Expired(ids[0], now)]) else s;
    ExpireLogs(next, ids[1..], now);
    if k < |next.log| {
      assert ExpireIds(s, ids, now).log[k] == next.log[k];
    } else {
      ExpireNoFiring(next, ids[1..], now, k);
    }
  }

  lemma FiringInOne(s: State, id: nat, now: int, actions: seq<Action>, k: nat)
    requires |s.log| <= k < |PumpOne(s, id, now, actions).log| && PumpOne(s, id, now, actions).log[k].Fired?
    ensures id in s.timers && now >= s.timers[id].at && k == |s.log|
    ensures PumpOne(s, id, now, actions).log[k] == Fired(id, now, s.pumps)
  {
    var f := Fire(s, id, now);
    ActAllLogs(f, actions);
    assert f.log[|s.log|] == Fired(id, now, s.pumps);
    if k > |s.log| { ActAllNoFiring(f, actions, k); }
  }

  /** In every run: a timer set or cleared by the callback of a timer that fires in a pump is
      registered or cleared in that pump, after the firing and as the callback asked. */
  lemma CallbackRuns(ops: seq<Operation>, now: int, callback: nat -> seq<Action>, k: nat, i: nat)
    requires var log := Pump(Run(ops), now, callback).log;
             |Run(ops).log| <= k < |log| && log[k].Fired? && i < |callback(log[k].id)|
    ensures var log := Pump(Run(ops), now, callback).log; Shown(log, k + 1, callback(log[k].id)[i])
  {
    hide Run, PumpIds, Shown;
    RunCoherent(ops);
    var s := Run(ops);
    var ids := IdsUpTo(s.timers, s.lastId);
    assert forall j | 0 <= j < |ids| :: ids[j] in ids;
    FiringRunsCallback(s.(pumps := s.pumps + 1), ids, now, callback, k, i);
  }

  // ---------- what a reset drops ----------

  /** A reset drops exactly the one-shots that are due. */
  lemma ResetExact(ops: seq<Operation>, now: int, id: nat)
    ensures var s, t := Run(ops), Reset(Run(ops), now);
            && (id in t.timers <==> id in s.timers && (s.timers[id].interval || now < s.timers[id].at))
            && (id in t.timers ==> t.timers[id] == s.timers[id])
  {
    hide Run;
    var s := Run(ops);
    RunIds(ops);
    var ids := IdsUpTo(s.timers, s.lastId);
    assert id in s.timers ==> id in ids;
    ExpireExact(s, ids, now, id);
  }

  lemma {:induction false} ExpireExact(s: State, ids: seq<nat>, now: int, id: nat)
    ensures var t := ExpireIds(s, ids, now);
            && (id in t.timers <==> id in s.timers && !(id in ids && !s.timers[id].interval && now >= s.timers[id].at))
            && (id in t.timers ==> t.timers[id] == s.timers[id])
    decreases |ids|
  {
    if ids != [] {
      var due := ids[0] in s.timers && !s.timers[ids[0]].interval && now >= s.timers[ids[0]].at;
      var next := if due then s.(timers := s.timers - {ids[0]}, log := s.log + [Expired(ids[0], now)]) else s;
      assert id in ids <==> id == ids[0] || id in ids[1..];
      ExpireExact(next, ids[1..], now, id);
    }
  }

  /** What a reset counts are the timers of the table. */
  lemma LimitCounts(ops: seq<Operation>)
    ensures var s := Run(ops); |IdsUpTo(s.timers, s.lastId)| == |s.timers|
  {
    hide Run;
    var s := Run(ops);
    RunIds(ops);
    var ids := IdsUpTo(s.timers, s.lastId);
    DistinctCount(ids);
    assert s.timers.Keys == Members(ids);
  }

  ghost function Members(ids: seq<nat>): (m: set<nat>)
    ensures forall id :: id in m <==> id in ids
  {
    set id | id in ids
  }

  lemma {:induction false} DistinctCount(ids: seq<nat>)
    requires forall i, j | 0 <= i < j < |ids| :: ids[i] < ids[j]
    ensures |Members(ids)| == |ids|
  {
    hide Members;
    if ids == [] {
      assert Members(ids) == {};
    } else {
      var front, last := ids[..|ids| - 1], ids[|ids| - 1];
      DistinctCount(front);
      assert ids == front + [last];
      assert last !in front;
      assert Members(ids) == Members(front) + {last};
    }
  }
}
