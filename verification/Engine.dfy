/** The fencing engine, fence_action and the multi-plug functions of lib/fencing.py. */
module Engine {

  datatype Status = IsOn | IsOff | Unknown

  datatype Action = On | Off | Reboot | Query | Monitor

  /** What the agent's callbacks have been asked, in order.  A setter is recorded when it is
      called, whether or not it returns. */
  datatype Event =
    | Get(plug: string, status: Status)
    | Set(plug: string, action: Action)
    | Try(cycle: bool, plug: string, action: Action, ok: bool)

  /** How a callback ends: with a status or a truth value, with an exception, or by leaving
      the program. */
  datatype Reply = Says(status: Status, ok: bool) | Raises | Exits

  predicate Records(e: Event, reply: Reply) {
    match e
    case Get(_, status) => reply.Says? && reply.status == status
    case Set(_, _) => true
    case Try(_, _, _, ok) => ok == (reply.Says? && reply.ok)
  }

  datatype Flow<+T> = Value(value: T) | Raised | Exited

  datatype Config = Config(
    plugs: seq<string>,
    powerTimeout: nat,
    retryOn: nat,
    noStatus: bool,
    forceOn: bool,
    cycle: bool,        // "--method" is "cycle" and there is a reboot_cycle_fn
    hasSet: bool,
    hasGet: bool,
    hasSync: bool,
    hasPort: bool,
    portAsIp: bool)

  predicate Reached(s: Status, a: Action) {
    (s == IsOn && a == On) || (s == IsOff && a == Off)
  }

  /** get_multi_power_fn: the last status that is not off. */
  function LastNonOff(sts: seq<Status>): Status {
    if sts == [] then IsOff
    else if sts[|sts|-1] != IsOff then sts[|sts|-1]
    else LastNonOff(sts[..|sts|-1])
  }

  /** "off" means that every plug is off; "on" only that one is. */
  lemma {:induction false} LastNonOffMeans(sts: seq<Status>)
    ensures LastNonOff(sts) == IsOff <==> forall i | 0 <= i < |sts| :: sts[i] == IsOff
    ensures LastNonOff(sts) != IsOff ==> LastNonOff(sts) in sts
  {
    if sts != [] {
      LastNonOffMeans(sts[..|sts|-1]);
    }
  }

  function Sweep(plugs: seq<string>, sts: seq<Status>): (r: seq<Event>)
    requires |sts| <= |plugs|
    ensures |r| == |sts|
  {
    seq(|sts|, i requires 0 <= i < |sts| => Get(plugs[i], sts[i]))
  }

  function Sets(plugs: seq<string>, a: Action): (r: seq<Event>)
    ensures |r| == |plugs|
  {
    seq(|plugs|, i requires 0 <= i < |plugs| => Set(plugs[i], a))
  }

  lemma OneReading(plugs: seq<string>, sts: seq<Status>)
    requires |sts| == |plugs|
    ensures forall sts': seq<Status> | |sts'| == |plugs| && Sweep(plugs, sts') == Sweep(plugs, sts) :: sts' == sts
  {
    forall sts': seq<Status> | |sts'| == |plugs| && Sweep(plugs, sts') == Sweep(plugs, sts) ensures sts' == sts {
      forall i | 0 <= i < |sts| ensures sts'[i] == sts[i] {
        assert Sweep(plugs, sts')[i] == Sweep(plugs, sts)[i];
      }
    }
  }

  /** From index i on, t is one sweep over all plugs with this overall status. */
  ghost predicate SweepAt(t: seq<Event>, i: nat, plugs: seq<string>, s: Status) {
    && i + |plugs| <= |t|
    && exists sts: seq<Status> :: |sts| == |plugs| && t[i..i+|plugs|] == Sweep(plugs, sts) && LastNonOff(sts) == s
  }

  ghost predicate EndsWithSweep(t: seq<Event>, plugs: seq<string>, s: Status) {
    |t| >= |plugs| && SweepAt(t, |t| - |plugs|, plugs, s)
  }

  /** The last sweep has another status. */
  ghost predicate EndsOtherwise(t: seq<Event>, plugs: seq<string>, s: Status) {
    exists s' | s' != s :: EndsWithSweep(t, plugs, s')
  }

  function Target(a: Action): Status {
    if a == On then IsOn else IsOff
  }

  predicate TurnsOn(e: Event) {
    (e.Set? && e.action == On) || (e.Try? && (e.cycle || e.action == On))
  }

  ghost predicate SomeSet(t: seq<Event>) {
    exists i :: 0 <= i < |t| && t[i].Set?
  }

  ghost predicate NothingOn(t: seq<Event>) {
    forall i | 0 <= i < |t| :: !TurnsOn(t[i])
  }

  /** There is a sweep in which every plug reported off, and nothing was turned on before it
      was over. */
  ghost predicate Fenced(t: seq<Event>, plugs: seq<string>) {
    exists i: nat :: SweepAt(t, i, plugs, IsOff) && forall j | 0 <= j < i :: !TurnsOn(t[j])
  }

  lemma FencedStays(t: seq<Event>, t': seq<Event>, plugs: seq<string>)
    requires Fenced(t, plugs) && t <= t'
    ensures Fenced(t', plugs)
  {
    var i: nat :| SweepAt(t, i, plugs, IsOff) && forall j | 0 <= j < i :: !TurnsOn(t[j]);
    assert t'[i..i+|plugs|] == t[i..i+|plugs|];
    assert SweepAt(t', i, plugs, IsOff);
  }

  /** Every plug, one after the other, has reported off. */
  ghost predicate AllOffAt(t: seq<Event>, i: nat, plugs: seq<string>) {
    i + |plugs| <= |t| && forall p | 0 <= p < |plugs| :: t[i+p] == Get(plugs[p], IsOff)
  }

  /** What Fenced says of the plugs. */
  lemma FencedMeans(t: seq<Event>, plugs: seq<string>)
    requires Fenced(t, plugs)
    ensures exists i: nat :: AllOffAt(t, i, plugs) && forall j | 0 <= j < i + |plugs| :: !TurnsOn(t[j])
  {
    var i: nat :| SweepAt(t, i, plugs, IsOff) && forall j | 0 <= j < i :: !TurnsOn(t[j]);
    var n := |plugs|;
    var sts: seq<Status> :| |sts| == n && t[i..i+n] == Sweep(plugs, sts) && LastNonOff(sts) == IsOff;
    LastNonOffMeans(sts);
    forall p | 0 <= p < n ensures t[i+p] == Get(plugs[p], IsOff) {
      assert t[i+p] == t[i..i+n][p];
    }
    forall j | 0 <= j < i + n ensures !TurnsOn(t[j]) {
      if j >= i { assert t[j] == t[i..i+n][j-i]; }
    }
    assert AllOffAt(t, i, plugs);
  }

  // ---------------------------------------------------------- what an asynchronous run is

  /** One status per plug, in each of the sweeps. */
  ghost predicate Full(plugs: seq<string>, sweeps: seq<seq<Status>>) {
    forall k | 0 <= k < |sweeps| :: |sweeps[k]| == |plugs|
  }

  function SweepsEvents(plugs: seq<string>, sweeps: seq<seq<Status>>): seq<Event>
    requires Full(plugs, sweeps)
  {
    if sweeps == [] then []
    else SweepsEvents(plugs, sweeps[..|sweeps|-1]) + Sweep(plugs, sweeps[|sweeps|-1])
  }

  /** Set every plug, then sweep until the action is reached or the time is over. */
  function RoundsEvents(plugs: seq<string>, a: Action, rounds: seq<seq<seq<Status>>>): seq<Event>
    requires forall r | 0 <= r < |rounds| :: Full(plugs, rounds[r])
  {
    if rounds == [] then []
    else RoundsEvents(plugs, a, rounds[..|rounds|-1]) + Sets(plugs, a) + SweepsEvents(plugs, rounds[|rounds|-1])
  }

  lemma RoundsNext(plugs: seq<string>, a: Action, t: seq<Event>, rounds: seq<seq<seq<Status>>>, sweeps: seq<seq<Status>>)
    requires Full(plugs, sweeps) && forall r | 0 <= r < |rounds| :: Full(plugs, rounds[r])
    ensures t + RoundsEvents(plugs, a, rounds) + Sets(plugs, a) + SweepsEvents(plugs, sweeps)
         == t + RoundsEvents(plugs, a, rounds + [sweeps])
  {
    var all := rounds + [sweeps];
    assert all[..|rounds|] == rounds && all[|rounds|] == sweeps;
    Assoc(t, RoundsEvents(plugs, a, rounds), Sets(plugs, a), SweepsEvents(plugs, sweeps));
  }

  lemma OneRoundMore(cfg: Config, a: Action, rounds: seq<seq<seq<Status>>>, sweeps: seq<seq<Status>>, ok: bool)
    requires forall k | 0 <= k < |rounds| :: TimedOut(cfg, a, rounds[k])
    requires if ok then Succeeded(cfg, a, sweeps) else TimedOut(cfg, a, sweeps)
    ensures var all := rounds + [sweeps];
            && (forall k | 0 <= k < |all| :: Full(cfg.plugs, all[k]))
            && if ok then AsyncRun(cfg, a, |all|, all, true) else forall k | 0 <= k < |all| :: TimedOut(cfg, a, all[k])
  {
  }

  lemma Assoc(a: seq<Event>, b: seq<Event>, c: seq<Event>, d: seq<Event>)
    ensures a + b + c + d == a + (b + c + d)
  {
  }

  ghost predicate Missed(sweeps: seq<seq<Status>>, a: Action) {
    forall k | 0 <= k < |sweeps| :: !Reached(LastNonOff(sweeps[k]), a)
  }

  /** A round that ran out of time. */
  ghost predicate TimedOut(cfg: Config, a: Action, sweeps: seq<seq<Status>>) {
    cfg.powerTimeout > 0 && |sweeps| == cfg.powerTimeout && Full(cfg.plugs, sweeps) && Missed(sweeps, a)
  }

  /** A round whose last sweep, and no earlier one, reached the action. */
  ghost predicate Succeeded(cfg: Config, a: Action, sweeps: seq<seq<Status>>) {
    && sweeps != [] && Full(cfg.plugs, sweeps)
    && (cfg.powerTimeout > 0 ==> |sweeps| <= cfg.powerTimeout)
    && Missed(sweeps[..|sweeps|-1], a)
    && Reached(LastNonOff(sweeps[|sweeps|-1]), a)
  }

  /** The rounds of async_set_multi_power_fn when it returns ok. */
  ghost predicate AsyncRun(cfg: Config, a: Action, attempts: nat, rounds: seq<seq<seq<Status>>>, ok: bool) {
    && |rounds| <= attempts
    && (forall r | 0 <= r < |rounds| :: TimedOut(cfg, a, rounds[r]) || (ok && r == |rounds| - 1))
    && (ok ==> rounds != [] && Succeeded(cfg, a, rounds[|rounds|-1]))
    && (!ok ==> |rounds| == attempts)
  }

  /** From t on there have been so many attempts, each of which has run out of time. */
  ghost predicate TriedInVain(cfg: Config, t: seq<Event>, t': seq<Event>, a: Action, attempts: nat) {
    exists rounds: seq<seq<seq<Status>>> :: |rounds| == attempts && AllTimedOut(cfg, t, t', a, rounds)
  }

  ghost predicate AllTimedOut(cfg: Config, t: seq<Event>, t': seq<Event>, a: Action, rounds: seq<seq<seq<Status>>>) {
    && (forall k | 0 <= k < |rounds| :: TimedOut(cfg, a, rounds[k]))
    && t' == t + RoundsEvents(cfg.plugs, a, rounds)
  }

  // ----------------------------------------------------------- what a synchronous run is

  /** One plug is tried until it works, attempts times at most. */
  ghost predicate Tried(oks: seq<bool>, attempts: nat) {
    && |oks| <= attempts
    && (forall i | 0 <= i < |oks| - 1 :: !oks[i])
    && (|oks| < attempts ==> Worked(oks))
  }

  predicate Worked(oks: seq<bool>) {
    oks != [] && oks[|oks|-1]
  }

  function TryEvents(cycle: bool, plug: string, a: Action, oks: seq<bool>): (r: seq<Event>)
    ensures |r| == |oks|
  {
    seq(|oks|, i requires 0 <= i < |oks| => Try(cycle, plug, a, oks[i]))
  }

  function SyncEvents(cycle: bool, plugs: seq<string>, a: Action, all: seq<seq<bool>>): seq<Event>
    requires |all| <= |plugs|
  {
    if all == [] then []
    else SyncEvents(cycle, plugs, a, all[..|all|-1]) + TryEvents(cycle, plugs[|all|-1], a, all[|all|-1])
  }

  /** Each of the first n plugs has had a successful call. */
  ghost predicate EachWorked(t: seq<Event>, plugs: seq<string>, n: nat, cycle: bool, a: Action)
    requires n <= |plugs|
  {
    forall p | 0 <= p < n :: HasWorked(t, plugs[p], cycle, a)
  }

  ghost predicate HasWorked(t: seq<Event>, plug: string, cycle: bool, a: Action) {
    exists j :: 0 <= j < |t| && t[j] == Try(cycle, plug, a, true)
  }

  /** So many calls for the plug, one after the other, have failed. */
  ghost predicate FailedAt(t: seq<Event>, i: nat, plug: string, cycle: bool, a: Action, attempts: nat) {
    i + attempts <= |t| && forall j | i <= j < i + attempts :: t[j] == Try(cycle, plug, a, false)
  }

  ghost predicate HasFailed(t: seq<Event>, plug: string, cycle: bool, a: Action, attempts: nat) {
    exists i: nat :: FailedAt(t, i, plug, cycle, a, attempts)
  }

  /** One of the first n plugs has failed. */
  ghost predicate SomeFailed(t: seq<Event>, plugs: seq<string>, n: nat, cycle: bool, a: Action, attempts: nat)
    requires n <= |plugs|
  {
    exists p | 0 <= p < n :: HasFailed(t, plugs[p], cycle, a, attempts)
  }

  lemma FailedStays(t: seq<Event>, t': seq<Event>, plugs: seq<string>, n: nat, cycle: bool, a: Action, attempts: nat)
    requires n <= |plugs| && t <= t' && SomeFailed(t, plugs, n, cycle, a, attempts)
    ensures SomeFailed(t', plugs, n, cycle, a, attempts)
  {
    var p :| 0 <= p < n && HasFailed(t, plugs[p], cycle, a, attempts);
    var i: nat :| FailedAt(t, i, plugs[p], cycle, a, attempts);
    assert FailedAt(t', i, plugs[p], cycle, a, attempts);
  }

  lemma NextWorked(t: seq<Event>, plugs: seq<string>, p: nat, cycle: bool, a: Action, oks: seq<bool>)
    requires p < |plugs| && EachWorked(t, plugs, p, cycle, a) && Worked(oks)
    ensures EachWorked(t + TryEvents(cycle, plugs[p], a, oks), plugs, p + 1, cycle, a)
  {
    var t' := t + TryEvents(cycle, plugs[p], a, oks);
    assert t'[|t| + |oks| - 1] == Try(cycle, plugs[p], a, true);
    forall q | 0 <= q < p ensures HasWorked(t', plugs[q], cycle, a) {
      var j :| 0 <= j < |t| && t[j] == Try(cycle, plugs[q], a, true);
      assert t'[j] == t[j];
    }
  }

  lemma {:induction false} AllWorked(t: seq<Event>, plugs: seq<string>, cycle: bool, a: Action, all: seq<seq<bool>>)
    requires |all| <= |plugs| && forall i | 0 <= i < |all| :: Worked(all[i])
    ensures EachWorked(t + SyncEvents(cycle, plugs, a, all), plugs, |all|, cycle, a)
  {
    if all != [] {
      var init, last := all[..|all|-1], all[|all|-1];
      AllWorked(t, plugs, cycle, a, init);
      NextWorked(t + SyncEvents(cycle, plugs, a, init), plugs, |init|, cycle, a, last);
      assert t + SyncEvents(cycle, plugs, a, all)
          == t + SyncEvents(cycle, plugs, a, init) + TryEvents(cycle, plugs[|init|], a, last);
    }
  }

  lemma WorkedStays(t: seq<Event>, t': seq<Event>, plugs: seq<string>, a: Action)
    requires t <= t' && EachWorked(t, plugs, |plugs|, false, a)
    ensures EachWorked(t', plugs, |plugs|, false, a)
  {
    forall q | 0 <= q < |plugs| ensures HasWorked(t', plugs[q], false, a) {
      var j :| 0 <= j < |t| && t[j] == Try(false, plugs[q], a, true);
      assert t'[j] == t[j];
    }
  }

  // ------------------------------------------------------------------------ the engine

  class Engine {
    const cfg: Config
    const script: seq<Reply>
    var pos: nat
    var action: Action
    /** The callbacks asked so far. */
    var trace: seq<Event>

    constructor (cfg: Config, script: seq<Reply>, action: Action)
      ensures this.cfg == cfg && this.script == script && this.action == action && trace == [] && Ready()
    {
      this.cfg, this.script, this.action, pos, trace := cfg, script, action, 0, [];
    }

    /** The trace holds what the script has replied, call by call; a reading that fails leaves
        no record.  Nothing is asked after a callback that has not returned. */
    ghost predicate Valid()
      reads this
    {
      && pos <= |script| && (pos > 0 ==> AllSay(pos - 1))
      && (pos <= |trace| || (pos == |trace| + 1 && !script[pos-1].Says?))
      && forall i {:trigger script[i]} | 0 <= i < |trace| && i < pos :: Records(trace[i], script[i])
    }

    /** Every call so far has returned. */
    ghost predicate Ready()
      reads this
    {
      Valid() && pos == |trace| && AllSay(pos)
    }

    /** The first n replies are of callbacks that have returned. */
    ghost predicate AllSay(n: nat) {
      n <= |script| && forall i {:trigger SaysAt(i)} | 0 <= i < n :: SaysAt(i)
    }

    predicate SaysAt(i: nat)
      requires i < |script|
    {
      script[i].Says?
    }

    /** The program has been killed, or all replies are used up. */
    ghost predicate Killed()
      reads this
    {
      pos == |script| && |trace| >= pos
    }

    /** The program has been left by the last callback, or has been killed. */
    ghost predicate Ended()
      reads this
    {
      Killed() || (0 < pos <= |script| && script[pos-1].Exits?)
    }

    /** The last callback has raised an exception. */
    ghost predicate Threw()
      reads this
    {
      0 < pos <= |script| && script[pos-1].Raises?
    }

    /** An end without a value is due to the last callback. */
    ghost predicate Caused<T>(r: Flow<T>)
      reads this
    {
      Valid() && (r.Value? ==> Ready()) && (r.Exited? ==> Ended()) && (r.Raised? ==> Threw())
    }

    /** The trace has grown by status readings and setter calls for the action only. */
    ghost predicate Grown(t: seq<Event>)
      reads this
    {
      Valid() && t <= trace && forall i | |t| <= i < |trace| :: trace[i].Get? || (trace[i].Set? && trace[i].action == action)
    }

    /** The first plug has been set for the action. */
    ghost predicate Begun(t: seq<Event>)
      requires cfg.plugs != []
      reads this
    {
      |t| < |trace| && trace[|t|] == Set(cfg.plugs[0], action)
    }

    /** The most readings of one attempt, when there is a power timeout. */
    ghost function Polls(): nat {
      Times(cfg.powerTimeout, |cfg.plugs|)
    }

    /** Not more than the setter calls and readings of so many attempts have been added. */
    ghost predicate Within(t: seq<Event>, attempts: nat)
      reads this
    {
      && CountSets(trace) <= CountSets(t) + Times(attempts, |cfg.plugs|)
      && (cfg.powerTimeout > 0 ==> CountGets(trace) <= CountGets(t) + Times(attempts, Polls()))
    }

    lemma WithinGrows(t: seq<Event>, a: nat, b: nat)
      requires Within(t, a) && a <= b
      ensures Within(t, b)
    {
      TimesGrow(a, b, |cfg.plugs|);
      TimesGrow(a, b, Polls());
    }

    /** The next reply; the end of the script is the end of the program. */
    method Ask() returns (r: Reply)
      requires pos <= |trace| && pos <= |script|
      modifies `pos
      ensures r == if old(pos) < |script| then script[old(pos)] else Exits
      ensures pos == if old(pos) < |script| then old(pos) + 1 else old(pos)
      ensures (r.Exits? ==> Ended()) && (r.Raises? ==> Threw())
    {
      if pos == |script| { return Exits; }
      r := script[pos];
      pos := pos + 1;
    }

    method GetPower(plug: string) returns (r: Flow<Status>)
      requires Ready()
      modifies `pos, `trace
      ensures Caused(r) && old(pos) <= pos <= old(pos) + 1 && (r.Value? ==> old(pos) < pos)
      ensures trace == old(trace) + if r.Value? then [Get(plug, r.value)] else []
    {
      var reply := Ask();
      if reply.Exits? { return Exited; }
      if reply.Raises? { return Raised; }
      trace := trace + [Get(plug, reply.status)];
      return Value(reply.status);
    }

    method SetPower(plug: string) returns (r: Flow<bool>)
      requires Ready()
      modifies `pos, `trace
      ensures Caused(r) && old(pos) <= pos
      ensures trace == old(trace) + [Set(plug, action)]
    {
      trace := trace + [Set(plug, action)];
      var reply := Ask();
      if reply.Exits? { return Exited; }
      if reply.Raises? { return Raised; }
      return Value(true);
    }

    /** get_multi_power_fn. */
    method GetMulti() returns (r: Flow<Status>, ghost sts: seq<Status>)
      requires Ready()
      modifies `pos, `trace
      ensures Caused(r) && old(pos) <= pos && (r.Value? && cfg.plugs != [] ==> old(pos) < pos)
      ensures |trace| <= pos <= |trace| + 1
      ensures |sts| <= |cfg.plugs| && trace == old(trace) + Sweep(cfg.plugs, sts)
      ensures if r.Value? then |sts| == |cfg.plugs| && r.value == LastNonOff(sts) else |sts| < |cfg.plugs|
    {
      var status := IsOff;
      sts := [];
      for i := 0 to |cfg.plugs|
        invariant Ready() && old(pos) <= pos && (i > 0 ==> old(pos) < pos)
        invariant |sts| == i && trace == old(trace) + Sweep(cfg.plugs, sts)
        invariant status == LastNonOff(sts)
      {
        var s := GetPower(cfg.plugs[i]);
        if s.Exited? { return Exited, sts; }
        if s.Raised? { return Raised, sts; }
        if s.value != IsOff { status := s.value; }
        assert (sts + [s.value])[..i] == sts;
        sts := sts + [s.value];
      }
      return Value(status), sts;
    }

    method SetAll() returns (r: Flow<bool>)
      requires Ready()
      modifies `pos, `trace
      ensures Grown(old(trace)) && Caused(r) && old(pos) <= pos
      ensures forall i | |old(trace)| <= i < |trace| :: trace[i].Set?
      ensures r.Value? ==> trace == old(trace) + Sets(cfg.plugs, action)
      ensures |trace| <= |old(trace)| + |cfg.plugs|
      ensures cfg.plugs != [] ==> Begun(old(trace))
    {
      for i := 0 to |cfg.plugs|
        invariant Ready() && old(pos) <= pos
        invariant trace == old(trace) + Sets(cfg.plugs, action)[..i]
      {
        var s := SetPower(cfg.plugs[i]);
        assert trace == old(trace) + Sets(cfg.plugs, action)[..i+1];
        if s.Exited? { return Exited; }
        if s.Raised? { return Raised; }
      }
      return Value(true);
    }

    /** The polling loop of async_set_multi_power_fn, which has no end when the power timeout
        is 0.  With a power timeout it ends in every run, also when a reading fails. */
    method Poll() returns (r: Flow<bool>, ghost sweeps: seq<seq<Status>>)
      requires Ready() && cfg.plugs != []
      modifies `pos, `trace
      ensures Grown(old(trace)) && Caused(r) && old(pos) <= pos
      ensures forall i | |old(trace)| <= i < |trace| :: trace[i].Get?
      ensures cfg.powerTimeout > 0 ==> |trace| <= |old(trace)| + Polls()
      ensures r.Value? ==> |trace| > |old(trace)|
      ensures r.Value? ==> Full(cfg.plugs, sweeps) && trace == old(trace) + SweepsEvents(cfg.plugs, sweeps)
      ensures r == Value(true) ==> Succeeded(cfg, action, sweeps)
      ensures r == Value(false) ==> TimedOut(cfg, action, sweeps)
    {
      sweeps := [];
      var count: nat := 1;
      while true
        invariant Grown(old(trace)) && Ready() && old(pos) <= pos
        invariant forall i | |old(trace)| <= i < |trace| :: trace[i].Get?
        invariant |trace| == |old(trace)| + Times(count - 1, |cfg.plugs|)
        invariant Full(cfg.plugs, sweeps) && trace == old(trace) + SweepsEvents(cfg.plugs, sweeps)
        invariant Missed(sweeps, action) && count == |sweeps| + 1
        invariant cfg.powerTimeout > 0 ==> count <= cfg.powerTimeout
        decreases |script| - pos
      {
        if cfg.powerTimeout > 0 { TimesGrow(count, cfg.powerTimeout, |cfg.plugs|); }
        var s, sts := GetMulti();
        if s.Exited? { return Exited, sweeps; }
        if s.Raised? { return Raised, sweeps; }
        assert (sweeps + [sts])[..|sweeps|] == sweeps;
        sweeps := sweeps + [sts];
        if Reached(s.value, action) { return Value(true), sweeps; }
        if cfg.powerTimeout > 0 && count >= cfg.powerTimeout { return Value(false), sweeps; }
        count := count + 1;
      }
    }

    /** One attempt of async_set_multi_power_fn. */
    method Round() returns (r: Flow<bool>, ghost sweeps: seq<seq<Status>>)
      requires Ready() && cfg.plugs != []
      modifies `pos, `trace
      ensures Grown(old(trace)) && Begun(old(trace)) && Caused(r)
      ensures CountSets(trace) <= CountSets(old(trace)) + |cfg.plugs|
      ensures cfg.powerTimeout > 0 ==> CountGets(trace) <= CountGets(old(trace)) + Polls()
      ensures r.Value? ==> (
                && Full(cfg.plugs, sweeps)
                && trace == old(trace) + Sets(cfg.plugs, action) + SweepsEvents(cfg.plugs, sweeps)
                && if r.value then Succeeded(cfg, action, sweeps) else TimedOut(cfg, action, sweeps))
      ensures |cfg.plugs| == 1 && Alternating(old(trace)) && Settled(old(trace)) ==>
                Alternating(trace) && (r.Value? ==> Settled(trace))
    {
      sweeps := [];
      ghost var start := trace;
      r := SetAll();
      ghost var t := trace;
      AfterRound(start, t);
      if !r.Value? { return; }
      r, sweeps := Poll();
      AfterRound(start, t);
    }

    /** At most one setter call for each plug, and readings after that. */
    lemma AfterRound(start: seq<Event>, t: seq<Event>)
      requires start <= t <= trace && |t| <= |start| + |cfg.plugs|
      requires forall i | |start| <= i < |t| :: t[i].Set?
      requires forall i | |t| <= i < |trace| :: trace[i].Get?
      ensures CountSets(trace) <= CountSets(start) + |cfg.plugs|
      ensures CountGets(trace) == CountGets(start) + (|trace| - |t|)
      ensures |cfg.plugs| == 1 && Alternating(start) && Settled(start) ==>
                Alternating(trace) && (|trace| > |t| ==> Settled(trace))
    {
      OnlySets(start, t);
      OnlyGets(t, trace);
      if |cfg.plugs| == 1 { SetThenRead(start, t, trace); }
    }

    /** After i attempts that have run out of time. */
    ghost predicate Midway(t: seq<Event>, i: nat, rounds: seq<seq<seq<Status>>>)
      requires cfg.plugs != []
      reads this
    {
      && Ready() && Grown(t) && Within(t, i) && (if i == 0 then trace == t else Begun(t))
      && |rounds| == i && (forall k | 0 <= k < i :: TimedOut(cfg, action, rounds[k]))
      && trace == t + RoundsEvents(cfg.plugs, action, rounds)
      && (|cfg.plugs| == 1 && Alternating(t) && Settled(t) ==> Alternating(trace) && Settled(trace))
    }

    lemma WithinNext(t: seq<Event>, before: seq<Event>, i: nat)
      requires CountSets(before) <= CountSets(t) + Times(i, |cfg.plugs|) && CountSets(trace) <= CountSets(before) + |cfg.plugs|
      requires cfg.powerTimeout > 0 ==>
                 CountGets(before) <= CountGets(t) + Times(i, Polls()) && CountGets(trace) <= CountGets(before) + Polls()
      ensures Within(t, i + 1)
    {
    }

    /** One more attempt. */
    method NextRound(i: nat, ghost t: seq<Event>, ghost rounds: seq<seq<seq<Status>>>)
      returns (r: Flow<bool>, ghost rounds': seq<seq<seq<Status>>>)
      requires Ready() && cfg.plugs != [] && Midway(t, i, rounds)
      modifies `pos, `trace
      ensures Grown(t) && Begun(t) && Within(t, i + 1) && Caused(r)
      ensures |cfg.plugs| == 1 && Alternating(t) && Settled(t) ==> Alternating(trace) && (r.Value? ==> Settled(trace))
      ensures r.Value? && !r.value ==> Midway(t, i + 1, rounds')
      ensures r.Value? && r.value ==> Reaching(t, i + 1, rounds')
    {
      ghost var sweeps;
      ghost var before := trace;
      r, sweeps := Round();
      rounds' := rounds + [sweeps];
      WithinNext(t, before, i);
      if r.Value? { RoundIsOver(t, i, before, rounds, sweeps, r.value); }
    }

    /** The last of so many attempts has reached the action. */
    ghost predicate Reaching(t: seq<Event>, attempts: nat, rounds: seq<seq<seq<Status>>>)
      reads this
    {
      && AsyncRun(cfg, action, attempts, rounds, true)
      && (forall k | 0 <= k < |rounds| :: Full(cfg.plugs, rounds[k]))
      && trace == t + RoundsEvents(cfg.plugs, action, rounds)
    }

    lemma RoundIsOver(t: seq<Event>, i: nat, before: seq<Event>, rounds: seq<seq<seq<Status>>>, sweeps: seq<seq<Status>>, ok: bool)
      requires cfg.plugs != [] && Ready() && Grown(t) && Begun(t) && Within(t, i + 1)
      requires |rounds| == i && forall k | 0 <= k < |rounds| :: TimedOut(cfg, action, rounds[k])
      requires forall k | 0 <= k < |rounds| :: Full(cfg.plugs, rounds[k])
      requires before == t + RoundsEvents(cfg.plugs, action, rounds)
      requires if ok then Succeeded(cfg, action, sweeps) else TimedOut(cfg, action, sweeps)
      requires trace == before + Sets(cfg.plugs, action) + SweepsEvents(cfg.plugs, sweeps)
      requires |cfg.plugs| == 1 && Alternating(t) && Settled(t) ==> Alternating(trace) && Settled(trace)
      ensures if ok then Reaching(t, i + 1, rounds + [sweeps]) else Midway(t, i + 1, rounds + [sweeps])
    {
      RoundsNext(cfg.plugs, action, t, rounds, sweeps);
      OneRoundMore(cfg, action, rounds, sweeps, ok);
    }

    /** async_set_multi_power_fn. */
    method AsyncSet(attempts: nat) returns (r: Flow<bool>, ghost rounds: seq<seq<seq<Status>>>)
      requires Ready() && cfg.plugs != []
      modifies `pos, `trace
      ensures Grown(old(trace)) && Within(old(trace), attempts) && Caused(r)
      ensures if attempts == 0 then trace == old(trace) else Begun(old(trace))
      ensures r.Value? ==> (
                && AsyncRun(cfg, action, attempts, rounds, r.value)
                && (forall k | 0 <= k < |rounds| :: Full(cfg.plugs, rounds[k]))
                && trace == old(trace) + RoundsEvents(cfg.plugs, action, rounds))
      ensures |cfg.plugs| == 1 && Alternating(old(trace)) && Settled(old(trace)) ==>
                Alternating(trace) && (r.Value? ==> Settled(trace))
    {
      rounds := [];
      ghost var t := trace;
      for i := 0 to attempts
        invariant Midway(t, i, rounds)
      {
        ghost var before := rounds;
        r, rounds := NextRound(i, t, before);
        WithinGrows(t, i + 1, attempts);
        if !r.Value? || r.value { return; }
      }
      return Value(false), rounds;
    }

    /** Calls of a synchronous setter for the action, and at most so many. */
    ghost predicate Tries(t: seq<Event>, cycle: bool, most: nat)
      reads this
    {
      && Valid() && t <= trace && |trace| <= |t| + most
      && forall i | |t| <= i < |trace| :: trace[i].Try? && trace[i].cycle == cycle && trace[i].action == action
    }

    /** After the calls for the first p plugs. */
    ghost predicate Underway(t: seq<Event>, cycle: bool, attempts: nat, p: nat, all: seq<seq<bool>>)
      requires p <= |cfg.plugs|
      reads this
    {
      && Ready() && Tries(t, cycle, Times(p, attempts))
      && |all| == p && (forall i | 0 <= i < p :: Tried(all[i], attempts))
      && trace == t + SyncEvents(cycle, cfg.plugs, action, all)
    }

    /** The calls for the next plug. */
    method TryNext(cycle: bool, attempts: nat, p: nat, ghost t: seq<Event>, ghost all: seq<seq<bool>>)
      returns (r: Flow<bool>, ghost oks: seq<bool>)
      requires p < |cfg.plugs| && Underway(t, cycle, attempts, p, all)
      modifies `pos, `trace
      ensures Caused(r) && Tries(t, cycle, Times(p + 1, attempts))
      ensures r.Value? ==> Underway(t, cycle, attempts, p + 1, all + [oks]) && (r.value <==> attempts == 0 || Worked(oks))
      ensures r == Value(false) ==> HasFailed(trace, cfg.plugs[p], cycle, action, attempts)
      ensures old(trace) <= trace
    {
      r, oks := TryPlug(cycle, cfg.plugs[p], attempts);
      assert (all + [oks])[..p] == all;
    }

    /** sync_set_multi_power_fn, and multi_reboot_cycle_fn, which is the same loop. */
    method TryEach(cycle: bool, attempts: nat) returns (r: Flow<bool>, ghost all: seq<seq<bool>>)
      requires Ready()
      modifies `pos, `trace
      ensures Tries(old(trace), cycle, Times(|cfg.plugs|, attempts)) && Caused(r)
      ensures r.Value? ==> (
                && |all| == |cfg.plugs| && (forall i | 0 <= i < |all| :: Tried(all[i], attempts))
                && trace == old(trace) + SyncEvents(cycle, cfg.plugs, action, all)
                && (r.value <==> attempts == 0 || forall i | 0 <= i < |all| :: Worked(all[i])))
      ensures r == Value(true) && attempts > 0 ==> EachWorked(trace, cfg.plugs, |cfg.plugs|, cycle, action)
      ensures r == Value(false) ==> SomeFailed(trace, cfg.plugs, |cfg.plugs|, cycle, action, attempts)
    {
      var success := true;
      all := [];
      for p := 0 to |cfg.plugs|
        invariant Underway(old(trace), cycle, attempts, p, all)
        invariant success <==> attempts == 0 || forall i | 0 <= i < p :: Worked(all[i])
        invariant !success ==> SomeFailed(trace, cfg.plugs, p, cycle, action, attempts)
      {
        TimesGrow(p + 1, |cfg.plugs|, attempts);
        ghost var t := trace;
        var ok, oks := TryNext(cycle, attempts, p, old(trace), all);
        if ok.Exited? { return Exited, all; }
        if ok.Raised? { return Raised, all; }
        if !success { FailedStays(t, trace, cfg.plugs, p, cycle, action, attempts); }
        all := all + [oks];
        success := success && ok.value;
      }
      if success && attempts > 0 { AllWorked(old(trace), cfg.plugs, cycle, action, all); }
      return Value(success), all;
    }

    /** The inner loop: false only if there were attempts and the last one failed as well.
        In every run there are at most so many attempts. */
    method TryPlug(cycle: bool, plug: string, attempts: nat) returns (r: Flow<bool>, ghost oks: seq<bool>)
      requires Ready()
      modifies `pos, `trace
      ensures Caused(r) && trace == old(trace) + TryEvents(cycle, plug, action, oks)
      ensures |oks| <= attempts && Tries(old(trace), cycle, attempts)
      ensures r.Value? ==> Tried(oks, attempts) && (r.value <==> attempts == 0 || Worked(oks))
      ensures r == Value(false) ==> HasFailed(trace, plug, cycle, action, attempts)
    {
      oks := [];
      for retry := 0 to attempts
        invariant Ready() && |oks| == retry && (forall i | 0 <= i < retry :: !oks[i])
        invariant attempts == 0 || retry < attempts
        invariant trace == old(trace) + TryEvents(cycle, plug, action, oks)
      {
        var reply := Ask();
        var ok := reply.Says? && reply.ok;
        trace := trace + [Try(cycle, plug, action, ok)];
        oks := oks + [ok];
        if reply.Exits? { return Exited, oks; }
        if reply.Raises? { return Raised, oks; }
        if ok { return Value(true), oks; }
        if retry == attempts - 1 {
          assert FailedAt(trace, |old(trace)|, plug, cycle, action, attempts);
          return Value(false), oks;
        }
      }
      return Value(true), oks;
    }

    /** set_multi_power_fn. */
    method SetMulti(attempts: nat) returns (r: Flow<bool>)
      requires Ready() && cfg.plugs != []
      modifies `pos, `trace
      ensures Caused(r) && old(trace) <= trace
      ensures cfg.hasSet ==> Grown(old(trace)) && Within(old(trace), attempts)
      ensures cfg.hasSet && cfg.hasGet ==> if attempts == 0 then trace == old(trace) else Begun(old(trace))
      ensures cfg.hasSet && r == Value(true) ==> EndsWithSweep(trace, cfg.plugs, Target(action))
      ensures cfg.hasSet && r == Value(true) ==> cfg.hasGet && action in {On, Off} && |trace| >= |old(trace)| + |cfg.plugs|
      ensures cfg.hasSet && cfg.hasGet && attempts > 0 && action in {On, Off} && r == Value(false) ==>
                EndsOtherwise(trace, cfg.plugs, Target(action))
      ensures cfg.hasSet && cfg.hasGet && r == Value(false) ==> TriedInVain(cfg, old(trace), trace, action, attempts)
      ensures cfg.hasSet && |cfg.plugs| == 1 && Alternating(old(trace)) && Settled(old(trace)) ==>
                Alternating(trace) && (r.Value? ==> Settled(trace))
      ensures !cfg.hasSet ==> Tries(old(trace), false, Times(|cfg.plugs|, attempts))
      ensures !cfg.hasSet && r == Value(true) ==>
                cfg.hasSync && (attempts == 0 || EachWorked(trace, cfg.plugs, |cfg.plugs|, false, action))
      ensures !cfg.hasSet && cfg.hasSync && r == Value(false) ==> SomeFailed(trace, cfg.plugs, |cfg.plugs|, false, action, attempts)
    {
      if cfg.hasSet {
        if cfg.hasGet {
          ghost var t := trace;
          ghost var rounds;
          r, rounds := AsyncSet(attempts);
          if r == Value(true) { LastSweep(cfg, action, t, attempts, rounds); }
          if r == Value(false) && attempts > 0 && action in {On, Off} { LastMiss(cfg, action, t, rounds); }
          return;
        }
      } else if cfg.hasSync {
        ghost var all;
        r, all := TryEach(false, attempts);
        return;
      }
      return Value(false);
    }

    /** The action is done with the asynchronous setter. */
    predicate Asynchronous(a: Action) {
      cfg.hasSet && !(cfg.cycle && a == Reboot)
    }

    /** What the end of an action means. */
    ghost predicate Achieved(a: Action, r: Outcome)
      requires cfg.plugs != []
      reads this
    {
      && (r.Returned? ==> r.code == 0 || (r.code == 2 && a == Query))
      && (r.Returned? ==> action == a)
      && (r == Returned(0) && a == Off && cfg.hasSet ==> Fenced(trace, cfg.plugs) && EndsWithSweep(trace, cfg.plugs, IsOff))
      && (r == Returned(0) && a == On && cfg.hasSet ==> EndsWithSweep(trace, cfg.plugs, IsOn))
      && (r == Returned(0) && a == On && cfg.hasSet && cfg.forceOn ==> SomeSet(trace))
      && (r == Returned(0) && a in {On, Off} && !cfg.hasSet ==>
            EndsWithSweep(trace, cfg.plugs, Target(a)) || EachWorked(trace, cfg.plugs, |cfg.plugs|, false, a))
      && (a == Reboot ==> Rebooted(r))
      && (a == Query ==> (r == Returned(2) <==> EndsWithSweep(trace, cfg.plugs, IsOff)))
      && (a == Query ==> (r == Returned(0) <==> EndsWithSweep(trace, cfg.plugs, IsOn)))
      && (a in {Query, Monitor} ==> IsFirst(trace))
      && (a == Monitor && (EndsWithSweep(trace, cfg.plugs, IsOn) || EndsWithSweep(trace, cfg.plugs, IsOff)) ==> r == Returned(0))
    }

    ghost predicate TurnedOff()
      requires cfg.plugs != []
      reads this
    {
      Fenced(trace, cfg.plugs) || (!cfg.hasSet && EachWorked(trace, cfg.plugs, |cfg.plugs|, false, Off))
    }

    /** The plugs have been turned on again after they had been turned off, or retryOn attempts
        have failed. */
    ghost predicate PoweredOn()
      requires cfg.plugs != []
      reads this
    {
      && (cfg.hasSet && cfg.hasGet ==>
            || EndsWithSweep(trace, cfg.plugs, IsOn)
            || exists t :: Fenced(t, cfg.plugs) && NothingOn(t) && TriedInVain(cfg, t, trace, On, cfg.retryOn))
      && (!cfg.hasSet && cfg.hasSync && cfg.retryOn > 0 ==>
            || EachWorked(trace, cfg.plugs, |cfg.plugs|, false, On)
            || SomeFailed(trace, cfg.plugs, |cfg.plugs|, false, On, cfg.retryOn))
    }

    /** What the end of a reboot means.  After the plugs have been turned off it can only be
        kept from succeeding by the end of the program: no failure or exception of the
        power-on phase matters. */
    ghost predicate Rebooted(r: Outcome)
      requires cfg.plugs != []
      reads this
    {
      && (r == Returned(0) && cfg.cycle ==> EachWorked(trace, cfg.plugs, |cfg.plugs|, true, Reboot))
      && (r == Returned(0) && !cfg.cycle ==> TurnedOff())
      && (r == Returned(0) && !cfg.cycle && cfg.hasSet && cfg.hasGet ==> (cfg.retryOn > 0 <==> !NothingOn(trace)))
      && (r == Returned(0) && !cfg.cycle && !Threw() ==> PoweredOn())
      && (r == Aborted && !cfg.cycle && !Ended() ==>
            NothingOn(trace) && (cfg.hasSet && cfg.hasGet && !Threw() ==> !EndsWithSweep(trace, cfg.plugs, IsOff)))
    }

    /** What holds of all runs for an action, however they end: the number and the pattern of
        the calls. */
    ghost predicate Restrained(a: Action)
      reads this
    {
      && (Asynchronous(a) ==> Restricted(a))
      && (!Asynchronous(a) ==> |trace| <= |cfg.plugs| + Times(|cfg.plugs|, 1 + cfg.retryOn))
      && (cfg.hasSet && |cfg.plugs| == 1 ==> Alternating(trace))
    }

    ghost predicate Restricted(a: Action)
      reads this
    {
      && CountSets(trace) <= Times(1 + cfg.retryOn, |cfg.plugs|)
      && (a == Off ==> CountSets(trace) <= |cfg.plugs|)
      && (cfg.powerTimeout > 0 ==> CountGets(trace) <= |cfg.plugs| + Times(1 + cfg.retryOn, Polls()))
      && forall i | 0 <= i < |trace| :: !trace[i].Try?
    }

    /** When the first sweep shows that there is nothing to do, nothing is done. */
    ghost predicate Already(a: Action, r: Outcome)
      requires cfg.plugs != []
      reads this
    {
      && (a in {On, Off} && !(a == On && cfg.forceOn) && !cfg.noStatus && SweepAt(trace, 0, cfg.plugs, Target(a)) ==>
            r == Returned(0) && |trace| == |cfg.plugs|)
      && (!cfg.noStatus && !OnlyListed(a) ==> Asked() && (!cfg.hasGet ==> r == Aborted && trace == []))
      && (a in {On, Off} && !cfg.noStatus && cfg.hasGet && script != [] ==> pos > 0)
      && (OnlyListed(a) ==> r == Returned(0) && trace == [])
    }

    /** Monitoring that asks for no status: the outlets are listed, or there is nothing to ask. */
    predicate OnlyListed(a: Action) {
      a == Monitor && if cfg.hasPort then !cfg.portAsIp else cfg.noStatus
    }

    /** The status of the first plug is what is asked first. */
    ghost predicate Asked()
      requires cfg.plugs != []
      reads this
    {
      cfg.hasGet && script != [] ==>
        if script[0].Says? then trace != [] && trace[0] == Get(cfg.plugs[0], script[0].status) else trace == []
    }

    /** The readings at the start. */
    ghost predicate Counted()
      reads this
    {
      CountSets(trace) == 0 && CountGets(trace) == |trace| <= |cfg.plugs| && forall i | 0 <= i < |trace| :: trace[i].Get?
    }

    lemma ReadingsOnly(a: Action)
      requires Counted()
      ensures Restrained(a)
    {
    }

    ghost predicate AtStart()
      reads this
    {
      Ready() && Counted()
    }

    /** fence_action, but for listing outlets.  Its exit codes 0 and 2 are returned; all other
        ways to end are Aborted. */
    method FenceAction() returns (r: Outcome)
      requires Ready() && cfg.plugs != [] && trace == []
      modifies `pos, `trace, `action
      ensures Valid() && Achieved(old(action), r) && Restrained(old(action)) && Already(old(action), r)
      ensures Failed(old(action), r) && (r.Returned? && old(action) != Reboot ==> Ready())
    {
      if action == Monitor && cfg.hasPort && !cfg.portAsIp { return Returned(0); }
      if action == Monitor && !cfg.hasPort && cfg.noStatus { return Returned(0); }
      if cfg.noStatus {
        r := Act(Unknown);
      } else {
        r := AskAndAct();
      }
    }

    /** The status is asked first. */
    method AskAndAct() returns (r: Outcome)
      requires Ready() && cfg.plugs != [] && trace == [] && !cfg.noStatus && !OnlyListed(action)
      modifies `pos, `trace, `action
      ensures Valid() && Achieved(old(action), r) && Restrained(old(action)) && Already(old(action), r)
      ensures Failed(old(action), r) && (r.Returned? && old(action) != Reboot ==> Ready())
    {
      var status := FirstStatus();
      ReadingsOnly(action);
      if !status.Value? { return Aborted; }
      if Reached(status.value, action) && !(status == Value(IsOn) && cfg.forceOn) { return Returned(0); }
      ghost var t, a := trace, action;
      r := Act(status.value);
      if a in {On, Off} && SweepAt(trace, 0, cfg.plugs, Target(a)) { OneFirstSweep(t, trace, cfg.plugs, status.value, Target(a)); }
    }

    /** The branches, given the status at the start. */
    method Act(status: Status) returns (r: Outcome)
      requires AtStart() && cfg.plugs != []
      requires status == IsOff ==> Fenced(trace, cfg.plugs)
      requires status == IsOff <==> EndsWithSweep(trace, cfg.plugs, IsOff)
      requires (status == IsOn <==> EndsWithSweep(trace, cfg.plugs, IsOn)) && (status == Unknown ==> cfg.noStatus)
      modifies `pos, `trace, `action
      ensures Valid() && old(trace) <= trace
      ensures Achieved(old(action), r) && Restrained(old(action)) && Failed(old(action), r)
      ensures r.Returned? && old(action) != Reboot ==> Ready()
      ensures old(action) in {On, Off} && script != [] && old(pos) > 0 ==> pos > 0
    {
      match action
      case On =>
        r := SwitchOn();
      case Off =>
        r := SwitchOff();
      case Reboot =>
        r := DoReboot(status);
      case Query =>
        r := Report(status);
      case Monitor =>
        ReadingsOnly(Monitor);
        return Returned(0);
    }

    method SwitchOn() returns (r: Outcome)
      requires AtStart() && cfg.plugs != [] && action == On
      modifies `pos, `trace
      ensures Valid() && old(trace) <= trace
      ensures Achieved(On, r) && Restrained(On) && Failed(On, r)
      ensures (r.Returned? ==> Ready()) && (script != [] && old(pos) > 0 ==> pos > 0)
    {
      r := DoSet(1 + cfg.retryOn);
    }

    method SwitchOff() returns (r: Outcome)
      requires AtStart() && cfg.plugs != [] && action == Off
      modifies `pos, `trace
      ensures Valid() && old(trace) <= trace
      ensures Achieved(Off, r) && Restrained(Off) && Failed(Off, r)
      ensures (r.Returned? ==> Ready()) && (script != [] && old(pos) > 0 ==> pos > 0)
    {
      r := DoSet(1);
      SetOnce(old(trace));
    }

    /** The branch for status. */
    method Report(status: Status) returns (r: Outcome)
      requires AtStart() && cfg.plugs != [] && action == Query
      requires status == IsOff <==> EndsWithSweep(trace, cfg.plugs, IsOff)
      requires (status == IsOn <==> EndsWithSweep(trace, cfg.plugs, IsOn)) && (status == Unknown ==> cfg.noStatus)
      ensures Achieved(Query, r) && Restrained(Query) && Failed(Query, r)
    {
      ReadingsOnly(Query);
      return if status == Unknown then Aborted else if status == IsOff then Returned(2) else Returned(0);
    }

    /** Why on or off fails when no callback is to blame: there is no setter for it, or it has
        been called and the last sweep shows another status, or all the calls for some plug
        have failed. */
    ghost predicate NotDone(a: Action, attempts: nat)
      requires cfg.plugs != []
      reads this
    {
      !Ended() && !Threw() ==> (
        && Ready()
        && (cfg.hasSet && cfg.hasGet ==> (
                && SomeSet(trace) && EndsOtherwise(trace, cfg.plugs, Target(a))
                && CountSets(trace) == attempts * |cfg.plugs|
                && exists first :: IsFirst(first) && TriedInVain(cfg, first, trace, a, attempts)))
        && (!cfg.hasSet && cfg.hasSync ==> SomeFailed(trace, cfg.plugs, |cfg.plugs|, false, a, attempts)))
    }

    /** One sweep at most. */
    ghost predicate IsFirst(t: seq<Event>) {
      |t| <= |cfg.plugs| && forall i | 0 <= i < |t| :: t[i].Get?
    }

    ghost predicate OddStatus()
      requires cfg.plugs != []
      reads this
    {
      !cfg.noStatus && (!cfg.hasGet || (Ready() && EndsWithSweep(trace, cfg.plugs, Unknown)))
    }

    /** Why an action fails: because of an odd status at the start, or with all attempts made:
        those of "on", the one of "off" and of the power-off phase of a reboot, and those of
        the cycle method. */
    ghost predicate Failed(a: Action, r: Outcome)
      requires cfg.plugs != []
      reads this
    {
      r == Aborted && !OddStatus() ==>
        match a
        case On => NotDone(On, 1 + cfg.retryOn)
        case Off => NotDone(Off, 1)
        case Reboot =>
          if cfg.cycle then !Ended() && !Threw() ==> SomeFailed(trace, cfg.plugs, |cfg.plugs|, true, Reboot, 1 + cfg.retryOn)
          else NotDone(Off, 1)
        case Query => Ended() || Threw() || cfg.noStatus
        case Monitor => Ended() || Threw()
    }

    /** The setter has not reached the action. */
    lemma Missing(t: seq<Event>, a: Action, attempts: nat, r: Flow<bool>)
      requires cfg.plugs != [] && attempts > 0 && Caused(r) && (r.Value? ==> !r.value)
      requires t <= trace && IsFirst(t) && CountSets(t) == 0
      requires r == Value(false) && cfg.hasSet && cfg.hasGet ==>
                 Begun(t) && EndsOtherwise(trace, cfg.plugs, Target(a)) && TriedInVain(cfg, t, trace, a, attempts)
      requires r == Value(false) && !cfg.hasSet && cfg.hasSync ==> SomeFailed(trace, cfg.plugs, |cfg.plugs|, false, a, attempts)
      ensures NotDone(a, attempts)
    {
      if !Ended() && !Threw() && cfg.hasSet && cfg.hasGet {
        assert r == Value(false);
        VainSets(cfg, t, trace, a, attempts);
        assert trace[|t|].Set?;
      }
    }

    lemma SetOnce(t: seq<Event>)
      requires cfg.hasSet ==> Within(t, 1) && CountSets(t) == 0 && CountGets(t) <= |cfg.plugs| && forall i | 0 <= i < |trace| :: !trace[i].Try?
      requires cfg.hasSet && |cfg.plugs| == 1 ==> Alternating(trace)
      requires !cfg.hasSet ==> |trace| <= |cfg.plugs| + Times(|cfg.plugs|, 1)
      ensures Restrained(Off)
    {
      OnceIs(|cfg.plugs|);
      TimesGrow(1, 1 + cfg.retryOn, |cfg.plugs|);
      TimesGrow(1, 1 + cfg.retryOn, Polls());
      TimesMore(|cfg.plugs|, 1, 1 + cfg.retryOn);
    }

    /** The branches for on and off. */
    method DoSet(attempts: nat) returns (r: Outcome)
      requires AtStart() && cfg.plugs != [] && action in {On, Off} && attempts > 0
      modifies `pos, `trace
      ensures Valid() && old(trace) <= trace && (r.Returned? ==> r.code == 0)
      ensures r == Returned(0) && action == Off && cfg.hasSet ==> Fenced(trace, cfg.plugs)
      ensures r == Returned(0) && cfg.hasSet ==> EndsWithSweep(trace, cfg.plugs, Target(action)) && SomeSet(trace)
      ensures r == Returned(0) && !cfg.hasSet ==> EachWorked(trace, cfg.plugs, |cfg.plugs|, false, action)
      ensures cfg.hasSet ==> Within(old(trace), attempts) && forall i | 0 <= i < |trace| :: !trace[i].Try?
      ensures cfg.hasSet && |cfg.plugs| == 1 ==> Alternating(trace)
      ensures !cfg.hasSet ==> |trace| <= |cfg.plugs| + Times(|cfg.plugs|, attempts)
      ensures r == Aborted ==> NotDone(action, attempts)
      ensures (r.Returned? ==> Ready()) && (script != [] && old(pos) > 0 ==> pos > 0)
    {
      ghost var t := trace;
      var done := SetMulti(attempts);
      assert cfg.hasSet && cfg.hasGet ==> trace[|t|].Set?;
      if done.Value? && done.value {
        if action == Off && cfg.hasSet { FencedAtEnd(trace, cfg.plugs); }
        return Returned(0);
      }
      Missing(t, action, attempts, done);
      return Aborted;
    }

    /** The status at the start; without a getter or with an odd status, the end. */
    method FirstStatus() returns (r: Flow<Status>)
      requires Ready() && cfg.plugs != [] && trace == []
      modifies `pos, `trace
      ensures Valid() && Counted() && (r.Value? ==> AtStart()) && (r.Raised? ==> Threw())
      ensures r.Value? ==> r.value in {IsOn, IsOff} && EndsWithSweep(trace, cfg.plugs, r.value)
      ensures r == Value(IsOff) ==> Fenced(trace, cfg.plugs)
      ensures !EndsWithSweep(trace, cfg.plugs, IsOff) || r == Value(IsOff)
      ensures !EndsWithSweep(trace, cfg.plugs, IsOn) || r == Value(IsOn)
      ensures Asked() && (cfg.hasGet && script != [] ==> pos > 0)
      ensures !r.Value? ==> !SweepAt(trace, 0, cfg.plugs, IsOn) && !SweepAt(trace, 0, cfg.plugs, IsOff)
      ensures !cfg.hasGet ==> r == Exited && trace == []
      ensures !r.Value? ==> !cfg.hasGet || Ended() || Threw() || (Ready() && EndsWithSweep(trace, cfg.plugs, Unknown))
    {
      if !cfg.hasGet { return Exited; }
      ghost var sts;
      r, sts := GetMulti();
      AllGets(trace);
      if sts != [] {
        assert trace[0] == Get(cfg.plugs[0], sts[0]) && Records(trace[0], script[0]);
      }
      if r.Value? {
        FirstSweep(cfg.plugs, sts, trace);
        if r.value == Unknown { return Exited; }
      }
    }

    /** The reboot branch. */
    method DoReboot(status: Status) returns (r: Outcome)
      requires AtStart() && cfg.plugs != [] && action == Reboot
      requires status == IsOff ==> Fenced(trace, cfg.plugs)
      requires status == IsOff <==> EndsWithSweep(trace, cfg.plugs, IsOff)
      modifies `pos, `trace, `action
      ensures Valid() && old(trace) <= trace
      ensures r.Returned? ==> r.code == 0 && action == Reboot
      ensures Rebooted(r) && Restrained(Reboot) && Failed(Reboot, r)
    {
      if cfg.cycle {
        r := DoCycle();
        return;
      }
      if status != IsOff {
        var off := PowerOff();
        if !off { return Aborted; }
      }
      r := PowerOn();
    }

    /** The method "cycle". */
    method DoCycle() returns (r: Outcome)
      requires AtStart() && cfg.plugs != [] && action == Reboot && cfg.cycle
      modifies `pos, `trace
      ensures Valid() && old(trace) <= trace && (r.Returned? ==> r.code == 0)
      ensures Rebooted(r) && Restrained(Reboot) && Failed(Reboot, r)
    {
      ghost var all;
      var powerOn;
      powerOn, all := TryEach(true, 1 + cfg.retryOn);
      if powerOn.Exited? || powerOn.Raised? { return Aborted; }
      return if powerOn.value then Returned(0) else Aborted;
    }

    /** Half of a reboot: what the power-off phase may have taken, and nothing turned on. */
    ghost predicate Halfway()
      reads this
    {
      Valid() && NothingOn(trace) && IsHalf(trace)
    }

    ghost predicate IsHalf(t: seq<Event>) {
      && (cfg.hasSet ==> (
              && CountSets(t) <= |cfg.plugs|
              && (cfg.powerTimeout > 0 ==> CountGets(t) <= |cfg.plugs| + Polls())
              && forall i | 0 <= i < |t| :: !t[i].Try?))
      && (!cfg.hasSet ==> |t| <= |cfg.plugs| + Times(|cfg.plugs|, 1))
      && (cfg.hasSet && |cfg.plugs| == 1 ==> Alternating(t))
    }

    /** A whole reboot takes the two halves. */
    lemma BothHalves(t: seq<Event>)
      requires IsHalf(t) && !cfg.cycle && t <= trace
      requires cfg.hasSet ==> Grown(t) && Within(t, cfg.retryOn) && (|cfg.plugs| == 1 ==> Alternating(trace))
      requires !cfg.hasSet ==> Tries(t, false, Times(|cfg.plugs|, cfg.retryOn))
      ensures Restrained(Reboot)
    {
      TimesAdd(|cfg.plugs|, 1, cfg.retryOn);
      TimesFirst(cfg.retryOn, |cfg.plugs|);
      TimesFirst(cfg.retryOn, Polls());
    }

    lemma HalfwayIsRestrained()
      requires Halfway() && !cfg.cycle
      ensures Restrained(Reboot)
    {
      OnceIs(|cfg.plugs|);
      OnceIs(Polls());
      TimesGrow(1, 1 + cfg.retryOn, |cfg.plugs|);
      TimesGrow(1, 1 + cfg.retryOn, Polls());
      TimesMore(|cfg.plugs|, 1, 1 + cfg.retryOn);
    }

    /** The power-off phase. */
    method PowerOff() returns (off: bool)
      requires AtStart() && cfg.plugs != [] && !cfg.cycle && !EndsWithSweep(trace, cfg.plugs, IsOff)
      modifies `pos, `trace, `action
      ensures Halfway() && Restrained(Reboot) && old(trace) <= trace
      ensures off ==> Ready() && TurnedOff() && (cfg.hasSet && |cfg.plugs| == 1 ==> Settled(trace))
      ensures !off && !Ended() && !Threw() && cfg.hasSet && cfg.hasGet ==> !EndsWithSweep(trace, cfg.plugs, IsOff)
      ensures !off ==> NotDone(Off, 1)
    {
      action := Off;
      off := TurnOff();
      HalfwayIsRestrained();
    }

    /** The one attempt to turn the plugs off. */
    method TurnOff() returns (off: bool)
      requires AtStart() && cfg.plugs != [] && !EndsWithSweep(trace, cfg.plugs, IsOff) && action == Off
      modifies `pos, `trace
      ensures Halfway() && old(trace) <= trace
      ensures off ==> Ready() && TurnedOff() && (cfg.hasSet && |cfg.plugs| == 1 ==> Settled(trace))
      ensures !off && !Ended() && !Threw() && cfg.hasSet && cfg.hasGet ==> !EndsWithSweep(trace, cfg.plugs, IsOff)
      ensures !off ==> NotDone(Off, 1)
    {
      ghost var t := trace;
      OnceIs(|cfg.plugs|);
      OnceIs(Polls());
      var done := SetMulti(1);
      OneEnd(trace, cfg.plugs, IsOff);
      if done.Value? && done.value {
        if cfg.hasSet { FencedAtEnd(trace, cfg.plugs); }
        return true;
      }
      Missing(t, Off, 1, done);
      return false;
    }

    /** The power-on phase: whatever comes of it, the reboot succeeds. */
    method PowerOn() returns (r: Outcome)
      requires Ready() && Halfway() && cfg.plugs != [] && !cfg.cycle
      requires cfg.hasSet && |cfg.plugs| == 1 ==> Settled(trace)
      modifies `pos, `trace, `action
      ensures Valid() && old(trace) <= trace && Restrained(Reboot)
      ensures (r == Aborted ==> Ended()) && (old(TurnedOff()) ==> TurnedOff())
      ensures r.Returned? ==> r.code == 0 && action == Reboot
      ensures cfg.hasSet && cfg.hasGet ==> (cfg.retryOn > 0 <==> !NothingOn(trace))
      ensures r.Returned? && !Threw() && (cfg.hasSet ==> Fenced(old(trace), cfg.plugs)) ==> PoweredOn()
    {
      action := On;
      ghost var t := trace;
      var powerOn := TurnOn();
      if powerOn.Exited? { return Aborted; }
      action := Reboot;
      return Returned(0);
    }

    /** The attempts to turn the plugs on again. */
    method TurnOn() returns (r: Flow<bool>)
      requires Ready() && Halfway() && cfg.plugs != [] && !cfg.cycle && action == On
      requires cfg.hasSet && |cfg.plugs| == 1 ==> Settled(trace)
      modifies `pos, `trace
      ensures Caused(r) && old(trace) <= trace && Restrained(Reboot) && (old(TurnedOff()) ==> TurnedOff())
      ensures cfg.hasSet && cfg.hasGet ==> (cfg.retryOn > 0 <==> !NothingOn(trace))
      ensures r.Value? && (cfg.hasSet ==> Fenced(old(trace), cfg.plugs)) ==> PoweredOn()
    {
      ghost var t := trace;
      r := SetMulti(cfg.retryOn);
      assert cfg.hasSet && cfg.hasGet && cfg.retryOn > 0 ==> TurnsOn(trace[|t|]);
      StillOff(t);
      BothHalves(t);
      if r.Value? && (cfg.hasSet ==> Fenced(t, cfg.plugs)) {
        if r.value { assert r == Value(true); } else { assert r == Value(false); }
        AfterPowerOn(t, r.value);
      }
    }

    lemma AfterPowerOn(t: seq<Event>, ok: bool)
      requires cfg.plugs != [] && NothingOn(t) && (cfg.hasSet ==> Fenced(t, cfg.plugs))
      requires ok && cfg.hasSet ==> EndsWithSweep(trace, cfg.plugs, IsOn)
      requires ok && !cfg.hasSet && cfg.retryOn > 0 ==> EachWorked(trace, cfg.plugs, |cfg.plugs|, false, On)
      requires !ok && cfg.hasSet && cfg.hasGet ==> TriedInVain(cfg, t, trace, On, cfg.retryOn)
      requires !ok && !cfg.hasSet && cfg.hasSync ==> SomeFailed(trace, cfg.plugs, |cfg.plugs|, false, On, cfg.retryOn)
      ensures PoweredOn()
    {
    }

    lemma StillOff(t: seq<Event>)
      requires cfg.plugs != [] && t <= trace
      ensures Fenced(t, cfg.plugs) ==> Fenced(trace, cfg.plugs)
      ensures EachWorked(t, cfg.plugs, |cfg.plugs|, false, Off) ==> EachWorked(trace, cfg.plugs, |cfg.plugs|, false, Off)
    {
      if Fenced(t, cfg.plugs) { FencedStays(t, trace, cfg.plugs); }
      if EachWorked(t, cfg.plugs, |cfg.plugs|, false, Off) { WorkedStays(t, trace, cfg.plugs, Off); }
    }
  }

  datatype Outcome = Returned(code: nat) | Aborted

  lemma FencedAtEnd(t: seq<Event>, plugs: seq<string>)
    requires EndsWithSweep(t, plugs, IsOff)
    requires forall i | 0 <= i < |t| :: !TurnsOn(t[i])
    ensures Fenced(t, plugs)
  {
    assert SweepAt(t, |t| - |plugs|, plugs, IsOff);
  }

  // ------------------------------------------------------------------------- counting

  function CountSets(t: seq<Event>): nat {
    if t == [] then 0 else CountSets(t[..|t|-1]) + if t[|t|-1].Set? then 1 else 0
  }

  function CountGets(t: seq<Event>): nat {
    if t == [] then 0 else CountGets(t[..|t|-1]) + if t[|t|-1].Get? then 1 else 0
  }

  lemma {:induction false} CountsAdd(a: seq<Event>, b: seq<Event>)
    ensures CountSets(a + b) == CountSets(a) + CountSets(b)
    ensures CountGets(a + b) == CountGets(a) + CountGets(b)
  {
    if b == [] {
      assert a + b == a;
    } else {
      assert (a + b)[..|a + b|-1] == a + b[..|b|-1];
      CountsAdd(a, b[..|b|-1]);
    }
  }

  lemma {:induction false} AllGets(t: seq<Event>)
    requires forall i | 0 <= i < |t| :: t[i].Get?
    ensures CountSets(t) == 0 && CountGets(t) == |t|
  {
    if t != [] {
      AllGets(t[..|t|-1]);
    }
  }

  lemma {:induction false} AllSets(t: seq<Event>)
    requires forall i | 0 <= i < |t| :: t[i].Set?
    ensures CountSets(t) == |t| && CountGets(t) == 0
  {
    if t != [] {
      AllSets(t[..|t|-1]);
    }
  }

  lemma {:induction false} SweepsLength(plugs: seq<string>, sweeps: seq<seq<Status>>)
    requires Full(plugs, sweeps)
    ensures var t := SweepsEvents(plugs, sweeps);
            |t| == |sweeps| * |plugs| && forall i | 0 <= i < |t| :: t[i].Get?
  {
    if sweeps != [] {
      SweepsLength(plugs, sweeps[..|sweeps|-1]);
      OneMore(|sweeps| - 1, |plugs|);
      assert |sweeps| - 1 + 1 == |sweeps|;
    }
  }

  lemma OnlySets(t: seq<Event>, t': seq<Event>)
    requires t <= t' && forall i | |t| <= i < |t'| :: t'[i].Set?
    ensures CountSets(t') == CountSets(t) + (|t'| - |t|) && CountGets(t') == CountGets(t)
  {
    var more := t'[|t|..];
    assert t' == t + more;
    CountsAdd(t, more);
    AllSets(more);
  }

  lemma OnlyGets(t: seq<Event>, t': seq<Event>)
    requires t <= t' && forall i | |t| <= i < |t'| :: t'[i].Get?
    ensures CountSets(t') == CountSets(t) && CountGets(t') == CountGets(t) + (|t'| - |t|)
  {
    var more := t'[|t|..];
    assert t' == t + more;
    CountsAdd(t, more);
    AllGets(more);
  }

  /** n times k, as a sum. */
  function Times(n: nat, k: nat): nat {
    if n == 0 then 0 else Times(n - 1, k) + k
  }

  lemma {:induction false} TimesIs(n: nat, k: nat)
    ensures Times(n, k) == n * k
  {
    if n > 0 {
      TimesIs(n - 1, k);
      OneMore(n - 1, k);
    }
  }

  lemma OnceIs(k: nat)
    ensures Times(1, k) == k
  {
    assert Times(0, k) == 0;
  }

  lemma TimesFirst(n: nat, k: nat)
    ensures Times(1 + n, k) == k + Times(n, k)
  {
  }

  lemma {:induction false} TimesGrow(a: nat, b: nat, k: nat)
    requires a <= b
    ensures Times(a, k) <= Times(b, k)
    decreases b
  {
    if a < b {
      TimesGrow(a, b - 1, k);
    }
  }

  lemma {:induction false} TimesMore(n: nat, a: nat, b: nat)
    requires a <= b
    ensures Times(n, a) <= Times(n, b)
  {
    if n > 0 {
      TimesMore(n - 1, a, b);
    }
  }

  lemma {:induction false} TimesAdd(n: nat, a: nat, b: nat)
    ensures Times(n, a + b) == Times(n, a) + Times(n, b)
  {
    if n > 0 {
      TimesAdd(n - 1, a, b);
    }
  }

  /** With a power timeout T > 0 an asynchronous setter makes at most attempts * T sweeps over
      the plugs, and attempts calls per plug. */
  lemma {:induction false} AsyncIsBounded(cfg: Config, a: Action, attempts: nat, rounds: seq<seq<seq<Status>>>)
    requires cfg.powerTimeout > 0 && |rounds| <= attempts
    requires forall r | 0 <= r < |rounds| :: Full(cfg.plugs, rounds[r]) && |rounds[r]| <= cfg.powerTimeout
    ensures var t := RoundsEvents(cfg.plugs, a, rounds);
            && CountSets(t) == |rounds| * |cfg.plugs| <= attempts * |cfg.plugs|
            && CountGets(t) <= |rounds| * (cfg.powerTimeout * |cfg.plugs|) <= attempts * (cfg.powerTimeout * |cfg.plugs|)
  {
    var n := |cfg.plugs|;
    Monotone(|rounds|, attempts, n);
    Monotone(|rounds|, attempts, cfg.powerTimeout * n);
    if rounds != [] {
      var init, last := rounds[..|rounds|-1], rounds[|rounds|-1];
      AsyncIsBounded(cfg, a, attempts, init);
      var sets, gets := Sets(cfg.plugs, a), SweepsEvents(cfg.plugs, last);
      AllSets(sets);
      SweepsLength(cfg.plugs, last);
      AllGets(gets);
      Monotone(|last|, cfg.powerTimeout, n);
      CountsAdd(RoundsEvents(cfg.plugs, a, init) + sets, gets);
      CountsAdd(RoundsEvents(cfg.plugs, a, init), sets);
      OneMore(|init|, n);
      OneMore(|init|, cfg.powerTimeout * n);
    }
  }

  /** All attempts have been made: so many setter calls for each plug. */
  lemma VainSets(cfg: Config, t: seq<Event>, t': seq<Event>, a: Action, attempts: nat)
    requires TriedInVain(cfg, t, t', a, attempts)
    ensures CountSets(t') == CountSets(t) + attempts * |cfg.plugs|
  {
    var rounds: seq<seq<seq<Status>>> :| |rounds| == attempts && AllTimedOut(cfg, t, t', a, rounds);
    CountsAdd(t, RoundsEvents(cfg.plugs, a, rounds));
    if attempts > 0 {
      assert TimedOut(cfg, a, rounds[0]);
      AsyncIsBounded(cfg, a, attempts, rounds);
    }
  }

  lemma Monotone(a: nat, b: nat, n: nat)
    requires a <= b
    ensures a * n <= b * n
  {
  }

  lemma OneMore(a: nat, n: nat)
    ensures (a + 1) * n == a * n + n
  {
  }

  /** The rounds of a finished run are such rounds. */
  lemma AsyncRunIsBounded(cfg: Config, a: Action, attempts: nat, rounds: seq<seq<seq<Status>>>, ok: bool)
    requires AsyncRun(cfg, a, attempts, rounds, ok) && cfg.powerTimeout > 0
    ensures forall r | 0 <= r < |rounds| :: Full(cfg.plugs, rounds[r]) && |rounds[r]| <= cfg.powerTimeout
  {
  }

  /** No two setter calls without a status reading between them. */
  ghost predicate Alternating(t: seq<Event>) {
    forall i {:trigger t[i]} | 0 <= i < |t| - 1 :: t[i].Set? ==> t[i+1].Get?
  }

  ghost predicate Settled(t: seq<Event>) {
    t != [] ==> !t[|t|-1].Set?
  }

  lemma OneSet(t: seq<Event>, t': seq<Event>, a: Action)
    requires Alternating(t) && Settled(t) && t <= t' && |t'| <= |t| + 1
    ensures Alternating(t')
  {
    assert forall i | 0 <= i < |t| :: t'[i] == t[i];
  }

  lemma GetsFollow(t: seq<Event>, t': seq<Event>)
    requires Alternating(t) && t <= t' && forall i | |t| <= i < |t'| :: t'[i].Get?
    ensures Alternating(t')
    ensures |t'| > |t| ==> Settled(t')
  {
    assert forall i | 0 <= i < |t| :: t'[i] == t[i];
  }

  /** One setter call at most, and readings after it. */
  lemma SetThenRead(t: seq<Event>, t': seq<Event>, t'': seq<Event>)
    requires t <= t' <= t'' && |t'| <= |t| + 1 && forall i | |t'| <= i < |t''| :: t''[i].Get?
    ensures Alternating(t) && Settled(t) ==> Alternating(t'') && (|t''| > |t'| ==> Settled(t''))
  {
    if Alternating(t) && Settled(t) {
      OneSet(t, t', On);
      GetsFollow(t', t'');
    }
  }

  lemma FirstSweep(plugs: seq<string>, sts: seq<Status>, t: seq<Event>)
    requires |sts| == |plugs| && t == Sweep(plugs, sts)
    ensures forall s :: EndsWithSweep(t, plugs, s) <==> s == LastNonOff(sts)
    ensures forall s :: SweepAt(t, 0, plugs, s) <==> s == LastNonOff(sts)
    ensures LastNonOff(sts) == IsOff ==> Fenced(t, plugs)
  {
    assert t[0..0+|plugs|] == Sweep(plugs, sts);
    OneReading(plugs, sts);
    assert SweepAt(t, 0, plugs, LastNonOff(sts));
  }

  /** The first sweep of a trace has one status. */
  lemma OneFirstSweep(t: seq<Event>, t': seq<Event>, plugs: seq<string>, s: Status, s': Status)
    requires t <= t' && |t| == |plugs| && EndsWithSweep(t, plugs, s) && SweepAt(t', 0, plugs, s')
    ensures s == s'
  {
    var sts: seq<Status> :| |sts| == |plugs| && t[0..0+|plugs|] == Sweep(plugs, sts) && LastNonOff(sts) == s;
    OneReading(plugs, sts);
    assert t'[0..0+|plugs|] == t[0..0+|plugs|];
  }

  /** A trace ends with one status only. */
  lemma OneEnd(t: seq<Event>, plugs: seq<string>, s: Status)
    ensures EndsOtherwise(t, plugs, s) ==> !EndsWithSweep(t, plugs, s)
  {
    if EndsOtherwise(t, plugs, s) {
      var i := |t| - |plugs|;
      var sts: seq<Status> :| |sts| == |plugs| && t[i..i+|plugs|] == Sweep(plugs, sts) && LastNonOff(sts) != s;
      OneReading(plugs, sts);
    }
  }

  lemma LastMiss(cfg: Config, a: Action, t: seq<Event>, rounds: seq<seq<seq<Status>>>)
    requires cfg.plugs != [] && rounds != [] && a in {On, Off}
    requires forall k | 0 <= k < |rounds| :: Full(cfg.plugs, rounds[k])
    requires TimedOut(cfg, a, rounds[|rounds|-1])
    ensures EndsOtherwise(t + RoundsEvents(cfg.plugs, a, rounds), cfg.plugs, Target(a))
  {
    var sweeps := rounds[|rounds|-1];
    var sts := sweeps[|sweeps|-1];
    var t' := t + RoundsEvents(cfg.plugs, a, rounds);
    assert t'[|t'| - |cfg.plugs|..] == Sweep(cfg.plugs, sts);
    assert EndsWithSweep(t', cfg.plugs, LastNonOff(sts));
  }

  lemma LastSweep(cfg: Config, a: Action, t: seq<Event>, attempts: nat, rounds: seq<seq<seq<Status>>>)
    requires AsyncRun(cfg, a, attempts, rounds, true) && cfg.plugs != []
    requires forall k | 0 <= k < |rounds| :: Full(cfg.plugs, rounds[k])
    ensures a in {On, Off}
    ensures var t' := t + RoundsEvents(cfg.plugs, a, rounds);
            EndsWithSweep(t', cfg.plugs, Target(a)) && |t'| >= |t| + |cfg.plugs|
  {
    var sweeps := rounds[|rounds|-1];
    var sts := sweeps[|sweeps|-1];
    var t' := t + RoundsEvents(cfg.plugs, a, rounds);
    assert t'[|t'| - |cfg.plugs|..] == Sweep(cfg.plugs, sts);
  }
}
