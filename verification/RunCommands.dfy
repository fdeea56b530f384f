/** run_commands of lib/fencing.py: several commands at once, of which a majority is enough
    after some time. */
module RunCommands {
  import opened Wrappers

  /** Readings of the clock, and the answers of wait(): an exit code, or a time-out. */
  datatype World = World(times: seq<real>, waits: seq<Option<int>>) {
    ghost predicate Valid() {
      forall i, j | 0 <= i < j < |times| :: times[i] <= times[j]
    }
  }

  /** How it ends, unless the world stops first. */
  datatype Result = Stopped | Done(status: Option<int>, gone: map<nat, int>, alive: set<nat>, waited: real)

  /** How many of the collected processes exited with 0. */
  function Good(gone: map<nat, int>): set<nat> {
    set p | p in gone && gone[p] == 0
  }

  ghost predicate Partition(started: set<nat>, gone: map<nat, int>, alive: set<nat>) {
    gone.Keys + alive == started && gone.Keys !! alive
  }

  /** A timeout as it is given: the argument, which is a number, or else the text of the option
      --power-timeout, which is read as a number. */
  datatype Timeout = Number(seconds: real) | Text(seconds: real)

  /** The number 0 means that there is no limit.  The comparison comes before the conversion,
      so the text "0" does not. */
  function Limit(timeout: Option<Timeout>): Option<real> {
    if timeout == None || timeout == Some(Number(0.0)) then None else Some(timeout.value.seconds)
  }

  /** When the loop may stop with processes still running, for every kind of timeout. */
  lemma MayStopMeans(started: set<nat>, gone: map<nat, int>, seconds: real, waited: real)
    ensures var majority := 2 * |set p | p in gone && gone[p] == 0| > |started|;
            && (MayStop(started, gone, Limit(None), waited) <==> waited >= 5.0 && majority)
            && (MayStop(started, gone, Limit(Some(Text(seconds))), waited) <==> waited >= 5.0 && (majority || waited >= seconds))
            && (MayStop(started, gone, Limit(Some(Number(seconds))), waited) <==>
                  waited >= 5.0 && (majority || (seconds != 0.0 && waited >= seconds)))
  {
    assert Good(gone) == set p | p in gone && gone[p] == 0;
  }

  /** With the text "0" the loop stops as soon as 5 seconds are over, whoever is still running;
      with the number only a majority stops it. */
  lemma ZeroTextStops(started: set<nat>, gone: map<nat, int>, waited: real)
    ensures MayStop(started, gone, Limit(Some(Text(0.0))), waited) <==> waited >= 5.0
    ensures MayStop(started, gone, Limit(Some(Number(0.0))), waited) <==> waited >= 5.0 && 2 * |Good(gone)| > |started|
  {
  }

  ghost predicate MayStop(started: set<nat>, gone: map<nat, int>, limit: Option<real>, waited: real) {
    waited >= 5.0 && (2 * |Good(gone)| > |started| || (limit.Some? && waited >= limit.value))
  }

  /** What the tests of one round of the wait loop are made on: the processes collected and
      those still running, whom wait() has been called for, the clock readings so far, and the
      time span last read. */
  datatype Round = Round(gone: map<nat, int>, alive: set<nat>, order: seq<nat>, ticks: nat, waited: real)

  class Runner {
    const world: World
    const started: set<nat>
    var ticks: nat
    var asked: nat
    /** Whom wait() has been called for, answer by answer. */
    ghost var order: seq<nat>

    constructor (world: World, started: set<nat>)
      ensures this.world == world && this.started == started && ticks == 0 && asked == 0 && order == []
    {
      this.world, this.started, ticks, asked, order := world, started, 0, 0, [];
    }

    ghost predicate Valid()
      reads this
    {
      world.Valid() && ticks <= |world.times| && asked == |order| <= |world.waits|
    }

    /** What has been collected are the exit codes that wait() has returned so far, each for
        the process it was called for. */
    ghost predicate Collected(gone: map<nat, int>)
      reads this
    {
      |order| <= |world.waits| && AreAnswers(gone, order, world.waits[..|order|])
    }

    /** The time span last read from the clock. */
    ghost predicate IsReading(n: nat, waited: real) {
      1 <= n <= |world.times| && waited == world.times[n-1] - world.times[0]
    }

    /** The world has nothing more to say. */
    ghost predicate Exhausted()
      reads this
    {
      ticks == |world.times| || asked == |world.waits|
    }

    /** time.time() - time_start. */
    method Elapsed() returns (t: Option<real>)
      requires Valid() && 1 <= ticks
      modifies `ticks
      ensures Valid() && old(ticks) <= ticks
      ensures t.Some? ==> ticks == old(ticks) + 1 && IsReading(ticks, t.value)
      ensures t.None? ==> Exhausted()
    {
      if ticks == |world.times| { return None; }
      t := Some(world.times[ticks] - world.times[0]);
      ticks := ticks + 1;
    }

    /** The for loop over the processes still alive, in any order. */
    method CheckAll(limit: Option<real>, gone: map<nat, int>, alive: set<nat>)
      returns (ok: bool, gone': map<nat, int>)
      requires Valid() && 1 <= ticks && gone.Keys !! alive && Collected(gone)
      modifies this
      ensures Valid() && old(ticks) <= ticks && old(asked) <= asked
      ensures if ok then Called(old(order), order, alive) else SomeCalled(old(order), order, alive)
      ensures Collected(gone') && (!ok ==> Exhausted())
      ensures gone.Keys <= gone'.Keys <= gone.Keys + alive
    {
      gone' := gone;
      var todo := alive;
      while todo != {}
        invariant 1 <= old(ticks) <= ticks && Checking(old(order), gone, gone', alive, todo)
        decreases todo
      {
        var p :| p in todo;
        ok, gone' := CheckNext(limit, p, old(order), gone, gone', alive, todo);
        if !ok { return; }
        todo := todo - {p};
      }
      assert alive - todo == alive;
      return true, gone';
    }

    /** In the middle of the loop. */
    ghost predicate Checking(before: seq<nat>, gone: map<nat, int>, gone': map<nat, int>, alive: set<nat>, todo: set<nat>)
      reads this
    {
      && Valid() && todo <= alive && Called(before, order, alive - todo)
      && Collected(gone') && gone'.Keys !! todo && gone.Keys <= gone'.Keys <= gone.Keys + alive
    }

    method CheckNext(limit: Option<real>, p: nat, ghost before: seq<nat>, ghost gone0: map<nat, int>,
                     gone: map<nat, int>, ghost alive: set<nat>, ghost todo: set<nat>)
      returns (ok: bool, gone': map<nat, int>)
      requires 1 <= ticks && Checking(before, gone0, gone, alive, todo) && p in todo
      modifies this
      ensures Valid() && old(ticks) <= ticks
      ensures ok ==> Checking(before, gone0, gone', alive, todo - {p})
      ensures !ok ==> SomeCalled(before, order, alive) && Collected(gone') && gone' == gone && Exhausted()
    {
      NextCalled(before, order, alive, todo, p);
      ok, gone' := CheckGone(limit, p, gone);
    }

    /** The for loop's body. */
    method CheckGone(limit: Option<real>, p: nat, gone: map<nat, int>) returns (ok: bool, gone': map<nat, int>)
      requires Valid() && 1 <= ticks && p !in gone && Collected(gone)
      modifies this
      ensures Valid() && old(ticks) <= ticks && order == if ok then old(order) + [p] else old(order)
      ensures Collected(gone') && (!ok ==> Exhausted() && gone' == gone)
      ensures gone' == gone || (gone'.Keys == gone.Keys + {p} && forall q | q in gone :: gone'[q] == gone[q])
    {
      gone' := gone;
      if limit.Some? {
        var t := Elapsed();
        if t.None? { return false, gone'; }
      }
      if asked == |world.waits| { return false, gone'; }
      gone' := Collect(p, gone);
      ok := true;
    }

    /** wait() for one process: an exit code is kept, a time-out is not. */
    method Collect(p: nat, gone: map<nat, int>) returns (gone': map<nat, int>)
      requires Valid() && asked < |world.waits| && p !in gone && Collected(gone)
      modifies `asked, `order
      ensures Valid() && order == old(order) + [p] && Collected(gone')
      ensures gone' == if world.waits[old(asked)].Some? then gone[p := world.waits[old(asked)].value] else gone
    {
      assert world.waits[..asked+1] == world.waits[..asked] + [world.waits[asked]];
      assert (order + [p])[..asked] == order;
      gone' := if world.waits[asked].Some? then gone[p := world.waits[asked].value] else gone;
      asked, order := asked + 1, order + [p];
    }

    method CountGood(gone: map<nat, int>) returns (good: nat)
      ensures good == |Good(gone)|
    {
      good := 0;
      var todo := gone.Keys;
      ghost var seen: set<nat> := {};
      while todo != {}
        invariant todo <= gone.Keys && good == |seen|
        invariant forall q :: q in seen <==> q in gone && q !in todo && gone[q] == 0
        decreases todo
      {
        var p :| p in todo;
        if gone[p] == 0 {
          good := good + 1;
          seen := seen + {p};
        }
        todo := todo - {p};
      }
      assert seen == Good(gone);
    }

    /** The status handed over: the last one looked at, unless one before was 0. */
    method BestStatus(gone: map<nat, int>) returns (status: Option<int>)
      ensures status == None <==> gone == map[]
      ensures status == Some(0) <==> HasCode(gone, 0)
      ensures status.Some? ==> status.value in gone.Values
    {
      status := None;
      var todo := gone.Keys;
      while todo != {}
        invariant todo <= gone.Keys
        invariant status == None <==> todo == gone.Keys
        invariant status == Some(0) <==> exists p | p in gone.Keys - todo :: gone[p] == 0
        invariant status.Some? ==> status.value in gone.Values
        decreases todo
      {
        var p :| p in todo;
        if status != Some(0) { status := Some(gone[p]); }
        todo := todo - {p};
      }
      if gone != map[] {
        assert gone.Keys != {};
      }
    }

    /** The tests made while processes are still running: whether to stop after waited, or None
        when the clock has nothing more to say. */
    method Enough(limit: Option<real>, gone: map<nat, int>, alive: set<nat>) returns (stop: Option<bool>, waited: real)
      requires Valid() && 1 <= ticks && Partition(started, gone, alive)
      modifies `ticks
      ensures Valid() && old(ticks) <= ticks
      ensures stop.Some? ==> old(ticks) < ticks && IsReading(ticks, waited)
      ensures stop.None? ==> Exhausted()
      ensures stop.Some? ==> (stop.value <==> MayStop(started, gone, limit, waited))
      ensures stop.Some? ==> ticks == old(ticks) + if waited >= 5.0 && limit.Some? && 2 * |Good(gone)| <= |started| then 2 else 1
    {
      if 2 * |Good(gone)| > |started| { GoodMajority(started, gone, alive); }
      waited := 0.0;
      var t := Elapsed();
      if t.None? { return None, waited; }
      waited := t.value;
      if waited < 5.0 { return Some(false), waited; }
      if |gone| > |alive| {
        var good := CountGood(gone);
        if 2 * good > |started| { return Some(true), waited; }
      }
      if limit.Some? {
        t := Elapsed();
        if t.None? { return None, waited; }
        waited := t.value;
        if waited >= limit.value { return Some(true), waited; }
      }
      return Some(false), waited;
    }

    /** The waiting of one round: who has ended is no longer alive. */
    method Wait(limit: Option<real>, gone: map<nat, int>, alive: set<nat>)
      returns (ok: bool, gone': map<nat, int>, alive': set<nat>)
      requires Valid() && 1 <= ticks && Partition(started, gone, alive) && Collected(gone)
      modifies this
      ensures Valid() && 1 <= old(ticks) <= ticks && old(asked) <= asked
      ensures if ok then Called(old(order), order, alive) else SomeCalled(old(order), order, alive)
      ensures ok && alive' != {} ==> old(asked) < asked
      ensures Partition(started, gone', alive') && Collected(gone') && alive' <= alive && (!ok ==> Exhausted())
    {
      ok, gone', alive' := true, gone, alive;
      assert order[|order|..] == [];
      if alive != {} {
        ok, gone' := CheckAll(limit, gone, alive);
        if ok { SomeoneCalled(old(order), order, alive); }
        alive' := alive - gone'.Keys;
      }
    }

    /** Whom wait() has been called for before the waiting that comes after these rounds. */
    ghost function Asked(rounds: seq<Round>): seq<nat> {
      if rounds == [] then [] else rounds[|rounds|-1].order
    }

    /** Whom it asks. */
    ghost function Asking(rounds: seq<Round>): set<nat> {
      if rounds == [] then started else rounds[|rounds|-1].alive
    }

    /** Everybody to be asked in the waiting after these rounds has been asked. */
    ghost predicate AllAsked(rounds: seq<Round>, order: seq<nat>) {
      Called(Asked(rounds), order, Asking(rounds))
    }

    /** No one else has been asked. */
    ghost predicate SomeAsked(rounds: seq<Round>, order: seq<nat>) {
      SomeCalled(Asked(rounds), order, Asking(rounds))
    }

    /** r is the round after these: each process that was alive has been asked once more, and
        the clock has been read again. */
    ghost predicate IsNext(rounds: seq<Round>, r: Round) {
      && AllAsked(rounds, r.order) && |r.order| <= |world.waits| && AreAnswers(r.gone, r.order, world.waits[..|r.order|])
      && Partition(started, r.gone, r.alive) && r.alive != {}
      && IsReading(r.ticks, r.waited) && (if rounds == [] then 1 else rounds[|rounds|-1].ticks) < r.ticks
    }

    ghost predicate Fits(rounds: seq<Round>, k: nat)
      requires k < |rounds|
    {
      IsNext(rounds[..k], rounds[k])
    }

    /** The rounds follow one another, none left out. */
    ghost predicate Follow(rounds: seq<Round>) {
      forall k | 0 <= k < |rounds| :: Fits(rounds, k)
    }

    ghost predicate Stops(limit: Option<real>, r: Round) {
      MayStop(started, r.gone, limit, r.waited)
    }

    /** None of the rounds is one to stop after, except for the last if stopped. */
    ghost predicate Ends(limit: Option<real>, rounds: seq<Round>, stopped: bool) {
      && (stopped ==> rounds != [])
      && forall k | 0 <= k < |rounds| :: Stops(limit, rounds[k]) <==> stopped && k == |rounds| - 1
    }

    lemma FollowNext(rounds: seq<Round>, r: Round)
      requires IsNext(rounds, r)
      ensures Follow(rounds) ==> Follow(rounds + [r])
    {
      var all := rounds + [r];
      assert all[..|rounds|] == rounds && all[|rounds|] == r;
      if Follow(rounds) {
        forall k | 0 <= k < |rounds| ensures Fits(all, k) {
          assert Fits(rounds, k);
          assert all[..k] == rounds[..k] && all[k] == rounds[k];
        }
      }
    }

    ghost predicate Before(rounds: seq<Round>)
      reads this
    {
      rounds == [] || rounds[|rounds|-1].ticks <= ticks
    }

    /** In the middle of the wait loop. */
    ghost predicate Going(limit: Option<real>, gone: map<nat, int>, alive: set<nat>, rounds: seq<Round>)
      reads this
    {
      && Valid() && 1 <= ticks && Partition(started, gone, alive) && Collected(gone)
      && Follow(rounds) && Ends(limit, rounds, false) && Before(rounds)
      && order == Asked(rounds) && alive == Asking(rounds)
    }

    /** At its end: no more waiting is needed, or the last round is one to stop after. */
    ghost predicate Over(limit: Option<real>, gone: map<nat, int>, alive: set<nat>, waited: real, rounds: seq<Round>)
      reads this
    {
      && Valid() && Partition(started, gone, alive) && Collected(gone)
      && Follow(rounds) && Ends(limit, rounds, alive != {})
      && (if alive == {} then AllAsked(rounds, order) else rounds[|rounds|-1] == Round(gone, alive, order, ticks, waited))
    }

    /** The tests of one round. */
    method Decide(limit: Option<real>, gone: map<nat, int>, alive: set<nat>, ghost rounds: seq<Round>)
      returns (stop: Option<bool>, waited: real, ghost rounds': seq<Round>)
      requires Valid() && 1 <= ticks && Partition(started, gone, alive) && Collected(gone) && alive != {}
      requires Follow(rounds) && Ends(limit, rounds, false) && AllAsked(rounds, order) && Before(rounds)
      modifies `ticks
      ensures stop.None? ==> rounds' == rounds && Valid() && Exhausted()
      ensures stop == Some(false) ==> Going(limit, gone, alive, rounds')
      ensures stop == Some(true) ==> Over(limit, gone, alive, waited, rounds')
    {
      rounds' := rounds;
      stop, waited := Enough(limit, gone, alive);
      if stop.None? { return; }
      ghost var r := Round(gone, alive, order, ticks, waited);
      FollowNext(rounds, r);
      EndsNext(limit, rounds, r);
      assert Stops(limit, r) == stop.value;
      rounds' := rounds + [r];
      assert Follow(rounds') && Ends(limit, rounds', stop.value);
    }

    lemma EndsNext(limit: Option<real>, rounds: seq<Round>, r: Round)
      requires Ends(limit, rounds, false)
      ensures Ends(limit, rounds + [r], Stops(limit, r))
      ensures Asked(rounds + [r]) == r.order && Asking(rounds + [r]) == r.alive
    {
    }

    /** The waiting of one round, in the wait loop. */
    method WaitNext(limit: Option<real>, gone: map<nat, int>, alive: set<nat>, ghost rounds: seq<Round>)
      returns (ok: bool, gone': map<nat, int>, alive': set<nat>)
      requires Going(limit, gone, alive, rounds)
      modifies this
      ensures Valid() && 1 <= ticks && Partition(started, gone', alive') && Collected(gone') && Before(rounds)
      ensures if ok then AllAsked(rounds, order) else SomeAsked(rounds, order) && Exhausted()
      ensures ok && alive' != {} ==> old(asked) < asked && SomeAsked(rounds, order)
    {
      ok, gone', alive' := Wait(limit, gone, alive);
      if ok { AllAreSome(Asked(rounds), order, alive); }
    }

    /** One round: None when the world has stopped, true when the loop is over. */
    method OneRound(limit: Option<real>, gone: map<nat, int>, alive: set<nat>, ghost rounds: seq<Round>)
      returns (over: Option<bool>, gone': map<nat, int>, alive': set<nat>, waited: real, ghost rounds': seq<Round>)
      requires Going(limit, gone, alive, rounds)
      modifies this
      ensures over.None? ==> Follow(rounds') && Ends(limit, rounds', false) && SomeAsked(rounds', order) && Exhausted()
      ensures over == Some(true) ==> Over(limit, gone', alive', waited, rounds')
      ensures over == Some(false) ==> Going(limit, gone', alive', rounds') && old(asked) < asked <= |world.waits|
    {
      var ok;
      rounds', waited := rounds, 0.0;
      ok, gone', alive' := WaitNext(limit, gone, alive, rounds);
      if !ok { return None, gone', alive', waited, rounds'; }
      if alive' == {} { return Some(true), gone', alive', waited, rounds'; }
      over, waited, rounds' := Decide(limit, gone', alive', rounds);
    }

    /** The wait loop; false when the world stops first.  It goes through all its rounds up to
        the first one to stop after. */
    method WaitLoop(limit: Option<real>)
      returns (ok: bool, gone: map<nat, int>, alive: set<nat>, waited: real, ghost rounds: seq<Round>)
      requires Valid() && ticks == 1 && order == []
      modifies this
      ensures if ok then Over(limit, gone, alive, waited, rounds)
              else Follow(rounds) && Ends(limit, rounds, false) && SomeAsked(rounds, order) && Exhausted()
    {
      gone, alive, waited, rounds := map[], started, 0.0, [];
      assert world.waits[..0] == [];
      while true
        invariant Going(limit, gone, alive, rounds)
        decreases |world.waits| - asked
      {
        var over;
        over, gone, alive, waited, rounds := OneRound(limit, gone, alive, rounds);
        if over.None? { return false, gone, alive, waited, rounds; }
        if over.value { return true, gone, alive, waited, rounds; }
      }
    }

    /** The wait loop stops with processes still running exactly after the first round in which
        5 seconds are over and a strict majority of all commands has exited with 0 or the
        timeout has elapsed; every exit code that wait() has returned is collected for its
        process, so the majority is one of the zeros that wait() has returned, and the status
        is 0 if and only if one of them is. */
    method Run(timeout: Option<Timeout>) returns (r: Result, ghost rounds: seq<Round>)
      requires Valid() && ticks == 0 && order == []
      modifies this
      ensures r.Stopped? ==> Follow(rounds) && Ends(Limit(timeout), rounds, false) && SomeAsked(rounds, order) && Exhausted()
      ensures r.Done? ==> Over(Limit(timeout), r.gone, r.alive, r.waited, rounds)
      ensures r.Done? ==> (r.status == None <==> r.gone == map[])
      ensures r.Done? ==> (r.status == Some(0) <==> Some(0) in world.waits[..asked])
      ensures r.Done? ==> |Good(r.gone)| == Zeros(world.waits[..asked]) && |r.gone| == Answers(world.waits[..asked])
    {
      rounds := [];
      if |world.times| == 0 { return Stopped, rounds; }
      ticks := 1;
      var ok, gone, alive, waited;
      ok, gone, alive, waited, rounds := WaitLoop(Limit(timeout));
      if !ok { return Stopped, rounds; }
      CodesCount(order, world.waits[..asked]);
      var status := BestStatus(gone);
      return Done(status, gone, alive, waited), rounds;
    }
  }

  /** How many of the answers are exit codes. */
  function Answers(waits: seq<Option<int>>): nat {
    if waits == [] then 0 else Answers(waits[..|waits|-1]) + if waits[|waits|-1].Some? then 1 else 0
  }

  /** How many of them are 0. */
  function Zeros(waits: seq<Option<int>>): nat {
    if waits == [] then 0 else Zeros(waits[..|waits|-1]) + if waits[|waits|-1] == Some(0) then 1 else 0
  }

  ghost predicate HasCode(gone: map<nat, int>, code: int) {
    exists p | p in gone :: gone[p] == code
  }

  /** The exit codes answered, by process. */
  function Codes(order: seq<nat>, waits: seq<Option<int>>): map<nat, int>
    requires |order| == |waits|
  {
    if order == [] then map[]
    else
      var codes, n := Codes(order[..|order|-1], waits[..|waits|-1]), |order| - 1;
      if waits[n].Some? then codes[order[n] := waits[n].value] else codes
  }

  /** No process is asked again after its exit code has been answered. */
  ghost predicate Once(order: seq<nat>, waits: seq<Option<int>>)
    requires |order| == |waits|
  {
    order == [] || (
      var init, waits' := order[..|order|-1], waits[..|waits|-1];
      Once(init, waits') && order[|order|-1] !in Codes(init, waits'))
  }

  ghost predicate AreAnswers(gone: map<nat, int>, order: seq<nat>, waits: seq<Option<int>>) {
    |order| == |waits| && Once(order, waits) && gone == Codes(order, waits)
  }

  /** None of the answers is lost and none is added: each code is collected as often as it has
      been answered. */
  lemma {:induction false} CodesCount(order: seq<nat>, waits: seq<Option<int>>)
    requires |order| == |waits| && Once(order, waits)
    ensures var gone := Codes(order, waits);
            && |gone| == Answers(waits) && |Good(gone)| == Zeros(waits)
            && forall code {:trigger HasCode(gone, code)} :: HasCode(gone, code) <==> Some(code) in waits
  {
    if order != [] {
      var n := |order| - 1;
      CodesCount(order[..n], waits[..n]);
      assert waits == waits[..n] + [waits[n]];
      if waits[n].Some? {
        OneCode(Codes(order[..n], waits[..n]), order[n], waits[n].value);
      }
    }
  }

  lemma OneCode(gone: map<nat, int>, p: nat, code: int)
    requires p !in gone
    ensures |gone[p := code]| == |gone| + 1
    ensures |Good(gone[p := code])| == |Good(gone)| + if code == 0 then 1 else 0
    ensures forall c {:trigger HasCode(gone[p := code], c)} :: HasCode(gone[p := code], c) <==> HasCode(gone, c) || c == code
  {
    OneMore(gone, p, code);
    OneMoreGood(gone, p, code);
    forall c ensures HasCode(gone[p := code], c) <==> HasCode(gone, c) || c == code {
      CodeIsNewOrOld(gone, p, code, c);
    }
  }

  lemma OneMore(gone: map<nat, int>, p: nat, code: int)
    requires p !in gone
    ensures |gone[p := code]| == |gone| + 1
  {
    assert gone[p := code].Keys == gone.Keys + {p};
    assert |gone[p := code]| == |gone[p := code].Keys| && |gone| == |gone.Keys|;
  }

  lemma OneMoreGood(gone: map<nat, int>, p: nat, code: int)
    requires p !in gone
    ensures |Good(gone[p := code])| == |Good(gone)| + if code == 0 then 1 else 0
  {
    assert Good(gone[p := code]) == Good(gone) + if code == 0 then {p} else {};
  }

  lemma CodeIsNewOrOld(gone: map<nat, int>, p: nat, code: int, c: int)
    requires p !in gone
    ensures HasCode(gone[p := code], c) <==> HasCode(gone, c) || c == code
  {
    var gone' := gone[p := code];
    if HasCode(gone, c) {
      var q :| q in gone && gone[q] == c;
      assert gone'[q] == c;
    }
    assert gone'[p] == code;
  }

  /** Each of these processes has been called for once, in any order. */
  ghost predicate Called(before: seq<nat>, order: seq<nat>, who: set<nat>) {
    before <= order && multiset(order[|before|..]) == multiset(who)
  }

  /** Some of them, none twice. */
  ghost predicate SomeCalled(before: seq<nat>, order: seq<nat>, who: set<nat>) {
    before <= order && multiset(order[|before|..]) <= multiset(who)
  }

  lemma NextCalled(before: seq<nat>, order: seq<nat>, who: set<nat>, todo: set<nat>, p: nat)
    requires todo <= who && p in todo && Called(before, order, who - todo)
    ensures Called(before, order + [p], who - (todo - {p})) && SomeCalled(before, order, who)
  {
    assert (order + [p])[|before|..] == order[|before|..] + [p];
    assert who - (todo - {p}) == who - todo + {p};
  }

  lemma AllAreSome(before: seq<nat>, order: seq<nat>, who: set<nat>)
    requires Called(before, order, who)
    ensures SomeCalled(before, order, who)
  {
  }

  lemma SomeoneCalled(before: seq<nat>, order: seq<nat>, who: set<nat>)
    requires who != {} && Called(before, order, who)
    ensures |before| < |order|
  {
    var p :| p in who;
    assert multiset(order[|before|..])[p] == 1;
  }

  /** A strict majority of good exits is a majority of the processes, so the test that more
      are gone than alive does not hold anything up. */
  lemma GoodMajority(started: set<nat>, gone: map<nat, int>, alive: set<nat>)
    requires Partition(started, gone, alive) && 2 * |Good(gone)| > |started|
    ensures |gone| > |alive|
  {
    GoodAreGone(gone);
    assert |gone.Keys + alive| == |gone.Keys| + |alive|;
  }

  lemma GoodAreGone(gone: map<nat, int>)
    ensures |Good(gone)| <= |gone|
  {
    assert gone.Keys == Good(gone) + (gone.Keys - Good(gone));
    assert |gone.Keys| == |Good(gone)| + |gone.Keys - Good(gone)|;
  }
}
