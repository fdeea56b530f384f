/** A reservation agent under the engine.  A run of the program is a run of the engine whose
    replies are the answers of the agent.  When the answers are known, as they are in an
    undisturbed run, it is known which runs there are and how they end. */
module FenceRun {
  import E = Engine
  import opened ScsiTarget
  import opened PrFabric
  import opened PrAgent

  /** The configuration of both agents: no plug to choose from, a setter and a getter, and
      "on" is done even when the status is on. */
  predicate IsAgents(cfg: E.Config) {
    |cfg.plugs| == 1 && cfg.hasSet && cfg.hasGet && !cfg.noStatus && cfg.forceOn
  }

  // --------------------------------------------------------------- agreement of a run

  /** Call number i; a reading that has failed is not recorded. */
  function CallAt(calls: seq<E.Event>, i: nat): E.Event {
    if i < |calls| then calls[i] else E.Get("", E.Unknown)
  }

  /** The replies that have been told are those of the calls. */
  ghost predicate Told(calls: seq<E.Event>, told: seq<E.Reply>) {
    && (|told| <= |calls| || (|told| == |calls| + 1 && !told[|calls|].Says?))
    && forall i {:trigger told[i]} | 0 <= i < |told| && i < |calls| :: E.Records(calls[i], told[i])
  }

  /** The same reply: the value of a setter is of no account. */
  predicate Same(setter: bool, given: E.Reply, told: E.Reply) {
    match given
    case Says(s, _) => told.Says? && (setter || told.status == s)
    case Raises => told.Raises?
    case Exits => told.Exits?
  }

  predicate AllSaid(told: seq<E.Reply>) {
    forall i | 0 <= i < |told| :: told[i].Says?
  }

  predicate AllButLast(told: seq<E.Reply>) {
    forall i | 0 <= i < |told| - 1 :: told[i].Says?
  }

  /** The answers of an agent to a setter call or a reading, after so many setter calls. */
  type Answers = (nat, bool) -> E.Reply

  function SetsBefore(calls: seq<E.Event>, i: nat): nat {
    E.CountSets(if i < |calls| then calls[..i] else calls)
  }

  ghost predicate AgreesAt(calls: seq<E.Event>, told: seq<E.Reply>, answers: Answers, i: nat)
    requires i < |told|
  {
    && Same(CallAt(calls, i).Set?, answers(SetsBefore(calls, i), CallAt(calls, i).Set?), told[i])
    && (i + 1 < |told| ==> told[i].Says?)
  }

  /** The replies are the answers, one by one, and nothing is asked after the end of the
      program. */
  ghost predicate Agrees(calls: seq<E.Event>, told: seq<E.Reply>, answers: Answers) {
    forall i | 0 <= i < |told| :: AgreesAt(calls, told, answers, i)
  }

  /** Setter number m among the first calls. */
  lemma {:induction false} SetterCall(calls: seq<E.Event>, i: nat, m: nat) returns (j: nat)
    requires i <= |calls| && m < E.CountSets(calls[..i])
    ensures j < i && calls[j].Set? && SetsBefore(calls, j) == m
  {
    assert calls[..i][..i-1] == calls[..i-1];
    if m < E.CountSets(calls[..i-1]) {
      j := SetterCall(calls, i - 1, m);
    } else {
      j := i - 1;
    }
  }

  lemma {:induction false} SetIsCounted(calls: seq<E.Event>, i: nat, j: nat)
    requires j < i <= |calls| && calls[j].Set?
    ensures E.CountSets(calls[..i]) > 0
  {
    assert calls[..i][..i-1] == calls[..i-1];
    if j < i - 1 { SetIsCounted(calls, i - 1, j); }
  }

  // ------------------------------------------------------ how an undisturbed run ends

  /** After so many setter calls, this is the status. */
  ghost predicate Reads(answers: Answers, k: nat, s: E.Status) {
    answers(k, false).Says? && answers(k, false).status == s
  }

  ghost predicate SteadyAt(answers: Answers, s: E.Status, k: nat) {
    && (Reads(answers, k, E.IsOn) || Reads(answers, k, E.IsOff)) && !answers(k, true).Raises?
    && (answers(k, true).Says? ==> answers(k + 1, true).Says? && Reads(answers, k + 1, s))
  }

  /** Once a setter call has returned, all others return too, and the status is s. */
  ghost predicate Steady(answers: Answers, s: E.Status) {
    forall k: nat :: SteadyAt(answers, s, k)
  }

  /** The first setter call returns and the status is on then; "off" may also be the answer to
      begin with. */
  ghost predicate Succeeds(answers: Answers, action: E.Action, s: E.Status) {
    if action == E.On then answers(0, true).Says? && s == E.IsOn
    else answers(0, true).Says? || Reads(answers, 0, E.IsOff)
  }

  lemma {:induction false} SteadyFrom(answers: Answers, s: E.Status, k: nat)
    requires Steady(answers, s) && answers(0, true).Says?
    ensures answers(k, true).Says?
  {
    if k > 0 {
      SteadyFrom(answers, s, k - 1);
      assert SteadyAt(answers, s, k - 1);
    }
  }

  /** What the last reading is. */
  lemma LastReading(t: seq<E.Event>, plugs: seq<string>, s: E.Status)
    requires |plugs| == 1 && E.EndsWithSweep(t, plugs, s)
    ensures t != [] && t[|t|-1] == E.Get(plugs[0], s)
  {
    var i := |t| - 1;
    var sts: seq<E.Status> :| |sts| == 1 && t[i..i+1] == E.Sweep(plugs, sts) && E.LastNonOff(sts) == s;
    assert sts == [sts[0]] && E.LastNonOff(sts[..0]) == E.IsOff;
    assert t[i] == t[i..i+1][0] == E.Get(plugs[0], sts[0]);
  }

  lemma OneReading(t: seq<E.Event>, plugs: seq<string>, s: E.Status)
    requires |plugs| == 1 && t != [] && t[0] == E.Get(plugs[0], s)
    ensures E.SweepAt(t, 0, plugs, s)
  {
    assert t[0..0+1] == E.Sweep(plugs, [s]);
    assert E.LastNonOff([s][..0]) == E.IsOff;
  }

  /** The status read last: after a setter call the steady one. */
  lemma ReadLast(calls: seq<E.Event>, told: seq<E.Reply>, answers: Answers, s: E.Status)
    requires Told(calls, told) && Agrees(calls, told, answers) && Steady(answers, s)
    requires |told| == |calls| > 0 && calls[|calls|-1].Get?
    ensures var i := |calls| - 1; var k := SetsBefore(calls, i);
            && Reads(answers, k, calls[i].status) && calls[i].status != E.Unknown
            && (k > 0 ==> calls[i].status == s && answers(0, true).Says?)
            && (E.SomeSet(calls) ==> k > 0)
  {
    var i := |calls| - 1;
    var k := SetsBefore(calls, i);
    assert AgreesAt(calls, told, answers, i) && E.Records(calls[i], told[i]);
    assert SteadyAt(answers, s, k);
    if E.SomeSet(calls) {
      var j :| 0 <= j < |calls| && calls[j].Set?;
      SetIsCounted(calls, i, j);
    }
    if k > 0 {
      var j := SetterCall(calls, i, k - 1);
      assert AgreesAt(calls, told, answers, j) && SteadyAt(answers, s, k - 1);
      var first := SetterCall(calls, i, 0);
      assert AgreesAt(calls, told, answers, first) && SteadyAt(answers, s, 0);
    }
  }

  /** How a run in success ends: the action has been read last, and "on" has called the setter. */
  ghost predicate Concluded(calls: seq<E.Event>, action: E.Action) {
    && calls != [] && calls[|calls|-1].Get? && calls[|calls|-1].status == E.Target(action)
    && (action == E.On ==> E.SomeSet(calls))
  }

  /** What the engine records is what it has been told. */
  lemma ToldByEngine(engine: E.Engine, action: E.Action)
    requires engine.Valid() && IsAgents(engine.cfg) && action in {E.On, E.Off} && engine.Restrained(action)
    ensures Told(engine.trace, engine.script[..engine.pos])
    ensures forall i | 0 <= i < |engine.trace| :: !engine.trace[i].Try?
  {
  }

  /** In a run that ends in success every call has returned. */
  lemma SuccessIsConcluded(engine: E.Engine, action: E.Action)
    requires engine.Ready() && IsAgents(engine.cfg) && action in {E.On, E.Off}
    requires engine.Achieved(action, E.Returned(0))
    ensures Concluded(engine.trace, action)
    ensures var told := engine.script[..engine.pos];
            |told| == |engine.trace| && (AllButLast(told) ==> AllSaid(told))
  {
    LastReading(engine.trace, engine.cfg.plugs, E.Target(action));
    assert E.Records(engine.trace[engine.pos-1], engine.script[engine.pos-1]);
  }

  /** The run ends in success only if it is to. */
  lemma ReturnedMeans(calls: seq<E.Event>, told: seq<E.Reply>, action: E.Action, answers: Answers, s: E.Status)
    requires Told(calls, told) && |told| == |calls| && Concluded(calls, action) && action in {E.On, E.Off}
    requires Agrees(calls, told, answers) && Steady(answers, s)
    ensures Succeeds(answers, action, s)
  {
    ReadLast(calls, told, answers, s);
    assert SteadyAt(answers, s, 0);
  }

  /** A run that is to end in success ends otherwise only when it is killed. */
  lemma AbortedMeans(engine: E.Engine, action: E.Action, answers: Answers, s: E.Status, r: E.Outcome)
    requires engine.Valid() && IsAgents(engine.cfg) && action in {E.On, E.Off}
    requires engine.Achieved(action, r) && engine.Already(action, r) && engine.Failed(action, r) && r != E.Returned(0)
    requires Steady(answers, s) && (action == E.Off ==> s == E.IsOff) && Succeeds(answers, action, s)
    requires Agrees(engine.trace, engine.script[..engine.pos], answers)
    ensures engine.Killed()
  {
    var calls, told := engine.trace, engine.script[..engine.pos];
    if !engine.Killed() {
      FirstReading(engine, action, answers, s, r);
      if engine.Ended() || engine.Threw() {
        LastAnswer(calls, told, answers, s);
      } else {
        LastMiss(engine, action, answers, s, r);
      }
    }
  }

  /** Nor does the engine give up. */
  lemma LastMiss(engine: E.Engine, action: E.Action, answers: Answers, s: E.Status, r: E.Outcome)
    requires engine.Valid() && IsAgents(engine.cfg) && action in {E.On, E.Off}
    requires Steady(answers, s) && s == E.Target(action) && r == E.Aborted
    requires Agrees(engine.trace, engine.script[..engine.pos], answers)
    requires engine.Failed(action, r)
    ensures engine.Ended() || engine.Threw()
  {
    var calls, told := engine.trace, engine.script[..engine.pos];
    if !engine.Ended() && !engine.Threw() {
      assert engine.Ready();
      if E.EndsWithSweep(calls, engine.cfg.plugs, E.Unknown) {
        LastReading(calls, engine.cfg.plugs, E.Unknown);
      } else {
        var other :| other != E.Target(action) && E.EndsWithSweep(calls, engine.cfg.plugs, other);
        LastReading(calls, engine.cfg.plugs, other);
      }
      ReadLast(calls, told, answers, s);
    }
  }

  /** When "off" is the answer to begin with, nothing else is done; otherwise the setter returns. */
  lemma FirstReading(engine: E.Engine, action: E.Action, answers: Answers, s: E.Status, r: E.Outcome)
    requires engine.Valid() && IsAgents(engine.cfg) && action in {E.On, E.Off}
    requires engine.Already(action, r) && r != E.Returned(0) && engine.script != []
    requires Steady(answers, s) && Succeeds(answers, action, s)
    requires Agrees(engine.trace, engine.script[..engine.pos], answers)
    ensures answers(0, true).Says? && engine.pos > 0
  {
    var calls, told := engine.trace, engine.script[..engine.pos];
    assert SteadyAt(answers, s, 0);
    if !answers(0, true).Says? {
      assert told[0] == engine.script[0] && AgreesAt(calls, told, answers, 0);
      assert SetsBefore(calls, 0) == 0;
      OneReading(calls, engine.cfg.plugs, E.IsOff);
    }
  }

  /** No answer ends the program. */
  lemma LastAnswer(calls: seq<E.Event>, told: seq<E.Reply>, answers: Answers, s: E.Status)
    requires told != [] && Steady(answers, s) && answers(0, true).Says? && Agrees(calls, told, answers)
    ensures told[|told|-1].Says?
  {
    var i := |told| - 1;
    var k := SetsBefore(calls, i);
    assert AgreesAt(calls, told, answers, i) && SteadyAt(answers, s, k);
    SteadyFrom(answers, s, k);
  }

  /** How the run ends: in success only if it is to, and otherwise, when it is to, by being
      killed. */
  lemma EndMeans(engine: E.Engine, action: E.Action, answers: Answers, s: E.Status, r: E.Outcome)
    requires engine.Valid() && IsAgents(engine.cfg) && action in {E.On, E.Off}
    requires engine.Achieved(action, r) && engine.Already(action, r) && engine.Failed(action, r)
    requires r.Returned? ==> engine.Ready()
    requires Steady(answers, s) && (action == E.Off ==> s == E.IsOff)
    requires Agrees(engine.trace, engine.script[..engine.pos], answers)
    ensures r == E.Returned(0) ==> Succeeds(answers, action, s)
    ensures Succeeds(answers, action, s) ==> r == E.Returned(0) || engine.Killed()
  {
    if r == E.Returned(0) {
      SuccessIsConcluded(engine, action);
      ReturnedMeans(engine.trace, engine.script[..engine.pos], action, answers, s);
    } else if Succeeds(answers, action, s) {
      AbortedMeans(engine, action, answers, s, r);
    }
  }

  /** The first i replies agree. */
  ghost predicate AgreesUpTo(calls: seq<E.Event>, told: seq<E.Reply>, answers: Answers, i: nat)
    requires i <= |told|
  {
    forall j | 0 <= j < i :: AgreesAt(calls, told, answers, j)
  }

  /** One reply more. */
  lemma AgreesNext(calls: seq<E.Event>, told: seq<E.Reply>, answers: Answers, i: nat)
    requires i < |told| && AgreesUpTo(calls, told, answers, i)
    ensures AgreesAt(calls, told, answers, i) <==> AgreesUpTo(calls, told, answers, i + 1)
    ensures Agrees(calls, told, answers) ==> AgreesAt(calls, told, answers, i)
    ensures AgreesAt(calls, told, answers, i) && i + 1 == |told| ==> Agrees(calls, told, answers)
  {
  }

  // --------------------------------------------------- what the calls have established

  /** What is known after calls that have all returned. */
  ghost predicate Known(fabric: Fabric, luns: seq<nat>, key: string, action: E.Action, calls: seq<E.Event>, n: nat)
    requires fabric.Valid()
    reads fabric
  {
    && (E.SomeSet(calls) ==> forall j | 0 <= j < |luns| :: Reserved(fabric.luns, luns[j]))
    && (E.SomeSet(calls) && action == E.On && KeyedSan(fabric.states[0]) ==>
          (luns == [] || key == fabric.node) && forall j | 0 <= j < |luns| :: luns[j] in fabric.confirmed)
    && (action != E.On && calls != [] && calls[|calls|-1].Get? && calls[|calls|-1].status == E.IsOff ==>
          GoneFrom(fabric, luns, |luns|, key, n))
  }

  lemma KnownAfterGet(fabric: Fabric, t: seq<Step>, s: seq<San>, calls: seq<E.Event>, e: E.Event)
    requires fabric.Since(t, s) && |s| == |t| + 1 && e.Get?
    ensures E.SomeSet(calls + [e]) <==> E.SomeSet(calls)
    ensures forall l :: Reserved(s[|t|], l) ==> Reserved(fabric.luns, l)
  {
    fabric.KeepsReserved(t, s);
    assert forall i | 0 <= i < |calls| :: (calls + [e])[i] == calls[i];
    if E.SomeSet(calls) {
      var i :| 0 <= i < |calls| && calls[i].Set?;
      assert (calls + [e])[i].Set?;
    }
  }

  /** What success of the engine means when its replies have been the answers of the agent:
      - after "off", no device has the key as long as its node is silent; unless "off" was
        the answer to begin with, every device is reserved as well;
      - after "on", every device is reserved and, unless somebody preempts it, this node is
        registered on all. */
  ghost predicate Success(fabric: Fabric, luns: seq<nat>, key: string, action: E.Action, calls: seq<E.Event>, n: nat)
    requires fabric.Valid()
    reads fabric
  {
    && (action != E.On ==> GoneFrom(fabric, luns, |luns|, key, n))
    && (action == E.On || E.SomeSet(calls) ==> forall j | 0 <= j < |luns| :: Reserved(fabric.luns, luns[j]))
    && (action == E.On && KeyedSan(fabric.states[0]) && NobodyPreempts(fabric.trace, fabric.node) ==>
          forall j | 0 <= j < |luns| :: Holds(fabric.luns, luns[j], key))
  }

  lemma KnownIsSuccess(fabric: Fabric, luns: seq<nat>, key: string, action: E.Action, calls: seq<E.Event>, n: nat)
    requires fabric.Valid() && action in {E.On, E.Off}
    requires Concluded(calls, action) && Known(fabric, luns, key, action, calls, n)
    ensures Success(fabric, luns, key, action, calls, n)
  {
    if action == E.On && KeyedSan(fabric.states[0]) {
      ConfirmedHold(fabric, luns);
    }
  }
}
