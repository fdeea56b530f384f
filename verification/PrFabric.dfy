/** A cluster node's view of the shared logical units: every command the node sends is
    preceded by whatever the other nodes did meanwhile, and may be lost on the way.
    Oracles fix both, so a theorem about all fabrics is about all interleavings. */
module PrFabric {
  import opened ScsiTarget
  import opened Wrappers

  /** reported is false when the command's answer is lost or its exit code is not 0. */
  datatype Fate = Fate(delivered: bool, reported: bool)

  /** A block device as sysfs shows it: a disk (one path), or a device-mapper device
      stacked on its slaves. */
  datatype BlockDev = Disk(path: nat) | Dm(slaves: seq<BlockDev>)

  datatype Device = Device(lun: nat, block: BlockDev)

  /** The answer of a helper, or the end of the agent through fail_usage. */
  datatype Reply = Answer(ok: bool) | Exit

  class Fabric {
    const node: Key
    const env: seq<seq<Step>>
    const fate: seq<Fate>
    const route: seq<nat>
    var luns: San
    var clock: nat
    /** The run so far, of all nodes. */
    ghost var trace: seq<Step>
    ghost var states: seq<San>
    /** Units on which this node has seen its own key, and has not preempted it since. */
    ghost var confirmed: set<nat>
    /** A reading has failed that ends the agent: nothing is sent any more. */
    ghost var dead: bool
    /** How many of this node's commands have not been reported as successful. */
    ghost var failures: nat

    constructor (node: Key, env: seq<seq<Step>>, fate: seq<Fate>, route: seq<nat>, luns: San)
      requires ValidSan(luns) && LawfulOthers(env, node)
      ensures Valid() && this.node == node && this.env == env && this.fate == fate && this.route == route
      ensures this.luns == luns && states == [luns] && trace == [] && !dead && failures == 0
    {
      this.node, this.env, this.fate, this.route := node, env, fate, route;
      this.luns, clock, trace, states, confirmed, dead, failures := luns, 0, [], [luns], {}, false, 0;
    }

    /** What the other nodes do before this node's command number t. */
    function Env(t: nat): seq<Step> {
      if t < |env| then env[t] else []
    }

    function FateAt(t: nat): Fate {
      if t < |fate| then fate[t] else Fate(true, true)
    }

    function Route(t: nat): nat {
      if t < |route| then route[t] else 0
    }

    ghost predicate Valid()
      reads this
    {
      && ValidSan(luns)
      && IsRun(states, trace)
      && luns == states[|trace|]
      && LawfulOthers(env, node)
      && (KeyedSan(states[0]) && NobodyPreempts(trace, node) ==> OwnKeyOn(luns, confirmed))
    }

    ghost predicate OwnKeyOn(san: San, units: set<nat>) {
      forall l | l in units :: l in san && san[l].HasKey(node)
    }

    /** Nobody interferes, no command is lost, and multipath keeps to one path. */
    ghost predicate Quiet() {
      forall t: nat :: Env(t) == [] && FateAt(t) == Fate(true, true) && Route(t) == Route(0)
    }

    /** It is so when no other node sends anything and nothing is said of faults. */
    lemma IdleIsQuiet()
      requires (forall t | 0 <= t < |env| :: env[t] == []) && (forall t | 0 <= t < |fate| :: fate[t].delivered && fate[t].reported)
      requires forall t | 0 <= t < |route| :: route[t] == 0
      ensures Quiet()
    {
    }

    /** The run has gone on from an earlier point. */
    ghost predicate Since(t: seq<Step>, s: seq<San>)
      reads this
    {
      Valid() && t <= trace && s <= states
    }

    /** What every stretch of a run keeps, whoever sends the commands: reservations, and the
        absence of the key of a node that does not register meanwhile. */
    lemma KeepsReserved(t: seq<Step>, s: seq<San>)
      requires Since(t, s) && |s| == |t| + 1
      ensures forall l :: Reserved(s[|t|], l) ==> Reserved(luns, l)
    {
      assert states[|t|] == s[|t|];
      forall l | Reserved(s[|t|], l) ensures Reserved(luns, l) {
        ReservationIsNeverLost(states, trace, l, |t|, |trace|);
      }
    }

    lemma Keeps(t: seq<Step>, s: seq<San>)
      requires Since(t, s) && |s| == |t| + 1
      ensures forall l :: Reserved(s[|t|], l) ==> Reserved(luns, l)
      ensures forall l, k | Silent(trace, |t|, |trace|, k) :: KeyGone(s[|t|], l, k) ==> KeyGone(luns, l, k)
    {
      KeepsReserved(t, s);
      assert states[|t|] == s[|t|];
      forall l, k | Silent(trace, |t|, |trace|, k) && KeyGone(s[|t|], l, k) ensures KeyGone(luns, l, k) {
        KeyStaysGone(states, trace, l, |t|, |trace|, k);
      }
    }

    lemma StillSilent(t: seq<Step>, n: nat, k: Key)
      requires n <= |t| && t <= trace
      ensures Silent(trace, n, |trace|, k) ==>
                Silent(t, n, |t|, k) && Silent(trace, |t|, |trace|, k)
    {
      assert forall m | 0 <= m < |t| :: t[m] == trace[m];
    }

    /** The path a command on block device b takes now. */
    function Via(b: BlockDev, t: nat): nat {
      match b
      case Disk(p) => p
      case Dm(slaves) => if slaves == [] then 0 else Via(slaves[if Route(t) < |slaves| then Route(t) else 0], t)
    }

    lemma {:induction false} SamePath(b: BlockDev, t: nat)
      ensures Quiet() ==> Via(b, t) == Via(b, 0)
    {
      if Quiet() && b.Dm? && b.slaves != [] {
        SamePath(b.slaves[if Route(t) < |b.slaves| then Route(t) else 0], t);
      }
    }

    /** One step of the run. */
    method Take(step: Step)
      requires Valid() && Lawful(step.cmd)
      modifies this
      ensures Since(old(trace), old(states)) && trace == old(trace) + [step]
      ensures ValidSan(old(luns)) && luns == Exec(old(luns), step)
      ensures clock == old(clock) && dead == old(dead) && failures == old(failures)
      ensures confirmed == if PreemptsOwn(step.cmd) then old(confirmed) - {step.lun} else old(confirmed)
    {
      if PreemptsOwn(step.cmd) {
        confirmed := confirmed - {step.lun};
      }
      TakeKeepsOwnKey(step, confirmed);
      luns := Exec(luns, step);
      ghost var t, s := trace, states;
      trace := trace + [step];
      states := states + [luns];
      forall i | 0 <= i < |trace|
        ensures Lawful(trace[i].cmd) && ValidSan(states[i]) && states[i+1] == Exec(states[i], trace[i])
      {
        if i < |t| {
          assert trace[i] == t[i] && states[i] == s[i] && states[i+1] == s[i+1];
        }
      }
    }

    predicate PreemptsOwn(c: Command) {
      c.Preempt? && c.n.node == node && c.sark == node
    }

    lemma TakeKeepsOwnKey(step: Step, units: set<nat>)
      requires Valid() && Lawful(step.cmd) && units <= confirmed
      requires PreemptsOwn(step.cmd) ==> step.lun !in units
      ensures KeyedSan(states[0]) && NobodyPreempts(trace + [step], node) ==> OwnKeyOn(Exec(luns, step), units)
    {
      if KeyedSan(states[0]) && NobodyPreempts(trace + [step], node) {
        assert NobodyPreempts(trace, node) by {
          assert forall i | 0 <= i < |trace| :: trace[i] == (trace + [step])[i];
        }
        assert (trace + [step])[|trace|] == step;
        RunStaysKeyed(states, trace, |trace|);
        if step.lun in units {
          ApplyKeepsOwnKey(luns[step.lun], step.cmd, node);
        }
      }
    }

    /** The others' turn. */
    method Wait()
      requires Valid()
      modifies this
      ensures Since(old(trace), old(states)) && confirmed == old(confirmed) && dead == old(dead) && failures == old(failures)
      ensures trace == old(trace) + Env(old(clock)) && clock == old(clock) + 1
      ensures luns.Keys == old(luns).Keys
      ensures Env(old(clock)) == [] ==> luns == old(luns)
    {
      var others := Env(clock);
      clock := clock + 1;
      for i := 0 to |others|
        invariant Since(old(trace), old(states)) && confirmed == old(confirmed) && dead == old(dead) && failures == old(failures)
        invariant trace == old(trace) + others[..i] && clock == old(clock) + 1
        invariant luns.Keys == old(luns).Keys
        invariant i == 0 ==> luns == old(luns)
      {
        assert others == env[clock-1] && LawfulTurn(others, node);
        assert others[..i+1] == others[..i] + [others[i]];
        Take(others[i]);
      }
      assert others[..|others|] == others;
    }

    /** Sends one PERSISTENT RESERVE OUT command. */
    method Send(lun: nat, cmd: Command) returns (ok: bool)
      requires Valid() && lun in luns && Lawful(cmd) && !dead
      requires cmd.n.node == node
      modifies this
      ensures Since(old(trace), old(states)) && luns.Keys == old(luns).Keys
      ensures !dead && failures == old(failures) + if ok then 0 else 1
      ensures confirmed == old(confirmed) || (PreemptsOwn(cmd) && confirmed == old(confirmed) - {lun})
      ensures var f := FateAt(old(clock)); var before := |old(trace)| + |Env(old(clock))|;
              && trace == old(trace) + Env(old(clock)) + (if f.delivered then [Step(lun, cmd)] else [])
              && lun in states[before] && ValidSan(states[before])
              && (f.delivered ==> luns == Exec(states[before], Step(lun, cmd)))
              && ok == (f == Fate(true, true) && Apply(states[before][lun], cmd).1)
      ensures Quiet() ==> ValidSan(old(luns)) && luns == Exec(old(luns), Step(lun, cmd)) && ok == Apply(old(luns)[lun], cmd).1
    {
      var f := FateAt(clock);
      Wait();
      ok := f == Fate(true, true) && Apply(luns[lun], cmd).1;
      if f.delivered {
        Take(Step(lun, cmd));
      }
      if !ok { failures := failures + 1; }
    }

    /** PERSISTENT RESERVE IN with READ KEYS; None when the command fails. */
    method ReadKeys(lun: nat) returns (keys: Option<set<Key>>)
      requires Valid() && lun in luns && !dead
      modifies this
      ensures Since(old(trace), old(states)) && luns.Keys == old(luns).Keys && old(confirmed) <= confirmed
      ensures trace == old(trace) + Env(old(clock)) && clock == old(clock) + 1 && (keys.Some? <==> FateAt(old(clock)) == Fate(true, true))
      ensures (dead <==> keys.None?) && failures == old(failures)
      ensures keys.Some? ==> forall k :: k in keys.value <==> luns[lun].HasKey(k)
      ensures keys.Some? && node in keys.value ==> lun in confirmed
      ensures Quiet() ==> luns == old(luns) && keys.Some?
    {
      var f := FateAt(clock);
      Wait();
      keys := if f == Fate(true, true) then Some(luns[lun].regs.Values) else None;
      dead := keys.None?;
      if keys.Some? && node in keys.value {
        confirmed := confirmed + {lun};
      }
    }

    /** PERSISTENT RESERVE IN with READ RESERVATION; with fatal, the agent ends when it fails. */
    method ReadReservation(lun: nat, fatal: bool) returns (ok: bool, key: Option<Key>)
      requires Valid() && lun in luns && !dead
      modifies this
      ensures Since(old(trace), old(states)) && luns.Keys == old(luns).Keys && confirmed == old(confirmed)
      ensures trace == old(trace) + Env(old(clock)) && clock == old(clock) + 1 && (ok <==> FateAt(old(clock)) == Fate(true, true))
      ensures (dead <==> fatal && !ok) && failures == old(failures)
      ensures luns[lun].Valid() && key == if ok then luns[lun].HolderKey() else None
      ensures Quiet() ==> luns == old(luns) && ok
    {
      ok := FateAt(clock) == Fate(true, true);
      Wait();
      key := if ok then luns[lun].HolderKey() else None;
      dead := fatal && !ok;
    }
  }

  ghost predicate LawfulTurn(steps: seq<Step>, node: Key) {
    forall i | 0 <= i < |steps| :: Lawful(steps[i].cmd) && steps[i].cmd.n.node != node
  }

  ghost predicate LawfulOthers(env: seq<seq<Step>>, node: Key) {
    forall t | 0 <= t < |env| :: LawfulTurn(env[t], node)
  }

  /** No other node preempts this one. */
  ghost predicate NobodyPreempts(steps: seq<Step>, node: Key) {
    forall i | 0 <= i < |steps| :: steps[i].cmd.Preempt? && steps[i].cmd.sark == node ==> steps[i].cmd.n.node == node
  }

  lemma ApplyKeepsOwnKey(lu: Lu, c: Command, node: Key)
    requires lu.Valid() && lu.Keyed() && lu.HasKey(node)
    requires Lawful(c) && (c.Preempt? ==> c.sark != node)
    ensures Apply(lu, c).0.HasKey(node)
  {
    var n :| n in lu.regs && lu.regs[n] == node;
    var r := Apply(lu, c).0;
    assert n in r.regs && r.regs[n] == node;
  }
}
