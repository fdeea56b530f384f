/** A logical unit with SCSI-3 persistent reservations (SPC-3, sections 5.6 and 6.12),
    as far as fence_scsi and fence_mpath use it.  The only reservation type is 5,
    Write Exclusive - Registrants Only, so there is at most one holder. */
module ScsiTarget {
  import opened Ascii
  import opened Wrappers

  /** A reservation key in the form the target reports it: lower-case hexadecimal
      without leading zeros.  The empty text is the key 0. */
  type Key = string

  const ZERO_KEY: Key := ""

  /** The form in which a target reports a key. */
  predicate Canonical(k: string) {
    Lower(k) == k
  }

  /** An I_T nexus: one path of one cluster node.  Every node has a key of its own, so a
      node is named by its key. */
  datatype Nexus = Nexus(node: Key, path: nat)

  datatype Lu = Lu(regs: map<Nexus, Key>, holder: Option<Nexus>) {

    ghost predicate Valid() {
      holder.Some? ==> holder.value in regs
    }

    predicate HasKey(k: Key) {
      exists n | n in regs :: regs[n] == k
    }

    /** What READ RESERVATION reports. */
    function HolderKey(): Option<Key>
      requires Valid()
    {
      if holder.Some? then Some(regs[holder.value]) else None
    }

    /** Write Exclusive - Registrants Only: who may write (SPC-3, table 31). */
    predicate MayWrite(n: Nexus) {
      holder.None? || n in regs
    }

    /** Every nexus is registered under the key of its own node. */
    ghost predicate Keyed() {
      forall n | n in regs :: regs[n] == n.node && n.node != ZERO_KEY && Canonical(n.node)
    }
  }

  /** PERSISTENT RESERVE OUT service actions.  PREEMPT AND ABORT changes the
      registrations and the reservation exactly as PREEMPT does. */
  datatype Command =
    | RegisterIgnore(n: Nexus, sark: Key)
    | Register(n: Nexus, rk: Key, sark: Key)
    | Reserve(n: Nexus, rk: Key)
    | Preempt(n: Nexus, rk: Key, sark: Key)

  function SetKey(lu: Lu, n: Nexus, sark: Key): Lu {
    if sark != ZERO_KEY then lu.(regs := lu.regs[n := sark])
    else Lu(lu.regs - {n}, if lu.holder == Some(n) then None else lu.holder)
  }

  /** Registrations with key k, those of n excepted, are gone. */
  function Purge(regs: map<Nexus, Key>, k: Key, keep: set<Nexus>): map<Nexus, Key> {
    map m | m in regs && (regs[m] != k || m in keep) :: regs[m]
  }

  /** The effect of one command, and whether its status is GOOD. */
  function Apply(lu: Lu, c: Command): (r: (Lu, bool))
    requires lu.Valid()
  {
    match c
    case RegisterIgnore(n, sark) => (SetKey(lu, n, sark), true)
    case Register(n, rk, sark) =>
      if (if n in lu.regs then lu.regs[n] else ZERO_KEY) == rk
      then (SetKey(lu, n, sark), true)
      else (lu, false)
    case Reserve(n, rk) =>
      if n !in lu.regs || lu.regs[n] != rk then (lu, false)
      else if lu.holder.None? then (lu.(holder := Some(n)), true)
      else (lu, lu.holder == Some(n))
    case Preempt(n, rk, sark) =>
      if n !in lu.regs || lu.regs[n] != rk || sark == ZERO_KEY || !lu.HasKey(sark) then (lu, false)
      else if lu.HolderKey() == Some(sark)
      then (Lu(Purge(lu.regs, sark, {n}), Some(n)), true)
      else (lu.(regs := Purge(lu.regs, sark, {})), true)
  }

  lemma ApplyValid(lu: Lu, c: Command)
    requires lu.Valid()
    ensures Apply(lu, c).0.Valid()
  {
  }

  /** When a command that says which key its sender is registered under is refused: when that
      is not so, when another nexus holds the reservation, or when there is nobody to preempt;
      REGISTER AND IGNORE EXISTING KEY never is. */
  lemma WhenRefused(lu: Lu, n: Nexus, rk: Key, sark: Key)
    requires lu.Valid()
    ensures Apply(lu, RegisterIgnore(n, sark)).1
    ensures Apply(lu, Register(n, rk, sark)).1 <==> (if n in lu.regs then lu.regs[n] == rk else rk == "")
    ensures Apply(lu, Reserve(n, rk)).1 <==> n in lu.regs && lu.regs[n] == rk && (lu.holder.Some? ==> lu.holder.value == n)
    ensures Apply(lu, Preempt(n, rk, sark)).1 <==> n in lu.regs && lu.regs[n] == rk && sark != "" && exists m | m in lu.regs :: lu.regs[m] == sark
    ensures forall c | c in {RegisterIgnore(n, sark), Register(n, rk, sark), Reserve(n, rk), Preempt(n, rk, sark)} && !Apply(lu, c).1 ::
              Apply(lu, c).0 == lu
  {
  }

  predicate HoldsKey(lu: Lu, n: Nexus, key: Key) {
    n in lu.regs && lu.regs[n] == key
  }

  /** The key k is removed through nexus n, which takes over a reservation held under it. */
  function Evict(lu: Lu, n: Nexus, k: Key): (r: Lu)
    requires lu.Valid() && n in lu.regs && lu.regs[n] != k
    ensures r.Valid()
  {
    Lu(Purge(lu.regs, k, {}), if lu.HolderKey() == Some(k) then Some(n) else lu.holder)
  }

  /** A preempt of somebody else's key: with a key that is not the one n is registered under,
      or of a key nobody has, it changes nothing. */
  lemma PreemptIsEvict(lu: Lu, n: Nexus, host: Key, k: Key)
    requires lu.Valid() && k != ZERO_KEY && k != host
    ensures Apply(lu, Preempt(n, host, k)) == if HoldsKey(lu, n, host) && lu.HasKey(k) then (Evict(lu, n, k), true) else (lu, false)
  {
    if HoldsKey(lu, n, host) {
      assert Purge(lu.regs, k, {n}) == Purge(lu.regs, k, {});
    }
  }

  /** Nobody has the key any more; everybody else keeps the one they had, and a reservation
      is kept too. */
  lemma EvictMeans(lu: Lu, n: Nexus, k: Key)
    requires lu.Valid() && n in lu.regs && lu.regs[n] != k
    ensures var r := Evict(lu, n, k);
            && !r.HasKey(k)
            && (forall m | m in lu.regs && lu.regs[m] != k :: HoldsKey(r, m, lu.regs[m]))
            && (r.holder.Some? <==> lu.holder.Some?)
            && (lu.Keyed() ==> r.Keyed())
  {
  }

  /** What a cluster node may send: it registers its own, non-zero key only. */
  predicate Lawful(c: Command) {
    c.RegisterIgnore? || c.Register? ==> c.sark == c.n.node && c.sark != ZERO_KEY && Canonical(c.sark)
  }

  predicate Registers(c: Command, node: Key) {
    (c.RegisterIgnore? || c.Register?) && c.n.node == node
  }

  /** No command a node sends takes the reservation away, whatever it preempts. */
  lemma ApplyKeepsReservation(lu: Lu, c: Command)
    requires lu.Valid() && Lawful(c) && lu.holder.Some?
    ensures Apply(lu, c).0.Valid() && Apply(lu, c).0.holder.Some?
  {
  }

  lemma ApplyKeepsKeyed(lu: Lu, c: Command)
    requires lu.Valid() && Lawful(c) && lu.Keyed()
    ensures Apply(lu, c).0.Keyed()
  {
  }

  // ---------------------------------------------------------------- storage network

  /** The shared logical units. */
  type San = map<nat, Lu>

  ghost predicate ValidSan(san: San) {
    forall l | l in san :: san[l].Valid()
  }

  datatype Step = Step(lun: nat, cmd: Command)

  function Exec(san: San, s: Step): (r: San)
    requires ValidSan(san)
    ensures ValidSan(r) && r.Keys == san.Keys
    ensures forall l | l in san && l != s.lun :: r[l] == san[l]
    ensures s.lun in san ==> r[s.lun] == Apply(san[s.lun], s.cmd).0
  {
    if s.lun !in san then san
    else
      ApplyValid(san[s.lun], s.cmd);
      san[s.lun := Apply(san[s.lun], s.cmd).0]
  }

  // -------------------------------------------------------------------------- runs

  /** states are those of a run of lawful steps, one interleaving of any number of nodes. */
  ghost predicate IsRun(states: seq<San>, steps: seq<Step>) {
    && |states| == |steps| + 1
    && ValidSan(states[0])
    && forall i {:trigger steps[i]} | 0 <= i < |steps| ::
         Lawful(steps[i].cmd) && ValidSan(states[i]) && states[i+1] == Exec(states[i], steps[i])
  }

  /** A reserved logical unit whose reservation holder is registered. */
  ghost predicate Reserved(san: San, lun: nat) {
    lun in san && san[lun].holder.Some? && san[lun].holder.value in san[lun].regs
  }

  /** Safety over whole runs: in every command-level interleaving, a reservation is
      never lost and its holder is always registered. */
  lemma {:induction false} ReservationIsNeverLost(states: seq<San>, steps: seq<Step>, lun: nat, i: nat, j: nat)
    requires IsRun(states, steps) && i <= j <= |steps|
    requires Reserved(states[i], lun)
    ensures Reserved(states[j], lun)
  {
    if i < j {
      ReservationIsNeverLost(states, steps, lun, i, j-1);
      var step := steps[j-1];
      assert states[j] == Exec(states[j-1], step);
      if lun == step.lun {
        ApplyKeepsReservation(states[j-1][lun], step.cmd);
      }
    }
  }

  ghost predicate KeyedSan(san: San) {
    forall l | l in san :: san[l].Keyed()
  }

  lemma {:induction false} RunStaysKeyed(states: seq<San>, steps: seq<Step>, j: nat)
    requires IsRun(states, steps) && j <= |steps|
    requires KeyedSan(states[0])
    ensures KeyedSan(states[j])
  {
    if j > 0 {
      RunStaysKeyed(states, steps, j-1);
      var step := steps[j-1];
      assert states[j] == Exec(states[j-1], step);
      if step.lun in states[j-1] {
        ApplyKeepsKeyed(states[j-1][step.lun], step.cmd);
      }
    }
  }

  /** The key k is registered by nobody on lun. */
  ghost predicate KeyGone(san: San, lun: nat, k: Key) {
    lun in san && !san[lun].HasKey(k)
  }

  /** Between steps i and j the node sends no register command. */
  ghost predicate Silent(steps: seq<Step>, i: nat, j: nat, node: Key) {
    forall m | i <= m < j && m < |steps| :: !Registers(steps[m].cmd, node)
  }

  lemma ApplyKeyGone(lu: Lu, c: Command, k: Key)
    requires lu.Valid() && !lu.HasKey(k)
    requires Lawful(c) && !Registers(c, k)
    ensures !Apply(lu, c).0.HasKey(k)
  {
    var r := Apply(lu, c).0;
    forall n | n in r.regs ensures r.regs[n] != k {
      if n in lu.regs {
        assert lu.regs[n] != k;
      }
    }
  }

  lemma {:induction false} KeyStaysGone(states: seq<San>, steps: seq<Step>, lun: nat, i: nat, j: nat, k: Key)
    requires IsRun(states, steps) && i <= j <= |steps|
    requires KeyGone(states[i], lun, k) && Silent(steps, i, j, k)
    ensures KeyGone(states[j], lun, k)
  {
    if i < j {
      KeyStaysGone(states, steps, lun, i, j-1, k);
      var step := steps[j-1];
      assert states[j] == Exec(states[j-1], step);
      if lun == step.lun {
        ApplyKeyGone(states[j-1][lun], step.cmd, k);
      }
    }
  }

  /** Exactly when a node whose key is gone is kept from writing: when there is a
      reservation. */
  lemma RefusedIffReserved(lu: Lu, victim: Nexus)
    requires lu.Valid() && lu.Keyed() && !lu.HasKey(victim.node)
    ensures !lu.MayWrite(victim) <==> lu.holder.Some?
  {
  }

  /** Once fenced, a victim stays fenced: along every continuation in which it sends no
      register command, none of its nexuses is registered and all its writes are refused. */
  lemma FencedStaysFenced(states: seq<San>, steps: seq<Step>, lun: nat, i: nat, j: nat, victim: Nexus)
    requires IsRun(states, steps) && i <= j <= |steps| && KeyedSan(states[0])
    requires Reserved(states[i], lun) && KeyGone(states[i], lun, victim.node)
    requires Silent(steps, i, j, victim.node)
    ensures lun in states[j] && victim !in states[j][lun].regs && !states[j][lun].MayWrite(victim)
  {
    ReservationIsNeverLost(states, steps, lun, i, j);
    RunStaysKeyed(states, steps, j);
    KeyStaysGone(states, steps, lun, i, j, victim.node);
  }
}
