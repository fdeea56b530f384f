/** What fence_scsi and fence_mpath do alike to a logical unit, reached through a block
    device. */
module PrAgent {
  import opened Ascii
  import opened ScsiTarget
  import opened PrFabric
  import opened Wrappers

  /** key names this node's own key, in either case. */
  ghost predicate IsOwnKey(fabric: Fabric, key: string) {
    Lower(key) == fabric.node && Canonical(fabric.node) && fabric.node != ZERO_KEY
  }

  /** The nexus commands take while multipath keeps to one path. */
  function Usual(fabric: Fabric, b: BlockDev): Nexus {
    Nexus(fabric.node, fabric.Via(b, 0))
  }

  /** PREEMPT and PREEMPT AND ABORT of key under this node's hostKey. */
  method PreemptKey(fabric: Fabric, lun: nat, b: BlockDev, hostKey: string, key: string) returns (ok: bool)
    requires fabric.Valid() && !fabric.dead && lun in fabric.luns
    modifies fabric
    ensures fabric.failures == old(fabric.failures) + if ok then 0 else 1
    ensures fabric.Since(old(fabric.trace), old(fabric.states)) && !fabric.dead && fabric.luns.Keys == old(fabric.luns).Keys
    ensures old(fabric.confirmed) - {lun} <= fabric.confirmed
    ensures fabric.Quiet() ==>
              ValidSan(old(fabric.luns)) && (
              var r := Apply(old(fabric.luns)[lun], Preempt(Usual(fabric, b), Lower(hostKey), Lower(key)));
              fabric.luns == old(fabric.luns)[lun := r.0] && ok == r.1)
  {
    fabric.SamePath(b, fabric.clock);
    ok := fabric.Send(lun, Preempt(Nexus(fabric.node, fabric.Via(b, fabric.clock)), Lower(hostKey), Lower(key)));
  }

  method ReserveDev(fabric: Fabric, lun: nat, b: BlockDev, key: string) returns (ok: bool)
    requires fabric.Valid() && !fabric.dead && lun in fabric.luns
    modifies fabric
    ensures fabric.failures == old(fabric.failures) + if ok then 0 else 1
    ensures fabric.Since(old(fabric.trace), old(fabric.states)) && !fabric.dead && fabric.luns.Keys == old(fabric.luns).Keys
    ensures old(fabric.confirmed) <= fabric.confirmed
    ensures ok ==> Reserved(fabric.luns, lun)
    ensures fabric.Quiet() ==>
              ValidSan(old(fabric.luns)) && (
              var r := Apply(old(fabric.luns)[lun], Reserve(Usual(fabric, b), Lower(key)));
              fabric.luns == old(fabric.luns)[lun := r.0] && ok == r.1)
  {
    fabric.SamePath(b, fabric.clock);
    ok := fabric.Send(lun, Reserve(Nexus(fabric.node, fabric.Via(b, fabric.clock)), Lower(key)));
  }

  /** The last part of a round for "on": a reservation that exists is left alone, and another
      node may be faster. */
  method EnsureReserved(fabric: Fabric, lun: nat, b: BlockDev, key: string) returns (r: Reply)
    requires fabric.Valid() && !fabric.dead && lun in fabric.luns
    modifies fabric
    ensures fabric.Since(old(fabric.trace), old(fabric.states)) && (r.Answer? ==> !fabric.dead) && fabric.luns.Keys == old(fabric.luns).Keys
    ensures old(fabric.confirmed) <= fabric.confirmed
    ensures r.Answer? ==> (r.ok <==> Reserved(fabric.luns, lun))
    ensures fabric.Quiet() && Canonical(key) && HoldsKey(old(fabric.luns)[lun], Usual(fabric, b), key) ==> (
              && r == Answer(true)
              && fabric.luns == old(fabric.luns)[lun := var lu := old(fabric.luns)[lun];
                                  if lu.holder.None? then lu.(holder := Some(Usual(fabric, b))) else lu])
  {
    var ok, holder := fabric.ReadReservation(lun, true);
    if !ok { return Exit; }
    if holder.None? {
      var reserved := ReserveDev(fabric, lun, b, key);
      if !reserved {
        ok, holder := fabric.ReadReservation(lun, true);
        if !ok { return Exit; }
        if holder.None? { return Answer(false); }
      }
    }
    return Answer(true);
  }

  /** The unit exists and somebody is registered under the key. */
  ghost predicate Holds(san: San, lun: nat, key: string) {
    lun in san && san[lun].HasKey(key)
  }

  /** Where all nodes use their own keys, only a key in lower case is ever found. */
  lemma FoundIsCanonical(fabric: Fabric, lun: nat, key: string)
    requires fabric.Valid() && KeyedSan(fabric.states[0]) && Holds(fabric.luns, lun, key)
    ensures Canonical(key)
  {
    RunStaysKeyed(fabric.states, fabric.trace, |fabric.trace|);
  }

  /** The units this node has seen its own key on still have it while nobody preempts it. */
  lemma ConfirmedHold(fabric: Fabric, luns: seq<nat>)
    requires fabric.Valid() && forall i | 0 <= i < |luns| :: luns[i] in fabric.confirmed
    ensures KeyedSan(fabric.states[0]) && NobodyPreempts(fabric.trace, fabric.node) ==>
              forall i | 0 <= i < |luns| :: Holds(fabric.luns, luns[i], fabric.node)
  {
  }

  /** The first i units have passed the loop for "on". */
  ghost predicate Unfenced(fabric: Fabric, luns: seq<nat>, i: nat, key: string)
    requires fabric.Valid() && i <= |luns|
    reads fabric
  {
    && (forall j | 0 <= j < i :: Reserved(fabric.luns, luns[j]))
    && (Canonical(key) ==> forall j | 0 <= j < i :: luns[j] in fabric.confirmed)
    && (i > 0 && KeyedSan(fabric.states[0]) ==> Canonical(key))
  }

  lemma UnfencedHold(fabric: Fabric, luns: seq<nat>, key: string)
    requires fabric.Valid() && IsOwnKey(fabric, key) && Unfenced(fabric, luns, |luns|, key)
    ensures KeyedSan(fabric.states[0]) && NobodyPreempts(fabric.trace, fabric.node) ==>
              forall i | 0 <= i < |luns| :: Holds(fabric.luns, luns[i], key)
  {
    if luns != [] && KeyedSan(fabric.states[0]) { ConfirmedHold(fabric, luns); }
  }

  // ------------------------------------------------------------------ asking for a key

  /** The key is gone from the first i units, as long as its node has been silent since
      step n. */
  ghost predicate GoneFrom(fabric: Fabric, luns: seq<nat>, i: nat, key: string, n: nat)
    requires i <= |luns|
    reads fabric
  {
    Silent(fabric.trace, n, |fabric.trace|, key) ==> forall j | 0 <= j < i :: KeyGone(fabric.luns, luns[j], key)
  }

  /** Whether the unit reports the key; None when the agent ends. */
  method Ask(fabric: Fabric, lun: nat, key: string) returns (has: Option<bool>)
    requires fabric.Valid() && !fabric.dead && lun in fabric.luns
    modifies fabric
    ensures fabric.failures == old(fabric.failures)
    ensures fabric.Since(old(fabric.trace), old(fabric.states)) && (fabric.dead <==> has.None?) && fabric.luns.Keys == old(fabric.luns).Keys
    ensures old(fabric.confirmed) <= fabric.confirmed
    ensures has.Some? ==> (has.value <==> fabric.luns[lun].HasKey(key))
    ensures has == Some(true) && key == fabric.node ==> lun in fabric.confirmed
    ensures has == Some(true) && KeyedSan(fabric.states[0]) ==> Canonical(key)
    ensures fabric.Quiet() ==> fabric.luns == old(fabric.luns) && has.Some?
  {
    var keys := fabric.ReadKeys(lun);
    if keys.None? { return None; }
    if key in keys.value && KeyedSan(fabric.states[0]) { FoundIsCanonical(fabric, lun, key); }
    return Some(key in keys.value);
  }

  /** Whether unit number i reports the key; None when the agent ends. */
  method AskNext(fabric: Fabric, luns: seq<nat>, i: nat, key: string, ghost n: nat) returns (has: Option<bool>)
    requires fabric.Valid() && !fabric.dead && i < |luns| && luns[i] in fabric.luns && n <= |fabric.trace|
    modifies fabric
    ensures fabric.Since(old(fabric.trace), old(fabric.states)) && (fabric.dead <==> has.None?) && fabric.luns.Keys == old(fabric.luns).Keys
    ensures old(fabric.confirmed) <= fabric.confirmed
    ensures has == Some(false) && old(GoneFrom(fabric, luns, i, key, n)) ==> GoneFrom(fabric, luns, i + 1, key, n)
    ensures has == Some(true) && key == fabric.node ==> luns[i] in fabric.confirmed
    ensures fabric.Quiet() ==> fabric.luns == old(fabric.luns) && has == Some(fabric.luns[luns[i]].HasKey(key))
  {
    ghost var t, s := fabric.trace, fabric.states;
    has := Ask(fabric, luns[i], key);
    fabric.Keeps(t, s);
    fabric.StillSilent(t, n, key);
  }

  // ----------------------------------------------------------------------- verifying

  ghost predicate Clean(san: San, lun: nat, key: string) {
    KeyGone(san, lun, key) && Reserved(san, lun)
  }

  ghost predicate AllClean(san: San, luns: seq<nat>, n: nat, key: string)
    requires n <= |luns|
  {
    forall i | 0 <= i < n :: Clean(san, luns[i], key)
  }

  /** One round of the second loop for "off"; false adds to the failure count. */
  method Verify(fabric: Fabric, lun: nat, key: string) returns (r: Reply)
    requires fabric.Valid() && !fabric.dead && lun in fabric.luns
    modifies fabric
    ensures fabric.Since(old(fabric.trace), old(fabric.states)) && (r.Answer? ==> !fabric.dead) && fabric.luns.Keys == old(fabric.luns).Keys
    ensures r == Answer(true) ==> Reserved(fabric.luns, lun)
    ensures r == Answer(true) && Silent(fabric.trace, |old(fabric.trace)|, |fabric.trace|, key) ==> KeyGone(fabric.luns, lun, key)
    ensures fabric.Quiet() ==> fabric.luns == old(fabric.luns) && r == Answer(Clean(fabric.luns, lun, key))
  {
    var has := Ask(fabric, lun, key);
    if has.None? { return Exit; }
    if has.value { return Answer(false); }
    ghost var t, s := fabric.trace, fabric.states;
    var ok, holder := fabric.ReadReservation(lun, true);
    if !ok { return Exit; }
    fabric.Keeps(t, s);
    return Answer(holder.Some?);
  }

  /** The first i units have passed, and stay so as long as the victim is silent. */
  ghost predicate Passed(fabric: Fabric, luns: seq<nat>, i: nat, key: string, n: nat)
    requires i <= |luns|
    reads fabric
  {
    && (forall j | 0 <= j < i :: Reserved(fabric.luns, luns[j]))
    && GoneFrom(fabric, luns, i, key, n)
  }

  method VerifyNext(fabric: Fabric, luns: seq<nat>, i: nat, key: string, ghost n: nat) returns (r: Reply)
    requires fabric.Valid() && !fabric.dead && i < |luns| && luns[i] in fabric.luns && n <= |fabric.trace|
    modifies fabric
    ensures fabric.Since(old(fabric.trace), old(fabric.states)) && (r.Answer? ==> !fabric.dead) && fabric.luns.Keys == old(fabric.luns).Keys
    ensures r == Answer(true) && old(Passed(fabric, luns, i, key, n)) ==> Passed(fabric, luns, i + 1, key, n)
    ensures fabric.Quiet() ==> fabric.luns == old(fabric.luns) && r == Answer(Clean(fabric.luns, luns[i], key))
  {
    ghost var t, s := fabric.trace, fabric.states;
    r := Verify(fabric, luns[i], key);
    fabric.Keeps(t, s);
    fabric.StillSilent(t, n, key);
  }

  /** The second loop for "off". */
  method VerifyAll(fabric: Fabric, luns: seq<nat>, key: string) returns (returned: bool)
    requires fabric.Valid() && !fabric.dead && forall i | 0 <= i < |luns| :: luns[i] in fabric.luns
    modifies fabric
    ensures fabric.Since(old(fabric.trace), old(fabric.states)) && (returned ==> !fabric.dead) && fabric.luns.Keys == old(fabric.luns).Keys
    ensures returned ==> Passed(fabric, luns, |luns|, key, |old(fabric.trace)|)
    ensures fabric.Quiet() ==> (
              && fabric.luns == old(fabric.luns)
              && (returned <==> AllClean(fabric.luns, luns, |luns|, key)))
  {
    var count := 0;
    ghost var san, n := fabric.luns, |fabric.trace|;
    for i := 0 to |luns|
      invariant !fabric.dead && fabric.Since(old(fabric.trace), old(fabric.states)) && fabric.luns.Keys == old(fabric.luns).Keys
      invariant 0 <= count
      invariant count == 0 ==> Passed(fabric, luns, i, key, n)
      invariant fabric.Quiet() ==> fabric.luns == san && (count == 0 <==> AllClean(san, luns, i, key))
    {
      var r := VerifyNext(fabric, luns, i, key, n);
      if r.Exit? { return false; }
      if !r.ok { count := count + 1; }
    }
    return count == 0;
  }
}
