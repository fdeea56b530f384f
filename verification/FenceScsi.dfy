/** fence_scsi: register, reserve and preempt on every shared device. */
module FenceScsi {
  import opened Ascii
  import opened ScsiTarget
  import opened PrFabric
  import opened Enrolment
  import opened PrAgent
  import opened KeyText
  import opened Wrappers

  function Luns(devices: seq<Device>): (r: seq<nat>)
    ensures |r| == |devices| && forall i | 0 <= i < |r| :: r[i] == devices[i].lun
  {
    seq(|devices|, i requires 0 <= i < |devices| => devices[i].lun)
  }

  class Agent {
    const fabric: Fabric
    /** "--mpath-register-method" is "multi". */
    const multi: bool
    /** The key file of this node. */
    var stored: Option<string>

    constructor (fabric: Fabric, multi: bool, stored: Option<string>)
      ensures this.fabric == fabric && this.multi == multi && this.stored == stored
    {
      this.fabric, this.multi, this.stored := fabric, multi, stored;
    }

    function ViaNexus(dev: Device): Nexus {
      Usual(fabric, dev.block)
    }

    /** The logical unit once register_dev has returned on an undisturbed fabric. */
    function Enrolled(lu: Lu, dev: Device, key: Key, renew: bool): Lu
      requires lu.Valid()
    {
      if multi then EnrolDev(lu, fabric.node, dev.block, key, renew)
      else Enrol(lu, ViaNexus(dev), key, renew)
    }

    method RegisterHelper(dev: Device, key: string) returns (ok: bool)
      requires fabric.Valid() && !fabric.dead && dev.lun in fabric.luns && IsOwnKey(fabric, key)
      modifies fabric
      ensures fabric.failures == old(fabric.failures) + if ok then 0 else 1
      ensures fabric.Since(old(fabric.trace), old(fabric.states)) && !fabric.dead && old(fabric.confirmed) <= fabric.confirmed && fabric.luns.Keys == old(fabric.luns).Keys
      ensures fabric.Quiet() ==> (
                && ok && ValidSan(old(fabric.luns))
                && fabric.luns == old(fabric.luns)[dev.lun := Enrol(old(fabric.luns)[dev.lun], ViaNexus(dev), Lower(key), false)])
    {
      fabric.SamePath(dev.block, fabric.clock);
      ok := fabric.Send(dev.lun, RegisterIgnore(Nexus(fabric.node, fabric.Via(dev.block, fabric.clock)), Lower(key)));
    }

    /** The second half of register_dev on one path: nexuses of the past give up the key. */
    method Renew(dev: Device, key: string, doPreempt: bool) returns (r: Reply)
      requires fabric.Valid() && !fabric.dead && dev.lun in fabric.luns && IsOwnKey(fabric, key)
      modifies fabric
      ensures r.Answer? ==> fabric.failures == old(fabric.failures) + if r.ok then 0 else 1
      ensures fabric.Since(old(fabric.trace), old(fabric.states)) && (r.Answer? ==> !fabric.dead) && old(fabric.confirmed) - {dev.lun} <= fabric.confirmed && fabric.luns.Keys == old(fabric.luns).Keys
      ensures fabric.Quiet() && Canonical(key) && HoldsKey(old(fabric.luns)[dev.lun], ViaNexus(dev), key) ==> (
                && r == Answer(true)
                && ValidSan(old(fabric.luns))
                && fabric.luns == old(fabric.luns)[dev.lun :=
                     if doPreempt then Enrol(old(fabric.luns)[dev.lun], ViaNexus(dev), key, true) else old(fabric.luns)[dev.lun]])
      ensures r.Answer?
    {
      ghost var san, n := fabric.luns, ViaNexus(dev);
      ghost var quiet := fabric.Quiet() && Canonical(key) && HoldsKey(san[dev.lun], n, key);
      if doPreempt {
        if quiet { PreemptOwn(san[dev.lun], n, key); }
        var ok := PreemptKey(fabric, dev.lun, dev.block, key, key);
        if !ok { return Answer(false); }
      }
      ghost var lu := fabric.luns[dev.lun];
      assert quiet ==> fabric.luns == san[dev.lun := lu];
      if quiet && lu.HolderKey() != Some(key) { RegisterAgain(san[dev.lun], lu, n, key, doPreempt); }
      r := RegisterIfLost(dev, key);
    }

    /** The end of register_dev: unless this key holds the reservation, the preempt may have
        removed the registration. */
    method RegisterIfLost(dev: Device, key: string) returns (r: Reply)
      requires fabric.Valid() && !fabric.dead && dev.lun in fabric.luns && IsOwnKey(fabric, key)
      modifies fabric
      ensures r.Answer? ==> fabric.failures == old(fabric.failures) + if r.ok then 0 else 1
      ensures fabric.Since(old(fabric.trace), old(fabric.states)) && (r.Answer? ==> !fabric.dead) && old(fabric.confirmed) <= fabric.confirmed && fabric.luns.Keys == old(fabric.luns).Keys
      ensures fabric.Quiet() && Canonical(key) ==> (
                && r == Answer(true)
                && ValidSan(old(fabric.luns))
                && fabric.luns == old(fabric.luns)[dev.lun := var lu := old(fabric.luns)[dev.lun];
                                    if lu.HolderKey() != Some(key) then Enrol(lu, ViaNexus(dev), key, false) else lu])
      ensures r.Answer?
    {
      var _, holder := fabric.ReadReservation(dev.lun, false);
      if holder == Some(key) { return Answer(true); }
      var ok := RegisterHelper(dev, key);
      return Answer(ok);
    }

    /** register_dev on one path: a registration that exists already may belong to a nexus
        of the past, and is replaced.  It stops at the first command that fails. */
    method RegisterPath(dev: Device, key: string, doPreempt: bool) returns (r: Reply)
      requires fabric.Valid() && !fabric.dead && dev.lun in fabric.luns && IsOwnKey(fabric, key)
      modifies fabric
      ensures r.Answer? ==> fabric.failures == old(fabric.failures) + if r.ok then 0 else 1
      ensures fabric.Since(old(fabric.trace), old(fabric.states)) && (r.Answer? ==> !fabric.dead) && old(fabric.confirmed) - {dev.lun} <= fabric.confirmed && fabric.luns.Keys == old(fabric.luns).Keys
      ensures fabric.Quiet() && Canonical(key) ==> (
                && r == Answer(true)
                && ValidSan(old(fabric.luns))
                && fabric.luns == old(fabric.luns)[dev.lun := Enrol(old(fabric.luns)[dev.lun], ViaNexus(dev), key, doPreempt)])
      ensures fabric.Quiet() ==> r.Answer?
    {
      ghost var lu := fabric.luns[dev.lun];
      var registrationKeyExists := Ask(fabric, dev.lun, key);
      if registrationKeyExists.None? { return Exit; }
      var ok := RegisterHelper(dev, key);
      if !ok { return Answer(false); }
      if registrationKeyExists.value {
        r := Renew(dev, key, doPreempt);
        if fabric.Quiet() { EnrolTwice(lu, ViaNexus(dev), key); }
      } else {
        if fabric.Quiet() && Canonical(key) { EnrolNew(lu, ViaNexus(dev), key, doPreempt); }
        return Answer(true);
      }
    }

    method RegisterDev(dev: Device, key: string, doPreempt: bool) returns (r: Reply)
      requires fabric.Valid() && !fabric.dead && dev.lun in fabric.luns && IsOwnKey(fabric, key)
      modifies fabric
      ensures fabric.Since(old(fabric.trace), old(fabric.states)) && (r.Answer? ==> !fabric.dead) && old(fabric.confirmed) - {dev.lun} <= fabric.confirmed && fabric.luns.Keys == old(fabric.luns).Keys
      ensures fabric.Quiet() && Canonical(key) && r.Answer? ==> (
                && r.ok && ValidSan(old(fabric.luns))
                && fabric.luns == old(fabric.luns)[dev.lun := Enrolled(old(fabric.luns)[dev.lun], dev, key, doPreempt)])
      ensures fabric.Quiet() && (multi ==> Whole(dev.block)) ==> r.Answer?
      decreases Size(dev.block), 1
    {
      if multi && dev.block.Dm? {
        r := RegisterSlaves(dev, key);
      } else {
        r := RegisterPath(dev, key, doPreempt);
      }
    }

    method RegisterSlaves(dev: Device, key: string) returns (r: Reply)
      requires fabric.Valid() && !fabric.dead && dev.lun in fabric.luns && IsOwnKey(fabric, key)
      requires multi && dev.block.Dm?
      modifies fabric
      ensures fabric.Since(old(fabric.trace), old(fabric.states)) && (r.Answer? ==> !fabric.dead) && old(fabric.confirmed) - {dev.lun} <= fabric.confirmed && fabric.luns.Keys == old(fabric.luns).Keys
      ensures fabric.Quiet() && Canonical(key) && r.Answer? ==> (
                && r.ok && ValidSan(old(fabric.luns))
                && fabric.luns == old(fabric.luns)[dev.lun := EnrolDev(old(fabric.luns)[dev.lun], fabric.node, dev.block, key, true)])
      ensures fabric.Quiet() && Whole(dev.block) ==> r.Answer?
      decreases Size(dev.block), 0
    {
      var slaves := GetMpathSlaves(dev.block);
      if slaves == [] { return Exit; }
      NextSlave(fabric.luns[dev.lun], fabric.node, slaves, 0, key);
      r := RegisterDev(Device(dev.lun, slaves[0]), key, true);
      if r.Exit? { return; }
      r := RegisterRest(dev.lun, slaves[1..], key);
    }

    /** The slaves after the first are registered without a preempt. */
    method RegisterRest(lun: nat, slaves: seq<BlockDev>, key: string) returns (r: Reply)
      requires fabric.Valid() && !fabric.dead && lun in fabric.luns && IsOwnKey(fabric, key) && multi
      modifies fabric
      ensures fabric.Since(old(fabric.trace), old(fabric.states)) && (r.Answer? ==> !fabric.dead) && old(fabric.confirmed) - {lun} <= fabric.confirmed && fabric.luns.Keys == old(fabric.luns).Keys
      ensures fabric.Quiet() && Canonical(key) && r.Answer? ==> (
                && r.ok && ValidSan(old(fabric.luns))
                && fabric.luns == old(fabric.luns)[lun := EnrolAll(old(fabric.luns)[lun], fabric.node, slaves, key)])
      ensures fabric.Quiet() && WholeAll(slaves) ==> r.Answer?
      decreases SizeAll(slaves), 3
    {
      ghost var san := fabric.luns;
      ghost var quiet := fabric.Quiet() && Canonical(key);
      ghost var goal := EnrolAll(san[lun], fabric.node, slaves, key);
      assert slaves[0..] == slaves;
      for i := 0 to |slaves|
        invariant !fabric.dead && fabric.Since(old(fabric.trace), old(fabric.states)) && old(fabric.confirmed) - {lun} <= fabric.confirmed && fabric.luns.Keys == old(fabric.luns).Keys
        invariant SizeAll(slaves[i..]) <= SizeAll(slaves)
        invariant fabric.Quiet() && WholeAll(slaves) ==> WholeAll(slaves[i..])
        invariant quiet ==> fabric.luns == san[lun := fabric.luns[lun]]
        invariant quiet ==> EnrolAll(fabric.luns[lun], fabric.node, slaves[i..], key) == goal
      {
        r := RegisterNext(lun, slaves, i, key, goal);
        if r.Exit? { return; }
      }
      return Answer(true);
    }

    method RegisterNext(lun: nat, slaves: seq<BlockDev>, i: nat, key: string, ghost goal: Lu) returns (r: Reply)
      requires fabric.Valid() && !fabric.dead && lun in fabric.luns && IsOwnKey(fabric, key) && multi
      requires i < |slaves|
      requires fabric.Quiet() && Canonical(key) ==> EnrolAll(fabric.luns[lun], fabric.node, slaves[i..], key) == goal
      modifies fabric
      ensures fabric.Since(old(fabric.trace), old(fabric.states)) && (r.Answer? ==> !fabric.dead) && old(fabric.confirmed) - {lun} <= fabric.confirmed && fabric.luns.Keys == old(fabric.luns).Keys
      ensures SizeAll(slaves[i+1..]) < SizeAll(slaves[i..])
      ensures fabric.Quiet() && WholeAll(slaves[i..]) ==> r.Answer? && WholeAll(slaves[i+1..])
      ensures fabric.Quiet() && Canonical(key) && r.Answer? ==> (
                && r.ok
                && fabric.luns == old(fabric.luns)[lun := fabric.luns[lun]]
                && EnrolAll(fabric.luns[lun], fabric.node, slaves[i+1..], key) == goal)
      decreases SizeAll(slaves[i..]), 2
    {
      NextSlave(fabric.luns[lun], fabric.node, slaves, i, key);
      r := RegisterDev(Device(lun, slaves[i]), key, false);
    }

    // ------------------------------------------------------------------- actions

    /** None when the agent ends through fail_usage.  In every interleaving, "off" for another
        action than on means that no device has the key while its node is silent, and "on" for
        action on, with this node's key, that all have it while nobody preempts it. */
    method GetStatus(devices: seq<Device>, key: string, action: string) returns (status: Option<string>)
      requires fabric.Valid() && !fabric.dead
      modifies fabric
      ensures fabric.Since(old(fabric.trace), old(fabric.states)) && (status.Some? ==> !fabric.dead) && fabric.luns.Keys == old(fabric.luns).Keys
      ensures old(fabric.confirmed) <= fabric.confirmed
      ensures status.Some? ==> status.value in {"on", "off"}
      ensures action != "on" && status == Some("off") ==> GoneFrom(fabric, Luns(devices), |devices|, key, |old(fabric.trace)|)
      ensures action == "on" && status == Some("on") ==> devices != []
      ensures (action == "on" && status == Some("on") && key == fabric.node
               && KeyedSan(fabric.states[0]) && NobodyPreempts(fabric.trace, fabric.node)) ==>
                forall i | 0 <= i < |devices| :: Holds(fabric.luns, devices[i].lun, key)
      ensures fabric.Quiet() ==> fabric.luns == old(fabric.luns)
      ensures fabric.Quiet() && status.Some? && action == "on" ==>
                (status.value == "on" <==> devices != [] && forall d | d in devices :: Holds(fabric.luns, d.lun, key))
      ensures fabric.Quiet() && status.Some? && action != "on" ==>
                (status.value == "off" <==> forall d | d in devices :: !Holds(fabric.luns, d.lun, key))
      ensures fabric.Quiet() && action != "on" ==> (status.Some? <==> forall d | d in devices :: d.lun in fabric.luns)
      ensures fabric.Quiet() && (forall d | d in devices :: d.lun in fabric.luns) ==> status.Some?
    {
      var answer := "off";
      var luns := Luns(devices);
      ghost var n := |fabric.trace|;
      for i := 0 to |devices|
        invariant !fabric.dead && fabric.Since(old(fabric.trace), old(fabric.states)) && fabric.luns.Keys == old(fabric.luns).Keys
        invariant old(fabric.confirmed) <= fabric.confirmed
        invariant answer == "off" || (answer == "on" && i > 0)
        invariant action != "on" && answer == "off" ==> GoneFrom(fabric, luns, i, key, n)
        invariant action == "on" && key == fabric.node ==> forall j | 0 <= j < i :: luns[j] in fabric.confirmed
        invariant action == "on" && i > 0 ==> answer == "on"
        invariant fabric.Quiet() ==> fabric.luns == old(fabric.luns) && forall d | d in devices[..i] :: d.lun in fabric.luns
        invariant fabric.Quiet() && action == "on" ==> forall d | d in devices[..i] :: Holds(fabric.luns, d.lun, key)
        invariant fabric.Quiet() && action != "on" ==>
                    (answer == "off" <==> forall d | d in devices[..i] :: !Holds(fabric.luns, d.lun, key))
      {
        if luns[i] !in fabric.luns { return None; }
        var has := AskNext(fabric, luns, i, key, n);
        if has.None? { return None; }
        assert devices[..i+1] == devices[..i] + [devices[i]] && devices[i] in devices;
        if has.value {
          answer := "on";
        } else if action == "on" {
          return Some("off");
        }
      }
      assert devices[..|devices|] == devices;
      if key == fabric.node && action == "on" { ConfirmedHold(fabric, luns); }
      return Some(answer);
    }

    // --------------------------------------------------------------------- unfencing

    /** The paths multipath chooses from are those register_dev goes through, all disks. */
    ghost predicate Regular(dev: Device) {
      multi && dev.block.Dm? ==>
        AllDisks(GetMpathSlaves(dev.block)) && fabric.Via(dev.block, 0) in Paths(dev.block)
    }

    lemma RegularHolds(lu: Lu, dev: Device, key: Key)
      requires lu.Valid() && Regular(dev)
      ensures var r := Enrolled(lu, dev, key, true);
              && (multi ==> Whole(dev.block))
              && HoldsKey(r, ViaNexus(dev), key)
              && (r.holder.Some? <==> lu.holder.Some?)
              && forall k | k != key :: r.HasKey(k) ==> lu.HasKey(k)
    {
      if multi && dev.block.Dm? {
        var path := fabric.Via(dev.block, 0);
        var i :| 0 <= i < |Paths(dev.block)| && Paths(dev.block)[i] == path;
        assert Paths(dev.block) == PathsAll(GetMpathSlaves(dev.block));
        EnrolmentIsExact(lu, fabric.node, dev.block, key);
        DisksAreWhole(GetMpathSlaves(dev.block));
        assert ViaNexus(dev) in Nexuses(fabric.node, Paths(dev.block));
      } else {
        EnrolOne(lu, ViaNexus(dev), key);
      }
    }

    function OnUnit(lu: Lu, dev: Device, key: Key): (r: Lu)
      requires lu.Valid()
      ensures r.Valid()
    {
      var r := Enrolled(lu, dev, key, true);
      if r.holder.None? && HoldsKey(r, ViaNexus(dev), key) then r.(holder := Some(ViaNexus(dev))) else r
    }

    /** In "multi" mode, the key is on every path: on each disk of the innermost map. */
    ghost predicate Reaches(lu: Lu, dev: Device, key: Key) {
      multi ==> forall disks | AreDisks(dev.block, disks) :: OnDisks(lu, fabric.node, disks, key)
    }

    lemma EnrolledReaches(lu: Lu, dev: Device, key: Key)
      requires lu.Valid()
      ensures Reaches(Enrolled(lu, dev, key, true), dev, key)
      ensures Reaches(OnUnit(lu, dev, key), dev, key)
    {
      if multi {
        forall disks | AreDisks(dev.block, disks) ensures OnDisks(Enrolled(lu, dev, key, true), fabric.node, disks, key) {
          DisksGetTheKey(lu, fabric.node, dev.block, disks, key);
        }
      }
    }

    /** Devices that are other units make no difference. */
    lemma {:induction false} OnAllElsewhere(san: San, devices: seq<Device>, n: nat, m: nat, key: Key, l: nat)
      requires ValidSan(san) && l in san && n <= m <= |devices|
      requires forall j | n <= j < m :: devices[j].lun != l
      ensures OnAll(san, devices, m, key)[l] == OnAll(san, devices, n, key)[l]
      decreases m
    {
      if n < m {
        OnAllElsewhere(san, devices, n, m - 1, key, l);
      }
    }

    /** Once "on" is done, every path of every device has the key; of devices that are the
        same unit, those of the last one. */
    lemma OnAllReaches(san: San, devices: seq<Device>, key: Key, i: nat)
      requires ValidSan(san) && i < |devices| && devices[i].lun in san && IsLastOf(devices, i)
      ensures Reaches(OnAll(san, devices, |devices|, key)[devices[i].lun], devices[i], key)
    {
      var done, dev := OnAll(san, devices, i, key), devices[i];
      OnAllElsewhere(san, devices, i + 1, |devices|, key, dev.lun);
      assert OnAll(san, devices, i + 1, key)[dev.lun] == OnUnit(done[dev.lun], dev, key);
      EnrolledReaches(done[dev.lun], dev, key);
    }

    /** register_dev as set_status calls it. */
    method RegisterAnew(dev: Device, key: string) returns (r: Reply)
      requires fabric.Valid() && !fabric.dead && dev.lun in fabric.luns && IsOwnKey(fabric, key)
      modifies fabric
      ensures fabric.Since(old(fabric.trace), old(fabric.states)) && (r.Answer? ==> !fabric.dead) && fabric.luns.Keys == old(fabric.luns).Keys
      ensures old(fabric.confirmed) - {dev.lun} <= fabric.confirmed
      ensures fabric.Quiet() && Canonical(key) && Regular(dev) ==> (
                && r.Answer?
                && ValidSan(old(fabric.luns))
                && fabric.luns == old(fabric.luns)[dev.lun := Enrolled(old(fabric.luns)[dev.lun], dev, key, true)]
                && HoldsKey(fabric.luns[dev.lun], ViaNexus(dev), key)
                && (old(fabric.luns)[dev.lun].Keyed() ==> fabric.luns[dev.lun].Keyed())
                && Reaches(fabric.luns[dev.lun], dev, key))
    {
      if multi && Canonical(key) { EnrolledReaches(fabric.luns[dev.lun], dev, key); }
      if Regular(dev) && Canonical(key) {
        RegularHolds(fabric.luns[dev.lun], dev, key);
        if fabric.luns[dev.lun].Keyed() { EnrolledKeeps(fabric.luns[dev.lun], dev, key); }
      }
      r := RegisterDev(dev, key, true);
    }

    /** One round of the loop for "on"; false adds to the failure count. */
    method Unfence(dev: Device, key: string) returns (r: Reply)
      requires fabric.Valid() && !fabric.dead && dev.lun in fabric.luns && IsOwnKey(fabric, key)
      modifies fabric
      ensures fabric.Since(old(fabric.trace), old(fabric.states)) && (r.Answer? ==> !fabric.dead) && fabric.luns.Keys == old(fabric.luns).Keys
      ensures old(fabric.confirmed) - {dev.lun} <= fabric.confirmed
      ensures r == Answer(true) ==> Reserved(fabric.luns, dev.lun)
      ensures r == Answer(true) && Canonical(key) ==> dev.lun in fabric.confirmed
      ensures r == Answer(true) && KeyedSan(fabric.states[0]) ==> Canonical(key)
      ensures fabric.Quiet() && Canonical(key) && Regular(dev) ==> (
                && r == Answer(true)
                && ValidSan(old(fabric.luns))
                && fabric.luns == old(fabric.luns)[dev.lun := OnUnit(old(fabric.luns)[dev.lun], dev, key)])
    {
      r := RegisterAnew(dev, key);
      if r.Exit? { return; }
      assert fabric.Quiet() && Canonical(key) && Regular(dev) ==> fabric.luns[dev.lun].HasKey(key);
      var has := Ask(fabric, dev.lun, key);
      if has.None? { return Exit; }
      if !has.value { return Answer(false); }
      r := EnsureReserved(fabric, dev.lun, dev.block, key);
    }

    /** The storage network after an undisturbed "on" for the first n devices. */
    function OnAll(san: San, devices: seq<Device>, n: nat, key: Key): (r: San)
      requires ValidSan(san) && n <= |devices|
      ensures ValidSan(r) && r.Keys == san.Keys
    {
      if n == 0 then san
      else
        var done, dev := OnAll(san, devices, n - 1, key), devices[n-1];
        if dev.lun in done then done[dev.lun := OnUnit(done[dev.lun], dev, key)] else done
    }

    ghost predicate Present(san: San, devices: seq<Device>) {
      forall i | 0 <= i < |devices| :: devices[i].lun in san && Regular(devices[i])
    }

    /** Unfence, within the loop over the devices: what it keeps of the rounds before it. */
    method UnfenceNext(devices: seq<Device>, i: nat, key: string, ghost san: San) returns (r: Reply)
      requires fabric.Valid() && !fabric.dead && i < |devices| && devices[i].lun in fabric.luns && IsOwnKey(fabric, key)
      modifies fabric
      ensures fabric.Since(old(fabric.trace), old(fabric.states)) && (r.Answer? ==> !fabric.dead)
      ensures r == Answer(true) && old(Unfenced(fabric, Luns(devices), i, key)) ==> Unfenced(fabric, Luns(devices), i + 1, key)
      ensures fabric.Quiet() && Canonical(key) && Present(san, devices) && ValidSan(san) && old(fabric.luns) == OnAll(san, devices, i, key) ==>
                r == Answer(true) && fabric.luns == OnAll(san, devices, i + 1, key)
    {
      ghost var s := fabric.states;
      r := Unfence(devices[i], key);
      fabric.KeepsReserved(old(fabric.trace), old(fabric.states));
      assert fabric.states[0] == s[0];
    }

    /** Once "on" is done, every device has the key. */
    lemma {:induction false} OnAllHolds(san: San, devices: seq<Device>, n: nat, key: Key, i: nat)
      requires ValidSan(san) && Present(san, devices) && i < n <= |devices|
      ensures Holds(OnAll(san, devices, n, key), devices[i].lun, key)
    {
      var done, dev := OnAll(san, devices, n - 1, key), devices[n-1];
      if dev.lun == devices[i].lun {
        RegularHolds(done[dev.lun], dev, key);
        assert HoldsKey(OnUnit(done[dev.lun], dev, key), ViaNexus(dev), key);
      } else {
        OnAllHolds(san, devices, n - 1, key, i);
      }
    }

    /** Within the loop for "on", after i devices with so many failures. */
    ghost predicate OnSoFar(devices: seq<Device>, i: nat, key: string, count: int, san: San, quiet: bool)
      requires fabric.Valid() && i <= |devices| && ValidSan(san)
      reads this, fabric
    {
      && stored == Some(Lower(key)) && 0 <= count && (i == 0 ==> count == 0)
      && (count == 0 ==> Unfenced(fabric, Luns(devices), i, key))
      && (quiet ==> count == 0 && fabric.luns == OnAll(san, devices, i, key))
    }

    /** The loop's body. */
    method OnNext(devices: seq<Device>, i: nat, key: string, count: int, ghost san: San, ghost quiet: bool)
      returns (r: Reply, count': int)
      requires fabric.Valid() && !fabric.dead && i < |devices| && ValidSan(san) && IsOwnKey(fabric, key)
      requires quiet ==> fabric.Quiet() && Canonical(key) && Present(san, devices)
      requires OnSoFar(devices, i, key, count, san, quiet)
      modifies fabric
      ensures fabric.Since(old(fabric.trace), old(fabric.states)) && (r.Answer? ==> !fabric.dead)
      ensures if r.Exit? then !quiet else OnSoFar(devices, i + 1, key, count', san, quiet)
    {
      if devices[i].lun !in fabric.luns { return Exit, count; }
      r := UnfenceNext(devices, i, key, san);
      count' := if r == Answer(false) then count + 1 else count;
    }

    /** The loop for "on". */
    method UnfenceAll(devices: seq<Device>, key: string, ghost san: San, ghost quiet: bool) returns (returned: bool)
      requires fabric.Valid() && !fabric.dead && IsOwnKey(fabric, key) && stored == Some(Lower(key)) && san == fabric.luns
      requires quiet ==> fabric.Quiet() && (devices == [] || Canonical(key)) && Present(san, devices)
      modifies fabric
      ensures fabric.Since(old(fabric.trace), old(fabric.states)) && (returned ==> !fabric.dead) && ValidSan(san)
      ensures returned ==> Unfenced(fabric, Luns(devices), |devices|, key)
      ensures (devices == [] ==> returned) && (quiet ==> returned && fabric.luns == OnAll(san, devices, |devices|, key))
    {
      var count := 0;
      for i := 0 to |devices|
        invariant !fabric.dead && fabric.Since(old(fabric.trace), old(fabric.states))
        invariant OnSoFar(devices, i, key, count, san, quiet)
      {
        var r;
        r, count := OnNext(devices, i, key, count, san, quiet);
        if r.Exit? { return false; }
      }
      return count == 0;
    }

    lemma OnDone(devices: seq<Device>, key: string)
      requires fabric.Valid() && IsOwnKey(fabric, key) && Unfenced(fabric, Luns(devices), |devices|, key)
      ensures forall i | 0 <= i < |devices| :: Reserved(fabric.luns, devices[i].lun)
      ensures KeyedSan(fabric.states[0]) ==> devices == [] || Canonical(key)
      ensures Canonical(key) ==> forall i | 0 <= i < |devices| :: devices[i].lun in fabric.confirmed
      ensures KeyedSan(fabric.states[0]) && NobodyPreempts(fabric.trace, fabric.node) ==>
                forall i | 0 <= i < |devices| :: Holds(fabric.luns, devices[i].lun, key)
    {
      UnfencedHold(fabric, Luns(devices), key);
    }

    /** Action "on", for this node's own key.  False when the agent ends with an error, as it
        does in every interleaving when the key is not spelled as the target spells it. */
    method SetStatusOn(devices: seq<Device>, key: string) returns (returned: bool)
      requires fabric.Valid() && !fabric.dead && IsOwnKey(fabric, key)
      modifies fabric, this
      ensures fabric.Since(old(fabric.trace), old(fabric.states)) && (returned ==> !fabric.dead) && stored == Some(Lower(key))
      ensures returned ==> forall i | 0 <= i < |devices| :: Reserved(fabric.luns, devices[i].lun)
      ensures returned && KeyedSan(fabric.states[0]) ==> devices == [] || Canonical(key)
      ensures returned && Canonical(key) ==> forall i | 0 <= i < |devices| :: devices[i].lun in fabric.confirmed
      ensures returned && KeyedSan(fabric.states[0]) && NobodyPreempts(fabric.trace, fabric.node) ==>
                forall i | 0 <= i < |devices| :: Holds(fabric.luns, devices[i].lun, key)
      ensures fabric.Quiet() && (devices == [] || Canonical(key)) && Present(old(fabric.luns), devices) ==> (
                && returned
                && ValidSan(old(fabric.luns))
                && fabric.luns == OnAll(old(fabric.luns), devices, |devices|, key))
      ensures fabric.Quiet() && Canonical(key) && Present(old(fabric.luns), devices) ==>
                forall i | 0 <= i < |devices| && IsLastOf(devices, i) :: Reaches(fabric.luns[devices[i].lun], devices[i], key)
      ensures fabric.Quiet() && KeyedSan(fabric.states[0]) && Present(old(fabric.luns), devices) ==>
                (returned <==> devices == [] || Canonical(key))
    {
      ghost var san := fabric.luns;
      stored := Some(Lower(key));
      ghost var quiet := fabric.Quiet() && (devices == [] || Canonical(key)) && Present(fabric.luns, devices);
      returned := UnfenceAll(devices, key, fabric.luns, quiet);
      if returned { OnDone(devices, key); }
      if quiet { AllReached(san, devices, key); }
    }

    /** No later device is the same unit. */
    ghost predicate IsLastOf(devices: seq<Device>, i: nat)
      requires i < |devices|
    {
      forall j | i < j < |devices| :: devices[j].lun != devices[i].lun
    }

    lemma AllReached(san: San, devices: seq<Device>, key: Key)
      requires ValidSan(san) && Present(san, devices)
      ensures forall i | 0 <= i < |devices| && IsLastOf(devices, i) ::
                Reaches(OnAll(san, devices, |devices|, key)[devices[i].lun], devices[i], key)
    {
      forall i | 0 <= i < |devices| && IsLastOf(devices, i)
        ensures Reaches(OnAll(san, devices, |devices|, key)[devices[i].lun], devices[i], key)
      {
        OnAllReaches(san, devices, key, i);
      }
    }

    // ----------------------------------------------------------------------- fencing

    /** key is compared as it was given; the target reads it as Lower(key). */
    function OffUnit(lu: Lu, dev: Device, host: Key, key: string): (r: Lu)
      requires lu.Valid()
      ensures r.Valid()
    {
      var r := Enrolled(lu, dev, host, true);
      if r.HasKey(key) && r.HasKey(Lower(key)) && HoldsKey(r, ViaNexus(dev), host) && Lower(key) !in {host, ZERO_KEY}
      then Evict(r, ViaNexus(dev), Lower(key)) else r
    }

    /** What "off" does to one unit: it keeps a reservation and all keys but the victim's, and
        leaves the victim alone too when its key is not spelled as the target spells it. */
    ghost predicate OffEffect(lu: Lu, r: Lu, host: Key, key: string) {
      && r.Keyed()
      && (r.holder.Some? <==> lu.holder.Some?)
      && (!lu.HasKey(Lower(key)) ==> !r.HasKey(Lower(key)))
      && (!Canonical(key) ==> !r.HasKey(key) && (lu.HasKey(Lower(key)) ==> r.HasKey(Lower(key))))
      && (forall k | k !in {host, Lower(key)} && lu.HasKey(k) :: r.HasKey(k))
    }

    lemma OffUnitMeans(lu: Lu, dev: Device, host: Key, key: string)
      requires lu.Valid() && lu.Keyed() && Regular(dev)
      requires host == fabric.node && Canonical(host) && host != ZERO_KEY && Lower(key) !in {host, ZERO_KEY}
      ensures OffEffect(lu, OffUnit(lu, dev, host, key), host, key)
      ensures Canonical(key) ==> !OffUnit(lu, dev, host, key).HasKey(key)
    {
      RegularHolds(lu, dev, host);
      var e := Enrolled(lu, dev, host, true);
      EnrolledKeeps(lu, dev, host);
      assert !Canonical(key) ==> !e.HasKey(key);
      if e.HasKey(key) && HoldsKey(e, ViaNexus(dev), host) {
        EvictKeepsOthers(e, ViaNexus(dev), Lower(key));
      }
    }

    lemma EvictKeepsOthers(lu: Lu, n: Nexus, k: Key)
      requires lu.Valid() && n in lu.regs && lu.regs[n] != k
      ensures forall other | other != k && lu.HasKey(other) :: Evict(lu, n, k).HasKey(other)
    {
      EvictMeans(lu, n, k);
      forall other | other != k && lu.HasKey(other) ensures Evict(lu, n, k).HasKey(other) {
        var m :| m in lu.regs && lu.regs[m] == other;
        assert HoldsKey(Evict(lu, n, k), m, other);
      }
    }

    lemma EnrolledKeeps(lu: Lu, dev: Device, host: Key)
      requires lu.Valid() && lu.Keyed() && Regular(dev) && host == fabric.node && Canonical(host) && host != ZERO_KEY
      ensures var e := Enrolled(lu, dev, host, true);
              && e.Keyed()
              && forall k | k != host :: lu.HasKey(k) ==> e.HasKey(k)
    {
      var e := Enrolled(lu, dev, host, true);
      var mine: set<Nexus>;
      if multi && dev.block.Dm? {
        assert Paths(dev.block) == PathsAll(GetMpathSlaves(dev.block));
        EnrolmentIsExact(lu, fabric.node, dev.block, host);
        mine := Nexuses(fabric.node, Paths(dev.block));
      } else {
        EnrolOne(lu, ViaNexus(dev), host);
        mine := {ViaNexus(dev)};
      }
      assert LeavesOthersAlone(lu, e, host, mine) && KeyedExactlyOn(e, host, mine);
      forall k | k != host && lu.HasKey(k) ensures e.HasKey(k) {
        var n :| n in lu.regs && lu.regs[n] == k;
        assert n !in mine;
      }
    }

    /** One round of the first loop for "off". */
    method Fence(dev: Device, host: Key, key: string) returns (r: Reply)
      requires fabric.Valid() && !fabric.dead && dev.lun in fabric.luns && IsOwnKey(fabric, host) && Canonical(host)
      modifies fabric
      ensures fabric.Since(old(fabric.trace), old(fabric.states)) && (r.Answer? ==> !fabric.dead) && fabric.luns.Keys == old(fabric.luns).Keys
      ensures fabric.Quiet() && Regular(dev) && Lower(key) !in {host, ZERO_KEY} && ValidSan(old(fabric.luns)) ==> (
                && r.Answer?
                && fabric.luns == old(fabric.luns)[dev.lun := OffUnit(old(fabric.luns)[dev.lun], dev, host, key)])
    {
      r := RegisterAnew(dev, host);
      if r.Exit? { return; }
      r := Expel(dev, host, key);
    }

    /** PREEMPT AND ABORT, if the device still reports the key. */
    method Expel(dev: Device, host: Key, key: string) returns (r: Reply)
      requires fabric.Valid() && !fabric.dead && dev.lun in fabric.luns && Canonical(host)
      modifies fabric
      ensures fabric.Since(old(fabric.trace), old(fabric.states)) && (r.Answer? ==> !fabric.dead) && fabric.luns.Keys == old(fabric.luns).Keys
      ensures (fabric.Quiet() && Lower(key) !in {host, ZERO_KEY} && ValidSan(old(fabric.luns))
               && HoldsKey(old(fabric.luns)[dev.lun], ViaNexus(dev), host)) ==> (
                && r.Answer?
                && fabric.luns == old(fabric.luns)[dev.lun := var lu := old(fabric.luns)[dev.lun];
                                    if lu.HasKey(key) && lu.HasKey(Lower(key)) then Evict(lu, ViaNexus(dev), Lower(key)) else lu])
    {
      ghost var lu := fabric.luns[dev.lun];
      ghost var quiet := fabric.Quiet() && Lower(key) !in {host, ZERO_KEY} && HoldsKey(lu, ViaNexus(dev), host);
      var has := Ask(fabric, dev.lun, key);
      if has.None? { return Exit; }
      if has.value {
        if quiet { PreemptIsEvict(lu, ViaNexus(dev), host, Lower(key)); }
        var _ := PreemptKey(fabric, dev.lun, dev.block, host, key);
      }
      return Answer(true);
    }

    /** The storage network after an undisturbed "off". */
    function OffAll(san: San, devices: seq<Device>, host: Key, key: string): (r: San)
      requires ValidSan(san)
      ensures ValidSan(r) && r.Keys == san.Keys
    {
      if devices == [] || devices[0].lun !in san then san
      else OffAll(san[devices[0].lun := OffUnit(san[devices[0].lun], devices[0], host, key)], devices[1..], host, key)
    }

    method FenceAll(devices: seq<Device>, host: Key, key: string) returns (alive: bool)
      requires fabric.Valid() && !fabric.dead && IsOwnKey(fabric, host) && Canonical(host)
      modifies fabric
      ensures fabric.Since(old(fabric.trace), old(fabric.states)) && (alive ==> !fabric.dead) && fabric.luns.Keys == old(fabric.luns).Keys
      ensures alive ==> forall i | 0 <= i < |devices| :: devices[i].lun in fabric.luns
      ensures fabric.Quiet() && Lower(key) !in {host, ZERO_KEY} && Present(old(fabric.luns), devices) ==> (
                && alive
                && ValidSan(old(fabric.luns))
                && fabric.luns == OffAll(old(fabric.luns), devices, host, key))
    {
      ghost var san := fabric.luns;
      ghost var quiet := fabric.Quiet() && Lower(key) !in {host, ZERO_KEY} && Present(san, devices);
      for i := 0 to |devices|
        invariant !fabric.dead && fabric.Since(old(fabric.trace), old(fabric.states)) && fabric.luns.Keys == san.Keys
        invariant forall j | 0 <= j < i :: devices[j].lun in fabric.luns
        invariant quiet ==> OffAll(fabric.luns, devices[i..], host, key) == OffAll(san, devices, host, key)
      {
        var dev := devices[i];
        if dev.lun !in fabric.luns { return false; }
        assert devices[i..][0] == dev && devices[i..][1..] == devices[i+1..];
        var r := Fence(dev, host, key);
        if r.Exit? { return false; }
      }
      return true;
    }

    /** Action "off" for the node whose key is given, run by this node.  False when the agent
        ends with an error, as it does when asked to fence its own node. */
    method SetStatusOff(devices: seq<Device>, key: string) returns (returned: bool)
      requires fabric.Valid() && !fabric.dead
      requires stored.Some? ==> IsOwnKey(fabric, stored.value) && Canonical(stored.value)
      modifies fabric
      ensures fabric.Since(old(fabric.trace), old(fabric.states)) && (returned ==> !fabric.dead)
      ensures returned ==> forall i | 0 <= i < |devices| :: Reserved(fabric.luns, devices[i].lun)
      ensures returned && Silent(fabric.trace, |old(fabric.trace)|, |fabric.trace|, key) ==>
                forall i | 0 <= i < |devices| :: KeyGone(fabric.luns, devices[i].lun, key)
      ensures returned ==> stored.Some? && Lower(key) != fabric.node
      ensures (fabric.Quiet() && stored.Some? && Lower(key) !in {fabric.node, ZERO_KEY}
               && KeyedSan(old(fabric.luns)) && Present(old(fabric.luns), devices)) ==> (
                && ValidSan(old(fabric.luns))
                && fabric.luns == OffAll(old(fabric.luns), devices, fabric.node, key)
                && (returned <==> forall i | 0 <= i < |devices| :: Reserved(old(fabric.luns), devices[i].lun)))
    {
      if stored.None? { return false; }
      var host := stored.value;
      if host == Lower(key) { return false; }
      ghost var san := fabric.luns;
      if KeyedSan(san) && Present(san, devices) && Lower(key) != ZERO_KEY {
        forall i | 0 <= i < |devices|
          ensures Clean(OffAll(san, devices, host, key), devices[i].lun, key) <==> Reserved(san, devices[i].lun)
        {
          OffLooksClean(san, devices, host, key, i);
        }
      }
      var alive := FenceAll(devices, host, key);
      if !alive { return false; }
      ghost var t, s := fabric.trace, fabric.states;
      returned := VerifyAll(fabric, Luns(devices), key);
      fabric.StillSilent(t, |old(fabric.trace)|, key);
    }

    lemma {:induction false} OffAllEffect(san: San, devices: seq<Device>, host: Key, key: string, l: nat)
      requires ValidSan(san) && KeyedSan(san) && Present(san, devices)
      requires host == fabric.node && Canonical(host) && host != ZERO_KEY && Lower(key) !in {host, ZERO_KEY} && l in san
      ensures OffEffect(san[l], OffAll(san, devices, host, key)[l], host, key)
      decreases |devices|
    {
      if devices == [] {
        assert san[l].Keyed();
      } else {
        var lun := devices[0].lun;
        OffUnitMeans(san[lun], devices[0], host, key);
        OffAllEffect(san[lun := OffUnit(san[lun], devices[0], host, key)], devices[1..], host, key, l);
      }
    }

    lemma {:induction false} OffAllRemoves(san: San, devices: seq<Device>, host: Key, key: string, i: nat)
      requires ValidSan(san) && KeyedSan(san) && Present(san, devices) && i < |devices|
      requires host == fabric.node && Canonical(host) && host != ZERO_KEY && Lower(key) !in {host, ZERO_KEY} && Canonical(key)
      ensures !OffAll(san, devices, host, key)[devices[i].lun].HasKey(key)
      decreases |devices|
    {
      var lun := devices[0].lun;
      OffUnitMeans(san[lun], devices[0], host, key);
      var next := san[lun := OffUnit(san[lun], devices[0], host, key)];
      if i == 0 {
        OffAllEffect(next, devices[1..], host, key, lun);
      } else {
        OffAllRemoves(next, devices[1..], host, key, i-1);
      }
    }

    /** Exactly when "off" removes the victim from a device it is registered on: when its key
        is given in lower case. */
    lemma OffRemovesIffLowerCase(san: San, devices: seq<Device>, i: nat, host: Key, key: string)
      requires ValidSan(san) && KeyedSan(san) && Present(san, devices) && i < |devices|
      requires host == fabric.node && Canonical(host) && host != ZERO_KEY && Lower(key) !in {host, ZERO_KEY}
      requires san[devices[i].lun].HasKey(Lower(key))
      ensures KeyGone(OffAll(san, devices, host, key), devices[i].lun, Lower(key)) <==> Canonical(key)
    {
      OffAllEffect(san, devices, host, key, devices[i].lun);
      if Canonical(key) {
        OffAllRemoves(san, devices, host, key, i);
      }
    }

    /** The same of the key as the operator writes it: "off" removes the node that is meant
        exactly when its key is written in lower case and without "0x". */
    lemma OffRemovesIffPlain(san: San, devices: seq<Device>, i: nat, host: Key, t: string)
      requires ValidSan(san) && KeyedSan(san) && Present(san, devices) && i < |devices|
      requires host == fabric.node && Canonical(host) && host != ZERO_KEY && IsHex(host)
      requires IsKeyText(t) && Names(t) !in {host, ZERO_KEY} && san[devices[i].lun].HasKey(Names(t))
      ensures KeyGone(OffAll(san, devices, host, ScsiKey(t)), devices[i].lun, Names(t)) <==> !Prefixed(t) && Canonical(t)
    {
      ScsiKeyIff(t);
      NamesIsReported(t);
      var key := ScsiKey(t);
      if Prefixed(t) {
        assert Lower(key)[0] == 'x' && !IsHexDigit('x');
        OffAllEffect(san, devices, host, key, devices[i].lun);
      } else {
        StripIsLower(t);
        OffRemovesIffLowerCase(san, devices, i, host, key);
      }
    }

    /** An undisturbed "off" that finds a reservation on every device reports success,
        whatever the spelling. */
    lemma OffLooksClean(san: San, devices: seq<Device>, host: Key, key: string, i: nat)
      requires ValidSan(san) && KeyedSan(san) && Present(san, devices) && i < |devices|
      requires host == fabric.node && Canonical(host) && host != ZERO_KEY && Lower(key) !in {host, ZERO_KEY}
      ensures Clean(OffAll(san, devices, host, key), devices[i].lun, key) <==> Reserved(san, devices[i].lun)
    {
      OffAllEffect(san, devices, host, key, devices[i].lun);
      if Canonical(key) {
        OffAllRemoves(san, devices, host, key, i);
      }
    }
  }

  /** Such a spelling exists: "off" for "A1" does not touch the node registered as "a1". */
  lemma UpperCaseIsNotCanonical()
    ensures !Canonical("A1") && Canonical("a1") && Lower("A1") == "a1"
  {
    assert |Lower("A1")| == 2 && Lower("A1")[0] == 'a' && Lower("A1")[1] == '1';
    assert |Lower("a1")| == 2 && Lower("a1")[0] == 'a' && Lower("a1")[1] == '1';
  }
}
