/** fence_mpath: the same protocol through mpathpersist, which registers all paths of a
    multipath device at once and remembers in a file which key it used. */
module FenceMpath {
  import opened Ascii
  import opened ScsiTarget
  import opened PrFabric
  import opened PrAgent
  import opened KeyText
  import opened Wrappers

  datatype Device = Device(lun: nat, paths: seq<nat>)

  /** A line of the file mpath.devices. */
  datatype Line = Line(lun: nat, key: string)

  /** The keys of the devices; of several lines for a device the last one counts. */
  function KeysOf(lines: seq<Line>): map<nat, string> {
    if lines == [] then map[]
    else
      var last := lines[|lines|-1];
      KeysOf(lines[..|lines|-1])[last.lun := last.key]
  }

  lemma {:induction false} LastLineCounts(lines: seq<Line>, lun: nat)
    ensures lun in KeysOf(lines) <==> exists i :: IsLastLine(lines, i, lun)
    ensures forall i | IsLastLine(lines, i, lun) :: lun in KeysOf(lines) && KeysOf(lines)[lun] == lines[i].key
  {
    if lines != [] {
      var init, n := lines[..|lines|-1], |lines| - 1;
      LastLineCounts(init, lun);
      if lines[n].lun == lun {
        assert IsLastLine(lines, n, lun);
      } else {
        forall i ensures IsLastLine(lines, i, lun) <==> IsLastLine(init, i, lun) {
          if 0 <= i < n { assert lines[i] == init[i]; }
          if IsLastLine(init, i, lun) {
            forall j | i < j < |lines| ensures lines[j].lun != lun {
              if j < n { assert lines[j] == init[j]; }
            }
          }
        }
      }
    }
  }

  /** Line i is the last one of the device. */
  ghost predicate IsLastLine(lines: seq<Line>, i: int, lun: nat) {
    0 <= i < |lines| && lines[i].lun == lun && forall j | i < j < |lines| :: lines[j].lun != lun
  }

  /** The lines after writing l: a line the file has already is not written again. */
  function Record(lines: seq<Line>, l: Line): seq<Line> {
    if l in lines then lines else lines + [l]
  }

  predicate Recorded(lines: seq<Line>, l: Line) {
    l.lun in KeysOf(lines) && KeysOf(lines)[l.lun] == l.key
  }

  /** Exactly when the key written is the key read back: not when a device has gone back to
      a former key, whose old line is found but overruled by a later one. */
  lemma RecordedIffNew(lines: seq<Line>, l: Line)
    ensures Recorded(Record(lines, l), l) <==> l !in lines || Recorded(lines, l)
    ensures forall other: Line | other.lun != l.lun :: Recorded(Record(lines, l), other) <==> Recorded(lines, other)
  {
    assert (lines + [l])[..|lines + [l]|-1] == lines;
  }

  lemma GoingBackIsNotRecorded(lun: nat)
    ensures var lines := Record(Record(Record([], Line(lun, "a")), Line(lun, "b")), Line(lun, "a"));
            Recorded(lines, Line(lun, "b")) && !Recorded(lines, Line(lun, "a"))
  {
    var one := Record([], Line(lun, "a"));
    assert one == [Line(lun, "a")];
    var two := Record(one, Line(lun, "b"));
    assert two == [Line(lun, "a"), Line(lun, "b")];
    assert Line(lun, "a") == two[0];
  }

  /** The node's paths join the registrants one by one. */
  function Join(lu: Lu, node: Key, paths: seq<nat>): (r: Lu)
    requires lu.Valid()
    ensures r.Valid() && r.holder == lu.holder
  {
    if paths == [] then lu
    else
      var r := Join(lu, node, paths[..|paths|-1]);
      var n := Nexus(node, paths[|paths|-1]);
      if n in r.regs then r else r.(regs := r.regs[n := node])
  }

  /** All the paths are registered in the end, and nothing else has changed. */
  lemma {:induction false} JoinMeans(lu: Lu, node: Key, paths: seq<nat>)
    requires lu.Valid()
    ensures var r := Join(lu, node, paths);
            && (forall i | 0 <= i < |paths| :: Nexus(node, paths[i]) in r.regs)
            && (forall n | n in lu.regs :: n in r.regs && r.regs[n] == lu.regs[n])
            && (forall n | n in r.regs && n !in lu.regs :: n.node == node && r.regs[n] == node)
            && (lu.Keyed() && node != ZERO_KEY && Canonical(node) ==> r.Keyed())
  {
    if paths != [] {
      JoinMeans(lu, node, paths[..|paths|-1]);
      assert forall i | 0 <= i < |paths|-1 :: paths[i] == paths[..|paths|-1][i];
    }
  }

  /** The device-mapper device over the paths. */
  function Block(dev: Device): BlockDev {
    Dm(seq(|dev.paths|, i requires 0 <= i < |dev.paths| => Disk(dev.paths[i])))
  }

  function Luns(devices: seq<Device>): (r: seq<nat>)
    ensures |r| == |devices| && forall i | 0 <= i < |r| :: r[i] == devices[i].lun
  {
    seq(|devices|, i requires 0 <= i < |devices| => devices[i].lun)
  }

  class Agent {
    const fabric: Fabric
    var store: seq<Line>

    constructor (fabric: Fabric, store: seq<Line>)
      ensures this.fabric == fabric && this.store == store
    {
      this.fabric, this.store := fabric, store;
    }

    /** The path commands take while multipath keeps to one. */
    function ViaNexus(dev: Device): Nexus {
      Usual(fabric, Block(dev))
    }

    /** REGISTER with reservation key 0 on every path: a path that is registered already
        refuses it, which the agent does not mind. */
    method RegisterDev(dev: Device, key: string)
      requires fabric.Valid() && !fabric.dead && dev.lun in fabric.luns && IsOwnKey(fabric, key)
      modifies fabric
      ensures fabric.Since(old(fabric.trace), old(fabric.states)) && !fabric.dead && fabric.luns.Keys == old(fabric.luns).Keys
      ensures old(fabric.confirmed) <= fabric.confirmed
      ensures fabric.Quiet() && ValidSan(old(fabric.luns)) && old(fabric.luns)[dev.lun].Keyed() ==>
                fabric.luns == old(fabric.luns)[dev.lun := Join(old(fabric.luns)[dev.lun], fabric.node, dev.paths)]
    {
      ghost var san, lu := fabric.luns, fabric.luns[dev.lun];
      for i := 0 to |dev.paths|
        invariant !fabric.dead && fabric.Since(old(fabric.trace), old(fabric.states)) && fabric.luns.Keys == san.Keys
        invariant old(fabric.confirmed) <= fabric.confirmed
        invariant fabric.Quiet() && lu.Keyed() ==> fabric.luns == san[dev.lun := Join(lu, fabric.node, dev.paths[..i])]
      {
        assert dev.paths[..i+1][..i] == dev.paths[..i];
        JoinMeans(lu, fabric.node, dev.paths[..i]);
        var _ := fabric.Send(dev.lun, Register(Nexus(fabric.node, dev.paths[i]), ZERO_KEY, Lower(key)));
      }
      assert dev.paths[..|dev.paths|] == dev.paths;
    }

    /** Unlike fence_scsi, one device is enough for "on", whatever the action.  In every
        interleaving, "off" means that no device has the key while its node is silent, and "on"
        for this node's key that one of them has it while nobody preempts it. */
    method GetStatus(devices: seq<Device>, key: string) returns (status: Option<string>)
      requires fabric.Valid() && !fabric.dead
      modifies fabric
      ensures fabric.Since(old(fabric.trace), old(fabric.states)) && (status.Some? ==> !fabric.dead) && fabric.luns.Keys == old(fabric.luns).Keys
      ensures old(fabric.confirmed) <= fabric.confirmed
      ensures status.Some? ==> status.value in {"on", "off"}
      ensures status == Some("off") ==> GoneFrom(fabric, Luns(devices), |devices|, key, |old(fabric.trace)|)
      ensures (status == Some("on") && key == fabric.node
               && KeyedSan(fabric.states[0]) && NobodyPreempts(fabric.trace, fabric.node)) ==>
                exists i | 0 <= i < |devices| :: Holds(fabric.luns, devices[i].lun, key)
      ensures fabric.Quiet() ==> fabric.luns == old(fabric.luns)
      ensures fabric.Quiet() ==> (status.Some? <==> forall i | 0 <= i < |devices| :: devices[i].lun in fabric.luns)
      ensures fabric.Quiet() && status.Some? ==>
                (status.value == "off" <==> forall i | 0 <= i < |devices| :: KeyGone(fabric.luns, devices[i].lun, key))
    {
      var answer := "off";
      var luns := Luns(devices);
      ghost var n, found := |fabric.trace|, 0;
      for i := 0 to |devices|
        invariant !fabric.dead && fabric.Since(old(fabric.trace), old(fabric.states)) && fabric.luns.Keys == old(fabric.luns).Keys
        invariant answer in {"on", "off"} && old(fabric.confirmed) <= fabric.confirmed
        invariant answer == "off" ==> GoneFrom(fabric, luns, i, key, n)
        invariant answer == "on" && key == fabric.node ==> 0 <= found < i && luns[found] in fabric.confirmed
        invariant fabric.Quiet() ==> fabric.luns == old(fabric.luns) && forall j | 0 <= j < i :: devices[j].lun in fabric.luns
        invariant fabric.Quiet() ==> (answer == "off" <==> forall j | 0 <= j < i :: KeyGone(fabric.luns, devices[j].lun, key))
      {
        if luns[i] !in fabric.luns { return None; }
        var has := AskNext(fabric, luns, i, key, n);
        if has.None? { return None; }
        if has.value {
          answer := "on";
          found := i;
        }
      }
      if answer == "on" && key == fabric.node { ConfirmedHold(fabric, [luns[found]]); }
      return Some(answer);
    }

    /** A unit after an undisturbed "on": all paths are registered, and there is a reservation. */
    function OnUnit(lu: Lu, dev: Device): (r: Lu)
      requires lu.Valid()
      ensures r.Valid()
    {
      var r := Join(lu, fabric.node, dev.paths);
      if r.holder.None? && ViaNexus(dev) in r.regs then r.(holder := Some(ViaNexus(dev))) else r
    }

    lemma OnUnitMeans(lu: Lu, dev: Device)
      requires lu.Valid() && lu.Keyed() && dev.paths != [] && Canonical(fabric.node) && fabric.node != ZERO_KEY
      ensures HoldsKey(Join(lu, fabric.node, dev.paths), ViaNexus(dev), fabric.node)
      ensures var r := OnUnit(lu, dev);
              && r.Keyed() && r.holder.Some? && (lu.holder.Some? ==> r.holder == lu.holder)
              && (forall i | 0 <= i < |dev.paths| :: HoldsKey(r, Nexus(fabric.node, dev.paths[i]), fabric.node))
              && (forall n | n in lu.regs :: n in r.regs)
              && (forall n: Nexus | n.node != fabric.node :: n in lu.regs <==> n in r.regs)
    {
      JoinMeans(lu, fabric.node, dev.paths);
      UsualPath(dev);
    }

    lemma UsualPath(dev: Device)
      requires dev.paths != []
      ensures exists i :: 0 <= i < |dev.paths| && ViaNexus(dev) == Nexus(fabric.node, dev.paths[i])
    {
      var i := if fabric.Route(0) < |dev.paths| then fabric.Route(0) else 0;
      assert fabric.Via(Disk(dev.paths[i]), 0) == dev.paths[i];
      assert ViaNexus(dev) == Nexus(fabric.node, dev.paths[i]);
    }

    /** register_dev as set_status calls it. */
    method RegisterAnew(dev: Device, key: string)
      requires fabric.Valid() && !fabric.dead && dev.lun in fabric.luns && IsOwnKey(fabric, key)
      modifies fabric
      ensures fabric.Since(old(fabric.trace), old(fabric.states)) && !fabric.dead && fabric.luns.Keys == old(fabric.luns).Keys
      ensures old(fabric.confirmed) <= fabric.confirmed
      ensures fabric.Quiet() && Canonical(key) && dev.paths != [] && ValidSan(old(fabric.luns)) && old(fabric.luns)[dev.lun].Keyed() ==> (
                && fabric.luns == old(fabric.luns)[dev.lun := Join(old(fabric.luns)[dev.lun], fabric.node, dev.paths)]
                && HoldsKey(fabric.luns[dev.lun], ViaNexus(dev), key)
                && fabric.luns[dev.lun].HasKey(key))
    {
      ghost var lu := fabric.luns[dev.lun];
      if lu.Keyed() && dev.paths != [] { OnUnitMeans(lu, dev); }
      RegisterDev(dev, key);
    }

    /** One round of the loop for "on"; false adds to the failure count. */
    method Unfence(dev: Device, key: string) returns (r: Reply)
      requires fabric.Valid() && !fabric.dead && dev.lun in fabric.luns && IsOwnKey(fabric, key)
      modifies fabric, this
      ensures fabric.Since(old(fabric.trace), old(fabric.states)) && (r.Answer? ==> !fabric.dead) && fabric.luns.Keys == old(fabric.luns).Keys
      ensures old(fabric.confirmed) <= fabric.confirmed
      ensures store == old(store) || store == Record(old(store), Line(dev.lun, key))
      ensures r == Answer(true) ==> Reserved(fabric.luns, dev.lun) && store == Record(old(store), Line(dev.lun, key))
      ensures r == Answer(true) && Canonical(key) ==> dev.lun in fabric.confirmed
      ensures r == Answer(true) && KeyedSan(fabric.states[0]) ==> Canonical(key)
      ensures fabric.Quiet() && Canonical(key) && dev.paths != [] && ValidSan(old(fabric.luns)) && old(fabric.luns)[dev.lun].Keyed() ==> (
                && r == Answer(true)
                && fabric.luns == old(fabric.luns)[dev.lun := OnUnit(old(fabric.luns)[dev.lun], dev)])
    {
      RegisterAnew(dev, key);
      var has := Ask(fabric, dev.lun, key);
      if has.None? { return Exit; }
      if !has.value { return Answer(false); }
      DevWrite(Line(dev.lun, key));
      r := EnsureReserved(fabric, dev.lun, Block(dev), key);
    }

    /** Unit l after the first n devices of an undisturbed "on". */
    function OnLun(lu: Lu, l: nat, devices: seq<Device>, n: nat): (r: Lu)
      requires lu.Valid() && n <= |devices|
      ensures r.Valid()
    {
      if n == 0 then lu
      else
        var done := OnLun(lu, l, devices, n - 1);
        if devices[n-1].lun == l then OnUnit(done, devices[n-1]) else done
    }

    ghost predicate OnAll(san: San, san': San, devices: seq<Device>, n: nat)
      requires ValidSan(san) && n <= |devices|
    {
      san'.Keys == san.Keys && forall l | l in san :: san'[l] == OnLun(san[l], l, devices, n)
    }

    /** The storage network then. */
    ghost function OnSan(san: San, devices: seq<Device>): (r: San)
      requires ValidSan(san)
      ensures ValidSan(r) && r.Keys == san.Keys
      ensures forall san' :: OnAll(san, san', devices, |devices|) ==> san' == r
    {
      map l | l in san :: OnLun(san[l], l, devices, |devices|)
    }

    /** Every node uses its own key on every unit, and this node has a path to every device. */
    ghost predicate Present(san: San, devices: seq<Device>) {
      ValidSan(san) && KeyedSan(san) && forall i | 0 <= i < |devices| :: devices[i].lun in san && devices[i].paths != []
    }

    /** After an undisturbed "on" every unit listed is reserved, and this node is registered
        on all its paths; no other node is affected. */
    lemma {:induction false} OnLunMeans(lu: Lu, l: nat, devices: seq<Device>, n: nat)
      requires lu.Valid() && lu.Keyed() && n <= |devices| && Canonical(fabric.node) && fabric.node != ZERO_KEY
      requires forall i | 0 <= i < |devices| :: devices[i].paths != []
      ensures var r := OnLun(lu, l, devices, n);
              && r.Keyed() && (lu.holder.Some? ==> r.holder == lu.holder)
              && (forall m | m in lu.regs :: m in r.regs)
              && (forall m: Nexus | m in r.regs && m.node != fabric.node :: m in lu.regs)
              && (forall i | 0 <= i < n && devices[i].lun == l ::
                    r.holder.Some? && forall j | 0 <= j < |devices[i].paths| :: Nexus(fabric.node, devices[i].paths[j]) in r.regs)
    {
      if n > 0 {
        OnLunMeans(lu, l, devices, n - 1);
        if devices[n-1].lun == l {
          OnUnitMeans(OnLun(lu, l, devices, n - 1), devices[n-1]);
        }
      }
    }

    /** Unfence, within the loop over the devices: what it keeps of the rounds before it. */
    method UnfenceNext(devices: seq<Device>, i: nat, key: string, ghost san: San) returns (r: Reply)
      requires fabric.Valid() && !fabric.dead && i < |devices| && devices[i].lun in fabric.luns && IsOwnKey(fabric, key)
      modifies fabric, this
      ensures fabric.Since(old(fabric.trace), old(fabric.states)) && (r.Answer? ==> !fabric.dead)
      ensures r == Answer(true) && old(Unfenced(fabric, Luns(devices), i, key)) ==> Unfenced(fabric, Luns(devices), i + 1, key)
      ensures forall l | l in old(store) :: l in store
      ensures r == Answer(true) ==> Line(devices[i].lun, key) in store
      ensures fabric.Quiet() && Canonical(key) && Present(san, devices) && OnAll(san, old(fabric.luns), devices, i) ==>
                r == Answer(true) && OnAll(san, fabric.luns, devices, i + 1)
    {
      if Present(san, devices) { OnLunMeans(san[devices[i].lun], devices[i].lun, devices, i); }
      r := UnfenceKept(devices[i], key);
    }

    /** Unfence, and what holds of every stretch of a run. */
    method UnfenceKept(dev: Device, key: string) returns (r: Reply)
      requires fabric.Valid() && !fabric.dead && dev.lun in fabric.luns && IsOwnKey(fabric, key)
      modifies fabric, this
      ensures fabric.Since(old(fabric.trace), old(fabric.states)) && (r.Answer? ==> !fabric.dead) && fabric.states[0] == old(fabric.states)[0]
      ensures forall l :: Reserved(old(fabric.luns), l) ==> Reserved(fabric.luns, l)
      ensures old(fabric.confirmed) <= fabric.confirmed && fabric.luns.Keys == old(fabric.luns).Keys
      ensures forall l | l in old(store) :: l in store
      ensures r == Answer(true) ==> Reserved(fabric.luns, dev.lun) && Line(dev.lun, key) in store
      ensures r == Answer(true) && Canonical(key) ==> dev.lun in fabric.confirmed
      ensures r == Answer(true) && KeyedSan(fabric.states[0]) ==> Canonical(key)
      ensures fabric.Quiet() && Canonical(key) && dev.paths != [] && ValidSan(old(fabric.luns)) && old(fabric.luns)[dev.lun].Keyed() ==> (
                && r == Answer(true)
                && fabric.luns == old(fabric.luns)[dev.lun := OnUnit(old(fabric.luns)[dev.lun], dev)])
    {
      r := Unfence(dev, key);
      fabric.KeepsReserved(old(fabric.trace), old(fabric.states));
    }

    /** Within the loop for "on", after i devices with so many failures. */
    ghost predicate OnSoFar(devices: seq<Device>, i: nat, key: string, count: int, san: San, quiet: bool)
      requires fabric.Valid() && i <= |devices|
      reads this, fabric
    {
      && !fabric.dead && 0 <= count && (i == 0 ==> count == 0)
      && (count == 0 ==> Unfenced(fabric, Luns(devices), i, key) && forall j | 0 <= j < i :: Line(devices[j].lun, key) in store)
      && (quiet ==> count == 0 && ValidSan(san) && OnAll(san, fabric.luns, devices, i))
    }

    /** The loop's body. */
    method OnNext(devices: seq<Device>, i: nat, key: string, count: int, ghost san: San, ghost quiet: bool)
      returns (r: Reply, count': int)
      requires fabric.Valid() && i < |devices| && IsOwnKey(fabric, key)
      requires quiet ==> fabric.Quiet() && Canonical(key) && Present(san, devices)
      requires OnSoFar(devices, i, key, count, san, quiet)
      modifies fabric, this
      ensures fabric.Since(old(fabric.trace), old(fabric.states))
      ensures if r.Exit? then !quiet else OnSoFar(devices, i + 1, key, count', san, quiet)
    {
      if devices[i].lun !in fabric.luns { return Exit, count; }
      r := UnfenceNext(devices, i, key, san);
      count' := if r == Answer(false) then count + 1 else count;
    }

    /** The loop for "on". */
    method UnfenceAll(devices: seq<Device>, key: string, ghost san: San, ghost quiet: bool) returns (returned: bool)
      requires fabric.Valid() && !fabric.dead && IsOwnKey(fabric, key) && san == fabric.luns
      requires quiet ==> fabric.Quiet() && (devices == [] || Canonical(key)) && Present(san, devices)
      modifies fabric, this
      ensures fabric.Since(old(fabric.trace), old(fabric.states)) && (returned ==> !fabric.dead)
      ensures returned ==> Unfenced(fabric, Luns(devices), |devices|, key)
      ensures returned ==> forall j | 0 <= j < |devices| :: Line(devices[j].lun, key) in store
      ensures (devices == [] ==> returned) && (quiet ==> returned && ValidSan(san) && OnAll(san, fabric.luns, devices, |devices|))
    {
      var count := 0;
      for i := 0 to |devices|
        invariant fabric.Since(old(fabric.trace), old(fabric.states)) && OnSoFar(devices, i, key, count, san, quiet)
      {
        var r;
        r, count := OnNext(devices, i, key, count, san, quiet);
        if r.Exit? { return false; }
      }
      return count == 0;
    }

    lemma OnDone(devices: seq<Device>, key: string)
      requires fabric.Valid() && IsOwnKey(fabric, key) && Unfenced(fabric, Luns(devices), |devices|, key)
      ensures forall i | 0 <= i < |devices| :: Reserved(fabric.luns, devices[i].lun)
      ensures KeyedSan(fabric.states[0]) ==> devices == [] || Canonical(key)
      ensures Canonical(key) ==> forall i | 0 <= i < |devices| :: devices[i].lun in fabric.confirmed
      ensures KeyedSan(fabric.states[0]) && NobodyPreempts(fabric.trace, fabric.node) ==>
                forall i | 0 <= i < |devices| :: Holds(fabric.luns, devices[i].lun, key)
    {
      UnfencedHold(fabric, Luns(devices), key);
    }

    /** Action "on", for this node's own key.  False when the agent ends with an error, as it
        does in every interleaving when the key is not spelled as the target spells it. */
    method SetStatusOn(devices: seq<Device>, key: string) returns (returned: bool)
      requires fabric.Valid() && !fabric.dead && IsOwnKey(fabric, key)
      modifies fabric, this
      ensures fabric.Since(old(fabric.trace), old(fabric.states)) && (returned ==> !fabric.dead)
      ensures returned ==> forall i | 0 <= i < |devices| :: Reserved(fabric.luns, devices[i].lun)
      ensures returned ==> forall i | 0 <= i < |devices| :: Line(devices[i].lun, key) in store
      ensures returned && KeyedSan(fabric.states[0]) ==> devices == [] || Canonical(key)
      ensures returned && Canonical(key) ==> forall i | 0 <= i < |devices| :: devices[i].lun in fabric.confirmed
      ensures returned && KeyedSan(fabric.states[0]) && NobodyPreempts(fabric.trace, fabric.node) ==>
                forall i | 0 <= i < |devices| :: Holds(fabric.luns, devices[i].lun, key)
      ensures fabric.Quiet() && (devices == [] || Canonical(key)) && Present(old(fabric.luns), devices) ==>
                returned && OnAll(old(fabric.luns), fabric.luns, devices, |devices|)
      ensures fabric.Quiet() && KeyedSan(fabric.states[0]) && Present(old(fabric.luns), devices) ==>
                (returned <==> devices == [] || Canonical(key))
    {
      ghost var quiet := fabric.Quiet() && (devices == [] || Canonical(key)) && Present(fabric.luns, devices);
      returned := UnfenceAll(devices, key, fabric.luns, quiet);
      if returned { OnDone(devices, key); }
    }

    // ----------------------------------------------------------------------- fencing

    /** A unit after an undisturbed "off", host being the recorded key.  The victim's key is
        compared as it was given; the target reads it as Lower(key). */
    function OffUnit(lu: Lu, dev: Device, host: string, key: string): (r: Lu)
      requires lu.Valid()
      ensures r.Valid()
    {
      if lu.HasKey(key) && lu.HasKey(Lower(key)) && HoldsKey(lu, ViaNexus(dev), Lower(host)) && Lower(key) != Lower(host)
      then Evict(lu, ViaNexus(dev), Lower(key)) else lu
    }

    /** Exactly when an undisturbed "off" removes the victim from a unit: when the recorded
        key is the one this node is registered under there.  A reservation is kept. */
    lemma OffUnitRemoves(lu: Lu, dev: Device, host: string, key: Key)
      requires lu.Valid() && lu.Keyed() && lu.HasKey(key) && Lower(host) != key
      ensures var r := OffUnit(lu, dev, host, key);
              && (!r.HasKey(key) <==> HoldsKey(lu, ViaNexus(dev), Lower(host)))
              && (forall n | n in lu.regs && lu.regs[n] != key :: HoldsKey(r, n, lu.regs[n]))
              && (r.holder.Some? <==> lu.holder.Some?)
              && r.Keyed()
    {
      if HoldsKey(lu, ViaNexus(dev), Lower(host)) {
        EvictMeans(lu, ViaNexus(dev), key);
      }
    }

    /** Unit l after the first n devices of an undisturbed "off"; several devices may be the
        same unit. */
    function OffLun(lu: Lu, l: nat, devices: seq<Device>, n: nat, hosts: map<nat, string>, key: string): (r: Lu)
      requires lu.Valid() && n <= |devices|
      ensures r.Valid()
    {
      if n == 0 then lu
      else
        var done := OffLun(lu, l, devices, n - 1, hosts, key);
        if devices[n-1].lun == l && l in hosts then OffUnit(done, devices[n-1], hosts[l], key) else done
    }

    /** The storage network after the first n devices of an undisturbed "off". */
    ghost predicate OffAll(san: San, san': San, devices: seq<Device>, n: nat, hosts: map<nat, string>, key: string)
      requires ValidSan(san) && n <= |devices|
    {
      san'.Keys == san.Keys && forall l | l in san :: san'[l] == OffLun(san[l], l, devices, n, hosts, key)
    }

    ghost function OffSan(san: San, devices: seq<Device>, hosts: map<nat, string>, key: string): (r: San)
      requires ValidSan(san)
      ensures ValidSan(r) && r.Keys == san.Keys
      ensures forall san' :: OffAll(san, san', devices, |devices|, hosts, key) ==> san' == r
    {
      map l | l in san :: OffLun(san[l], l, devices, |devices|, hosts, key)
    }

    ghost predicate Known(san: San, devices: seq<Device>, hosts: map<nat, string>, key: string) {
      forall i | 0 <= i < |devices| ::
        devices[i].lun in san && devices[i].lun in hosts && Lower(key) !in {Lower(hosts[devices[i].lun]), ZERO_KEY}
    }

    /** None of the first n devices reports the key without being known to the file. */
    ghost predicate NoneUnknown(san: San, devices: seq<Device>, n: nat, hosts: map<nat, string>, key: string)
      requires n <= |devices|
    {
      forall i | 0 <= i < n && Holds(san, devices[i].lun, key) :: devices[i].lun in hosts
    }

    /** The recorded key of unit l is the one this node is registered under. */
    ghost predicate UpToDate(lu: Lu, l: nat, devices: seq<Device>, hosts: map<nat, string>) {
      && l in hosts && Lower(hosts[l]) == fabric.node
      && forall i | 0 <= i < |devices| && devices[i].lun == l :: HoldsKey(lu, ViaNexus(devices[i]), fabric.node)
    }

    /** With an up-to-date file, an undisturbed "off" removes the victim from every device;
        nobody else loses a registration, and no reservation is lost. */
    lemma {:induction false} OffLunRemoves(lu: Lu, l: nat, devices: seq<Device>, n: nat, hosts: map<nat, string>, key: Key)
      requires lu.Valid() && lu.Keyed() && UpToDate(lu, l, devices, hosts) && n <= |devices| && key != fabric.node
      ensures var r := OffLun(lu, l, devices, n, hosts, key);
              && r.Keyed()
              && (r.HasKey(key) <==> lu.HasKey(key) && forall i | 0 <= i < n :: devices[i].lun != l)
              && (r.holder.Some? <==> lu.holder.Some?)
              && (forall m | m in lu.regs && lu.regs[m] != key :: HoldsKey(r, m, lu.regs[m]))
    {
      if n > 0 {
        OffLunRemoves(lu, l, devices, n - 1, hosts, key);
        var done, dev := OffLun(lu, l, devices, n - 1, hosts, key), devices[n-1];
        if dev.lun == l {
          assert HoldsKey(lu, ViaNexus(dev), fabric.node);
          OffUnitStep(lu, done, dev, hosts[l], key);
        }
      }
    }

    lemma OffUnitStep(lu: Lu, done: Lu, dev: Device, host: string, key: Key)
      requires done.Valid() && done.Keyed() && HoldsKey(done, ViaNexus(dev), fabric.node)
      requires Lower(host) == fabric.node != key
      requires forall m | m in lu.regs && lu.regs[m] != key :: HoldsKey(done, m, lu.regs[m])
      ensures var r := OffUnit(done, dev, host, key);
              && r.Keyed() && !r.HasKey(key) && (r.holder.Some? <==> done.holder.Some?)
              && forall m | m in lu.regs && lu.regs[m] != key :: HoldsKey(r, m, lu.regs[m])
    {
      if done.HasKey(key) {
        OffUnitRemoves(done, dev, host, key);
      }
    }

    method DevRead() returns (hosts: map<nat, string>)
      ensures hosts == KeysOf(store)
    {
      hosts := map[];
      for i := 0 to |store|
        invariant hosts == KeysOf(store[..i])
      {
        assert store[..i+1][..i] == store[..i];
        hosts := hosts[store[i].lun := store[i].key];
      }
      assert store[..|store|] == store;
    }

    method DevWrite(l: Line)
      modifies this
      ensures store == Record(old(store), l)
    {
      if l !in store { store := store + [l]; }
    }

    /** One round of the first loop for "off".  A device the file does not know ends the agent. */
    method Fence(dev: Device, hosts: map<nat, string>, key: string) returns (r: Reply)
      requires fabric.Valid() && !fabric.dead && dev.lun in fabric.luns
      modifies fabric
      ensures fabric.Since(old(fabric.trace), old(fabric.states)) && (r.Answer? ==> !fabric.dead) && fabric.luns.Keys == old(fabric.luns).Keys
      ensures fabric.Quiet() && dev.lun !in hosts ==> fabric.luns == old(fabric.luns) && (r.Answer? <==> !fabric.luns[dev.lun].HasKey(key))
      ensures fabric.Quiet() ==> forall l | l in fabric.luns && l != dev.lun :: fabric.luns[l] == old(fabric.luns)[l]
      ensures fabric.Quiet() && ValidSan(old(fabric.luns)) && dev.lun in hosts && Lower(key) !in {Lower(hosts[dev.lun]), ZERO_KEY} ==> (
                && r.Answer?
                && fabric.luns == old(fabric.luns)[dev.lun :=
                     OffUnit(old(fabric.luns)[dev.lun], dev, hosts[dev.lun], key)])
    {
      var has := Ask(fabric, dev.lun, key);
      if has.None? { return Exit; }
      if has.value {
        if dev.lun !in hosts { return Exit; }
        if Lower(key) !in {Lower(hosts[dev.lun]), ZERO_KEY} {
          PreemptIsEvict(fabric.luns[dev.lun], ViaNexus(dev), Lower(hosts[dev.lun]), Lower(key));
        }
        var _ := PreemptKey(fabric, dev.lun, Block(dev), hosts[dev.lun], key);
      }
      return Answer(true);
    }

    /** The first loop for "off". */
    method FenceAll(devices: seq<Device>, hosts: map<nat, string>, key: string) returns (alive: bool)
      requires fabric.Valid() && !fabric.dead
      modifies fabric
      ensures fabric.Since(old(fabric.trace), old(fabric.states)) && (alive ==> !fabric.dead) && fabric.luns.Keys == old(fabric.luns).Keys
      ensures alive ==> forall i | 0 <= i < |devices| :: devices[i].lun in fabric.luns
      ensures fabric.Quiet() && alive ==> NoneUnknown(old(fabric.luns), devices, |devices|, hosts, key)
      ensures fabric.Quiet() && ValidSan(old(fabric.luns)) && Known(old(fabric.luns), devices, hosts, key) ==>
                alive && OffAll(old(fabric.luns), fabric.luns, devices, |devices|, hosts, key)
    {
      ghost var san := fabric.luns;
      ghost var quiet := fabric.Quiet() && Known(san, devices, hosts, key);
      for i := 0 to |devices|
        invariant !fabric.dead && fabric.Since(old(fabric.trace), old(fabric.states)) && fabric.luns.Keys == san.Keys
        invariant forall j | 0 <= j < i :: devices[j].lun in fabric.luns
        invariant fabric.Quiet() ==> NoneUnknown(san, devices, i, hosts, key) && forall l | l in san && l !in hosts :: fabric.luns[l] == san[l]
        invariant quiet ==> OffAll(san, fabric.luns, devices, i, hosts, key)
      {
        if devices[i].lun !in fabric.luns { return false; }
        var r := Fence(devices[i], hosts, key);
        if r.Exit? { return false; }
      }
      return true;
    }

    /** Exactly when an undisturbed "off" with an up-to-date file removes a victim that is
        registered on a unit: when its key is given in lower case. */
    lemma OffRemovesIffLowerCase(lu: Lu, l: nat, devices: seq<Device>, hosts: map<nat, string>, key: string)
      requires lu.Valid() && lu.Keyed() && UpToDate(lu, l, devices, hosts) && Lower(key) != fabric.node
      requires lu.HasKey(Lower(key)) && exists i :: 0 <= i < |devices| && devices[i].lun == l
      ensures !OffLun(lu, l, devices, |devices|, hosts, key).HasKey(Lower(key)) <==> Canonical(key)
    {
      if Canonical(key) {
        OffLunRemoves(lu, l, devices, |devices|, hosts, key);
      } else {
        OffLunOverlooks(lu, l, devices, |devices|, hosts, key);
      }
    }

    /** The same of the key as the operator writes it, with or without "0x". */
    lemma OffRemovesIffPlain(lu: Lu, l: nat, devices: seq<Device>, hosts: map<nat, string>, t: string)
      requires lu.Valid() && lu.Keyed() && UpToDate(lu, l, devices, hosts)
      requires IsKeyText(t) && Names(t) != fabric.node && lu.HasKey(Names(t))
      requires exists i :: 0 <= i < |devices| && devices[i].lun == l
      ensures !OffLun(lu, l, devices, |devices|, hosts, MpathKey(t)).HasKey(Names(t)) <==> Canonical(t)
    {
      MpathKeyIff(t);
      NamesIsReported(t);
      if Canonical(t) {
        OffRemovesIffLowerCase(lu, l, devices, hosts, MpathKey(t));
      } else {
        OffLunOverlooks(lu, l, devices, |devices|, hosts, MpathKey(t));
      }
    }

    /** A key that is not spelled as the target spells it is never found, nor is one that
        nobody has. */
    lemma {:induction false} OffLunOverlooks(lu: Lu, l: nat, devices: seq<Device>, n: nat, hosts: map<nat, string>, key: string)
      requires lu.Valid() && n <= |devices| && ((lu.Keyed() && !Canonical(key)) || !lu.HasKey(key))
      ensures OffLun(lu, l, devices, n, hosts, key) == lu
    {
      if n > 0 {
        OffLunOverlooks(lu, l, devices, n - 1, hosts, key);
      }
    }

    /** With an up-to-date file, an undisturbed "off" passes its own checks exactly when
        there was a reservation on every device. */
    lemma OffPassesIffReserved(san: San, san': San, devices: seq<Device>, hosts: map<nat, string>, key: Key)
      requires ValidSan(san) && KeyedSan(san) && key != fabric.node
      requires forall i | 0 <= i < |devices| ::
                 devices[i].lun in san && UpToDate(san[devices[i].lun], devices[i].lun, devices, hosts)
      requires OffAll(san, san', devices, |devices|, hosts, key)
      ensures AllClean(san', Luns(devices), |devices|, key) <==> forall i | 0 <= i < |devices| :: Reserved(san, devices[i].lun)
    {
      forall i | 0 <= i < |devices| ensures Clean(san', devices[i].lun, key) <==> Reserved(san, devices[i].lun) {
        var l := devices[i].lun;
        OffLunRemoves(san[l], l, devices, |devices|, hosts, key);
      }
    }

    /** Action "off" for the node whose key is given.  A normal return means that the key is
        gone from every device, and every device is reserved, whatever got lost on the way. */
    method SetStatusOff(devices: seq<Device>, key: string) returns (returned: bool)
      requires fabric.Valid() && !fabric.dead
      modifies fabric
      ensures fabric.Since(old(fabric.trace), old(fabric.states)) && (returned ==> !fabric.dead)
      ensures returned ==> forall i | 0 <= i < |devices| :: Reserved(fabric.luns, devices[i].lun)
      ensures returned && Silent(fabric.trace, |old(fabric.trace)|, |fabric.trace|, key) ==>
                forall i | 0 <= i < |devices| :: KeyGone(fabric.luns, devices[i].lun, key)
      ensures fabric.Quiet() && returned ==> NoneUnknown(old(fabric.luns), devices, |devices|, KeysOf(store), key)
      ensures fabric.Quiet() && ValidSan(old(fabric.luns)) && Known(old(fabric.luns), devices, KeysOf(store), key) ==> (
                && OffAll(old(fabric.luns), fabric.luns, devices, |devices|, KeysOf(store), key)
                && (returned <==> AllClean(fabric.luns, Luns(devices), |devices|, key)))
    {
      ghost var san := fabric.luns;
      var hosts := DevRead();
      var alive := FenceAll(devices, hosts, key);
      if !alive { return false; }
      ghost var t := fabric.trace;
      returned := VerifyAll(fabric, Luns(devices), key);
      fabric.StillSilent(t, |old(fabric.trace)|, key);
    }
  }
}
