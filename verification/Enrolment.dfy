/** What register_dev of fence_scsi leaves on a logical unit, without reference to the
    commands it sends: a key is moved to the paths the node has now. */
module Enrolment {
  import opened ScsiTarget
  import opened PrFabric
  import opened Wrappers

  /** The key ends up on nexus n.  With renew, it ends up on n alone, and a reservation held
      under that key moves to n. */
  function Enrol(lu: Lu, n: Nexus, key: Key, renew: bool): (r: Lu)
    requires lu.Valid()
    ensures r.Valid()
  {
    if renew then
      Lu(Purge(lu.regs, key, {n})[n := key],
         if lu.holder.Some? && lu.regs[lu.holder.value] == key then Some(n) else lu.holder)
    else lu.(regs := lu.regs[n := key])
  }

  /** A key that nobody holds needs no renewal. */
  lemma EnrolNew(lu: Lu, n: Nexus, key: Key, renew: bool)
    requires lu.Valid() && !lu.HasKey(key)
    ensures Enrol(lu, n, key, renew) == Enrol(lu, n, key, false)
  {
    assert forall m | m in lu.regs :: lu.regs[m] != key;
    assert Purge(lu.regs, key, {n}) == lu.regs;
  }

  /** Nexus n holds the key and preempts it: either the reservation comes to n, which alone
      keeps the key, or nobody has the key any more. */
  ghost predicate AfterPreempt(lu: Lu, r: Lu, n: Nexus, key: Key)
    requires lu.Valid() && r.Valid()
  {
    if lu.HolderKey() == Some(key) then r == Enrol(lu, n, key, true)
    else r == lu.(regs := Purge(lu.regs, key, {})) && r.HolderKey() != Some(key)
  }

  lemma PreemptOwn(lu: Lu, n: Nexus, key: Key)
    requires lu.Valid() && HoldsKey(lu, n, key) && key != ZERO_KEY
    ensures var p := Apply(lu, Preempt(n, key, key)); p.1 && p.0.Valid() && AfterPreempt(lu, p.0, n, key)
  {
    assert lu.HasKey(key);
    assert Purge(lu.regs, key, {n})[n := key] == Purge(lu.regs, key, {n});
  }

  lemma RegisterAgain(lu: Lu, p: Lu, n: Nexus, key: Key, preempted: bool)
    requires lu.Valid() && p.Valid() && HoldsKey(lu, n, key)
    requires if preempted then AfterPreempt(lu, p, n, key) else p == lu
    requires p.HolderKey() != Some(key)
    ensures Enrol(p, n, key, false) == if preempted then Enrol(lu, n, key, true) else lu
  {
    assert Purge(lu.regs, key, {})[n := key] == Purge(lu.regs, key, {n})[n := key];
    assert lu.regs[n := key] == lu.regs;
  }

  lemma EnrolTwice(lu: Lu, n: Nexus, key: Key)
    requires lu.Valid()
    ensures Enrol(Enrol(lu, n, key, false), n, key, true) == Enrol(lu, n, key, true)
    ensures HoldsKey(Enrol(lu, n, key, false), n, key)
  {
    var r := Enrol(lu, n, key, false);
    assert Purge(r.regs, key, {n})[n := key] == Purge(lu.regs, key, {n})[n := key];
  }

  ghost function Size(b: BlockDev): nat {
    match b
    case Disk(_) => 0
    case Dm(slaves) => 1 + SizeAll(slaves)
  }

  ghost function SizeAll(bs: seq<BlockDev>): nat {
    if bs == [] then 0 else 1 + Size(bs[0]) + SizeAll(bs[1..])
  }

  /** The slaves to register through: a stack of device-mapper devices is followed along
      its first slaves.  Empty when a directory of slaves is empty. */
  function GetMpathSlaves(b: BlockDev): (r: seq<BlockDev>)
    requires b.Dm?
    ensures SizeAll(r) < Size(b)
    ensures r != [] ==> r[0].Disk?
  {
    if b.slaves == [] then []
    else if b.slaves[0].Dm? then GetMpathSlaves(b.slaves[0])
    else b.slaves
  }

  /** The logical unit after registering through block device b, device-mapper devices
      being entered ("multi"). */
  function EnrolDev(lu: Lu, node: Key, b: BlockDev, key: Key, renew: bool): (r: Lu)
    requires lu.Valid()
    ensures r.Valid()
    decreases Size(b)
  {
    match b
    case Disk(p) => Enrol(lu, Nexus(node, p), key, renew)
    case Dm(_) =>
      var slaves := GetMpathSlaves(b);
      if slaves == [] then lu else EnrolAll(EnrolDev(lu, node, slaves[0], key, true), node, slaves[1..], key)
  }

  function EnrolAll(lu: Lu, node: Key, bs: seq<BlockDev>, key: Key): (r: Lu)
    requires lu.Valid()
    ensures r.Valid()
    decreases SizeAll(bs)
  {
    if bs == [] then lu else EnrolAll(EnrolDev(lu, node, bs[0], key, false), node, bs[1..], key)
  }

  /** No directory of slaves the agent enters is empty. */
  ghost predicate Whole(b: BlockDev)
    decreases Size(b)
  {
    b.Dm? ==> GetMpathSlaves(b) != [] && WholeAll(GetMpathSlaves(b))
  }

  ghost predicate WholeAll(bs: seq<BlockDev>)
    decreases SizeAll(bs)
  {
    bs != [] ==> Whole(bs[0]) && WholeAll(bs[1..])
  }

  lemma NextSlave(lu: Lu, node: Key, slaves: seq<BlockDev>, i: nat, key: Key)
    requires lu.Valid() && i < |slaves|
    ensures EnrolAll(lu, node, slaves[i..], key) == EnrolAll(EnrolDev(lu, node, slaves[i], key, false), node, slaves[i+1..], key)
    ensures SizeAll(slaves[i..]) == 1 + Size(slaves[i]) + SizeAll(slaves[i+1..])
    ensures WholeAll(slaves[i..]) ==> Whole(slaves[i]) && WholeAll(slaves[i+1..])
  {
    assert slaves[i..][1..] == slaves[i+1..];
  }

  // ------------------------------------------------------ who holds the key in the end

  /** The paths behind b: the local path nexuses the node is to be registered on. */
  function Paths(b: BlockDev): (r: seq<nat>)
    decreases Size(b)
  {
    match b
    case Disk(p) => [p]
    case Dm(_) => PathsAll(GetMpathSlaves(b))
  }

  function PathsAll(bs: seq<BlockDev>): (r: seq<nat>)
    decreases SizeAll(bs)
  {
    if bs == [] then [] else Paths(bs[0]) + PathsAll(bs[1..])
  }

  ghost predicate KeyedExactlyOn(lu: Lu, key: Key, ns: set<Nexus>) {
    forall n :: n in lu.regs && lu.regs[n] == key <==> n in ns
  }

  ghost function Nexuses(node: Key, ps: seq<nat>): set<Nexus> {
    set i | 0 <= i < |ps| :: Nexus(node, ps[i])
  }

  ghost predicate AllDisks(bs: seq<BlockDev>) {
    forall i | 0 <= i < |bs| :: bs[i].Disk?
  }

  ghost predicate Distinct(ps: seq<nat>) {
    forall i, j | 0 <= i < j < |ps| :: ps[i] != ps[j]
  }

  /** Other keys on other nexuses, and the existence of a reservation, survive. */
  ghost predicate LeavesOthersAlone(lu: Lu, r: Lu, key: Key, ns: set<Nexus>)
    requires lu.Valid() && r.Valid()
  {
    && (forall n | n in lu.regs && lu.regs[n] != key && n !in ns :: n in r.regs && r.regs[n] == lu.regs[n])
    && (forall n | n in r.regs && n !in ns :: n in lu.regs && lu.regs[n] == r.regs[n])
    && (lu.holder.Some? <==> r.holder.Some?)
    && (lu.holder.Some? && lu.regs[lu.holder.value] != key ==> r.holder == lu.holder)
    && (lu.holder.Some? && lu.regs[lu.holder.value] == key ==> r.holder.value in ns)
  }

  lemma {:induction false} DisksAreWhole(bs: seq<BlockDev>)
    requires AllDisks(bs)
    ensures WholeAll(bs)
    decreases |bs|
  {
    if bs != [] {
      DisksAreWhole(bs[1..]);
    }
  }

  lemma EnrolOne(lu: Lu, n: Nexus, key: Key)
    requires lu.Valid()
    ensures KeyedExactlyOn(Enrol(lu, n, key, true), key, {n})
    ensures LeavesOthersAlone(lu, Enrol(lu, n, key, true), key, {n})
  {
  }

  lemma {:induction false} EnrolDisks(lu0: Lu, lu: Lu, node: Key, bs: seq<BlockDev>, key: Key, ns: set<Nexus>)
    requires lu0.Valid() && lu.Valid() && AllDisks(bs)
    requires KeyedExactlyOn(lu, key, ns) && LeavesOthersAlone(lu0, lu, key, ns)
    ensures KeyedExactlyOn(EnrolAll(lu, node, bs, key), key, ns + Nexuses(node, PathsAll(bs)))
    ensures LeavesOthersAlone(lu0, EnrolAll(lu, node, bs, key), key, ns + Nexuses(node, PathsAll(bs)))
    decreases |bs|
  {
    if bs == [] {
      assert ns + Nexuses(node, PathsAll(bs)) == ns;
    } else {
      var n := Nexus(node, bs[0].path);
      var lu' := EnrolDev(lu, node, bs[0], key, false);
      EnrolDisks(lu0, lu', node, bs[1..], key, ns + {n});
      NexusesCons(node, bs[0].path, PathsAll(bs[1..]));
      assert ns + {n} + Nexuses(node, PathsAll(bs[1..])) == ns + Nexuses(node, PathsAll(bs));
    }
  }

  lemma NexusesCons(node: Key, p: nat, ps: seq<nat>)
    ensures Nexuses(node, [p] + ps) == {Nexus(node, p)} + Nexuses(node, ps)
  {
    var all := [p] + ps;
    forall n | n in Nexuses(node, ps) ensures n in Nexuses(node, all) {
      var i :| 0 <= i < |ps| && n == Nexus(node, ps[i]);
      assert n == Nexus(node, all[i+1]);
    }
    assert Nexus(node, all[0]) in Nexuses(node, all);
  }

  /** The result of register_dev in every starting state - no reservation, one held under
      this key, one held under another: the key is on exactly the local path nexuses. */
  lemma {:induction false} EnrolmentIsExact(lu: Lu, node: Key, b: BlockDev, key: Key)
    requires lu.Valid()
    requires b.Dm? ==> GetMpathSlaves(b) != [] && AllDisks(GetMpathSlaves(b))
    ensures KeyedExactlyOn(EnrolDev(lu, node, b, key, true), key, Nexuses(node, Paths(b)))
    ensures LeavesOthersAlone(lu, EnrolDev(lu, node, b, key, true), key, Nexuses(node, Paths(b)))
  {
    match b
    case Disk(p) =>
      EnrolOne(lu, Nexus(node, p), key);
      NexusesCons(node, p, []);
      assert [p] + [] == Paths(b);
      assert Nexuses(node, []) == {};
    case Dm(_) =>
      var slaves := GetMpathSlaves(b);
      var n := Nexus(node, slaves[0].path);
      EnrolOne(lu, n, key);
      EnrolDisks(lu, EnrolDev(lu, node, slaves[0], key, true), node, slaves[1..], key, {n});
      NexusesCons(node, slaves[0].path, PathsAll(slaves[1..]));
      assert Paths(slaves[0]) == [slaves[0].path];
  }

  // ------------------------------------------------- the same, by the shape of the stack

  /** The maps from b down along first slaves, to the first one that has a disk as its first
      slave. */
  ghost predicate IsChain(b: BlockDev, chain: seq<BlockDev>) {
    && chain != [] && chain[0] == b
    && (forall k | 0 <= k < |chain| :: chain[k].Dm? && chain[k].slaves != [])
    && (forall k | 0 <= k < |chain| - 1 :: chain[k].slaves[0] == chain[k+1])
    && chain[|chain|-1].slaves[0].Disk?
  }

  /** All slaves of the innermost map are found, in their order. */
  lemma {:induction false} SlavesOfChain(b: BlockDev, chain: seq<BlockDev>)
    requires IsChain(b, chain)
    ensures GetMpathSlaves(b) == chain[|chain|-1].slaves
    decreases |chain|
  {
    if |chain| > 1 {
      assert chain[0].slaves[0] == chain[1];
      SlavesOfChain(chain[1], chain[1..]);
    }
  }

  /** There is such a map whenever slaves are found. */
  lemma {:induction false} ChainExists(b: BlockDev) returns (chain: seq<BlockDev>)
    requires b.Dm? && GetMpathSlaves(b) != []
    ensures IsChain(b, chain)
    decreases Size(b)
  {
    if b.slaves[0].Dm? {
      assert SizeAll(b.slaves) == 1 + Size(b.slaves[0]) + SizeAll(b.slaves[1..]);
      var rest := ChainExists(b.slaves[0]);
      chain := [b] + rest;
    } else {
      chain := [b];
    }
  }

  lemma {:induction false} PathsOfDisks(bs: seq<BlockDev>)
    requires AllDisks(bs)
    ensures |PathsAll(bs)| == |bs| && forall i | 0 <= i < |bs| :: PathsAll(bs)[i] == bs[i].path
    decreases |bs|
  {
    if bs != [] {
      PathsOfDisks(bs[1..]);
      assert PathsAll(bs) == [bs[0].path] + PathsAll(bs[1..]);
    }
  }

  /** The disks of the innermost map. */
  ghost predicate AreDisks(b: BlockDev, disks: seq<BlockDev>) {
    && (exists chain: seq<BlockDev> :: IsChain(b, chain) && chain[|chain|-1].slaves == disks)
    && forall i | 0 <= i < |disks| :: disks[i].Disk?
  }

  /** The key is on the nexus of each of the disks. */
  ghost predicate OnDisks(lu: Lu, node: Key, disks: seq<BlockDev>, key: Key) {
    forall i | 0 <= i < |disks| :: disks[i].Disk? && HoldsKey(lu, Nexus(node, disks[i].path), key)
  }

  /** Registering through a map gives the key to the nexus of each disk of the innermost map,
      and to no other nexus, when that has only disks. */
  lemma DisksGetTheKey(lu: Lu, node: Key, b: BlockDev, disks: seq<BlockDev>, key: Key)
    requires lu.Valid() && AreDisks(b, disks)
    ensures var r := EnrolDev(lu, node, b, key, true);
            && OnDisks(r, node, disks, key)
            && forall n | n in r.regs && r.regs[n] == key :: exists i :: 0 <= i < |disks| && n == Nexus(node, disks[i].path)
  {
    var r := EnrolDev(lu, node, b, key, true);
    var chain: seq<BlockDev> :| IsChain(b, chain) && chain[|chain|-1].slaves == disks;
    SlavesOfChain(b, chain);
    PathsOfDisks(disks);
    EnrolmentIsExact(lu, node, b, key);
    forall i | 0 <= i < |disks| ensures HoldsKey(r, Nexus(node, disks[i].path), key) {
      assert Nexus(node, Paths(b)[i]) in Nexuses(node, Paths(b));
    }
    forall n | n in r.regs && r.regs[n] == key ensures exists i :: 0 <= i < |disks| && n == Nexus(node, disks[i].path) {
      var i :| 0 <= i < |Paths(b)| && n == Nexus(node, Paths(b)[i]);
      assert n == Nexus(node, disks[i].path);
    }
  }

  /** For a map over disks: the key is on exactly their nexuses. */
  lemma MapOverDisks(lu: Lu, node: Key, b: BlockDev, key: Key, n: Nexus)
    requires lu.Valid() && b.Dm? && b.slaves != [] && forall i | 0 <= i < |b.slaves| :: b.slaves[i].Disk?
    ensures var r := EnrolDev(lu, node, b, key, true);
            (n in r.regs && r.regs[n] == key) <==> n in set i | 0 <= i < |b.slaves| :: Nexus(node, b.slaves[i].path)
  {
    assert IsChain(b, [b]) && [b][|[b]|-1].slaves == b.slaves;
    DisksGetTheKey(lu, node, b, b.slaves, key);
  }

  // ------------------------------------------- stacks that mix disks and mapped devices

  /** Nexus n does not hold the key. */
  ghost predicate Without(lu: Lu, n: Nexus, key: Key) {
    n !in lu.regs || lu.regs[n] != key
  }

  /** Registering through b never gives the key to a nexus that is not behind b; and when b
      is a device-mapper device, it takes the key away from all those. */
  lemma {:induction false} EnrolElsewhere(lu: Lu, node: Key, b: BlockDev, key: Key, renew: bool, n: Nexus)
    requires lu.Valid() && n !in Nexuses(node, Paths(b))
    requires Without(lu, n, key) || (b.Dm? && GetMpathSlaves(b) != [])
    ensures Without(EnrolDev(lu, node, b, key, renew), n, key)
    decreases Size(b)
  {
    match b
    case Disk(p) =>
      assert Nexus(node, Paths(b)[0]) in Nexuses(node, Paths(b));
    case Dm(_) =>
      var slaves := GetMpathSlaves(b);
      if slaves != [] {
        assert Paths(slaves[0]) == [slaves[0].path];
        NexusesCons(node, slaves[0].path, PathsAll(slaves[1..]));
        EnrolAllElsewhere(EnrolDev(lu, node, slaves[0], key, true), node, slaves[1..], key, n);
      }
  }

  lemma {:induction false} EnrolAllElsewhere(lu: Lu, node: Key, bs: seq<BlockDev>, key: Key, n: Nexus)
    requires lu.Valid() && n !in Nexuses(node, PathsAll(bs))
    requires Without(lu, n, key)
    ensures Without(EnrolAll(lu, node, bs, key), n, key)
    decreases SizeAll(bs)
  {
    if bs != [] {
      NexusesSplit(node, Paths(bs[0]), PathsAll(bs[1..]));
      EnrolElsewhere(lu, node, bs[0], key, false, n);
      EnrolAllElsewhere(EnrolDev(lu, node, bs[0], key, false), node, bs[1..], key, n);
    }
  }

  lemma NexusesSplit(node: Key, a: seq<nat>, b: seq<nat>)
    ensures Nexuses(node, a + b) == Nexuses(node, a) + Nexuses(node, b)
  {
    forall n | n in Nexuses(node, b) ensures n in Nexuses(node, a + b) {
      var i :| 0 <= i < |b| && n == Nexus(node, b[i]);
      assert n == Nexus(node, (a + b)[|a| + i]);
    }
    forall n | n in Nexuses(node, a) ensures n in Nexuses(node, a + b) {
      var i :| 0 <= i < |a| && n == Nexus(node, a[i]);
      assert n == Nexus(node, (a + b)[i]);
    }
  }

  ghost predicate NoEmptyMap(bs: seq<BlockDev>) {
    forall i | 0 <= i < |bs| :: bs[i].Dm? ==> GetMpathSlaves(bs[i]) != []
  }

  lemma {:induction false} LaterMapDropsFirst(lu: Lu, node: Key, bs: seq<BlockDev>, key: Key, n: Nexus)
    requires lu.Valid() && n !in Nexuses(node, PathsAll(bs)) && NoEmptyMap(bs) && !AllDisks(bs)
    ensures Without(EnrolAll(lu, node, bs, key), n, key)
    decreases |bs|
  {
    var lu' := EnrolDev(lu, node, bs[0], key, false);
    NexusesSplit(node, Paths(bs[0]), PathsAll(bs[1..]));
    if bs[0].Dm? {
      EnrolElsewhere(lu, node, bs[0], key, false, n);
      EnrolAllElsewhere(lu', node, bs[1..], key, n);
    } else {
      LaterMapDropsFirst(lu', node, bs[1..], key, n);
    }
  }

  /** Exactly when register_dev in "multi" mode leaves the key on all path nexuses: when all
      the slaves it finds are disks.  A slave that is itself a device-mapper device is
      registered with a preempt of its own, which clears the slaves before it. */
  lemma EnrolmentIsExactIffDisks(lu: Lu, node: Key, b: BlockDev, key: Key)
    requires lu.Valid() && b.Dm?
    requires GetMpathSlaves(b) != [] && NoEmptyMap(GetMpathSlaves(b)) && Distinct(Paths(b))
    ensures KeyedExactlyOn(EnrolDev(lu, node, b, key, true), key, Nexuses(node, Paths(b)))
            <==> AllDisks(GetMpathSlaves(b))
  {
    var slaves := GetMpathSlaves(b);
    if AllDisks(slaves) {
      EnrolmentIsExact(lu, node, b, key);
    } else {
      var p := slaves[0].path;
      var rest := PathsAll(slaves[1..]);
      assert Paths(slaves[0]) == [p];
      assert Paths(b) == [p] + rest;
      forall i | 0 <= i < |rest| ensures rest[i] != p {
        assert Paths(b)[0] != Paths(b)[i+1];
      }
      LaterMapDropsFirst(EnrolDev(lu, node, slaves[0], key, true), node, slaves[1..], key, Nexus(node, p));
      NexusesCons(node, p, rest);
    }
  }

  /** Such a stack: a map over a disk and another map, which loses the disk's path. */
  lemma MapOverDiskAndMap(node: Key, key: Key)
    ensures var b := Dm([Disk(0), Dm([Disk(1)])]);
            && !AllDisks(GetMpathSlaves(b)) && Nexus(node, 0) in Nexuses(node, Paths(b))
            && Without(EnrolDev(Lu(map[], None), node, b, key, true), Nexus(node, 0), key)
  {
    var inner := Dm([Disk(1)]);
    var b := Dm([Disk(0), inner]);
    var slaves := GetMpathSlaves(b);
    assert slaves == [Disk(0), inner] && slaves[1..] == [inner] && slaves[1].Dm?;
    assert GetMpathSlaves(inner) == [Disk(1)] && [Disk(1)][1..] == [];
    assert Paths(Disk(1)) == [1] && PathsAll([Disk(1)]) == [1] + [] && Paths(inner) == [1];
    assert PathsAll([inner]) == [1] + [] && Paths(Disk(0)) == [0] && Paths(b) == [0] + [1];
    assert Nexus(node, Paths(b)[0]) in Nexuses(node, Paths(b));
    EnrolElsewhere(EnrolDev(Lu(map[], None), node, Disk(0), key, true), node, inner, key, false, Nexus(node, 0));
    assert EnrolAll(EnrolDev(Lu(map[], None), node, Disk(0), key, true), node, [inner], key)
        == EnrolDev(EnrolDev(Lu(map[], None), node, Disk(0), key, true), node, inner, key, false);
  }
}
