/** fence_scsi and fence_mpath, from the start of fence_action to its end. */
module FenceNode {
  import E = Engine
  import FS = FenceScsi
  import FM = FenceMpath
  import opened Ascii
  import opened ScsiTarget
  import opened PrFabric
  import opened PrAgent
  import opened FenceRun
  import opened Wrappers

  /** What an agent has stored: whether fence_scsi has a key of its own, other than the
      victim's; the keys in the file of fence_mpath. */
  datatype Stored = Able(able: bool) | Hosts(hosts: map<nat, string>)

  /** An agent and its devices. */
  datatype Agent =
    | Scsi(scsi: FS.Agent, devices: seq<Device>)
    | Mpath(mpath: FM.Agent, maps: seq<FM.Device>)
  {
    function Fabric(): Fabric {
      if Scsi? then scsi.fabric else mpath.fabric
    }

    function Objects(): set<object> {
      if Scsi? then {scsi, scsi.fabric} else {mpath, mpath.fabric}
    }

    function Luns(): seq<nat> {
      if Scsi? then FS.Luns(devices) else FM.Luns(maps)
    }

    function Stored(key: string): Stored
      reads Objects()
    {
      if Scsi? then Able(scsi.stored.Some? && Lower(key) != scsi.fabric.node) else Hosts(FM.KeysOf(mpath.store))
    }

    /** What the agent takes for granted. */
    ghost predicate Sane(key: string, action: E.Action)
      reads Objects()
    {
      if action == E.On then IsOwnKey(Fabric(), key)
      else Scsi? && scsi.stored.Some? ==> IsOwnKey(scsi.fabric, scsi.stored.value) && Canonical(scsi.stored.value)
    }

    /** Nobody interferes, every node uses its own key, and the devices are there. */
    ghost predicate Undisturbed(key: string, action: E.Action)
      reads Objects()
    {
      && Fabric().Valid() && Fabric().Quiet() && KeyedSan(Fabric().states[0])
      && match this
         case Scsi(scsi, devices) => scsi.Present(Fabric().luns, devices) && (action == E.On || Lower(key) != ZERO_KEY)
         case Mpath(mpath, maps) =>
           if action == E.On then mpath.Present(Fabric().luns, maps)
           else mpath.Known(Fabric().luns, maps, FM.KeysOf(mpath.store), key)
    }
  }

  // -------------------------------------------------------- the answers, undisturbed

  /** An agent, what it is to do, what it has stored, and the units at the start. */
  datatype Case = Case(agent: Agent, key: string, action: E.Action, stored: Stored, san: San) {

    ghost predicate Valid() {
      && ValidSan(san) && (agent.Scsi? <==> stored.Able?) && action in {E.On, E.Off}
    }

    /** A setter call returns, the units being as they are. */
    ghost predicate Returns(units: San)
      requires Valid() && ValidSan(units)
    {
      if action == E.On then agent.Luns() == [] || Canonical(key)
      else if agent.Scsi? then stored.able && forall j | 0 <= j < |agent.Luns()| :: Reserved(units, agent.Luns()[j])
      else AllClean(agent.mpath.OffSan(units, agent.maps, stored.hosts, key), agent.Luns(), |agent.Luns()|, key)
    }

    /** A reading says "on": when all devices have the key, for fence_scsi and "on"; otherwise
        when one has. */
    ghost predicate IsOn(units: San) {
      if action == E.On && agent.Scsi? then
        agent.Luns() != [] && AllHold(units, agent.Luns())
      else
        SomeHolds(units, agent.Luns())
    }

    ghost predicate AllHold(units: San, luns: seq<nat>) {
      forall j | 0 <= j < |luns| :: Holds(units, luns[j], key)
    }

    ghost predicate SomeHolds(units: San, luns: seq<nat>) {
      exists j | 0 <= j < |luns| :: Holds(units, luns[j], key)
    }

    ghost function Answer(units: San, setter: bool): (r: E.Reply)
      requires Valid() && ValidSan(units)
      ensures !r.Raises? && (!setter ==> r.Says? && r.status in {E.IsOn, E.IsOff})
    {
      if setter then (if Returns(units) then E.Says(E.Unknown, true) else E.Exits)
      else E.Says(if IsOn(units) then E.IsOn else E.IsOff, true)
    }

    lemma ReadingIs(units: San)
      ensures agent.Scsi? && action == E.On ==>
                (IsOn(units) <==> agent.devices != [] && forall d | d in agent.devices :: Holds(units, d.lun, key))
      ensures agent.Scsi? && action != E.On ==> (IsOn(units) <==> exists d | d in agent.devices :: Holds(units, d.lun, key))
      ensures agent.Mpath? ==> (IsOn(units) <==> exists i | 0 <= i < |agent.maps| :: Holds(units, agent.maps[i].lun, key))
    {
      if agent.Scsi? {
        ScsiReading(agent.devices, units);
      } else {
        MpathReading(agent.maps, units);
      }
    }

    lemma MpathReading(maps: seq<FM.Device>, units: San)
      ensures SomeHolds(units, FM.Luns(maps)) <==> exists i | 0 <= i < |maps| :: Holds(units, maps[i].lun, key)
    {
      var luns := FM.Luns(maps);
      if i :| 0 <= i < |maps| && Holds(units, maps[i].lun, key) { assert Holds(units, luns[i], key); }
      if j :| 0 <= j < |luns| && Holds(units, luns[j], key) { assert Holds(units, maps[j].lun, key); }
    }

    lemma ScsiReading(devices: seq<Device>, units: San)
      ensures AllHold(units, FS.Luns(devices)) <==> forall d | d in devices :: Holds(units, d.lun, key)
      ensures SomeHolds(units, FS.Luns(devices)) <==> exists d | d in devices :: Holds(units, d.lun, key)
    {
      var luns := FS.Luns(devices);
      forall d | d in devices ensures exists j :: 0 <= j < |luns| && luns[j] == d.lun {
        var j :| 0 <= j < |devices| && devices[j] == d;
        assert luns[j] == d.lun;
      }
      forall j | 0 <= j < |luns| ensures devices[j] in devices && luns[j] == devices[j].lun {}
    }

    /** The units after a setter call that has returned. */
    ghost function After(units: San): (r: San)
      requires Valid() && ValidSan(units)
      ensures ValidSan(r) && r.Keys == units.Keys
    {
      match agent
      case Scsi(scsi, devices) =>
        if action == E.On then scsi.OnAll(units, devices, |devices|, key) else scsi.OffAll(units, devices, scsi.fabric.node, key)
      case Mpath(mpath, maps) =>
        if action == E.On then mpath.OnSan(units, maps) else mpath.OffSan(units, maps, stored.hosts, key)
    }

    /** The units after k of them. */
    ghost function Units(k: nat): (r: San)
      requires Valid()
      ensures ValidSan(r) && r.Keys == san.Keys
    {
      if k == 0 then san else After(Units(k - 1))
    }

    ghost function Answers(): Answers
      requires Valid()
    {
      (k: nat, setter: bool) => Answer(Units(k), setter)
    }

    /** When an undisturbed run ends in success: "on" when there are devices and the key is
        spelled as the target spells it; "off" when no device has the key, or the setter
        returns. */
    ghost predicate Due()
      requires Valid()
    {
      if action == E.On then agent.Luns() != [] && Canonical(key) else !IsOn(san) || Returns(san)
    }

    function Final(): E.Status {
      if action == E.On && agent.Luns() != [] then E.IsOn else E.IsOff
    }

    lemma AnswerAt(k: nat, setter: bool)
      requires Valid()
      ensures Answers()(k, setter) == Answer(Units(k), setter)
    {
    }

    lemma UnitsNext(k: nat)
      requires Valid()
      ensures Units(k + 1) == After(Units(k))
    {
    }

    lemma DueIffSucceeds()
      requires Valid()
      ensures Due() <==> Succeeds(Answers(), action, Final())
    {
      AnswerAt(0, true);
      AnswerAt(0, false);
    }

    /** What the agent's lemmas need of the units. */
    ghost predicate Fit(units: San)
      requires Valid()
    {
      && ValidSan(units)
      && match agent
         case Scsi(scsi, devices) =>
           scsi.Present(units, devices) && (action == E.Off && stored.able ==> KeyedSan(units))
         case Mpath(mpath, maps) => action == E.On ==> mpath.Present(units, maps)
    }

    /** What they need of the keys. */
    ghost predicate Named()
      requires Valid()
    {
      var node := agent.Fabric().node;
      && (action == E.On || (agent.Scsi? && stored.able) ==> Canonical(node) && node != ZERO_KEY)
      && (action == E.On ==> Lower(key) == node)
      && (action == E.Off && agent.Scsi? && stored.able ==> Lower(key) !in {node, ZERO_KEY})
    }

    /** The units stay fit, and a setter call that returns leaves them as it is to leave them. */
    lemma AfterIsSteady(units: San)
      requires Valid() && Named() && Fit(units)
      ensures (agent.Scsi? && action == E.Off ==> stored.able) ==> Fit(After(units))
      ensures Returns(units) ==> Returns(After(units)) && (IsOn(After(units)) <==> Final() == E.IsOn)
    {
      match agent
      case Scsi(scsi, devices) =>
        if action == E.On { ScsiOn(scsi, devices, units); } else if stored.able { ScsiOff(scsi, devices, units); }
      case Mpath(mpath, maps) =>
        if action == E.On { MpathOn(mpath, maps, units); } else { MpathOff(mpath, maps, units); }
    }

    lemma ScsiOn(scsi: FS.Agent, devices: seq<Device>, units: San)
      requires Valid() && Named() && Fit(units) && agent == Scsi(scsi, devices) && action == E.On
      ensures Fit(After(units)) && (Returns(units) ==> (IsOn(After(units)) <==> devices != []))
    {
      forall i | 0 <= i < |devices| ensures Holds(After(units), devices[i].lun, key) {
        scsi.OnAllHolds(units, devices, |devices|, key, i);
      }
    }

    lemma ScsiOff(scsi: FS.Agent, devices: seq<Device>, units: San)
      requires Valid() && Named() && Fit(units) && agent == Scsi(scsi, devices) && action == E.Off && stored.able
      ensures Fit(After(units)) && (Returns(units) ==> Returns(After(units)) && !IsOn(After(units)))
    {
      var node := scsi.fabric.node;
      forall l | l in units ensures After(units)[l].Keyed() {
        scsi.OffAllEffect(units, devices, node, key, l);
      }
      forall i | 0 <= i < |devices| && Reserved(units, devices[i].lun) ensures Clean(After(units), devices[i].lun, key) {
        scsi.OffLooksClean(units, devices, node, key, i);
      }
    }

    lemma MpathOn(mpath: FM.Agent, maps: seq<FM.Device>, units: San)
      requires Valid() && Named() && Fit(units) && agent == Mpath(mpath, maps) && action == E.On
      ensures Fit(After(units)) && (Returns(units) ==> (IsOn(After(units)) <==> maps != []))
    {
      forall l | l in units ensures After(units)[l].Keyed() {
        mpath.OnLunMeans(units[l], l, maps, |maps|);
      }
      if maps != [] && Canonical(key) {
        var l := maps[0].lun;
        mpath.OnLunMeans(units[l], l, maps, |maps|);
        var n := Nexus(mpath.fabric.node, maps[0].paths[0]);
        assert n in After(units)[l].regs && After(units)[l].regs[n] == key;
        assert Holds(After(units), agent.Luns()[0], key);
      }
    }

    lemma MpathOff(mpath: FM.Agent, maps: seq<FM.Device>, units: San)
      requires Valid() && Fit(units) && agent == Mpath(mpath, maps) && action == E.Off
      ensures Returns(units) ==> Returns(After(units)) && !IsOn(After(units))
    {
      if Returns(units) {
        var next := After(units);
        forall i | 0 <= i < |maps| ensures Clean(After(next), agent.Luns()[i], key) {
          var l := maps[i].lun;
          assert l == agent.Luns()[i] && Clean(next, l, key);
          mpath.OffLunOverlooks(next[l], l, maps, |maps|, stored.hosts, key);
        }
      }
    }

    lemma {:induction false} UnitsFit(k: nat)
      requires Valid() && Named() && Fit(san) && (agent.Scsi? && action == E.Off ==> stored.able)
      ensures Fit(Units(k))
    {
      if k > 0 {
        UnitsFit(k - 1);
        AfterIsSteady(Units(k - 1));
      }
    }

    lemma SteadyNext(k: nat)
      requires Valid() && Named() && Fit(san)
      ensures SteadyAt(Answers(), Final(), k)
    {
      var answers := Answers();
      assert answers(k, true) == Answer(Units(k), true);
      assert answers(k, false) == Answer(Units(k), false);
      assert answers(k + 1, true) == Answer(Units(k + 1), true);
      assert answers(k + 1, false) == Answer(Units(k + 1), false);
      if Returns(Units(k)) {
        UnitsFit(k);
        AfterIsSteady(Units(k));
        assert Units(k + 1) == After(Units(k));
      }
    }

    /** A run in which the first setter call is enough: a status, the call, and the status
        after it. */
    lemma OneCallAgrees(plug: string)
      requires Valid() && Named() && Fit(san) && Returns(san)
      ensures var s := if IsOn(san) then E.IsOn else E.IsOff;
              Agrees([E.Get(plug, s), E.Set(plug, action), E.Get(plug, Final())],
                     [E.Says(s, true), E.Says(E.Unknown, true), E.Says(Final(), true)], Answers())
    {
      var s := if IsOn(san) then E.IsOn else E.IsOff;
      var calls := [E.Get(plug, s), E.Set(plug, action), E.Get(plug, Final())];
      var told := [E.Says(s, true), E.Says(E.Unknown, true), E.Says(Final(), true)];
      assert calls[..0] == [] && calls[..1] == [calls[0]] && calls[..2] == [calls[0], calls[1]];
      assert calls[..1][..0] == [] && calls[..2][..1] == calls[..1];
      assert SetsBefore(calls, 0) == 0 && SetsBefore(calls, 1) == 0 && SetsBefore(calls, 2) == 1;
      AfterIsSteady(san);
      UnitsNext(0);
      AnswerAt(0, false);
      AnswerAt(0, true);
      AnswerAt(1, false);
      assert AgreesAt(calls, told, Answers(), 0) && AgreesAt(calls, told, Answers(), 1) && AgreesAt(calls, told, Answers(), 2);
    }

    lemma AnswersAreSteady()
      requires Valid() && Named() && Fit(san)
      ensures Steady(Answers(), Final())
    {
      forall k: nat ensures SteadyAt(Answers(), Final(), k) {
        SteadyNext(k);
      }
    }
  }

  // ------------------------------------------------------------------ making the calls

  /** An undisturbed agent of that case, whatever the units are by now. */
  ghost predicate Foreseen(agent: Agent, key: string, action: E.Action, c: Case)
    reads agent.Objects()
  {
    && c.Valid() && c.agent == agent && c.key == key && c.action == action && agent.Undisturbed(key, action)
    && (action == E.Off ==> c.stored == agent.Stored(key))
  }

  lemma CaseIsFit(agent: Agent, key: string, action: E.Action, c: Case)
    requires agent.Sane(key, action) && Foreseen(agent, key, action, c)
    ensures ValidSan(agent.Fabric().luns) && KeyedSan(agent.Fabric().luns)
    ensures c.Named() && c.Fit(agent.Fabric().luns)
  {
    var fabric := agent.Fabric();
    RunStaysKeyed(fabric.states, fabric.trace, |fabric.trace|);
  }

  /** A reading. */
  method Read(agent: Agent, key: string, action: E.Action, ghost c: Case) returns (reply: E.Reply)
    requires agent.Fabric().Valid() && !agent.Fabric().dead && action in {E.On, E.Off} && agent.Sane(key, action)
    modifies agent.Objects()
    ensures agent.Fabric().Since(old(agent.Fabric().trace), old(agent.Fabric().states)) && (reply.Says? ==> !agent.Fabric().dead)
    ensures agent.Sane(key, action) && old(agent.Fabric().confirmed) <= agent.Fabric().confirmed
    ensures action == E.Off && reply.Says? && reply.status == E.IsOff ==>
              GoneFrom(agent.Fabric(), agent.Luns(), |agent.Luns()|, key, |old(agent.Fabric().trace)|)
    ensures old(Foreseen(agent, key, action, c)) ==> (
              && Foreseen(agent, key, action, c) && agent.Fabric().luns == old(agent.Fabric().luns)
              && reply == c.Answer(agent.Fabric().luns, false))
  {
    if Foreseen(agent, key, action, c) {
      CaseIsFit(agent, key, action, c);
      c.ReadingIs(agent.Fabric().luns);
    }
    var answer;
    match agent {
      case Scsi(scsi, devices) =>
        answer := scsi.GetStatus(devices, key, if action == E.On then "on" else "off");
      case Mpath(mpath, maps) =>
        answer := mpath.GetStatus(maps, key);
    }
    return if answer == None then E.Exits else E.Says(if answer == Some("on") then E.IsOn else E.IsOff, true);
  }

  /** What a setter call that returns has established. */
  ghost predicate Done(agent: Agent, key: string, action: E.Action)
    requires agent.Fabric().Valid()
    reads agent.Fabric()
  {
    && (forall j | 0 <= j < |agent.Luns()| :: Reserved(agent.Fabric().luns, agent.Luns()[j]))
    && (action == E.On && KeyedSan(agent.Fabric().states[0]) ==>
          && (agent.Luns() == [] || key == agent.Fabric().node)
          && forall j | 0 <= j < |agent.Luns()| :: agent.Luns()[j] in agent.Fabric().confirmed)
  }

  /** A setter call. */
  method Set(agent: Agent, key: string, action: E.Action, ghost c: Case) returns (reply: E.Reply)
    requires agent.Fabric().Valid() && !agent.Fabric().dead && action in {E.On, E.Off} && agent.Sane(key, action)
    modifies agent.Objects()
    ensures agent.Fabric().Since(old(agent.Fabric().trace), old(agent.Fabric().states)) && (reply.Says? ==> !agent.Fabric().dead) && agent.Sane(key, action)
    ensures reply.Says? ==> Done(agent, key, action)
    ensures old(Foreseen(agent, key, action, c)) ==> (
              && ValidSan(old(agent.Fabric().luns))
              && reply == c.Answer(old(agent.Fabric().luns), true)
              && (reply.Says? ==> Foreseen(agent, key, action, c) && agent.Fabric().luns == c.After(old(agent.Fabric().luns))))
  {
    var ok;
    match agent {
      case Scsi(_, _) => ok := SetScsi(agent, key, action, c);
      case Mpath(_, _) => ok := SetMpath(agent, key, action, c);
    }
    return if ok then E.Says(E.Unknown, true) else E.Exits;
  }

  lemma AllReserved(agent: Agent, san: San)
    requires agent.Scsi?
    ensures (forall j | 0 <= j < |agent.Luns()| :: Reserved(san, agent.Luns()[j])) <==>
            forall i | 0 <= i < |agent.devices| :: Reserved(san, agent.devices[i].lun)
  {
    assert forall i | 0 <= i < |agent.devices| :: agent.Luns()[i] == agent.devices[i].lun;
  }

  method SetScsi(agent: Agent, key: string, action: E.Action, ghost c: Case) returns (ok: bool)
    requires agent.Fabric().Valid() && !agent.Fabric().dead && action in {E.On, E.Off} && agent.Sane(key, action) && agent.Scsi?
    modifies agent.Objects()
    ensures agent.Fabric().Since(old(agent.Fabric().trace), old(agent.Fabric().states)) && (ok ==> !agent.Fabric().dead) && agent.Sane(key, action)
    ensures ok ==> Done(agent, key, action)
    ensures old(Foreseen(agent, key, action, c)) ==> (
              && ValidSan(old(agent.Fabric().luns))
              && ok == c.Returns(old(agent.Fabric().luns))
              && (ok ==> Foreseen(agent, key, action, c) && agent.Fabric().luns == c.After(old(agent.Fabric().luns))))
  {
    if Foreseen(agent, key, action, c) { CaseIsFit(agent, key, action, c); }
    var scsi, devices := agent.scsi, agent.devices;
    if action == E.On {
      ok := scsi.SetStatusOn(devices, key);
    } else {
      AllReserved(agent, scsi.fabric.luns);
      ok := scsi.SetStatusOff(devices, key);
    }
  }

  method SetMpath(agent: Agent, key: string, action: E.Action, ghost c: Case) returns (ok: bool)
    requires agent.Fabric().Valid() && !agent.Fabric().dead && action in {E.On, E.Off} && agent.Sane(key, action) && agent.Mpath?
    modifies agent.Objects()
    ensures agent.Fabric().Since(old(agent.Fabric().trace), old(agent.Fabric().states)) && (ok ==> !agent.Fabric().dead) && agent.Sane(key, action)
    ensures ok ==> Done(agent, key, action)
    ensures old(Foreseen(agent, key, action, c)) ==> (
              && ValidSan(old(agent.Fabric().luns))
              && ok == c.Returns(old(agent.Fabric().luns))
              && (ok ==> Foreseen(agent, key, action, c) && agent.Fabric().luns == c.After(old(agent.Fabric().luns))))
  {
    if Foreseen(agent, key, action, c) { CaseIsFit(agent, key, action, c); }
    if action == E.On {
      ok := agent.mpath.SetStatusOn(agent.maps, key);
    } else {
      ok := agent.mpath.SetStatusOff(agent.maps, key);
    }
    if KeyedSan(agent.Fabric().states[0]) { RunStaysKeyed(agent.Fabric().states, agent.Fabric().trace, |agent.Fabric().trace|); }
  }

  /** After i calls that have all returned: what is known in every interleaving, and, in an
      undisturbed run, the units. */
  ghost predicate Midway(agent: Agent, key: string, action: E.Action, calls: seq<E.Event>, i: nat, n: nat, undisturbed: bool, c: Case)
    reads agent.Objects()
  {
    && agent.Fabric().Valid() && !agent.Fabric().dead && agent.Sane(key, action) && i <= |calls| && n <= |agent.Fabric().trace|
    && Known(agent.Fabric(), agent.Luns(), key, action, calls[..i], n)
    && (undisturbed ==> Foreseen(agent, key, action, c) && agent.Fabric().luns == c.Units(E.CountSets(calls[..i])))
  }

  /** A reading adds to what is known. */
  method FollowRead(agent: Agent, key: string, action: E.Action, e: E.Event, ghost calls: seq<E.Event>, ghost n: nat, ghost c: Case)
    returns (reply: E.Reply)
    requires agent.Fabric().Valid() && !agent.Fabric().dead && action in {E.On, E.Off} && agent.Sane(key, action) && e.Get?
    requires n <= |agent.Fabric().trace| && Known(agent.Fabric(), agent.Luns(), key, action, calls, n)
    modifies agent.Objects()
    ensures agent.Fabric().Since(old(agent.Fabric().trace), old(agent.Fabric().states)) && (reply.Says? ==> !agent.Fabric().dead) && agent.Sane(key, action)
    ensures reply.Says? && e.status == reply.status ==> Known(agent.Fabric(), agent.Luns(), key, action, calls + [e], n)
    ensures old(Foreseen(agent, key, action, c)) ==> (
              && Foreseen(agent, key, action, c) && agent.Fabric().luns == old(agent.Fabric().luns)
              && reply == c.Answer(agent.Fabric().luns, false))
  {
    ghost var t, s := agent.Fabric().trace, agent.Fabric().states;
    reply := Read(agent, key, action, c);
    KnownAfterGet(agent.Fabric(), t, s, calls, e);
    agent.Fabric().StillSilent(t, n, key);
    assert agent.Fabric().states[0] == s[0];
  }

  method FollowSet(agent: Agent, key: string, action: E.Action, e: E.Event, ghost calls: seq<E.Event>, ghost n: nat, ghost c: Case)
    returns (reply: E.Reply)
    requires agent.Fabric().Valid() && !agent.Fabric().dead && action in {E.On, E.Off} && agent.Sane(key, action) && e.Set?
    requires n <= |agent.Fabric().trace| && Known(agent.Fabric(), agent.Luns(), key, action, calls, n)
    modifies agent.Objects()
    ensures agent.Fabric().Since(old(agent.Fabric().trace), old(agent.Fabric().states)) && (reply.Says? ==> !agent.Fabric().dead) && agent.Sane(key, action)
    ensures reply.Says? ==> Known(agent.Fabric(), agent.Luns(), key, action, calls + [e], n)
    ensures old(Foreseen(agent, key, action, c)) ==> (
              && ValidSan(old(agent.Fabric().luns))
              && reply == c.Answer(old(agent.Fabric().luns), true)
              && (reply.Says? ==> Foreseen(agent, key, action, c) && agent.Fabric().luns == c.After(old(agent.Fabric().luns))))
  {
    reply := Set(agent, key, action, c);
    assert (calls + [e])[|calls|] == e;
  }

  lemma SetAdds(calls: seq<E.Event>, i: nat)
    requires i < |calls|
    ensures calls[..i+1] == calls[..i] + [calls[i]]
    ensures E.CountSets(calls[..i+1]) == E.CountSets(calls[..i]) + if calls[i].Set? then 1 else 0
    ensures SetsBefore(calls, i) == E.CountSets(calls[..i]) && SetsBefore(calls, |calls|) == E.CountSets(calls)
  {
    assert calls[..i+1][..i] == calls[..i];
  }

  /** Recorded call number i. */
  method FollowNext(agent: Agent, key: string, action: E.Action, calls: seq<E.Event>, i: nat,
                    ghost n: nat, ghost undisturbed: bool, ghost c: Case) returns (reply: E.Reply)
    requires i < |calls| && action in {E.On, E.Off} && !calls[i].Try?
    requires Midway(agent, key, action, calls, i, n, undisturbed, c)
    modifies agent.Objects()
    ensures agent.Fabric().Since(old(agent.Fabric().trace), old(agent.Fabric().states))
    ensures undisturbed ==> c.Valid() && reply == c.Answer(c.Units(E.CountSets(calls[..i])), calls[i].Set?)
    ensures reply.Says? && (calls[i].Get? ==> calls[i].status == reply.status) ==>
              Midway(agent, key, action, calls, i + 1, n, undisturbed, c)
  {
    SetAdds(calls, i);
    if undisturbed { c.UnitsNext(E.CountSets(calls[..i])); }
    if calls[i].Set? {
      reply := FollowSet(agent, key, action, calls[i], calls[..i], n, c);
    } else {
      reply := FollowRead(agent, key, action, calls[i], calls[..i], n, c);
    }
  }

  /** Call number i, which may be a reading without a record. */
  method FollowCall(agent: Agent, key: string, action: E.Action, calls: seq<E.Event>, told: seq<E.Reply>, i: nat,
                    ghost n: nat, ghost undisturbed: bool, ghost c: Case) returns (reply: E.Reply)
    requires i < |told| && Told(calls, told) && action in {E.On, E.Off} && !CallAt(calls, i).Try?
    requires Midway(agent, key, action, calls, i, n, undisturbed, c)
    modifies agent.Objects()
    ensures agent.Fabric().Since(old(agent.Fabric().trace), old(agent.Fabric().states))
    ensures undisturbed ==> c.Valid() && reply == c.Answers()(SetsBefore(calls, i), CallAt(calls, i).Set?)
    ensures Same(CallAt(calls, i).Set?, reply, told[i]) && told[i].Says? ==>
              Midway(agent, key, action, calls, i + 1, n, undisturbed, c)
  {
    if undisturbed { c.AnswerAt(SetsBefore(calls, i), CallAt(calls, i).Set?); }
    if i < |calls| {
      assert E.Records(calls[i], told[i]);
      reply := FollowNext(agent, key, action, calls, i, n, undisturbed, c);
    } else {
      assert calls[..i] == calls;
      reply := Read(agent, key, action, c);
    }
  }

  /** The comparison of one answer; when it is not to go on, whether all agree. */
  method FollowStep(agent: Agent, key: string, action: E.Action, calls: seq<E.Event>, told: seq<E.Reply>, i: nat,
                    ghost n: nat, ghost undisturbed: bool, ghost c: Case) returns (on: bool, agreed: bool)
    requires i < |told| && Told(calls, told) && action in {E.On, E.Off} && !CallAt(calls, i).Try?
    requires Midway(agent, key, action, calls, i, n, undisturbed, c)
    requires undisturbed ==> AgreesUpTo(calls, told, c.Answers(), i)
    modifies agent.Objects()
    ensures agent.Fabric().Since(old(agent.Fabric().trace), old(agent.Fabric().states))
    ensures on ==> told[i].Says? && Midway(agent, key, action, calls, i + 1, n, undisturbed, c)
    ensures undisturbed ==> c.Valid() && if on then AgreesUpTo(calls, told, c.Answers(), i + 1) else agreed <==> Agrees(calls, told, c.Answers())
    ensures !on && agreed ==> i + 1 == |told| && !told[i].Says?
  {
    if undisturbed { AgreesNext(calls, told, c.Answers(), i); }
    var reply := FollowCall(agent, key, action, calls, told, i, n, undisturbed, c);
    if !Same(CallAt(calls, i).Set?, reply, told[i]) { return false, false; }
    return told[i].Says?, i + 1 == |told|;
  }

  lemma AtStart(agent: Agent, key: string, action: E.Action, calls: seq<E.Event>, n: nat, c: Case)
    requires agent.Fabric().Valid() && !agent.Fabric().dead && action in {E.On, E.Off} && agent.Sane(key, action)
    requires c == Case(agent, key, action, agent.Stored(key), agent.Fabric().luns) && n <= |agent.Fabric().trace|
    ensures Midway(agent, key, action, calls, 0, n, agent.Undisturbed(key, action), c)
  {
  }

  /** All the calls, up to the first answer that is another one than was told, or that ends
      the program. */
  method Follow(agent: Agent, key: string, action: E.Action, calls: seq<E.Event>, told: seq<E.Reply>, ghost c: Case)
    returns (agreed: bool)
    requires agent.Fabric().Valid() && !agent.Fabric().dead && action in {E.On, E.Off} && agent.Sane(key, action)
    requires Told(calls, told) && forall i | 0 <= i < |calls| :: !calls[i].Try?
    requires c == Case(agent, key, action, agent.Stored(key), agent.Fabric().luns)
    modifies agent.Objects()
    ensures agent.Fabric().Since(old(agent.Fabric().trace), old(agent.Fabric().states))
    ensures agreed ==> AllButLast(told)
    ensures agreed && AllSaid(told) ==> Midway(agent, key, action, calls, |told|, |old(agent.Fabric().trace)|, old(agent.Undisturbed(key, action)), c)
    ensures old(agent.Undisturbed(key, action)) ==> c.Valid() && (agreed <==> Agrees(calls, told, c.Answers()))
  {
    ghost var n, undisturbed := |agent.Fabric().trace|, agent.Undisturbed(key, action);
    AtStart(agent, key, action, calls, n, c);
    for i := 0 to |told|
      invariant agent.Fabric().Since(old(agent.Fabric().trace), old(agent.Fabric().states))
      invariant Midway(agent, key, action, calls, i, n, undisturbed, c)
      invariant forall j | 0 <= j < i :: told[j].Says?
      invariant undisturbed ==> AgreesUpTo(calls, told, c.Answers(), i)
    {
      var on;
      on, agreed := FollowStep(agent, key, action, calls, told, i, n, undisturbed, c);
      if !on { return; }
    }
    return true;
  }

  /** An agent from the start of fence_action to its end.  The replies of the script are those
      of the agent when agreed is true, which in an undisturbed run is known beforehand.  In
      every interleaving success means what it is to mean; undisturbed, the run ends in
      success if and only if that is due, unless it is killed. */
  method Fence(agent: Agent, key: string, action: E.Action, cfg: E.Config, script: seq<E.Reply>)
    returns (r: E.Outcome, engine: E.Engine, agreed: bool, ghost c: Case)
    requires agent.Fabric().Valid() && !agent.Fabric().dead && action in {E.On, E.Off} && agent.Sane(key, action) && IsAgents(cfg)
    modifies agent.Objects()
    ensures c == Case(agent, key, action, old(agent.Stored(key)), old(agent.Fabric().luns))
    ensures agent.Fabric().Since(old(agent.Fabric().trace), old(agent.Fabric().states))
    ensures engine.cfg == cfg && engine.script == script && Ended(engine, action, r)
    ensures agreed && r == E.Returned(0) ==>
              Success(agent.Fabric(), agent.Luns(), key, action, engine.trace, |old(agent.Fabric().trace)|)
    ensures old(agent.Undisturbed(key, action)) ==> Foretold(engine, r, agreed, c, agent.Fabric().luns)
  {
    r, engine := RunEngine(action, cfg, script);
    agreed, c := Retrace(agent, key, action, engine, r);
  }

  /** The run of the agent, once the engine has come to its end. */
  method Retrace(agent: Agent, key: string, action: E.Action, engine: E.Engine, ghost r: E.Outcome) returns (agreed: bool, ghost c: Case)
    requires agent.Fabric().Valid() && !agent.Fabric().dead && action in {E.On, E.Off} && agent.Sane(key, action)
    requires engine !in agent.Objects() && Ended(engine, action, r)
    requires Told(engine.trace, engine.script[..engine.pos]) && forall i | 0 <= i < |engine.trace| :: !engine.trace[i].Try?
    requires r == E.Returned(0) ==> Concluding(engine.trace, engine.script[..engine.pos], action)
    modifies agent.Objects()
    ensures c == Case(agent, key, action, old(agent.Stored(key)), old(agent.Fabric().luns))
    ensures agent.Fabric().Since(old(agent.Fabric().trace), old(agent.Fabric().states))
    ensures agreed && r == E.Returned(0) ==>
              Success(agent.Fabric(), agent.Luns(), key, action, engine.trace, |old(agent.Fabric().trace)|)
    ensures old(agent.Undisturbed(key, action)) ==> Foretold(engine, r, agreed, c, agent.Fabric().luns)
  {
    c := Case(agent, key, action, agent.Stored(key), agent.Fabric().luns);
    if Foreseen(agent, key, action, c) { EndOfRun(agent, key, action, engine, c, r); }
    agreed := Compare(agent, key, action, engine.trace, engine.script[..engine.pos], r == E.Returned(0), c);
  }

  /** In an undisturbed run it is known beforehand whether the script agrees; then the run
      ends in success if and only if that is due, unless it is killed, and with which units. */
  ghost predicate Foretold(engine: E.Engine, r: E.Outcome, agreed: bool, c: Case, units: San)
    requires engine.Valid()
    reads engine
  {
    && c.Valid()
    && (agreed <==> Agrees(engine.trace, engine.script[..engine.pos], c.Answers()))
    && (agreed && r == E.Returned(0) ==> c.Due() && units == c.Units(E.CountSets(engine.trace)))
    && (agreed && c.Due() ==> r == E.Returned(0) || engine.Killed())
  }

  method RunEngine(action: E.Action, cfg: E.Config, script: seq<E.Reply>) returns (r: E.Outcome, engine: E.Engine)
    requires action in {E.On, E.Off} && IsAgents(cfg)
    ensures fresh(engine) && engine.cfg == cfg && engine.script == script && Ended(engine, action, r)
    ensures Told(engine.trace, script[..engine.pos]) && forall i | 0 <= i < |engine.trace| :: !engine.trace[i].Try?
    ensures r == E.Returned(0) ==> Concluding(engine.trace, script[..engine.pos], action)
  {
    engine := new E.Engine(cfg, script, action);
    r := engine.FenceAction();
    ToldByEngine(engine, action);
    if r == E.Returned(0) { SuccessIsConcluded(engine, action); }
  }

  ghost predicate Concluding(calls: seq<E.Event>, told: seq<E.Reply>, action: E.Action) {
    Concluded(calls, action) && |told| == |calls| && (AllButLast(told) ==> AllSaid(told))
  }

  /** The end of a run of the engine. */
  ghost predicate Ended(engine: E.Engine, action: E.Action, r: E.Outcome)
    reads engine
  {
    && engine.Valid() && IsAgents(engine.cfg) && (r.Returned? ==> engine.Ready())
    && engine.Achieved(action, r) && engine.Already(action, r) && engine.Failed(action, r)
  }

  /** How an undisturbed run ends. */
  lemma EndOfRun(agent: Agent, key: string, action: E.Action, engine: E.Engine, c: Case, r: E.Outcome)
    requires agent.Sane(key, action) && Foreseen(agent, key, action, c) && c.san == agent.Fabric().luns
    requires Ended(engine, action, r)
    ensures Agrees(engine.trace, engine.script[..engine.pos], c.Answers()) ==>
              (r == E.Returned(0) ==> c.Due()) && (c.Due() ==> r == E.Returned(0) || engine.Killed())
  {
    CaseIsFit(agent, key, action, c);
    c.AnswersAreSteady();
    c.DueIffSucceeds();
    if Agrees(engine.trace, engine.script[..engine.pos], c.Answers()) {
      EndMeans(engine, action, c.Answers(), c.Final(), r);
    }
  }

  /** The comparison, once the engine has come to its end. */
  method Compare(agent: Agent, key: string, action: E.Action, calls: seq<E.Event>, told: seq<E.Reply>, ghost success: bool, ghost c: Case)
    returns (agreed: bool)
    requires agent.Fabric().Valid() && !agent.Fabric().dead && action in {E.On, E.Off} && agent.Sane(key, action)
    requires Told(calls, told) && forall i | 0 <= i < |calls| :: !calls[i].Try?
    requires c == Case(agent, key, action, agent.Stored(key), agent.Fabric().luns)
    requires success ==> Concluding(calls, told, action)
    modifies agent.Objects()
    ensures agent.Fabric().Since(old(agent.Fabric().trace), old(agent.Fabric().states))
    ensures agreed && success ==> Success(agent.Fabric(), agent.Luns(), key, action, calls, |old(agent.Fabric().trace)|)
    ensures old(agent.Undisturbed(key, action)) ==> c.Valid() && (agreed <==> Agrees(calls, told, c.Answers()))
    ensures old(agent.Undisturbed(key, action)) && agreed && success ==> agent.Fabric().luns == c.Units(E.CountSets(calls))
  {
    ghost var n := |agent.Fabric().trace|;
    agreed := Follow(agent, key, action, calls, told, c);
    if agreed && success {
      assert calls[..|told|] == calls;
      KnownIsSuccess(agent.Fabric(), agent.Luns(), key, action, calls, n);
    }
  }

  /** An undisturbed "off" of fence_scsi for a key that no device has, or that is not spelled
      as the target spells it, succeeds at once and changes nothing, whether there are
      reservations or not. */
  method AlreadyOff(agent: FS.Agent, devices: seq<Device>, key: string, cfg: E.Config)
    returns (r: E.Outcome, engine: E.Engine, agreed: bool)
    requires agent.fabric.Valid() && !agent.fabric.dead && agent.fabric.Quiet() && IsAgents(cfg)
    requires agent.stored.Some? ==> IsOwnKey(agent.fabric, agent.stored.value) && Canonical(agent.stored.value)
    requires forall d | d in devices :: d.lun in agent.fabric.luns
    requires (KeyedSan(agent.fabric.states[0]) && !Canonical(key)) || forall d | d in devices :: !agent.fabric.luns[d.lun].HasKey(key)
    modifies agent, agent.fabric
    ensures engine.cfg == cfg && |engine.trace| == 1 && agreed && r == E.Returned(0)
    ensures agent.fabric.luns == old(agent.fabric.luns)
  {
    forall d | d in devices ensures !Holds(agent.fabric.luns, d.lun, key) {
      if agent.fabric.luns[d.lun].HasKey(key) && KeyedSan(agent.fabric.states[0]) {
        FoundIsCanonical(agent.fabric, d.lun, key);
      }
    }
    engine := new E.Engine(cfg, [E.Says(E.IsOff, true)], E.Off);
    r := engine.FenceAction();
    OneReading(engine.trace, cfg.plugs, E.IsOff);
    var answer := agent.GetStatus(devices, key, "off");
    agreed := answer == Some("off");
  }
}
