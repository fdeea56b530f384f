/** fence_eaton_snmp: a port number that is moved about between status and control objects,
    for one outlet given by number. */
module Eaton {
  import E = Engine

  datatype Model = Managed | Switched

  datatype Access = Read(port: int) | Write(port: int, on: bool)

  /** The module's globals, and options["--plug"] as a number. */
  class Pdu {
    const model: Model
    var plug: int
    var resolved: bool
    var portId: int
    var afterSet: bool
    /** The ports addressed so far. */
    ghost var log: seq<Access>

    /** main has already subtracted 1 from the outlet number u. */
    constructor (model: Model, u: int)
      ensures this.model == model && plug == u - 1 && !resolved && !afterSet && log == []
    {
      this.model, plug, resolved, portId, afterSet, log := model, u - 1, false, 0, false, [];
    }

    /** eaton_resolv_port_id for a number. */
    method ResolvePortId()
      modifies `plug, `portId, `resolved
      ensures resolved && portId == plug == old(plug) + if model == Switched then 1 else 0
    {
      if model == Switched { plug := plug + 1; }
      portId, resolved := plug, true;
    }

    /** The port in use; before the first call, the one that will be resolved. */
    function Port(): int
      reads this
    {
      if resolved then portId else plug + if model == Switched then 1 else 0
    }

    method GetPowerStatus()
      modifies this
      ensures resolved && portId == old(Port()) - (if old(afterSet) && model == Switched then 1 else 0)
      ensures afterSet == (old(afterSet) && model == Managed)
      ensures log == old(log) + [Read(portId)]
    {
      if !resolved { ResolvePortId(); }
      if afterSet && model == Switched {
        portId := portId - 1;
        afterSet := false;
      }
      log := log + [Read(portId)];
    }

    method SetPowerStatus(on: bool)
      modifies this
      ensures resolved && portId == old(Port()) + (if model == Switched then 1 else 0)
      ensures afterSet
      ensures log == old(log) + [Write(portId, on)]
    {
      afterSet := true;
      if !resolved { ResolvePortId(); }
      if model == Switched { portId := portId + 1; }
      log := log + [Write(portId, on)];
    }

    /** A run of calls as the engine makes them, options["--plug"] being set before each. */
    method Serve(calls: seq<E.Event>, u: int)
      requires plug == u - 1 && !resolved && !afterSet && log == []
      modifies this
      ensures log == Accesses(model, u, calls)
      ensures model == Managed ==> Served(log, calls, u - 1, u - 1)
      ensures model == Switched && SetsApart(calls) ==> Served(log, calls, u, u + 1)
    {
      for i := 0 to |calls|
        invariant log == Accesses(model, u, calls[..i])
        invariant Port() == PortAfter(model, u, calls[..i]) && (!resolved ==> plug == u - 1)
        invariant afterSet && model == Switched <==> model == Switched && Pending(calls[..i])
      {
        assert calls[..i+1][..i] == calls[..i];
        plug := u - 1;
        if calls[i].Get? {
          GetPowerStatus();
        } else {
          SetPowerStatus(calls[i].action == E.On);
        }
      }
      assert calls[..|calls|] == calls;
      WhatIsWritten(model, u, calls);
      if model == Managed { ManagedKeepsPort(u, calls); } else { RightIffSetsApart(u, calls); }
    }
  }

  /** One access for each call, in order: readings of one port, and writes to another that turn
      the outlet on exactly for the action on. */
  ghost predicate Served(log: seq<Access>, calls: seq<E.Event>, status: int, control: int) {
    |log| == |calls| && forall i | 0 <= i < |calls| ::
      log[i] == if calls[i].Get? then Read(status) else Write(control, calls[i].action == E.On)
  }

  lemma {:induction false} WhatIsWritten(model: Model, u: int, calls: seq<E.Event>)
    ensures forall i {:trigger calls[i]} | 0 <= i < |calls| :: var a := Accesses(model, u, calls)[i];
              (a.Read? <==> calls[i].Get?) && (a.Write? ==> a.on == (calls[i].action == E.On))
  {
    if calls != [] {
      WhatIsWritten(model, u, calls[..|calls|-1]);
    }
  }

  /** The last call was a setter. */
  predicate Pending(calls: seq<E.Event>) {
    calls != [] && !calls[|calls|-1].Get?
  }

  function PortAfter(model: Model, u: int, calls: seq<E.Event>): int {
    if calls == [] then (if model == Switched then u else u - 1)
    else
      var init := calls[..|calls|-1];
      var port := PortAfter(model, u, init);
      if model == Managed then port
      else if !calls[|calls|-1].Get? then port + 1
      else if Pending(init) then port - 1
      else port
  }

  function Accesses(model: Model, u: int, calls: seq<E.Event>): (r: seq<Access>)
    ensures |r| == |calls|
  {
    if calls == [] then []
    else
      var c := calls[|calls|-1];
      var port := PortAfter(model, u, calls);
      Accesses(model, u, calls[..|calls|-1]) + [if c.Get? then Read(port) else Write(port, c.action == E.On)]
  }

  /** On a Switched ePDU status objects start at the outlet, control objects one further. */
  ghost predicate Right(log: seq<Access>, u: int) {
    forall i | 0 <= i < |log| :: log[i].port == if log[i].Read? then u else u + 1
  }

  ghost predicate SetsApart(calls: seq<E.Event>) {
    forall i {:trigger calls[i]} | 0 <= i < |calls| - 1 :: !calls[i].Get? ==> calls[i+1].Get?
  }

  /** Exactly when every access of a Switched ePDU goes to the right port: when no setter call
      follows another one directly. */
  lemma {:induction false} RightIffSetsApart(u: int, calls: seq<E.Event>)
    ensures Right(Accesses(Switched, u, calls), u) <==> SetsApart(calls)
    ensures SetsApart(calls) ==> PortAfter(Switched, u, calls) == u + if Pending(calls) then 1 else 0
  {
    if calls != [] {
      var init, n := calls[..|calls|-1], |calls|;
      RightIffSetsApart(u, init);
      var log := Accesses(Switched, u, calls);
      assert forall i | 0 <= i < n - 1 :: log[i] == Accesses(Switched, u, init)[i];
      assert log[n-1].port == PortAfter(Switched, u, calls);
      assert forall i | 0 <= i < n - 1 :: calls[i] == init[i];
      if n >= 2 {
        assert calls[n-2] == init[n-2];
      }
      if SetsApart(init) && Pending(init) && !calls[n-1].Get? {
        assert log[n-1].port == u + 2;
      }
    }
  }

  /** A Managed ePDU keeps to one port. */
  lemma {:induction false} ManagedKeepsPort(u: int, calls: seq<E.Event>)
    ensures forall i | 0 <= i < |calls| :: Accesses(Managed, u, calls)[i].port == u - 1
    ensures PortAfter(Managed, u, calls) == u - 1
  {
    if calls != [] {
      ManagedKeepsPort(u, calls[..|calls|-1]);
    }
  }

  /** In every run of the engine for one outlet of a Switched ePDU, through any number of
      retries, every control write goes to u + 1 and every status read to u.  The ePDU has
      been addressed once for each call of the engine, in order. */
  method FenceOutlet(cfg: E.Config, script: seq<E.Reply>, action: E.Action, u: int)
    returns (r: E.Outcome, engine: E.Engine, pdu: Pdu)
    requires cfg.hasSet && !(cfg.cycle && action == E.Reboot) && |cfg.plugs| == 1
    ensures engine.cfg == cfg && engine.script == script && engine.Achieved(action, r) && engine.Restrained(action)
    ensures engine.Already(action, r) && engine.Failed(action, r)
    ensures pdu.log == Accesses(Switched, u, engine.trace)
    ensures Right(pdu.log, u)
    ensures |pdu.log| == |engine.trace| && forall i | 0 <= i < |pdu.log| ::
              pdu.log[i] == if engine.trace[i].Get? then Read(u) else Write(u + 1, engine.trace[i].action == E.On)
  {
    engine := new E.Engine(cfg, script, action);
    r := engine.FenceAction();
    pdu := new Pdu(Switched, u);
    EngineSetsApart(engine, action);
    pdu.Serve(engine.trace, u);
    RightIffSetsApart(u, engine.trace);
  }

  /** The pattern of calls the port arithmetic needs is that of all runs for one plug. */
  lemma EngineSetsApart(engine: E.Engine, action: E.Action)
    requires engine.Restrained(action) && engine.Asynchronous(action) && |engine.cfg.plugs| == 1
    ensures SetsApart(engine.trace)
  {
    forall i | 0 <= i < |engine.trace| - 1 && !engine.trace[i].Get? ensures engine.trace[i+1].Get? {
      assert !engine.trace[i].Try?;
    }
  }
}
