// The start/stop bookkeeping of a proxy task: which ports get a forwarder,
// when the task stops, and the callback that unregisters it.

module Proxy {
  import opened Wrappers
  import opened Ints

  /** One forwarding rule: connections accepted on local port `from` go to port `to` of the task's host. */
  datatype Port = Port(from: uint16, to: uint16)

  /** A named proxy configuration: a target host and its forwarding rules. */
  datatype TaskConf = TaskConf(name: string, host: string, ports: seq<Port>)

  /** The error a failed listen reports. */
  datatype BindError = AddressInUse(port: uint16)

  /**
   * The registry of running tasks by name. A Go map is a reference, shared
   * by its owner and by every callback that deletes from it, so it is an
   * object here. It belongs to the application (app.go), but is declared in
   * this module because a ProxyTask holds the callback that names it, and
   * the App module imports this one.
   */
  class TaskMap {
    var entries: map<string, ProxyTask>

    constructor ()
      ensures entries == map[]
    {
      entries := map[];
    }
  }

  /** The callback a task runs when it stops: remove `key` from `table`. */
  datatype OnClose = Unregister(table: TaskMap, key: string)
  {
    method Run()
      modifies table
      ensures table.entries == old(table.entries) - {key}
    {
      table.entries := table.entries - {key};
    }
  }

  /** The objects a callback may change. */
  function Targets(h: Option<OnClose>): set<object>
  {
    if h.Some? then {h.value.table} else {}
  }

  // ---------------------------------------------------------------------------
  // The listen oracle
  // ---------------------------------------------------------------------------

  /**
   * The local ports held by listeners opened for `ports`. Listening on port 0
   * asks for an ephemeral port, which never clashes with another listener.
   */
  function Held(ports: seq<Port>): set<uint16>
  {
    if ports == [] then {}
    else Held(ports[..|ports| - 1]) + (if ports[|ports| - 1].from != 0 then {ports[|ports| - 1].from} else {})
  }

  /** A port is held exactly when it is nonzero and some rule listens on it. */
  lemma {:induction false} HeldMembers(ports: seq<Port>, p: uint16)
    ensures p in Held(ports) <==> p != 0 && exists i :: 0 <= i < |ports| && ports[i].from == p
  {
    if ports != [] {
      var init := ports[..|ports| - 1];
      HeldMembers(init, p);
      if p in Held(init) {
        var i :| 0 <= i < |init| && init[i].from == p;
        assert ports[i].from == p;
      }
      if p != 0 && exists i :: 0 <= i < |ports| && ports[i].from == p {
        var i :| 0 <= i < |ports| && ports[i].from == p;
        if i < |init| {
          assert init[i].from == p;
        }
      }
    }
  }

  /** Trying one more rule adds its port to those held, unless it is 0. */
  lemma HeldStep(ports: seq<Port>, i: nat)
    requires i < |ports|
    ensures Held(ports[..i + 1]) == Held(ports[..i]) + (if ports[i].from != 0 then {ports[i].from} else {})
  {
    assert ports[..i + 1][..i] == ports[..i];
  }

  /**
   * Whether the listen for rule i succeeds: its port is not occupied from
   * outside (`busy`) and not already held by a listener for an earlier rule.
   */
  predicate Binds(ports: seq<Port>, i: nat, busy: set<uint16>)
    requires i < |ports|
  {
    ports[i].from !in busy && ports[i].from !in Held(ports[..i])
  }

  /** The first rule at or after `i` whose listen fails, if any. */
  function FirstBindFailureFrom(ports: seq<Port>, i: nat, busy: set<uint16>): (r: Option<nat>)
    requires i <= |ports|
    ensures r.Some? ==> i <= r.value < |ports| && !Binds(ports, r.value, busy)
    ensures r.Some? ==> forall j :: i <= j < r.value ==> Binds(ports, j, busy)
    ensures r.None? ==> forall j :: i <= j < |ports| ==> Binds(ports, j, busy)
    decreases |ports| - i
  {
    if i == |ports| then None
    else if !Binds(ports, i, busy) then Some(i)
    else FirstBindFailureFrom(ports, i + 1, busy)
  }

  /** The first rule whose listen fails when the rules are tried in order. */
  function FirstBindFailure(ports: seq<Port>, busy: set<uint16>): Option<nat>
  {
    FirstBindFailureFrom(ports, 0, busy)
  }

  /**
   * Every listen succeeds exactly when no rule's port is occupied from
   * outside and no nonzero port appears in two rules.
   */
  lemma StartSucceedsIff(ports: seq<Port>, busy: set<uint16>)
    ensures FirstBindFailure(ports, busy).None? <==>
      (forall i :: 0 <= i < |ports| ==> ports[i].from !in busy) &&
      (forall i, j :: 0 <= i < j < |ports| && ports[i].from != 0 ==> ports[i].from != ports[j].from)
  {
    var r := FirstBindFailure(ports, busy);
    if r.None? {
      forall i | 0 <= i < |ports|
        ensures ports[i].from !in busy
      {
        assert Binds(ports, i, busy);
      }
      forall i, j | 0 <= i < j < |ports| && ports[i].from != 0
        ensures ports[i].from != ports[j].from
      {
        assert Binds(ports, j, busy);
        assert ports[..j][i] == ports[i];
        HeldMembers(ports[..j], ports[i].from);
      }
    } else {
      var k := r.value;
      if ports[k].from !in busy {
        assert ports[k].from in Held(ports[..k]);
        HeldMembers(ports[..k], ports[k].from);
        var i :| 0 <= i < k && ports[..k][i].from == ports[k].from;
        assert ports[i].from != 0 && ports[i].from == ports[k].from;
      }
    }
  }

  // ---------------------------------------------------------------------------
  // ProxyTask
  // ---------------------------------------------------------------------------

  /**
   * A proxy task: its configuration, whether its stop signal has been
   * given, the callback to run on stop, and the rules a forwarder was
   * launched for.
   */
  class ProxyTask {
    const conf: TaskConf
    var stopped: bool
    var onClose: Option<OnClose>
    var forwarders: seq<Port>

    /** NewProxyTask: the configuration as given, the stop signal not yet given, no callback. */
    constructor (name: string, host: string, ports: seq<Port>)
      ensures conf == TaskConf(name, host, ports)
      ensures !stopped && onClose == None && forwarders == []
    {
      conf := TaskConf(name, host, ports);
      stopped := false;
      onClose := None;
      forwarders := [];
    }

    /**
     * Start: record the callback, then listen on each rule's port in order,
     * launching a forwarder after each success. The first failed listen
     * stops the task (which runs the callback) and is returned; later rules
     * are never tried.
     */
    method Start(hook: OnClose, busy: set<uint16>) returns (err: Option<BindError>)
      requires FirstBindFailure(conf.ports, busy).Some? ==> !stopped
      modifies this, hook.table
      ensures onClose == Some(hook)
      ensures match FirstBindFailure(conf.ports, busy)
        case None =>
          && err == None
          && forwarders == old(forwarders) + conf.ports
          && stopped == old(stopped)
          && hook.table.entries == old(hook.table.entries)
        case Some(k) =>
          && err == Some(AddressInUse(conf.ports[k].from))
          && forwarders == old(forwarders) + conf.ports[..k]
          && stopped
          && hook.table.entries == old(hook.table.entries) - {hook.key}
    {
      onClose := Some(hook);
      var bound: set<uint16> := {};
      var i := 0;
      while i < |conf.ports|
        invariant 0 <= i <= |conf.ports|
        invariant onClose == Some(hook) && stopped == old(stopped)
        invariant forwarders == old(forwarders) + conf.ports[..i]
        invariant bound == Held(conf.ports[..i])
        invariant FirstBindFailure(conf.ports, busy) == FirstBindFailureFrom(conf.ports, i, busy)
        invariant hook.table.entries == old(hook.table.entries)
      {
        var item := conf.ports[i];
        if item.from in busy || item.from in bound {
          assert !Binds(conf.ports, i, busy);
          assert FirstBindFailure(conf.ports, busy) == Some(i);
          Stop();
          return Some(AddressInUse(item.from));
        }
        assert Binds(conf.ports, i, busy);
        forwarders := forwarders + [item];
        if item.from != 0 {
          bound := bound + {item.from};
        }
        HeldStep(conf.ports, i);
        assert conf.ports[..i + 1] == conf.ports[..i] + [item];
        i := i + 1;
      }
      assert conf.ports[..i] == conf.ports;
      return None;
    }

    /**
     * Stop: give the stop signal, then run the callback if one is set. The
     * signal is a channel close, which panics the second time, so the task
     * must not be stopped yet.
     */
    method Stop()
      requires !stopped
      modifies this, Targets(onClose)
      ensures stopped
      ensures onClose == old(onClose) && forwarders == old(forwarders)
      ensures onClose.Some? ==> onClose.value.table.entries == old(onClose.value.table.entries) - {onClose.value.key}
    {
      stopped := true;
      if onClose.Some? {
        onClose.value.Run();
      }
    }
  }
}
