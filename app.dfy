// The application state: the registry of running proxy tasks and the
// ordered list of saved task configurations.

module App {
  import opened Wrappers
  import opened Ints
  import opened Proxy

  // ---------------------------------------------------------------------------
  // The saved configuration list
  // ---------------------------------------------------------------------------

  /** The configurations the application starts with before any are saved. */
  const DefaultTasks: seq<TaskConf> := [
    TaskConf("fedora", "192.168.100.128", [Port(5510, 5510), Port(5710, 5710), Port(5910, 5910)]),
    TaskConf("ubuntu", "192.168.100.34", [Port(5510, 5510), Port(5710, 5710), Port(5910, 5910)])
  ]

  /** The position of the first configuration called `name`, if any. */
  function IndexOf(cs: seq<TaskConf>, name: string): (r: Option<nat>)
    ensures r.Some? ==> r.value < |cs| && cs[r.value].name == name
    ensures r.Some? ==> forall j :: 0 <= j < r.value ==> cs[j].name != name
    ensures r.None? ==> forall j :: 0 <= j < |cs| ==> cs[j].name != name
  {
    if cs == [] then None
    else if cs[|cs| - 1].name == name && IndexOf(cs[..|cs| - 1], name).None? then Some(|cs| - 1)
    else IndexOf(cs[..|cs| - 1], name)
  }

  /** The first namesake is determined by where it is. */
  lemma IndexOfIs(cs: seq<TaskConf>, name: string, i: nat)
    requires i < |cs| && cs[i].name == name && forall j :: 0 <= j < i ==> cs[j].name != name
    ensures IndexOf(cs, name) == Some(i)
  {
  }

  /** The list after saving `t`: the first namesake is replaced, or `t` is appended. */
  function Saved(cs: seq<TaskConf>, t: TaskConf): seq<TaskConf>
  {
    match IndexOf(cs, t.name)
    case Some(i) => cs[i := t]
    case None => cs + [t]
  }

  /** The list after deleting `name`: the first namesake is cut out. */
  function Removed(cs: seq<TaskConf>, name: string): seq<TaskConf>
  {
    match IndexOf(cs, name)
    case Some(i) => cs[..i] + cs[i + 1..]
    case None => cs
  }

  /** The first configuration called `name`, if any. */
  function Lookup(cs: seq<TaskConf>, name: string): (r: Option<TaskConf>)
    ensures r.Some? ==> r.value in cs && r.value.name == name
    ensures r.None? <==> forall j :: 0 <= j < |cs| ==> cs[j].name != name
  {
    match IndexOf(cs, name)
    case Some(i) => Some(cs[i])
    case None => None
  }

  /** Lookup finds `c` exactly when it is the first entry with that name. */
  lemma LookupIsFirst(cs: seq<TaskConf>, name: string, c: TaskConf)
    ensures Lookup(cs, name) == Some(c) <==>
      exists i :: 0 <= i < |cs| && cs[i] == c && c.name == name && forall j :: 0 <= j < i ==> cs[j].name != name
  {
    if exists i :: 0 <= i < |cs| && cs[i] == c && c.name == name && forall j :: 0 <= j < i ==> cs[j].name != name {
      var i :| 0 <= i < |cs| && cs[i] == c && c.name == name && forall j :: 0 <= j < i ==> cs[j].name != name;
      IndexOfIs(cs, name, i);
    }
  }

  /**
   * Saving replaces the first namesake in place, keeping the length and
   * every other entry, or appends when there is none.
   */
  lemma SavedShape(cs: seq<TaskConf>, t: TaskConf)
    ensures (exists i :: 0 <= i < |cs| && cs[i].name == t.name) ==>
      && |Saved(cs, t)| == |cs|
      && exists i :: 0 <= i < |cs| && cs[i].name == t.name && Saved(cs, t)[i] == t
           && (forall j :: 0 <= j < i ==> cs[j].name != t.name)
           && (forall j :: 0 <= j < |cs| && j != i ==> Saved(cs, t)[j] == cs[j])
    ensures (forall i :: 0 <= i < |cs| ==> cs[i].name != t.name) ==> Saved(cs, t) == cs + [t]
  {
    if IndexOf(cs, t.name).Some? {
      var i := IndexOf(cs, t.name).value;
      assert Saved(cs, t)[i] == t;
    }
  }

  /** Right after saving `t`, looking up its name gives `t`. */
  lemma LookupAfterSave(cs: seq<TaskConf>, t: TaskConf)
    ensures Lookup(Saved(cs, t), t.name) == Some(t)
  {
    var s := Saved(cs, t);
    match IndexOf(cs, t.name)
    case Some(i) =>
      assert forall j :: 0 <= j < i ==> s[j] == cs[j];
      IndexOfIs(s, t.name, i);
    case None =>
      assert forall j :: 0 <= j < |cs| ==> s[j] == cs[j];
      IndexOfIs(s, t.name, |cs|);
  }

  /** Saving leaves the lookup of every other name as it was. */
  lemma LookupOtherAfterSave(cs: seq<TaskConf>, t: TaskConf, name: string)
    requires name != t.name
    ensures Lookup(Saved(cs, t), name) == Lookup(cs, name)
  {
    var s := Saved(cs, t);
    assert forall j :: 0 <= j < |cs| && s[j].name == name ==> s[j] == cs[j];
    match IndexOf(cs, name)
    case Some(i) =>
      IndexOfIs(s, name, i);
    case None =>
      assert forall j :: 0 <= j < |s| ==> s[j].name != name;
  }

  /** Saving the same configuration twice has the effect of saving it once. */
  lemma SaveIdempotent(cs: seq<TaskConf>, t: TaskConf)
    ensures Saved(Saved(cs, t), t) == Saved(cs, t)
  {
    var s := Saved(cs, t);
    match IndexOf(cs, t.name)
    case Some(i) =>
      assert forall j :: 0 <= j < i ==> s[j] == cs[j];
      IndexOfIs(s, t.name, i);
    case None =>
      assert forall j :: 0 <= j < |cs| ==> s[j] == cs[j];
      IndexOfIs(s, t.name, |cs|);
  }

  /**
   * Deleting cuts out exactly the first namesake and keeps the rest in
   * order; with no namesake the list is unchanged.
   */
  lemma RemovedShape(cs: seq<TaskConf>, name: string)
    ensures match IndexOf(cs, name)
      case None => Removed(cs, name) == cs
      case Some(i) =>
        && |Removed(cs, name)| == |cs| - 1
        && (forall j :: 0 <= j < i ==> Removed(cs, name)[j] == cs[j])
        && (forall j :: i <= j < |cs| - 1 ==> Removed(cs, name)[j] == cs[j + 1])
        && multiset(Removed(cs, name)) + multiset{cs[i]} == multiset(cs)
  {
    if IndexOf(cs, name).Some? {
      CutShape(cs, IndexOf(cs, name).value, Removed(cs, name));
    }
  }

  /** Cutting out entry i shifts the later entries down by one and drops one copy of it. */
  lemma CutShape(cs: seq<TaskConf>, i: nat, r: seq<TaskConf>)
    requires i < |cs| && r == cs[..i] + cs[i + 1..]
    ensures |r| == |cs| - 1
    ensures forall j :: 0 <= j < i ==> r[j] == cs[j]
    ensures forall j :: i <= j < |r| ==> r[j] == cs[j + 1]
    ensures multiset(r) + multiset{cs[i]} == multiset(cs)
  {
    assert cs == cs[..i] + [cs[i]] + cs[i + 1..];
  }

  /** Deleting leaves the lookup of every other name as it was. */
  lemma LookupOtherAfterRemove(cs: seq<TaskConf>, name: string, other: string)
    requires other != name
    ensures Lookup(Removed(cs, name), other) == Lookup(cs, other)
  {
    RemovedShape(cs, name);
    if IndexOf(cs, name).Some? {
      var i := IndexOf(cs, name).value;
      var s := Removed(cs, name);
      match IndexOf(cs, other)
      case Some(k) =>
        if k < i {
          IndexOfIs(s, other, k);
        } else {
          assert s[k - 1] == cs[k];
          IndexOfIs(s, other, k - 1);
        }
      case None =>
        assert forall j :: 0 <= j < |s| ==> s[j].name != other;
    }
  }

  // ---------------------------------------------------------------------------
  // The application
  // ---------------------------------------------------------------------------

  /** Why StartTask failed. */
  datatype StartError = AlreadyRunning(name: string) | ListenFailed(cause: BindError)

  /**
   * The application: the registry of running tasks (name to task) and the
   * saved configuration list (a package-level variable of the program,
   * held here as a field).
   */
  class App {
    const tasks: TaskMap
    var configs: seq<TaskConf>

    /**
     * Every registered task runs under its own name, has not been stopped,
     * and unregisters that name from this registry when it stops.
     */
    predicate Valid()
      reads tasks, tasks.entries.Values
    {
      forall name | name in tasks.entries ::
        && tasks.entries[name].conf.name == name
        && !tasks.entries[name].stopped
        && tasks.entries[name].onClose == Some(Unregister(tasks, name))
    }

    /** The task registered under `name`, if any: the only task stopping that name may change. */
    function Running(name: string): set<ProxyTask>
      reads tasks
    {
      if name in tasks.entries then {tasks.entries[name]} else {}
    }

    /** NewApp, with the configuration list at its initial value. */
    constructor ()
      ensures fresh(tasks) && tasks.entries == map[] && configs == DefaultTasks
      ensures Valid()
    {
      tasks := new TaskMap();
      configs := DefaultTasks;
    }

    /** IsTaskRun: whether a task of that name is registered. */
    method IsTaskRun(name: string) returns (ok: bool)
      ensures ok <==> name in tasks.entries
    {
      ok := name in tasks.entries;
    }

    /**
     * StartTask: refuse a name that is already running; otherwise register
     * a new task and start it. A failed start stops the task, whose
     * callback unregisters it again, so the registry ends as it began.
     */
    method StartTask(name: string, host: string, ports: seq<Port>, busy: set<uint16>)
      returns (err: Option<StartError>)
      requires Valid()
      modifies tasks
      ensures Valid()
      ensures old(name in tasks.entries) ==> err == Some(AlreadyRunning(name)) && tasks.entries == old(tasks.entries)
      ensures !old(name in tasks.entries) ==> match FirstBindFailure(ports, busy)
        case Some(k) =>
          err == Some(ListenFailed(AddressInUse(ports[k].from))) && tasks.entries == old(tasks.entries)
        case None =>
          && err == None
          && name in tasks.entries
          && fresh(tasks.entries[name])
          && tasks.entries[name].conf == TaskConf(name, host, ports)
          && tasks.entries[name].forwarders == ports
          && tasks.entries == old(tasks.entries)[name := tasks.entries[name]]
    {
      var running := IsTaskRun(name);
      if running {
        return Some(AlreadyRunning(name));
      }
      var task := new ProxyTask(name, host, ports);
      tasks.entries := tasks.entries[name := task];
      var e := task.Start(Unregister(tasks, name), busy);
      if e.Some? {
        assert tasks.entries == old(tasks.entries);
        return Some(ListenFailed(e.value));
      }
      return None;
    }

    /** StopTask: stop the task of that name, if one runs; its callback unregisters it. */
    method StopTask(name: string)
      requires Valid()
      modifies tasks, Running(name)
      ensures Valid()
      ensures tasks.entries == old(tasks.entries) - {name}
      ensures name in old(tasks.entries) ==> old(tasks.entries)[name].stopped
    {
      if name in tasks.entries {
        var t := tasks.entries[name];
        t.Stop();
      }
    }

    /** GetAllTask: the saved configurations, in order. */
    method GetAllTask() returns (r: seq<TaskConf>)
      ensures r == configs
    {
      r := configs;
    }

    /** SaveTask: overwrite the first configuration with the same name, or append. */
    method SaveTask(task: TaskConf)
      modifies this
      ensures configs == Saved(old(configs), task)
    {
      var i := 0;
      while i < |configs|
        invariant 0 <= i <= |configs|
        invariant configs == old(configs)
        invariant forall j :: 0 <= j < i ==> configs[j].name != task.name
      {
        if configs[i].name == task.name {
          IndexOfIs(configs, task.name, i);
          configs := configs[i := task];
          return;
        }
        i := i + 1;
      }
      configs := configs + [task];
    }

    /** DelTask: stop the task of that name, then delete its first saved configuration. */
    method DelTask(name: string)
      requires Valid()
      modifies this, tasks, Running(name)
      ensures Valid()
      ensures tasks.entries == old(tasks.entries) - {name}
      ensures name in old(tasks.entries) ==> old(tasks.entries)[name].stopped
      ensures configs == Removed(old(configs), name)
    {
      StopTask(name);
      DeleteConfig(name);
    }

    /** The second half of DelTask: cut out the first saved configuration with that name. */
    method DeleteConfig(name: string)
      modifies this
      ensures configs == Removed(old(configs), name)
    {
      var i := 0;
      while i < |configs|
        invariant 0 <= i <= |configs|
        invariant configs == old(configs)
        invariant forall j :: 0 <= j < i ==> configs[j].name != name
      {
        if configs[i].name == name {
          IndexOfIs(configs, name, i);
          configs := configs[..i] + configs[i + 1..];
          return;
        }
        i := i + 1;
      }
    }

    /** GetTask: a copy of the first configuration with that name, or nothing. */
    method GetTask(name: string) returns (r: Option<TaskConf>)
      ensures r == Lookup(configs, name)
    {
      for i := 0 to |configs|
        invariant forall j :: 0 <= j < i ==> configs[j].name != name
      {
        if configs[i].name == name {
          IndexOfIs(configs, name, i);
          return Some(configs[i]);
        }
      }
      return None;
    }
  }
}
