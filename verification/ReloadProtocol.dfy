/** The coalescing reload flag: the event handler of pkg/lbm/lbm.go against the reload thread of
    pkg/keepalived/keepalived.go, in every interleaving of their steps. */
module ReloadProtocol {
  import opened Ipam
  import opened Records
  import opened Reconciler
  import opened Steps

  type Disk = map<string, File>

  /** One file operation of an event; a service whose allocation failed does none. */
  datatype Task = Write(name: string, content: File) | Remove(name: string) | Skip

  /** A failed write or remove leaves the file as it was. */
  function TaskStep(disk: Disk, t: Task, env: Env): (Disk, bool) {
    match t
    case Write(name, content) => RenderStep(disk, name, content, env)
    case Remove(name) => if name in disk && name !in env.remove then (disk - {name}, true) else (disk, false)
    case Skip => (disk, false)
  }

  function TasksStep(disk: Disk, tasks: seq<Task>, env: Env): (Disk, bool) {
    if tasks == [] then (disk, false)
    else
      var (d, need) := TasksStep(disk, tasks[..|tasks| - 1], env);
      var (d', changed) := TaskStep(d, tasks[|tasks| - 1], env);
      (d', need || changed)
  }

  lemma {:induction false} TasksAppend(disk: Disk, a: seq<Task>, b: seq<Task>, env: Env)
    ensures var (d, m) := TasksStep(disk, a, env);
            var (d', n) := TasksStep(d, b, env);
            TasksStep(disk, a + b, env) == (d', m || n)
  {
    if b == [] {
      assert a + b == a;
    } else {
      var n := |b| - 1;
      assert (a + b)[..|a + b| - 1] == a + b[..n];
      TasksAppend(disk, a, b[..n], env);
    }
  }

  /** What one configuration does to the disk: the file of the service, when the allocation or the check passes. */
  ghost function TaskOf(c: Config, leader: bool, w: World, key: string, env: Env): Task
    requires c.ring.Valid() && key in w.elem
  {
    var (w', ok) := if leader then AllocVIPStep(c, w, key, env) else (w, CheckValid(w.elem[key]));
    AllocKeepsKeys(c, w, key, env);
    if ok then Write(w'.elem[key].name, Rendered(c, w'.elem[key])) else Skip
  }

  /** The file operations of the add pass, one for each collected key in order. */
  ghost function AddTasks(c: Config, leader: bool, w: World, keys: seq<string>, env: Env): (tasks: seq<Task>)
    requires c.ring.Valid() && forall k :: k in keys ==> k in w.elem
    ensures |tasks| == |keys|
  {
    if keys == [] then []
    else
      var n := |keys| - 1;
      AddTasks(c, leader, w, keys[..n], env) + [TaskOf(c, leader, ConfigAll(c, leader, w, keys[..n], env).0, keys[n], env)]
  }

  /** One configuration changes no other entry, and of its own only the address and the port. */
  lemma ConfigEntry(c: Config, leader: bool, w: World, key: string, env: Env)
    requires c.ring.Valid() && key in w.elem
    ensures var w' := ConfigStep(c, leader, w, key, env).0;
            && w'.elem.Keys == w.elem.Keys && w'.elem == w.elem[key := w'.elem[key]]
            && SameRequest(w'.elem[key], w.elem[key]) && (!leader ==> w'.elem == w.elem)
  {
    hide RequireStep, Marshal, RenderStep, Rendered;
  }

  lemma TaskWrites(c: Config, leader: bool, w: World, key: string, env: Env)
    requires c.ring.Valid() && key in w.elem
    ensures var w', t := ConfigStep(c, leader, w, key, env).0, TaskOf(c, leader, w, key, env);
            && key in w'.elem && (t == Skip || t == Write(w.elem[key].name, Rendered(c, w'.elem[key])))
            && (!leader ==> (t == Skip <==> !CheckValid(w.elem[key])))
  {
    ConfigEntry(c, leader, w, key, env);
    AllocKeepsKeys(c, w, key, env);
    hide AllocVIPStep, RenderStep, Rendered;
  }

  /** Operation i of the add pass writes the file of collected key i with the rendering of the record as
      the pass leaves it, or does nothing; a follower does nothing exactly for a record without address or port. */
  lemma {:induction false} AddTasksWrite(c: Config, leader: bool, w: World, keys: seq<string>, env: Env, i: nat)
    requires c.ring.Valid() && (forall k :: k in keys ==> k in w.elem) && NoRepeats(keys) && i < |keys|
    ensures var w', t := ConfigAll(c, leader, w, keys, env).0, AddTasks(c, leader, w, keys, env)[i];
            && (t == Skip || t == Write(w.elem[keys[i]].name, Rendered(c, w'.elem[keys[i]])))
            && (!leader ==> (t == Skip <==> !CheckValid(w.elem[keys[i]])))
  {
    hide ConfigStep, TaskOf, Rendered, CheckValid;
    var n := |keys| - 1;
    var w1 := ConfigAll(c, leader, w, keys[..n], env).0;
    assert keys[i] in keys[..i + 1];
    if i < n {
      AddTasksWrite(c, leader, w, keys[..n], env, i);
      EarlierEntryStays(c, leader, w1, keys[i], keys[n], env);
    } else {
      assert keys[n] !in keys[..n];
      LaterKeyIsUntouched(c, leader, w, keys[..n], env, keys[n]);
      TaskWrites(c, leader, w1, keys[n], env);
    }
  }

  lemma EarlierEntryStays(c: Config, leader: bool, w: World, k: string, key: string, env: Env)
    requires c.ring.Valid() && key in w.elem && k in w.elem && k != key
    ensures var w' := ConfigStep(c, leader, w, key, env).0; k in w'.elem && w'.elem[k] == w.elem[k]
  {
    hide ConfigStep;
    ConfigEntry(c, leader, w, key, env);
  }

  lemma {:induction false} LaterKeyIsUntouched(c: Config, leader: bool, w: World, keys: seq<string>, env: Env, k: string)
    requires c.ring.Valid() && (forall k :: k in keys ==> k in w.elem) && k in w.elem && k !in keys
    ensures ConfigAll(c, leader, w, keys, env).0.elem[k] == w.elem[k]
  {
    if keys != [] {
      hide ConfigStep;
      var n := |keys| - 1;
      LaterKeyIsUntouched(c, leader, w, keys[..n], env, k);
      ConfigEntry(c, leader, ConfigAll(c, leader, w, keys[..n], env).0, keys[n], env);
    }
  }

  lemma {:induction false} AddPassIsTasks(c: Config, leader: bool, w: World, keys: seq<string>, env: Env)
    requires c.ring.Valid() && forall k :: k in keys ==> k in w.elem
    ensures var (w', need) := ConfigAll(c, leader, w, keys, env);
            TasksStep(w.disk, AddTasks(c, leader, w, keys, env), env) == (w'.disk, need)
  {
    if keys != [] {
      hide ConfigStep, TaskOf;
      var n := |keys| - 1;
      var w1 := ConfigAll(c, leader, w, keys[..n], env).0;
      AddPassIsTasks(c, leader, w, keys[..n], env);
      ConfigIsTask(c, leader, w1, keys[n], env);
      var tasks := AddTasks(c, leader, w, keys, env);
      assert tasks[..n] == AddTasks(c, leader, w, keys[..n], env);
    }
  }

  lemma ConfigIsTask(c: Config, leader: bool, w: World, key: string, env: Env)
    requires c.ring.Valid() && key in w.elem
    ensures var (w', changed) := ConfigStep(c, leader, w, key, env);
            TaskStep(w.disk, TaskOf(c, leader, w, key, env), env) == (w'.disk, changed)
  {
    hide AllocVIPStep, RenderStep, Rendered;
    AllocKeepsDisk(c, w, key, env);
    AllocKeepsKeys(c, w, key, env);
  }

  lemma AllocKeepsDisk(c: Config, w: World, key: string, env: Env)
    requires c.ring.Valid() && key in w.elem
    ensures AllocVIPStep(c, w, key, env).0.disk == w.disk
  {
    hide RequireStep, Marshal;
  }

  function Removes(order: seq<string>): seq<Task> { seq(|order|, i requires 0 <= i < |order| => Remove(order[i])) }

  /** Removing names one after another, in whatever order, is the delete pass of their set. */
  lemma {:induction false} DeletePassIsTasks(disk: Disk, order: seq<string>, env: Env)
    ensures var r := Removed(disk, SetOf(order), env);
            TasksStep(disk, Removes(order), env) == (disk - r, r != {})
  {
    if order == [] {
      assert Removed(disk, SetOf(order), env) == {} && disk - {} == disk;
    } else {
      var k := |order| - 1;
      var n := order[k];
      DeletePassIsTasks(disk, order[..k], env);
      assert Removes(order)[..k] == Removes(order[..k]);
      assert order == order[..k] + [n];
      assert SetOf(order) == SetOf(order[..k]) + {n};
      var r := Removed(disk, SetOf(order[..k]), env);
      if n in r {
        assert Removed(disk, SetOf(order), env) == r && n !in disk - r;
      } else if n in disk && n !in env.remove {
        assert Removed(disk, SetOf(order), env) == r + {n} && disk - r - {n} == disk - (r + {n});
      } else {
        assert Removed(disk, SetOf(order), env) == r;
      }
    }
  }

  /** Every event is this list of file operations: one for each collected key, in order, and then a removal
      for each name whose key left the snapshot, in any order. needReload is set exactly when one of them
      changed a file. */
  lemma EventIsTasks(c: Config, leader: bool, w: World, li: seq<Item>, env: Env, order: seq<string>)
    requires c.ring.Valid() && SetOf(order) == Gone(Middle(c, leader, w, li, env).elem, li)
    ensures var (e, keys) := Absorb(c, w.elem, li);
            && (forall k :: k in keys ==> k in e)
            && TasksStep(w.disk, AddTasks(c, leader, w.(elem := e), keys, env) + Removes(order), env)
               == (EventStep(c, leader, w, li, env).0.disk, EventStep(c, leader, w, li, env).1)
  {
    hide Absorb, ConfigAll, TasksStep, Gone, AddTasks, SetOf;
    AbsorbedKeysAreInElem(c, w.elem, li);
    var (e, keys) := Absorb(c, w.elem, li);
    AddPassIsTasks(c, leader, w.(elem := e), keys, env);
    var (w1, need) := ConfigAll(c, leader, w.(elem := e), keys, env);
    DeletePassIsTasks(w1.disk, order, env);
    TasksAppend(w.disk, AddTasks(c, leader, w.(elem := e), keys, env), Removes(order), env);
  }

  // The interleaved steps

  /** The handler between events, or inside one with file operations left and its local needReload. */
  datatype Handler = Idle | Busy(todo: seq<Task>, env: Env, need: bool)

  /** The reload thread: asleep, holding the lock with the flag still to read, or past its HUP attempt. */
  datatype Reloader = Sleeping | Locked | Hupped(ok: bool)

  /** loaded is what keepalived last read; requests and hups count Reload calls and successful HUPs. */
  datatype State = State(disk: Disk, loaded: Disk, flag: bool, handler: Handler, reloader: Reloader,
                         requests: nat, hups: nat)

  datatype Action =
    | StartEvent(todo: seq<Task>, env: Env)
    | FileOperation
    | EndEvent
    | Lock
    | Hup(ok: bool)
    | Unlock

  predicate Enabled(s: State, a: Action) {
    match a
    case StartEvent(_, _) => s.handler.Idle?
    case FileOperation => s.handler.Busy? && s.handler.todo != []
    // Reload waits for the lock
    case EndEvent => s.handler.Busy? && s.handler.todo == [] && (s.handler.need ==> s.reloader.Sleeping?)
    case Lock => s.reloader.Sleeping?
    case Hup(_) => s.reloader.Locked? && s.flag
    case Unlock => s.reloader.Hupped? || (s.reloader.Locked? && !s.flag)
  }

  function Apply(s: State, a: Action): State
    requires Enabled(s, a)
  {
    match a
    case StartEvent(todo, env) => s.(handler := Busy(todo, env, false))
    case FileOperation =>
      var (d, changed) := TaskStep(s.disk, s.handler.todo[0], s.handler.env);
      s.(disk := d, handler := Busy(s.handler.todo[1..], s.handler.env, s.handler.need || changed))
    case EndEvent =>
      if s.handler.need then s.(handler := Idle, flag := true, requests := s.requests + 1) else s.(handler := Idle)
    case Lock => s.(reloader := Locked)
    case Hup(ok) => if ok then s.(reloader := Hupped(true), loaded := s.disk, hups := s.hups + 1) else s.(reloader := Hupped(false))
    case Unlock => s.(reloader := Sleeping, flag := s.flag && !(s.reloader.Hupped? && s.reloader.ok))
  }

  ghost predicate Reachable(s: State, actions: seq<Action>, s': State)
    decreases |actions|
  {
    if actions == [] then s == s' else Enabled(s, actions[0]) && Reachable(Apply(s, actions[0]), actions[1..], s')
  }

  predicate Initial(s: State) {
    s.loaded == s.disk && !s.flag && s.handler == Idle && s.reloader == Sleeping && s.requests == 0 && s.hups == 0
  }

  predicate Pending(s: State) { s.handler.Busy? && s.handler.need }

  /** Nothing is lost: the files are loaded, or the flag is set, or the handler is about to set it. */
  predicate NoLostReload(s: State) { s.loaded == s.disk || s.flag || Pending(s) }

  /** What makes it inductive: once a HUP has succeeded the flag no longer counts, and each successful
      HUP answers a request of its own. */
  predicate Inv(s: State) {
    && NoLostReload(s)
    && (s.reloader.Hupped? ==> s.flag)
    && (s.reloader == Hupped(true) ==> s.loaded == s.disk || Pending(s))
    && s.hups + (if s.flag && s.reloader != Hupped(true) then 1 else 0) <= s.requests
  }

  lemma StepKeepsInv(s: State, a: Action)
    requires Inv(s) && Enabled(s, a)
    ensures Inv(Apply(s, a))
  {
  }

  lemma {:induction false} RunKeepsInv(s: State, actions: seq<Action>, s': State)
    requires Inv(s) && Reachable(s, actions, s')
    ensures Inv(s')
    decreases |actions|
  {
    if actions != [] {
      StepKeepsInv(s, actions[0]);
      RunKeepsInv(Apply(s, actions[0]), actions[1..], s');
    }
  }

  /** No lost reload, in every state of every interleaving; when both threads are at rest and the flag
      is clear, keepalived runs on the files as they are; and no HUP is sent without a request. */
  lemma ReloadIsNeverLost(s: State, actions: seq<Action>, s': State)
    requires Initial(s) && Reachable(s, actions, s')
    ensures NoLostReload(s')
    ensures s'.handler.Idle? && !s'.flag ==> s'.loaded == s'.disk
    ensures s'.hups <= s'.requests
  {
    RunKeepsInv(s, actions, s');
  }

  /** One undisturbed round of the reload thread with a successful HUP catches up. */
  lemma OneRoundCatchesUp(s: State, actions: seq<Action>, s': State)
    requires Initial(s) && Reachable(s, actions, s') && s'.handler.Idle? && s'.reloader.Sleeping?
    ensures var round := if s'.flag then [Lock, Hup(true), Unlock] else [Lock, Unlock];
            exists t :: Reachable(s', round, t) && t.loaded == t.disk == s'.disk && !t.flag && t.reloader.Sleeping?
  {
    RunKeepsInv(s, actions, s');
    var locked := Apply(s', Lock);
    if s'.flag {
      var hupped := Apply(locked, Hup(true));
      var t := Apply(hupped, Unlock);
      assert [Lock, Hup(true), Unlock][1..] == [Hup(true), Unlock];
      assert [Hup(true), Unlock][1..] == [Unlock];
      assert Reachable(hupped, [Unlock], t);
      assert Reachable(locked, [Hup(true), Unlock], t);
      assert Reachable(s', [Lock, Hup(true), Unlock], t);
    } else {
      var t := Apply(locked, Unlock);
      assert [Lock, Unlock][1..] == [Unlock];
      assert Reachable(locked, [Unlock], t);
      assert Reachable(s', [Lock, Unlock], t);
    }
  }
}
