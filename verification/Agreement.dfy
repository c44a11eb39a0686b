/** Leader and follower end with the same files (pkg/lbm/lvs.go ConfigService, renderTemplate; the test for
    unchanged records in pkg/lbm/lbm.go). */
module Agreement {
  import opened NetIP
  import opened Ranges
  import opened Allocator
  import opened Ipam
  import opened IpamRuns
  import opened Records
  import opened Reconciler
  import opened Steps
  import opened DiskVips
  import opened Convergence

  /** A record a process must have on disk: address and port set and, for a leader, the address held by its id. */
  ghost predicate Due(leader: bool, p: Pool, l: LVS) {
    CheckValid(l) && (leader ==> Holds(p, Id(l.name), l.vip))
  }

  ghost predicate OnDisk(c: Config, disk: map<string, File>, l: LVS) {
    l.name in disk && disk[l.name] == Rendered(c, l)
  }

  ghost predicate FileOk(c: Config, leader: bool, w: World, k: string) {
    k in w.elem && Due(leader, w.ipam.pool, w.elem[k]) ==> OnDisk(c, w.disk, w.elem[k])
  }

  /** Every due record of Elem has its rendering on disk. */
  ghost predicate Files(c: Config, leader: bool, w: World) { forall k :: k in w.elem ==> FileOk(c, leader, w, k) }

  // One configuration

  /** The faults after which a reservation is in the store although an error is reported. */
  predicate Lost(fault: ReserveFault) { fault in {WriteLost, CursorFails, CursorLost} }

  /** RequireIP that reports an error leaves its id with the address it asked for: the asker was not looked
      up and held it before, or the answer to its reservation got lost. */
  ghost predicate HeldAfterError(ring: Ring, s: State, id: Text, vip: Text, env: RequireEnv)
    requires ring.Valid()
  {
    var h := HolderOf(s.pool, id);
    var pool := if h.Some? then ReleaseStep(s.pool, h, env.release).0 else s.pool;
    if env.existFails then Holds(s.pool, id, vip)
    else exists i: nat :: i < ring.Size() && Reaches(ring, pool, ParseIP(vip), env.get, i)
                          && Lost(FaultAt(env.get.reserve, i)) && Print(Target(ring, pool, ParseIP(vip), env.get, i)) == vip
  }

  lemma HeldAfterErrorExactly(ring: Ring, s: State, id: Text, vip: Text, env: RequireEnv)
    requires ring.Valid() && Unique(s.pool) && !env.release.Keeps()
    ensures var h := HolderOf(s.pool, id);
            var (s', r) := RequireStep(ring, s, id, vip, h, h, env);
            r.Err? ==> (Holds(s'.pool, id, vip) <==> HeldAfterError(ring, s, id, vip, env))
  {
    hide GetStep, Reaches, Print, Canon, Target;
    HolderIsFound(s.pool, id);
    var h := HolderOf(s.pool, id);
    var pool := if h.Some? then ReleaseStep(s.pool, h, env.release).0 else s.pool;
    var (s', r) := RequireStep(ring, s, id, vip, h, h, env);
    if r.Err? && !env.existFails {
      assert HoldsNone(pool, id);
      GetExactly(ring, pool, id, ParseIP(vip), env.get);
      ReachesOne(ring, pool, ParseIP(vip), env.get);
      var g := GetStep(ring, pool, id, ParseIP(vip), env.get);
      assert s'.pool == g.0 && g.1.Err?;
      if i: nat :| Reaches(ring, pool, ParseIP(vip), env.get, i) {
        var a := Target(ring, pool, ParseIP(vip), env.get, i);
        ReservationHolds(pool, id, a, FaultAt(env.get.reserve, i), vip);
        assert g == AsResult(ReserveStep(pool, id, a, FaultAt(env.get.reserve, i)), a);
      }
    }
  }

  /** At most one reservation is reached. */
  lemma ReachesOne(ring: Ring, p: Pool, requested: Option<IP>, env: GetEnv)
    requires ring.Valid()
    ensures forall i: nat, j: nat :: Reaches(ring, p, requested, env, i) && Reaches(ring, p, requested, env, j) ==> i == j
    ensures forall i: nat :: Reaches(ring, p, requested, env, i) ==>
      i < ring.Size() && Print(Target(ring, p, requested, env, i)) !in p.held && FaultAt(env.reserve, i) != CheckFails
  {
    hide Probed, Print, Canon;
  }

  /** A reservation of a free address for an id without one: what the id holds afterwards. */
  lemma ReservationHolds(p: Pool, id: Text, a: IP, fault: ReserveFault, vip: Text)
    requires HoldsNone(p, id) && Print(a) !in p.held && fault != CheckFails
    ensures var (p', r) := ReserveStep(p, id, a, fault);
            && (Holds(p', id, vip) <==> fault != WriteFails && Print(a) == vip)
            && (r != Granted ==> fault == WriteFails || Lost(fault))
            && (r == Granted ==> fault == NoFault)
  {
    hide Print;
  }

  /** What can be told before a configuration that leaves a due record without its file: the file cannot be
      read or written, or a leader's allocation or write-back fails for a record that is due all the same. */
  ghost predicate Misses(c: Config, leader: bool, w: World, key: string, env: Env)
    requires c.ring.Valid() && key in w.elem
  {
    var l := w.elem[key];
    var unwritable := l.name in env.read || l.name in env.write;
    if !leader then CheckValid(l) && !OnDisk(c, w.disk, l) && unwritable
    else
      var h := HolderOf(w.ipam.pool, Id(l.name));
      var e := RequireEnvOf(env, l.name);
      match RequireStep(c.ring, w.ipam, Id(l.name), l.vip, h, h, e).1
      case Err(_) => CheckValid(l) && HeldAfterError(c.ring, w.ipam, Id(l.name), l.vip, e) && !OnDisk(c, w.disk, l)
      case Ok(vip) =>
        var done := Completed(c, l, vip);
        CheckValid(done) && !OnDisk(c, w.disk, done) && (unwritable || (done != l && l.name in env.update))
  }

  /** A configuration leaves its record without the file it is due exactly when it misses. */
  lemma ConfigRendersExactly(c: Config, leader: bool, w: World, key: string, env: Env)
    requires c.Valid() && key in w.elem && key == KeyOf(c, w.elem[key].name)
    requires Unique(w.ipam.pool) && KeepsReleases(env)
    ensures var w' := ConfigStep(c, leader, w, key, env).0;
            key in w'.elem && (FileOk(c, leader, w', key) <==> !Misses(c, leader, w, key, env))
  {
    hide RequireStep, Rendered, Marshal, Unique, HeldAfterError;
    var l := w.elem[key];
    var e := RequireEnvOf(env, l.name);
    HeldAfterErrorExactly(c.ring, w.ipam, Id(l.name), l.vip, e);
    RequireFrame(c, w, l, env);
    var h := HolderOf(w.ipam.pool, Id(l.name));
    var (s, r) := RequireStep(c.ring, w.ipam, Id(l.name), l.vip, h, h, e);
    if leader && r.Ok? {
      assert Completed(c, l, r.value) != l <==> !(r.value == l.vip && (l.port != 0 || LastOctet(r.value).None?));
    }
  }

  /** Configuring some keys touches no other file. */
  lemma OthersStayOnDisk(c: Config, leader: bool, w: World, w': World, keys: set<string>, k: string)
    requires Named(c, w.elem) && Frame(c, w, w', keys) && k in w.elem && k !in keys
    ensures FileOk(c, leader, w', k) <==> FileOk(c, leader, w, k)
  {
    hide Rendered;
    NamedAt(c, w.elem, k);
    assert w'.elem[k] == w.elem[k];
  }

  ghost predicate MissesAt(c: Config, leader: bool, w: World, keys: seq<string>, env: Env, i: nat)
    requires c.ring.Valid() && (forall k :: k in keys ==> k in w.elem) && i < |keys|
  {
    Misses(c, leader, ConfigAll(c, leader, w, keys[..i], env).0, keys[i], env)
  }

  lemma ConfigAllKeepsOthers(c: Config, leader: bool, w: World, keys: seq<string>, env: Env)
    requires c.Valid() && (forall k :: k in keys ==> k in w.elem) && Named(c, w.elem)
    requires Unique(w.ipam.pool) && KeepsReleases(env)
    ensures var w' := ConfigAll(c, leader, w, keys, env).0;
            forall k :: k in w.elem && k !in keys ==> (FileOk(c, leader, w', k) <==> FileOk(c, leader, w, k))
  {
    hide ConfigAll, Frame, FileOk, Unique, Named, KeepsReleases;
    ConfigAllFrame(c, leader, w, keys, env);
    var w' := ConfigAll(c, leader, w, keys, env).0;
    forall k | k in w.elem && k !in keys ensures FileOk(c, leader, w', k) <==> FileOk(c, leader, w, k) {
      OthersStayOnDisk(c, leader, w, w', SetOf(keys), k);
    }
  }

  /** The second loop leaves a collected key without its file exactly when its turn misses. */
  lemma {:induction false} ConfigAllRendersExactly(c: Config, leader: bool, w: World, keys: seq<string>, env: Env, i: nat)
    requires c.Valid() && (forall k :: k in keys ==> k in w.elem) && Named(c, w.elem) && NoRepeats(keys)
    requires Unique(w.ipam.pool) && KeepsReleases(env) && i < |keys|
    ensures FileOk(c, leader, ConfigAll(c, leader, w, keys, env).0, keys[i]) <==> !MissesAt(c, leader, w, keys, env, i)
  {
    hide ConfigStep, Frame, FileOk, Misses, Unique, Named, KeepsReleases;
    var n := |keys| - 1;
    var w1 := ConfigAll(c, leader, w, keys[..n], env).0;
    ConfigAllFrame(c, leader, w, keys[..n], env);
    NamedAt(c, w1.elem, keys[n]);
    if i < n {
      MissesAtPrefix(c, leader, w, keys, env, i);
      ConfigAllRendersExactly(c, leader, w, keys[..n], env, i);
      ConfigFrame(c, leader, w1, keys[n], env);
      OthersStayOnDisk(c, leader, w1, ConfigStep(c, leader, w1, keys[n], env).0, {keys[n]}, keys[i]);
    } else {
      ConfigRendersExactly(c, leader, w1, keys[n], env);
    }
  }

  lemma MissesAtPrefix(c: Config, leader: bool, w: World, keys: seq<string>, env: Env, i: nat)
    requires c.ring.Valid() && (forall k :: k in keys ==> k in w.elem) && NoRepeats(keys) && i < |keys| - 1
    ensures var n := |keys| - 1;
            && keys[..n][i] == keys[i] && keys[i] != keys[n] && keys[i] in keys[..n]
            && (MissesAt(c, leader, w, keys[..n], env, i) <==> MissesAt(c, leader, w, keys, env, i))
  {
    hide ConfigAll, Misses;
    assert keys[..|keys| - 1][..i] == keys[..i];
  }

  // One event

  /** Some collected record of the event is left without the file it is due. */
  ghost predicate EventMisses(c: Config, leader: bool, w: World, li: seq<Item>, env: Env)
    requires c.ring.Valid()
  {
    MiddleIsConfigAll(c, leader, w, li, env);
    var w0, keys := w.(elem := w.elem + Accepted(c, li)), Absorb(c, w.elem, li).1;
    exists i: nat :: i < |keys| && MissesAt(c, leader, w0, keys, env, i)
  }

  lemma MiddleRendersExactly(c: Config, leader: bool, w: World, li: seq<Item>, env: Env)
    requires Healthy(c, w) && GoodSnapshot(c, li) && KeepsReleases(env)
    ensures var w0, w1, keys := w.(elem := w.elem + Accepted(c, li)), Middle(c, leader, w, li, env), Absorb(c, w.elem, li).1;
            && (forall k :: k in keys ==> k in w0.elem)
            && (forall k :: k in w0.elem && k !in keys ==> (FileOk(c, leader, w1, k) <==> FileOk(c, leader, w0, k)))
            && (forall i: nat :: i < |keys| ==> (FileOk(c, leader, w1, keys[i]) <==> !MissesAt(c, leader, w0, keys, env, i)))
  {
    hide Absorb, Accepted, ConfigAll, Middle, FileOk, MissesAt, Named, Unique, KeepsReleases;
    AcceptedIsNamed(c, w.elem, li);
    CollectedOnce(c, w.elem, li);
    MiddleIsConfigAll(c, leader, w, li, env);
    var w0, keys := w.(elem := w.elem + Accepted(c, li)), Absorb(c, w.elem, li).1;
    ConfigAllKeepsOthers(c, leader, w0, keys, env);
    forall i: nat | i < |keys|
      ensures FileOk(c, leader, Middle(c, leader, w, li, env), keys[i]) <==> !MissesAt(c, leader, w0, keys, env, i)
    {
      ConfigAllRendersExactly(c, leader, w0, keys, env, i);
    }
  }

  lemma DeleteKeepsFile(c: Config, leader: bool, w: World, li: seq<Item>, env: Env, k: string)
    requires Named(c, w.elem) && k in w.elem && k in KeysOf(li)
    ensures FileOk(c, leader, DeleteStep(leader, w, li, env).0, k) <==> FileOk(c, leader, w, k)
  {
    hide Rendered;
    DeletePassSparesKept(c, leader, w, li, env, k);
  }

  /** An event keeps every due record on disk, for a leader and for a follower, exactly when it does not miss. */
  lemma EventFilesExactly(c: Config, leader: bool, w: World, li: seq<Item>, env: Env)
    requires Healthy(c, w) && GoodSnapshot(c, li) && KeepsReleases(env) && Files(c, leader, w)
    ensures var w' := EventStep(c, leader, w, li, env).0;
            Healthy(c, w') && (Files(c, leader, w') <==> !EventMisses(c, leader, w, li, env))
  {
    hide Absorb, Accepted, ConfigAll, DeleteStep, EventStep, Middle, FileOk, MissesAt, Named, Unique, KeepsReleases, GoodSnapshot;
    var w0, w1 := w.(elem := w.elem + Accepted(c, li)), Middle(c, leader, w, li, env);
    var keys := Absorb(c, w.elem, li).1;
    MiddleRendersExactly(c, leader, w, li, env);
    MiddleFrame(c, leader, w, li, env);
    FrameKeys(c, w0, w1, SetOf(keys));
    UncollectedAreAsBefore(c, leader, w, li);
    EventIsMiddleThenDelete(c, leader, w, li, env);
    EventRefinesMap(c, leader, w, li, env);
    DeleteKeepsHealth(c, leader, w1, li, env);
    var w' := EventStep(c, leader, w, li, env).0;
    forall k | k in w1.elem && k in KeysOf(li) ensures FileOk(c, leader, w', k) <==> FileOk(c, leader, w1, k) {
      DeleteKeepsFile(c, leader, w1, li, env, k);
    }
    if EventMisses(c, leader, w, li, env) {
      var i: nat :| i < |keys| && MissesAt(c, leader, w0, keys, env, i);
      assert keys[i] in keys && !FileOk(c, leader, w1, keys[i]);
      CollectedAreListed(c, w.elem, li);
      assert keys[i] in w'.elem;
    } else {
      forall k | k in w'.elem ensures FileOk(c, leader, w', k) {
        if k in keys { var i: nat :| i < |keys| && keys[i] == k; assert !MissesAt(c, leader, w0, keys, env, i); }
      }
    }
  }

  lemma CollectedAreListed(c: Config, elem: map<string, LVS>, li: seq<Item>)
    requires GoodSnapshot(c, li)
    ensures forall k :: k in Absorb(c, elem, li).1 ==> k in Accepted(c, li) && k in KeysOf(li)
  {
    hide Absorb, Accepted;
    CollectedAreAccepted(c, elem, li);
    AcceptedMeaning(c, li);
  }

  lemma UncollectedAreAsBefore(c: Config, leader: bool, w: World, li: seq<Item>)
    requires GoodSnapshot(c, li) && Files(c, leader, w)
    ensures var w0, keys := w.(elem := w.elem + Accepted(c, li)), Absorb(c, w.elem, li).1;
            forall k :: k in w0.elem && k !in keys ==> FileOk(c, leader, w0, k)
  {
    hide Absorb, Accepted, Due, OnDisk;
    AbsorbCollects(c, w.elem, li);
    forall k | k in w.elem + Accepted(c, li) && k !in Absorb(c, w.elem, li).1
      ensures FileOk(c, leader, w.(elem := w.elem + Accepted(c, li)), k)
    {
      assert FileOk(c, leader, w, k);
    }
  }

  /** For a follower the condition needs nothing but the snapshot, the disk and the faults before the event. */
  lemma FollowerFilesExactly(c: Config, w: World, li: seq<Item>, env: Env)
    requires Healthy(c, w) && GoodSnapshot(c, li) && KeepsReleases(env) && Files(c, false, w)
    ensures Files(c, false, EventStep(c, false, w, li, env).0) <==>
            forall k :: k in Absorb(c, w.elem, li).1 ==>
              k in Accepted(c, li) &&
              var l := Accepted(c, li)[k];
              CheckValid(l) ==> OnDisk(c, w.disk, l) || (l.name !in env.read && l.name !in env.write)
  {
    hide Absorb, Accepted, ConfigAll, EventStep, Named, Unique, KeepsReleases, OnDisk, CheckValid, GoodSnapshot, Files;
    EventFilesExactly(c, false, w, li, env);
    var w0, keys := w.(elem := w.elem + Accepted(c, li)), Absorb(c, w.elem, li).1;
    CollectedAreListed(c, w.elem, li);
    CollectedOnce(c, w.elem, li) by { assert GoodSnapshot(c, li); GoodIsDistinct(c, li); }
    AcceptedIsNamed(c, w.elem, li) by { GoodIsDistinct(c, li); }
    forall i: nat | i < |keys| ensures MissesAt(c, false, w0, keys, env, i) <==> Misses(c, false, w0, keys[i], env) {
      FollowerTurn(c, w0, keys, env, i);
    }
    forall k | k in keys ensures exists i: nat :: i < |keys| && keys[i] == k {}
  }

  lemma GoodIsDistinct(c: Config, li: seq<Item>)
    requires GoodSnapshot(c, li)
    ensures DistinctKeys(li) && Siblings(c, li)
  {
  }

  lemma FollowerTurn(c: Config, w: World, keys: seq<string>, env: Env, i: nat)
    requires c.Valid() && (forall k :: k in keys ==> k in w.elem) && Named(c, w.elem) && NoRepeats(keys) && i < |keys|
    requires Unique(w.ipam.pool) && KeepsReleases(env)
    ensures MissesAt(c, false, w, keys, env, i) <==> Misses(c, false, w, keys[i], env)
  {
    hide ConfigAll, Rendered, CheckValid, Unique, KeepsReleases;
    var w1 := ConfigAll(c, false, w, keys[..i], env).0;
    ConfigAllFrame(c, false, w, keys[..i], env);
    assert keys[i] in keys && keys[i] !in keys[..i];
    NamedAt(c, w.elem, keys[i]);
    FrameKeepsElem(c, w, w1, SetOf(keys[..i]), keys[i]);
  }

  // Runs

  ghost predicate FilesThroughout(c: Config, leader: bool, w: World, events: seq<Event>)
    requires c.ring.Valid()
  {
    && Files(c, leader, RunEvents(c, leader, w, events))
    && (events != [] ==> FilesThroughout(c, leader, w, events[..|events| - 1]))
  }

  ghost predicate NeverMisses(c: Config, leader: bool, w: World, events: seq<Event>)
    requires c.ring.Valid()
  {
    events != [] ==>
      var n := |events| - 1;
      NeverMisses(c, leader, w, events[..n]) && !EventMisses(c, leader, RunEvents(c, leader, w, events[..n]), events[n].li, events[n].env)
  }

  /** Over any run, whatever fails, every due record is on disk after each event exactly when no event misses. */
  lemma {:induction false} RunFilesExactly(c: Config, leader: bool, w: World, events: seq<Event>)
    requires Healthy(c, w) && Files(c, leader, w) && forall e :: e in events ==> GoodSnapshot(c, e.li) && KeepsReleases(e.env)
    ensures FilesThroughout(c, leader, w, events) <==> NeverMisses(c, leader, w, events)
  {
    if events != [] {
      hide EventStep, Files, GoodSnapshot, EventMisses, KeepsReleases, Healthy;
      var n := |events| - 1;
      RunFilesExactly(c, leader, w, events[..n]);
      assert events[n] in events;
      RunIsHealthy(c, leader, w, events[..n]);
      HealthyIsValid(c, w);
      if FilesThroughout(c, leader, w, events[..n]) {
        LastHasFiles(c, leader, w, events[..n]);
        EventFilesExactly(c, leader, RunEvents(c, leader, w, events[..n]), events[n].li, events[n].env);
      }
    }
  }

  lemma LastHasFiles(c: Config, leader: bool, w: World, events: seq<Event>)
    requires c.ring.Valid()
    ensures FilesThroughout(c, leader, w, events) ==> Files(c, leader, RunEvents(c, leader, w, events))
  {
  }

  /** Without errors nothing is missed. */
  lemma CalmNeverMisses(c: Config, leader: bool, w: World, key: string)
    requires c.ring.Valid() && key in w.elem && Unique(w.ipam.pool) && CheckVIP(w.elem[key].vip)
    ensures !Misses(c, leader, w, key, NO_FAULTS)
  {
    hide RequireStep, Rendered, Unique, GoodAsk, Grantable, GetStep, Reaches, Target;
    RequireOutcome(c.ring, w.ipam, Id(w.elem[key].name), w.elem[key].vip);
    CalmHoldsNothing(c.ring, w.ipam, Id(w.elem[key].name), w.elem[key].vip);
  }

  lemma CalmHoldsNothing(ring: Ring, s: State, id: Text, vip: Text)
    requires ring.Valid()
    ensures !HeldAfterError(ring, s, id, vip, CALM)
  {
    hide Reaches, Target, HolderOf;
  }

  lemma CalmEventNeverMisses(c: Config, leader: bool, w: World, li: seq<Item>)
    requires Healthy(c, w) && GoodSnapshot(c, li)
    ensures !EventMisses(c, leader, w, li, NO_FAULTS)
  {
    hide Absorb, Accepted, ConfigAll, Named, Unique, Misses, CheckVIP;
    var w0, keys := w.(elem := w.elem + Accepted(c, li)), Absorb(c, w.elem, li).1;
    CollectedHaveVIPs(c, w.elem, li);
    CollectedOnce(c, w.elem, li);
    AcceptedIsNamed(c, w.elem, li);
    forall i: nat | i < |keys| ensures !MissesAt(c, leader, w0, keys, NO_FAULTS, i) {
      var w1 := ConfigAll(c, leader, w0, keys[..i], NO_FAULTS).0;
      assert keys[i] in keys && keys[i] !in keys[..i];
      ConfigAllFrame(c, leader, w0, keys[..i], NO_FAULTS);
      FrameKeepsElem(c, w0, w1, SetOf(keys[..i]), keys[i]);
      CalmNeverMisses(c, leader, w1, keys[i]);
    }
  }

  /** A follower that becomes leader keeps its guarantee; Recover only adds records without an address. */
  lemma TakeoverKeepsFiles(c: Config, w: World)
    requires Healthy(c, w) && Files(c, false, w)
    ensures Files(c, true, w) && Files(c, true, RecoverStep(c, w)) && Files(c, false, RecoverStep(c, w))
  {
    hide Rendered, Strip;
    forall k | k in w.elem ensures FileOk(c, true, w, k) { assert FileOk(c, false, w, k); }
    var r := RecoverStep(c, w);
    forall k, leader | k in r.elem ensures FileOk(c, leader, r, k) {
      if k in w.elem && r.elem[k] == w.elem[k] { assert FileOk(c, false, w, k); }
    }
  }

  /** A file that could not be written once is never written for as long as its record stays the same: the
      record is in Elem already, and an equal record is not collected again. */
  lemma FailedWriteIsNeverRetried(c: Config, w: World, it: Item, l: LVS)
    requires Healthy(c, w) && w.elem == map[] && GoodSnapshot(c, [it]) && Accept(c, it) == Some(l)
    requires CheckValid(l) && l.name !in w.disk
    ensures var w1 := EventStep(c, false, w, [it], NO_FAULTS.(write := {l.name})).0;
            && EventStep(c, false, w1, [it], NO_FAULTS) == (w1, false)
            && it.key in w1.elem && w1.elem[it.key] == l && l.name !in w1.disk && !Files(c, false, w1)
  {
    hide Accept, DeleteStep, Rendered, Accepted, Absorb, EventStep, ConfigAll, CheckValid, Middle;
    var li, env := [it], NO_FAULTS.(write := {l.name});
    AbsorbOfOne(c, w.elem, it);
    AcceptedOfOne(c, it);
    var w0 := w.(elem := w.elem[it.key := l]);
    assert w.elem + Accepted(c, li) == w0.elem && KeysOf(li) == {it.key};
    FollowerWritesNothing(c, w0, it.key, env);
    MiddleIsConfigAll(c, false, w, li, env);
    EventIsMiddleThenDelete(c, false, w, li, env);
    DeleteOfNothing(false, w0, li, env);
    var w1 := EventStep(c, false, w, li, env).0;
    assert w1 == w0;
    AbsorbNoNews(c, w1.elem, li);
    NoNewsNoChange(c, w1, li);
    assert !FileOk(c, false, w1, it.key);
  }

  lemma FollowerWritesNothing(c: Config, w: World, key: string, env: Env)
    requires c.ring.Valid() && key in w.elem && w.elem[key].name in env.write
    ensures ConfigAll(c, false, w, [key], env).0 == w
  {
    hide Rendered;
    var keys := [key];
    assert keys[..0] == [];
    assert w.(disk := w.disk) == w;
  }

  lemma NoNewsNoChange(c: Config, w: World, li: seq<Item>)
    requires c.ring.Valid() && Absorb(c, w.elem, li) == (w.elem, []) && w.elem.Keys <= KeysOf(li)
    ensures EventStep(c, false, w, li, NO_FAULTS) == (w, false)
  {
    hide Absorb, DeleteStep;
    DeleteOfNothing(false, w, li, NO_FAULTS);
    assert w.(elem := w.elem) == w;
  }

  // The final snapshot

  /** Only accepted records with address and port set, each address held by its own id in p. */
  ghost predicate FinalSnapshot(c: Config, p: Pool, li: seq<Item>) {
    GoodSnapshot(c, li) && forall it :: it in li ==>
      Accept(c, it).Some? && CheckValid(Accept(c, it).value) && Holds(p, Id(Accept(c, it).value.name), Accept(c, it).value.vip)
  }

  /** A leader that processes a final snapshot keeps its records as parsed and its addresses as held. */
  lemma LeaderTakesFinal(c: Config, w: World, li: seq<Item>)
    requires Healthy(c, w) && FinalSnapshot(c, w.ipam.pool, li)
    ensures var w' := EventStep(c, true, w, li, NO_FAULTS).0;
            forall it :: it in li ==>
              && it.key in w'.elem && w'.elem[it.key] == Accept(c, it).value
              && Holds(w'.ipam.pool, Id(Accept(c, it).value.name), Accept(c, it).value.vip)
  {
    hide Absorb, Accepted, ConfigAll, EventStep, DeleteStep, Middle, Accept, Complete, Unique, Named, CheckValid;
    var w0, w1 := w.(elem := w.elem + Accepted(c, li)), Middle(c, true, w, li, NO_FAULTS);
    AcceptedMeaning(c, li);
    CollectedAreAccepted(c, w.elem, li);
    forall k | k in Absorb(c, w.elem, li).1 ensures k in w0.elem && Complete(w.ipam.pool, w0.elem[k]) {
      var it :| it in li && it.key == k;
      FinalIsComplete(c, w.ipam.pool, it);
    }
    MiddleIsConfigAll(c, true, w, li, NO_FAULTS);
    ConfigAllOfComplete(c, w0, Absorb(c, w.elem, li).1, NO_FAULTS);
    assert w1 == w0.(disk := w1.disk);
    AcceptedIsNamed(c, w.elem, li);
    EventIsMiddleThenDelete(c, true, w, li, NO_FAULTS);
    DeleteKeepsHealth(c, true, w1, li, NO_FAULTS);
    forall it | it in li
      ensures Holds(DeleteStep(true, w1, li, NO_FAULTS).0.ipam.pool, Id(Accept(c, it).value.name), Accept(c, it).value.vip)
    {
      DeletePassSparesKept(c, true, w1, li, NO_FAULTS, it.key);
    }
  }

  lemma FinalIsComplete(c: Config, p: Pool, it: Item)
    requires Accept(c, it).Some? && CheckValid(Accept(c, it).value)
    requires Holds(p, Id(Accept(c, it).value.name), Accept(c, it).value.vip)
    ensures Complete(p, Accept(c, it).value)
  {
    hide Accept;
  }

  /** The record is in Elem as parsed already, so its file will not be touched. */
  ghost predicate Known(c: Config, w: World, it: Item) {
    Accept(c, it).Some? && it.key in w.elem && w.elem[it.key] == Accept(c, it).value
  }

  /** After an error-free event the file of a listed record that is due is right exactly when the record was
      news, or its file was right before: whatever happened earlier. */
  lemma FileAfterExactly(c: Config, leader: bool, w: World, li: seq<Item>, it: Item)
    requires Healthy(c, w) && GoodSnapshot(c, li) && it in li && Accept(c, it).Some?
    requires var w' := EventStep(c, leader, w, li, NO_FAULTS).0;
             it.key in w'.elem && w'.elem[it.key] == Accept(c, it).value && Due(leader, w'.ipam.pool, Accept(c, it).value)
    ensures OnDisk(c, EventStep(c, leader, w, li, NO_FAULTS).0.disk, Accept(c, it).value) <==>
            (Known(c, w, it) ==> OnDisk(c, w.disk, Accept(c, it).value))
  {
    hide Absorb, Accepted, ConfigAll, DeleteStep, EventStep, Middle, MissesAt, Named, Unique, Accept, OnDisk, Due, GoodSnapshot;
    var w0, w1 := w.(elem := w.elem + Accepted(c, li)), Middle(c, leader, w, li, NO_FAULTS);
    var keys, q := Absorb(c, w.elem, li).1, Accept(c, it).value;
    GoodIsDistinct(c, li);
    MiddleRendersExactly(c, leader, w, li, NO_FAULTS);
    MiddleFrame(c, leader, w, li, NO_FAULTS);
    FrameKeys(c, w0, w1, SetOf(keys));
    EventIsMiddleThenDelete(c, leader, w, li, NO_FAULTS);
    DeleteKeepsHealth(c, leader, w1, li, NO_FAULTS);
    AbsorbCollects(c, w.elem, li);
    AcceptedMeaning(c, li);
    var w' := EventStep(c, leader, w, li, NO_FAULTS).0;
    assert it.key in KeysOf(li) && w1.elem[it.key] == q;
    DeleteKeepsFile(c, leader, w1, li, NO_FAULTS, it.key);
    if it.key in keys {
      CalmEventNeverMisses(c, leader, w, li);
      var i: nat :| i < |keys| && keys[i] == it.key;
      assert !MissesAt(c, leader, w0, keys, NO_FAULTS, i);
    } else {
      assert Known(c, w, it);
      FileUntouched(c, leader, w0, w1, SetOf(keys), li, it.key);
    }
  }

  lemma FileUntouched(c: Config, leader: bool, w0: World, w1: World, keys: set<string>, li: seq<Item>, k: string)
    requires Frame(c, w0, w1, keys) && Named(c, w1.elem) && k in w0.elem && k !in keys && k in KeysOf(li)
    ensures k in w1.elem && OnDisk(c, DeleteStep(leader, w1, li, NO_FAULTS).0.disk, w1.elem[k]) <==> OnDisk(c, w0.disk, w1.elem[k])
  {
    hide Rendered;
    NamedAt(c, w1.elem, k);
    DeletePassSparesKept(c, leader, w1, li, NO_FAULTS, k);
  }

  /** Both processes hold the rendering of every listed record. */
  ghost predicate Agree(c: Config, l: World, f: World, li: seq<Item>) {
    forall it :: it in li ==>
      Accept(c, it).Some? && OnDisk(c, l.disk, Accept(c, it).value) && OnDisk(c, f.disk, Accept(c, it).value)
  }

  /** The files of what a process already knows are right. */
  ghost predicate KnownAreOnDisk(c: Config, w: World, li: seq<Item>) {
    forall it :: it in li && Known(c, w, it) ==> OnDisk(c, w.disk, Accept(c, it).value)
  }

  /** Leader and follower agree. After a final snapshot, and whatever snapshots and failures each saw before,
      both hold for every record the rendering of the parsed record exactly when neither had a wrong file for
      a record it already knew. That is so in particular when none of their events missed a file. */
  lemma LeaderFollowerAgree(c: Config, l: World, f: World, ls: seq<Event>, fs: seq<Event>, li: seq<Item>)
    requires Healthy(c, l) && (forall e :: e in ls ==> GoodSnapshot(c, e.li) && KeepsReleases(e.env))
    requires Healthy(c, f) && (forall e :: e in fs ==> GoodSnapshot(c, e.li) && KeepsReleases(e.env))
    requires FinalSnapshot(c, RunEvents(c, true, l, ls).ipam.pool, li)
    ensures var l1, f1 := RunEvents(c, true, l, ls), RunEvents(c, false, f, fs);
            var l', f' := EventStep(c, true, l1, li, NO_FAULTS).0, EventStep(c, false, f1, li, NO_FAULTS).0;
            && (Agree(c, l', f', li) <==> KnownAreOnDisk(c, l1, li) && KnownAreOnDisk(c, f1, li))
            && (Files(c, true, l) && Files(c, false, f) && NeverMisses(c, true, l, ls) && NeverMisses(c, false, f, fs) ==>
                 Agree(c, l', f', li))
  {
    hide EventStep, Accept, Accepted, CheckValid, Healthy, OnDisk, RunEvents, NeverMisses, Files, GoodSnapshot, Known, Due;
    HealthyIsValid(c, l);
    var l1, f1 := RunEvents(c, true, l, ls), RunEvents(c, false, f, fs);
    RunIsHealthy(c, true, l, ls);
    RunIsHealthy(c, false, f, fs);
    LeaderTakesFinal(c, l1, li);
    FollowerTakes(c, f1, li);
    forall it | it in li
      ensures Accept(c, it).Some?
      ensures OnDisk(c, EventStep(c, true, l1, li, NO_FAULTS).0.disk, Accept(c, it).value) <==>
              (Known(c, l1, it) ==> OnDisk(c, l1.disk, Accept(c, it).value))
      ensures OnDisk(c, EventStep(c, false, f1, li, NO_FAULTS).0.disk, Accept(c, it).value) <==>
              (Known(c, f1, it) ==> OnDisk(c, f1.disk, Accept(c, it).value))
    {
      FinalIsDue(c, EventStep(c, true, l1, li, NO_FAULTS).0.ipam.pool, EventStep(c, false, f1, li, NO_FAULTS).0.ipam.pool, it);
      FileAfterExactly(c, true, l1, li, it);
      FileAfterExactly(c, false, f1, li, it);
    }
    if Files(c, true, l) && Files(c, false, f) && NeverMisses(c, true, l, ls) && NeverMisses(c, false, f, fs) {
      RunFilesExactly(c, true, l, ls);
      RunFilesExactly(c, false, f, fs);
      LastHasFiles(c, true, l, ls);
      LastHasFiles(c, false, f, fs);
      FilesOfKnown(c, true, l1, li, l1.ipam.pool);
      FilesOfKnown(c, false, f1, li, l1.ipam.pool);
    }
  }

  lemma FinalIsDue(c: Config, pl: Pool, pf: Pool, it: Item)
    requires Accept(c, it).Some? && CheckValid(Accept(c, it).value) && Holds(pl, Id(Accept(c, it).value.name), Accept(c, it).value.vip)
    ensures Due(true, pl, Accept(c, it).value) && Due(false, pf, Accept(c, it).value)
  {
  }

  lemma FilesOfKnown(c: Config, leader: bool, w: World, li: seq<Item>, p: Pool)
    requires Files(c, leader, w) && FinalSnapshot(c, p, li) && (leader ==> p == w.ipam.pool)
    ensures KnownAreOnDisk(c, w, li)
  {
    hide Accept, CheckValid, OnDisk, GoodSnapshot;
    forall it | it in li && Known(c, w, it) ensures OnDisk(c, w.disk, Accept(c, it).value) {
      assert FileOk(c, leader, w, it.key);
    }
  }

  lemma FollowerTakes(c: Config, w: World, li: seq<Item>)
    requires Healthy(c, w) && GoodSnapshot(c, li)
    ensures forall it :: it in li && Accept(c, it).Some? ==>
              var w' := EventStep(c, false, w, li, NO_FAULTS).0;
              it.key in w'.elem && w'.elem[it.key] == Accept(c, it).value
  {
    hide EventStep, Accept, Accepted, Named, Unique;
    EventRefinesMap(c, false, w, li, NO_FAULTS);
    AcceptedMeaning(c, li);
  }

  // After the write-back loop has ended

  /** An IPv6 address gives no port: the leader renders the record with port zero and the follower refuses it. */
  lemma PortZeroSplits(c: Config, w: World, key: string)
    requires c.ring.Valid() && key in w.elem && Unique(w.ipam.pool)
    requires Holds(w.ipam.pool, Id(w.elem[key].name), w.elem[key].vip) && w.elem[key].port == 0 && LastOctet(w.elem[key].vip).None?
    ensures OnDisk(c, ConfigStep(c, true, w, key, NO_FAULTS).0.disk, w.elem[key])
    ensures ConfigStep(c, false, w, key, NO_FAULTS) == (w, false)
  {
    hide GetStep, Marshal, Rendered;
    HolderIsFound(w.ipam.pool, Id(w.elem[key].name));
    assert HolderOf(w.ipam.pool, Id(w.elem[key].name)) == Some(w.elem[key].vip);
  }

  lemma {:induction false} FollowerSkips(c: Config, w: World, keys: seq<string>, env: Env, k: string)
    requires c.ring.Valid() && (forall k :: k in keys ==> k in w.elem) && Named(c, w.elem)
    requires Unique(w.ipam.pool) && KeepsReleases(env) && k in w.elem && !CheckValid(w.elem[k])
    ensures var w', n := ConfigAll(c, false, w, keys, env).0, w.elem[k].name;
            (n in w'.disk <==> n in w.disk) && (n in w.disk ==> w'.disk[n] == w.disk[n])
  {
    if keys != [] {
      hide Rendered, CheckValid, Unique, KeepsReleases, Frame, RenderStep;
      var n := |keys| - 1;
      var w1 := ConfigAll(c, false, w, keys[..n], env).0;
      FollowerSkips(c, w, keys[..n], env, k);
      ConfigAllFrame(c, false, w, keys[..n], env);
      if keys[n] != k {
        NamedAt(c, w1.elem, keys[n]);
        ConfigFrame(c, false, w1, keys[n], env);
        NamedAt(c, w.elem, k);
        FrameDisk(c, w1, ConfigStep(c, false, w1, keys[n], env).0, {keys[n]}, w.elem[k].name);
      }
    }
  }

  lemma FrameDisk(c: Config, w: World, w': World, keys: set<string>, n: string)
    requires Frame(c, w, w', keys) && KeyOf(c, n) !in keys
    ensures (n in w'.disk <==> n in w.disk) && (n in w.disk ==> w'.disk[n] == w.disk[n])
  {
  }

  /** Once the leader is quiet, a follower that processes the listing agrees on the granted records whose port
      is set. One whose port is zero, which only an IPv6 address leaves, it never writes. */
  lemma QuietAgreement(c: Config, l: World, f: World, li: seq<Item>, it: Item)
    requires Quiet(c, l) && Lists(c, l.records, li) && Files(c, true, l) && Healthy(c, f) && Files(c, false, f)
    requires it in li && Accept(c, it).Some?
    requires Holds(l.ipam.pool, Id(Accept(c, it).value.name), Accept(c, it).value.vip) && Accept(c, it).value.vip != EMPTY
    ensures var q, f' := Accept(c, it).value, EventStep(c, false, f, li, NO_FAULTS).0;
            && (q.port != 0 ==> OnDisk(c, l.disk, q))
            && (OnDisk(c, f'.disk, q) <==> q.port != 0 || OnDisk(c, f.disk, q))
  {
    hide Accept, EventStep, Accepted, Absorb, ConfigAll, DeleteStep, Middle, OnDisk, Named, Unique, EventMisses;
    var q, f' := Accept(c, it).value, EventStep(c, false, f, li, NO_FAULTS).0;
    assert it == Item(it.key, l.records[it.key]);
    assert FileOk(c, true, l, it.key);
    EventFilesExactly(c, false, f, li, NO_FAULTS);
    CalmEventNeverMisses(c, false, f, li);
    FollowerTakes(c, f, li);
    assert FileOk(c, false, f', it.key);
    if q.port == 0 { SkippedFileStays(c, f, li, it); }
  }

  lemma SkippedFileStays(c: Config, f: World, li: seq<Item>, it: Item)
    requires Healthy(c, f) && GoodSnapshot(c, li) && it in li && Accept(c, it).Some? && !CheckValid(Accept(c, it).value)
    ensures var q := Accept(c, it).value;
            OnDisk(c, EventStep(c, false, f, li, NO_FAULTS).0.disk, q) <==> OnDisk(c, f.disk, q)
  {
    hide Accept, EventStep, Accepted, Absorb, ConfigAll, DeleteStep, Middle, Named, Unique, CheckValid, Rendered;
    var w0, keys := f.(elem := f.elem + Accepted(c, li)), Absorb(c, f.elem, li).1;
    AcceptedMeaning(c, li);
    AcceptedIsNamed(c, f.elem, li);
    MiddleIsConfigAll(c, false, f, li, NO_FAULTS);
    FollowerSkips(c, w0, keys, NO_FAULTS, it.key);
    MiddleFrame(c, false, f, li, NO_FAULTS);
    var w1 := Middle(c, false, f, li, NO_FAULTS);
    FrameKeys(c, w0, w1, SetOf(keys));
    assert it.key in KeysOf(li);
    EventIsMiddleThenDelete(c, false, f, li, NO_FAULTS);
    DeletePassSparesKept(c, false, w1, li, NO_FAULTS, it.key);
  }

  /** End to end: an error-free leader whose snapshots were listed while its events ran, and a follower that
      processes the last of them, hold the same file for every granted record whose port is set. */
  lemma LoopEndsInAgreement(c: Config, w: World, f: World, li1: seq<Item>, li2: seq<Item>, li3: seq<Item>, li4: seq<Item>, it: Item)
    requires Healthy(c, w) && w.ipam.pool.Valid() && ListsRecent(c, w, li1) && Files(c, true, w)
    requires Healthy(c, f) && Files(c, false, f)
    requires var w1 := EventStep(c, true, w, li1, NO_FAULTS).0;
             var w2 := EventStep(c, true, w1, li2, NO_FAULTS).0;
             var w3 := EventStep(c, true, w2, li3, NO_FAULTS).0;
             && ListedDuring(c, w, w1, li2) && ListedDuring(c, w1, w2, li3) && ListedDuring(c, w2, w3, li4)
             && it in li4 && Accept(c, it).Some? && Accept(c, it).value.port != 0 && Accept(c, it).value.vip != EMPTY
             && Holds(w3.ipam.pool, Id(Accept(c, it).value.name), Accept(c, it).value.vip)
    ensures var w3 := EventStep(c, true, EventStep(c, true, EventStep(c, true, w, li1, NO_FAULTS).0, li2, NO_FAULTS).0, li3, NO_FAULTS).0;
            var f' := EventStep(c, false, f, li4, NO_FAULTS).0;
            && EventStep(c, true, w3, li4, NO_FAULTS) == (w3, false)
            && OnDisk(c, w3.disk, Accept(c, it).value) && OnDisk(c, f'.disk, Accept(c, it).value)
  {
    hide EventStep, Accept, Healthy, Files, Quiet, ListsRecent, Trails, OnDisk, EventMisses, GoodSnapshot;
    HealthyIsValid(c, w);
    WriteBackConverges(c, w, li1, li2, li3, li4, NO_FAULTS, NO_FAULTS, NO_FAULTS, NO_FAULTS);
    ListsRecentIsGood(c, w, li1);
    var w1 := EventStep(c, true, w, li1, NO_FAULTS).0;
    CalmEventKeepsFiles(c, true, w, li1);
    var w2 := EventStep(c, true, w1, li2, NO_FAULTS).0;
    CalmEventKeepsFiles(c, true, w1, li2);
    var w3 := EventStep(c, true, w2, li3, NO_FAULTS).0;
    CalmEventKeepsFiles(c, true, w2, li3);
    ListedIsCurrent(c, w2, w3, li4);
    QuietAgreement(c, w3, f, li4, it);
  }

  lemma ListsRecentIsGood(c: Config, w: World, li: seq<Item>)
    requires ListsRecent(c, w, li)
    ensures GoodSnapshot(c, li)
  {
  }

  lemma CalmEventKeepsFiles(c: Config, leader: bool, w: World, li: seq<Item>)
    requires Healthy(c, w) && GoodSnapshot(c, li) && Files(c, leader, w)
    ensures var w' := EventStep(c, leader, w, li, NO_FAULTS).0; Healthy(c, w') && Files(c, leader, w')
  {
    hide EventStep, EventMisses, Files, GoodSnapshot;
    EventFilesExactly(c, leader, w, li, NO_FAULTS);
    CalmEventNeverMisses(c, leader, w, li);
  }
}
