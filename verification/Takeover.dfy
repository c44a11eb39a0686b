/** No address leaks across a leader takeover (pkg/lbm/lvs.go Recover, DeleteService; pkg/lbm/lbm.go). */
module Takeover {
  import opened NetIP
  import opened Allocator
  import opened Ipam
  import opened IpamRuns
  import opened Records
  import opened Reconciler
  import opened Steps

  /** Every held id l4-n has an Elem entry under the key of n. */
  ghost predicate Covered(c: Config, w: World) {
    forall t, n :: Holds(w.ipam.pool, Id(n), t) ==> KeyOf(c, n) in w.elem
  }

  predicate StickAt(s: string, i: nat) { i + 3 <= |s| && s[i..i + 3] == STICK }

  ghost predicate Occurs(s: string) { exists i: nat :: StickAt(s, i) }

  /** Recover's replacement gives a name back exactly when the name does not contain the stick. */
  lemma {:induction false} StripExactly(s: string)
    ensures |Strip(s)| <= |s|
    ensures Strip(s) == s <==> !Occurs(s)
  {
    if STICK <= s {
      StripExactly(s[3..]);
      assert StickAt(s, 0);
    } else if s != "" {
      StripExactly(s[1..]);
      OccursAfter(s);
      assert s == [s[0]] + s[1..];
      assert Strip(s)[1..] == Strip(s[1..]);
    }
  }

  lemma OccursAfter(s: string)
    requires s != "" && !(STICK <= s)
    ensures Occurs(s) <==> Occurs(s[1..])
  {
    forall i: nat | StickAt(s, i) ensures i > 0 && StickAt(s[1..], i - 1) {}
    forall i: nat | StickAt(s[1..], i) ensures StickAt(s, i + 1) {}
    if Occurs(s) { var i: nat :| StickAt(s, i); assert StickAt(s[1..], i - 1); }
  }

  lemma StripsToName(n: string)
    ensures HasStick(Id(n)) && Strip(Id(n).s) == Strip(n)
    ensures !Occurs(n) ==> Strip(Id(n).s) == n
  {
    assert (STICK + n)[3..] == n && (STICK + n)[..3] == STICK;
    StripExactly(n);
  }

  lemma StickIsId(id: Text)
    requires HasStick(id)
    ensures id == Id(id.s[3..])
  {
    assert id.s == STICK + id.s[3..];
  }

  ghost predicate CleanNames(w: World) {
    && (forall t, n :: Holds(w.ipam.pool, Id(n), t) ==> !Occurs(n))
    && (forall n :: Id(n) in w.ipam.cache ==> !Occurs(n))
  }

  lemma StubKeys(c: Config, elem: map<string, LVS>, names: set<string>, n: string)
    ensures KeyOf(c, n) in WithStubs(c, elem, names) <==> KeyOf(c, n) in elem || n in names
  {
    forall m | c.dir + m == c.dir + n ensures m == n {
      assert (c.dir + m)[|c.dir|..] == m && (c.dir + n)[|c.dir|..] == n;
    }
  }

  /** Recover adds an entry for a clean name exactly when its id is cached. */
  lemma RecoverAdds(c: Config, w: World, n: string)
    requires CleanNames(w) && !Occurs(n)
    ensures KeyOf(c, n) in RecoverStep(c, w).elem <==> Id(n) in w.ipam.cache || KeyOf(c, n) in w.elem
  {
    hide Strip, WithStubs, Occurs;
    var names := set id | id in w.ipam.cache && HasStick(id) :: Strip(id.s);
    StubKeys(c, w.elem, names, n);
    StripsToName(n);
    if n in names {
      var id :| id in w.ipam.cache && HasStick(id) && Strip(id.s) == n;
      StickIsId(id);
      StripsToName(id.s[3..]);
    }
  }

  /** Recover leaves every held id covered exactly when each was cached or already known: a cache that
      missed an address the last leader granted leaves it out. */
  lemma RecoverCoversExactly(c: Config, w: World)
    requires CleanNames(w)
    ensures Covered(c, RecoverStep(c, w)) <==>
            forall t, n :: Holds(w.ipam.pool, Id(n), t) ==> Id(n) in w.ipam.cache || KeyOf(c, n) in w.elem
  {
    forall n | !Occurs(n)
      ensures KeyOf(c, n) in RecoverStep(c, w).elem <==> Id(n) in w.ipam.cache || KeyOf(c, n) in w.elem
    {
      RecoverAdds(c, w, n);
    }
    hide Strip, WithStubs, Occurs;
    assert RecoverStep(c, w).ipam == w.ipam;
  }

  /** From Init on, the cache covers the store, so Recover covers every held id. */
  lemma InitThenRecoverCovers(c: Config, w: World)
    requires CleanNames(w) && CacheCovers(w.ipam)
    ensures Covered(c, RecoverStep(c, w))
  {
    RecoverCoversExactly(c, w);
  }

  lemma RecoverKeepsHealth(c: Config, w: World)
    requires Healthy(c, w)
    ensures Healthy(c, RecoverStep(c, w))
  {
    hide Strip;
    var e := RecoverStep(c, w).elem;
    forall k | k in e ensures k == KeyOf(c, e[k].name) {}
  }

  /** The delete pass can give back every address that a name outside the snapshot holds. */
  ghost predicate FreesGone(c: Config, p: Pool, li: seq<Item>, env: Env) {
    forall t, n :: Holds(p, Id(n), t) && KeyOf(c, n) !in KeysOf(li) ==> n !in env.release
  }

  /** Every address whose record is not in the snapshot is free. */
  ghost predicate GoneAreFree(c: Config, p: Pool, li: seq<Item>) {
    forall n :: KeyOf(c, n) !in KeysOf(li) ==> HoldsNone(p, Id(n))
  }

  lemma MiddleCovered(c: Config, leader: bool, w: World, li: seq<Item>, env: Env)
    requires Healthy(c, w) && Covered(c, w) && GoodSnapshot(c, li) && KeepsReleases(env)
    ensures Covered(c, Middle(c, leader, w, li, env))
  {
    hide Absorb, ConfigAll, Accepted, Middle, Unique, KeepsReleases, GoodSnapshot;
    MiddleFrame(c, leader, w, li, env);
    var w0, w1 := w.(elem := w.elem + Accepted(c, li)), Middle(c, leader, w, li, env);
    AcceptedIsNamed(c, w.elem, li) by { assert GoodSnapshot(c, li); GoodIsBoth(c, li); }
    IdsDiffer();
    forall t, n | Holds(w1.ipam.pool, Id(n), t) ensures KeyOf(c, n) in w1.elem {
      if !(t in w.ipam.pool.held && w.ipam.pool.held[t] == w1.ipam.pool.held[t]) {
        var k :| k in w0.elem && w1.ipam.pool.held[t] == Id(w0.elem[k].name);
        assert k == KeyOf(c, n);
      } else {
        assert Holds(w.ipam.pool, Id(n), t);
      }
    }
  }

  lemma GoodIsBoth(c: Config, li: seq<Item>)
    requires GoodSnapshot(c, li)
    ensures DistinctKeys(li) && Siblings(c, li)
  {
  }

  /** After a leader's event every held id has an entry, and every address whose record left is free,
      exactly when no release fails for a held id whose record is not in the snapshot. */
  lemma EventLeaksExactly(c: Config, w: World, li: seq<Item>, env: Env)
    requires Healthy(c, w) && Covered(c, w) && GoodSnapshot(c, li) && KeepsReleases(env)
    ensures var w' := EventStep(c, true, w, li, env).0;
            && Healthy(c, w')
            && (Covered(c, w') <==> FreesGone(c, w.ipam.pool, li, env))
            && (GoneAreFree(c, w'.ipam.pool, li) <==> FreesGone(c, w.ipam.pool, li, env))
  {
    hide Absorb, ConfigAll, Accepted, EventStep, Middle, Unique, GoodSnapshot, FreesGone, GoneAreFree;
    MiddleCovered(c, true, w, li, env);
    MiddleFrame(c, true, w, li, env);
    EventRefinesMap(c, true, w, li, env);
    EventIsMiddleThenDelete(c, true, w, li, env);
    AddPassKeepsGone(c, true, w, li, env);
    DeleteLeaksExactly(c, Middle(c, true, w, li, env), li, env);
  }

  /** The add pass touches no address of a name outside the snapshot. */
  lemma AddPassKeepsGone(c: Config, leader: bool, w: World, li: seq<Item>, env: Env)
    requires Healthy(c, w) && GoodSnapshot(c, li) && KeepsReleases(env)
    ensures FreesGone(c, Middle(c, leader, w, li, env).ipam.pool, li, env) <==> FreesGone(c, w.ipam.pool, li, env)
  {
    hide Absorb, ConfigAll, Accepted, Middle, Named, Unique;
    MiddleFrame(c, leader, w, li, env);
    CollectedAreAccepted(c, w.elem, li);
    AcceptedMeaning(c, li);
  }

  lemma DeleteLeaksExactly(c: Config, w: World, li: seq<Item>, env: Env)
    requires Named(c, w.elem) && Covered(c, w)
    ensures var w' := DeleteStep(true, w, li, env).0;
            && (Covered(c, w') <==> FreesGone(c, w.ipam.pool, li, env))
            && (GoneAreFree(c, w'.ipam.pool, li) <==> FreesGone(c, w.ipam.pool, li, env))
  {
    var w' := DeleteStep(true, w, li, env).0;
    forall t, n | KeyOf(c, n) !in KeysOf(li)
      ensures Holds(w'.ipam.pool, Id(n), t) <==> Holds(w.ipam.pool, Id(n), t) && n in env.release
    {
      GoneIsFreed(c, w, li, env, n, t);
    }
    hide DeleteStep;
    assert w'.elem == map k | k in w.elem && k in KeysOf(li) :: w.elem[k] by { ElemAfterDelete(true, w, li, env); }
    forall t, n | Holds(w'.ipam.pool, Id(n), t) ensures Holds(w.ipam.pool, Id(n), t) { ElemAfterDelete(true, w, li, env); }
    if t, n :| Holds(w.ipam.pool, Id(n), t) && KeyOf(c, n) !in KeysOf(li) && n in env.release {
      assert Holds(w'.ipam.pool, Id(n), t) && !HoldsNone(w'.ipam.pool, Id(n));
    } else {
      forall n | KeyOf(c, n) !in KeysOf(li) ensures HoldsNone(w'.ipam.pool, Id(n)) {
        forall t | t in w'.ipam.pool.held ensures w'.ipam.pool.held[t] != Id(n) {
          assert !Holds(w'.ipam.pool, Id(n), t);
        }
      }
    }
  }

  lemma ElemAfterDelete(leader: bool, w: World, li: seq<Item>, env: Env)
    ensures var w' := DeleteStep(leader, w, li, env).0;
            && w'.elem == (map k | k in w.elem && k in KeysOf(li) :: w.elem[k])
            && forall t, n :: Holds(w'.ipam.pool, Id(n), t) ==> Holds(w.ipam.pool, Id(n), t)
  {
  }

  /** A name outside the snapshot loses its address exactly when its release works. */
  lemma GoneIsFreed(c: Config, w: World, li: seq<Item>, env: Env, n: string, t: Text)
    requires Named(c, w.elem) && Covered(c, w) && KeyOf(c, n) !in KeysOf(li)
    ensures Holds(DeleteStep(true, w, li, env).0.ipam.pool, Id(n), t) <==>
            Holds(w.ipam.pool, Id(n), t) && n in env.release
  {
    IdsDiffer();
    if Holds(w.ipam.pool, Id(n), t) {
      KeyNames(c, w.elem, n);
      assert n in Gone(w.elem, li);
      assert n in Released(true, Gone(w.elem, li), env) <==> n !in env.release;
    }
  }

  lemma KeyNames(c: Config, elem: map<string, LVS>, n: string)
    requires Named(c, elem) && KeyOf(c, n) in elem
    ensures elem[KeyOf(c, n)].name == n
  {
    var m := elem[KeyOf(c, n)].name;
    assert (c.dir + m)[|c.dir|..] == m && (c.dir + n)[|c.dir|..] == n;
  }

  /** Every held id has an entry at the start and after each event. */
  ghost predicate CoveredThroughout(c: Config, w: World, events: seq<Event>)
    requires c.ring.Valid()
  {
    && Covered(c, RunEvents(c, true, w, events))
    && (events != [] ==> CoveredThroughout(c, w, events[..|events| - 1]))
  }

  /** No event meets a failing release of a held id whose record is not in its snapshot. */
  ghost predicate RunFrees(c: Config, w: World, events: seq<Event>)
    requires c.ring.Valid()
  {
    events != [] ==>
      var n := |events| - 1;
      && RunFrees(c, w, events[..n])
      && FreesGone(c, RunEvents(c, true, w, events[..n]).ipam.pool, events[n].li, events[n].env)
  }

  lemma {:induction false} RunLeaksExactly(c: Config, w: World, events: seq<Event>)
    requires Healthy(c, w) && Covered(c, w)
    requires forall e :: e in events ==> GoodSnapshot(c, e.li) && KeepsReleases(e.env)
    ensures Healthy(c, RunEvents(c, true, w, events))
    ensures CoveredThroughout(c, w, events) <==> RunFrees(c, w, events)
    ensures RunFrees(c, w, events) && events != [] ==>
              GoneAreFree(c, RunEvents(c, true, w, events).ipam.pool, events[|events| - 1].li)
  {
    if events != [] {
      hide EventStep, Covered, Named, Unique, FreesGone, GoneAreFree, GoodSnapshot, KeepsReleases;
      var n := |events| - 1;
      RunLeaksExactly(c, w, events[..n]);
      assert events[n] in events;
      EventRefinesMap(c, true, RunEvents(c, true, w, events[..n]), events[n].li, events[n].env);
      if RunFrees(c, w, events[..n]) {
        LastOfThroughout(c, w, events[..n]);
        EventLeaksExactly(c, RunEvents(c, true, w, events[..n]), events[n].li, events[n].env);
      }
    }
  }

  lemma LastOfThroughout(c: Config, w: World, events: seq<Event>)
    requires c.ring.Valid()
    ensures CoveredThroughout(c, w, events) ==> Covered(c, RunEvents(c, true, w, events))
  {
  }

  lemma {:induction false} StartOfThroughout(c: Config, w: World, events: seq<Event>)
    requires c.ring.Valid() && CoveredThroughout(c, w, events)
    ensures Covered(c, w)
  {
    hide Covered;
    if events != [] { StartOfThroughout(c, w, events[..|events| - 1]); }
  }

  /** No leak over any run of a new leader. After Recover and after each of its events every held id has
      an entry exactly when each id held at the takeover was cached or known, and no event meets a failing
      release of a held id whose record left. Then each such address is free again after the event. */
  lemma NoLeakAfterTakeover(c: Config, w: World, events: seq<Event>)
    requires Healthy(c, w) && CleanNames(w)
    requires forall e :: e in events ==> GoodSnapshot(c, e.li) && KeepsReleases(e.env)
    ensures var known := forall t, n :: Holds(w.ipam.pool, Id(n), t) ==> Id(n) in w.ipam.cache || KeyOf(c, n) in w.elem;
            && (CoveredThroughout(c, RecoverStep(c, w), events) <==> known && RunFrees(c, RecoverStep(c, w), events))
            && (known && RunFrees(c, RecoverStep(c, w), events) && events != [] ==>
                 GoneAreFree(c, RunEvents(c, true, RecoverStep(c, w), events).ipam.pool, events[|events| - 1].li))
  {
    hide RecoverStep, Named, Unique, FreesGone, GoneAreFree, GoodSnapshot, KeepsReleases;
    RecoverCoversExactly(c, w);
    RecoverKeepsHealth(c, w);
    if Covered(c, RecoverStep(c, w)) {
      RunLeaksExactly(c, RecoverStep(c, w), events);
    } else if CoveredThroughout(c, RecoverStep(c, w), events) {
      StartOfThroughout(c, RecoverStep(c, w), events);
    }
  }

  /** A release that fails in the delete pass leaks: the address stays held and no entry is left to retry from. */
  lemma FailedReleaseLeaks(c: Config, w: World, li: seq<Item>, env: Env, n: string, t: Text)
    requires Named(c, w.elem) && Holds(w.ipam.pool, Id(n), t)
    requires KeyOf(c, n) in w.elem && KeyOf(c, n) !in KeysOf(li) && n in env.release
    ensures var w' := DeleteStep(true, w, li, env).0;
            Holds(w'.ipam.pool, Id(n), t) && KeyOf(c, n) !in w'.elem && !Covered(c, w')
  {
    IdsDiffer();
    var w' := DeleteStep(true, w, li, env).0;
    assert Holds(w'.ipam.pool, Id(n), t);
  }

  /** After Recover, the first event configures a cached record again exactly when the record does not
      parse to its own stub: a bare record whose address was never written back stays without one. */
  lemma TakeoverReconfiguresExactly(c: Config, w: World, li: seq<Item>, it: Item)
    requires GoodSnapshot(c, li) && it in li && Accept(c, it).Some?
    requires Id(Accept(c, it).value.name) in w.ipam.cache && !Occurs(Accept(c, it).value.name)
    ensures it.key in Absorb(c, RecoverStep(c, w).elem, li).1 <==>
            Accept(c, it).value != Stub(c, Accept(c, it).value.name)
  {
    hide Absorb, Accepted, Strip, Occurs, LastSegment, WithStubs;
    var l := Accept(c, it).value;
    var e := RecoverStep(c, w).elem;
    var names := set id | id in w.ipam.cache && HasStick(id) :: Strip(id.s);
    StripsToName(l.name);
    assert l.name in names;
    assert it.key == KeyOf(c, l.name) by { assert it.key == KeyOf(c, LastSegment(it.key)); }
    StubAt(c, w.elem, names, l.name);
    AbsorbCollects(c, e, li);
    AcceptedMeaning(c, li);
  }

  /** A record that holds nothing but its name and cluster parses to its own stub, so the first event
      after the takeover passes it over and no address is ever asked for. */
  lemma BareRecordIsPassedOver(c: Config, w: World, name: string)
    requires c.dir != "" && c.dir[|c.dir| - 1] == '/' && CheckName(c.cluster)
    requires CheckName(name) && '/' !in name && !Occurs(name) && Id(name) in w.ipam.cache
    ensures var li := [Item(KeyOf(c, name), Tree(Marshal(Stub(c, name))))];
            && GoodSnapshot(c, li) && Accept(c, li[0]) == Some(Stub(c, name))
            && Absorb(c, RecoverStep(c, w).elem, li).1 == []
  {
    var li := [Item(KeyOf(c, name), Tree(Marshal(Stub(c, name))))];
    LastSegmentOf(c.dir, name);
    StubReadsBack(c, name);
    hide Marshal, Absorb, RecoverStep, Occurs, Parse, Stub;
    StubIsNamed(c, name);
    TakeoverReconfiguresExactly(c, w, li, li[0]);
    AbsorbsOnlyItems(c, RecoverStep(c, w).elem, li);
  }

  lemma StubReadsBack(c: Config, name: string)
    requires c.dir != "" && c.dir[|c.dir| - 1] == '/' && CheckName(c.cluster) && CheckName(name) && '/' !in name
    ensures Accept(c, Item(KeyOf(c, name), Tree(Marshal(Stub(c, name))))) == Some(Stub(c, name))
  {
    LastSegmentOf(c.dir, name);
    StubIsValid(c, name);
    PrintParseNormalizes(c.groups, Stub(c, name));
    assert Norm(Stub(c, name)) == Stub(c, name);
    StubIsNamed(c, name);
    hide Marshal, Parse, Stub;
  }

  lemma StubIsNamed(c: Config, name: string)
    ensures Stub(c, name).name == name && Stub(c, name).clusterName == c.cluster
  {
  }

  lemma {:induction false} AbsorbsOnlyItems(c: Config, elem: map<string, LVS>, li: seq<Item>)
    ensures forall k :: k in Absorb(c, elem, li).1 ==> k in KeysOf(li)
  {
    hide Accept;
    if li != [] {
      AbsorbsOnlyItems(c, elem, li[..|li| - 1]);
      assert li[|li| - 1] in li;
    }
  }

  lemma StubIsValid(c: Config, name: string)
    requires CheckName(name) && CheckName(c.cluster)
    ensures Valid(c.groups, Stub(c, name))
  {
  }

  lemma {:induction false} LastSegmentOf(dir: string, name: string)
    requires dir != "" && dir[|dir| - 1] == '/' && '/' !in name
    ensures LastSegment(dir + name) == name
  {
    assert (dir + name)[1..] == dir[1..] + name;
    assert '/' in dir + name by { assert (dir + name)[|dir| - 1] == '/'; }
    if |dir| > 1 { LastSegmentOf(dir[1..], name); } else { assert dir[1..] + name == name; }
  }

  lemma StubAt(c: Config, elem: map<string, LVS>, names: set<string>, n: string)
    requires n in names
    ensures KeyOf(c, n) in WithStubs(c, elem, names) && WithStubs(c, elem, names)[KeyOf(c, n)] == Stub(c, n)
  {
    assert (c.dir + n)[|c.dir|..] == n;
  }

  // A standby that takes over

  /** One event of a standby, on the address store as the leader of that time has left it. */
  datatype Tick = Tick(pool: Pool, li: seq<Item>, env: Env)

  function WithPool(w: World, p: Pool): World { w.(ipam := w.ipam.(pool := p)) }

  ghost function Standby(c: Config, w: World, ticks: seq<Tick>): World
    requires c.ring.Valid()
  {
    if ticks == [] then w
    else
      var t := ticks[|ticks| - 1];
      EventStep(c, false, WithPool(Standby(c, w, ticks[..|ticks| - 1]), t.pool), t.li, t.env).0
  }

  /** A follower's event reads and writes no address and no cache entry. */
  lemma FollowerKeepsStore(c: Config, w: World, li: seq<Item>, env: Env)
    requires Healthy(c, w) && GoodSnapshot(c, li) && KeepsReleases(env)
    ensures EventStep(c, false, w, li, env).0.ipam == w.ipam
  {
    hide Absorb, ConfigAll, Accepted, EventStep, Middle, Named, Unique, Frame, ReleaseAll;
    MiddleFrame(c, false, w, li, env);
    EventIsMiddleThenDelete(c, false, w, li, env);
    ReleaseNone(w.ipam);
  }

  /** Snapshot i, or what the standby started from when i is 0, brought key k, and no later one dropped it. */
  ghost predicate KeptSince(c: Config, w: World, ticks: seq<Tick>, k: string, i: nat)
    requires i <= |ticks|
  {
    && (if i == 0 then k in w.elem else k in Accepted(c, ticks[i - 1].li))
    && forall j :: i <= j < |ticks| ==> k in KeysOf(ticks[j].li)
  }

  ghost predicate Kept(c: Config, w: World, ticks: seq<Tick>, k: string) {
    exists i: nat :: i <= |ticks| && KeptSince(c, w, ticks, k, i)
  }

  lemma KeptStep(c: Config, w: World, ticks: seq<Tick>, k: string)
    requires ticks != [] && DistinctKeys(ticks[|ticks| - 1].li)
    ensures var t := ticks[|ticks| - 1];
            Kept(c, w, ticks, k) <==>
            k in KeysOf(t.li) && (k in Accepted(c, t.li) || Kept(c, w, ticks[..|ticks| - 1], k))
  {
    hide Accepted, DistinctKeys;
    var n := |ticks| - 1;
    var t := ticks[n];
    AcceptedMeaning(c, t.li);
    if i: nat :| i <= |ticks| && KeptSince(c, w, ticks, k, i) {
      if i <= n { assert KeptSince(c, w, ticks[..n], k, i); }
    }
    if k in Accepted(c, t.li) { assert KeptSince(c, w, ticks, k, n + 1); }
    if i: nat :| i <= n && KeptSince(c, w, ticks[..n], k, i) && k in KeysOf(t.li) {
      assert KeptSince(c, w, ticks, k, i);
    }
  }

  /** What a standby knows after any snapshots: the keys some snapshot brought and none dropped since. Its
      cache is still the one it was started with. */
  lemma {:induction false} StandbyKnows(c: Config, w: World, ticks: seq<Tick>)
    requires Healthy(c, w)
    requires forall t :: t in ticks ==> GoodSnapshot(c, t.li) && KeepsReleases(t.env) && Unique(t.pool)
    ensures Healthy(c, Standby(c, w, ticks))
    ensures Standby(c, w, ticks).ipam.cache == w.ipam.cache
    ensures forall k :: k in Standby(c, w, ticks).elem <==> Kept(c, w, ticks, k)
  {
    hide EventStep, Accepted, Kept, Named, Unique, KeepsReleases, DistinctKeys;
    if ticks == [] {
      forall k ensures k in w.elem <==> Kept(c, w, ticks, k) { NothingYet(c, w, ticks, k); }
    } else {
      var n := |ticks| - 1;
      var t := ticks[n];
      StandbyKnows(c, w, ticks[..n]);
      assert t in ticks;
      var w1 := WithPool(Standby(c, w, ticks[..n]), t.pool);
      FollowerKeepsStore(c, w1, t.li, t.env);
      EventRefinesMap(c, false, w1, t.li, t.env);
      forall k ensures k in Standby(c, w, ticks).elem <==> Kept(c, w, ticks, k) { KeptStep(c, w, ticks, k); }
    }
  }

  lemma NothingYet(c: Config, w: World, ticks: seq<Tick>, k: string)
    requires ticks == []
    ensures Kept(c, w, ticks, k) <==> k in w.elem
  {
    assert KeptSince(c, w, ticks, k, 0) <==> k in w.elem;
  }

  /** A record that comes and goes while its address stays held, as after a release that failed, is missed by
      the standby that takes over then. */
  lemma StandbyMisses(c: Config, w: World, it: Item, p0: Pool, p1: Pool, n: string, t: Text)
    requires Healthy(c, w) && w.ipam == Recovered(p0) && p0.cursor != Some(Id(n)) && Unique(p1)
    requires GoodSnapshot(c, [it]) && it.key == KeyOf(c, n) && HoldsNone(p0, Id(n)) && Holds(p1, Id(n), t)
    requires CleanNames(WithPool(w, p1))
    ensures var ticks := [Tick(p1, [it], NO_FAULTS), Tick(p1, [], NO_FAULTS)];
            KeyOf(c, n) !in RecoverStep(c, WithPool(Standby(c, w, ticks), p1)).elem
  {
    hide RecoverStep, Standby, Occurs, Named, Unique;
    var ticks := [Tick(p1, [it], NO_FAULTS), Tick(p1, [], NO_FAULTS)];
    assert GoodSnapshot(c, []);
    StandbyKnows(c, w, ticks);
    assert WithPool(Standby(c, w, ticks), p1).ipam == WithPool(w, p1).ipam;
    StandbyTakesOver(c, w, ticks, p0, p1, n, t);
    forall i: nat | i <= 2 ensures !KeptSince(c, w, ticks, KeyOf(c, n), i) {
      assert KeyOf(c, n) !in KeysOf(ticks[1].li) && KeyOf(c, n) !in Accepted(c, ticks[1].li);
    }
  }

  /** A standby started on the store p0 that takes over on the store p1: the held ids that Recover leaves
      without an entry are exactly those that got their address after the start and whose key the
      snapshots did not keep, because the cache of a standby is never refreshed. */
  lemma StandbyTakesOver(c: Config, w: World, ticks: seq<Tick>, p0: Pool, p1: Pool, n: string, t: Text)
    requires Healthy(c, w) && w.ipam == Recovered(p0) && p0.cursor != Some(Id(n))
    requires forall t :: t in ticks ==> GoodSnapshot(c, t.li) && KeepsReleases(t.env) && Unique(t.pool)
    requires CleanNames(WithPool(Standby(c, w, ticks), p1)) && Holds(p1, Id(n), t)
    ensures KeyOf(c, n) !in RecoverStep(c, WithPool(Standby(c, w, ticks), p1)).elem <==>
            HoldsNone(p0, Id(n)) && !Kept(c, w, ticks, KeyOf(c, n))
  {
    hide RecoverStep, Standby, Kept, Occurs, Named, Unique;
    var w1 := WithPool(Standby(c, w, ticks), p1);
    StandbyKnows(c, w, ticks);
    assert Holds(w1.ipam.pool, Id(n), t);
    RecoverAdds(c, w1, n);
    assert Id(n) in w.ipam.cache <==> Id(n) in p0.held.Values;
    if Id(n) in p0.held.Values {
      var u :| u in p0.held && p0.held[u] == Id(n);
    }
    if !HoldsNone(p0, Id(n)) {
      var u :| u in p0.held && p0.held[u] == Id(n);
      assert p0.held[u] in p0.held.Values;
    }
  }
}
