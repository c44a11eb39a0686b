/** What one event may change, and its reading as a map from snapshots to records. */
module Steps {
  import opened NetIP
  import opened Ipam
  import opened IpamRuns
  import opened Records
  import opened Reconciler

  // The snapshot as a map

  ghost predicate DistinctKeys(li: seq<Item>) {
    forall i, j :: 0 <= i < j < |li| ==> li[i].key != li[j].key
  }

  /** All keys are children of the watched directory. */
  ghost predicate Siblings(c: Config, li: seq<Item>) {
    forall it :: it in li ==> it.key == KeyOf(c, LastSegment(it.key))
  }

  /** The records of a snapshot that are accepted, by key. */
  ghost function Accepted(c: Config, li: seq<Item>): map<string, LVS> {
    if li == [] then map[]
    else
      var it := li[|li| - 1];
      var m := Accepted(c, li[..|li| - 1]);
      if Accept(c, it).Some? then m[it.key := Accept(c, it).value] else m
  }

  lemma NoKeys()
    ensures KeysOf([]) == {}
  {
  }

  lemma LastIsNew(li: seq<Item>)
    requires li != [] && DistinctKeys(li)
    ensures var n := |li| - 1;
            && DistinctKeys(li[..n]) && li == li[..n] + [li[n]] && KeysOf(li) == KeysOf(li[..n]) + {li[n].key}
            && (forall it :: it in li <==> it in li[..n] || it == li[n])
            && (forall it :: it in li[..n] ==> it.key != li[n].key) && li[n].key !in KeysOf(li[..n])
  {
    var n := |li| - 1;
    assert li == li[..n] + [li[n]];
    forall it | it in li[..n] ensures it.key != li[n].key {
      var i :| 0 <= i < n && li[..n][i] == it;
    }
  }

  lemma {:induction false} AcceptedMeaning(c: Config, li: seq<Item>)
    requires DistinctKeys(li)
    ensures Accepted(c, li).Keys <= KeysOf(li)
    ensures forall it :: it in li ==>
      (it.key in Accepted(c, li) <==> Accept(c, it).Some?) &&
      (Accept(c, it).Some? ==> Accepted(c, li)[it.key] == Accept(c, it).value)
  {
    hide Accept, DistinctKeys, KeysOf;
    if li == [] {
      assert KeysOf(li) == {} by { NoKeys(); }
    } else {
      var n := |li| - 1;
      LastIsNew(li);
      AcceptedMeaning(c, li[..n]);
    }
  }

  /** The first loop adds the accepted records to Elem; nothing else decides the new Elem. */
  lemma {:induction false} AbsorbIsUnion(c: Config, elem: map<string, LVS>, li: seq<Item>)
    ensures Absorb(c, elem, li).0 == elem + Accepted(c, li)
  {
    hide Accept;
    if li != [] { AbsorbIsUnion(c, elem, li[..|li| - 1]); }
  }

  /** The collected keys are those whose accepted record is new or differs, each once. */
  lemma {:induction false} AbsorbCollects(c: Config, elem: map<string, LVS>, li: seq<Item>)
    requires DistinctKeys(li)
    ensures var keys := Absorb(c, elem, li).1;
            && (forall i, j :: 0 <= i < j < |keys| ==> keys[i] != keys[j])
            && (forall k :: k in keys <==>
                 k in Accepted(c, li) && !(k in elem && elem[k] == Accepted(c, li)[k]))
  {
    if li != [] {
      var n := |li| - 1;
      AbsorbCollects(c, elem, li[..n]);
      AbsorbIsUnion(c, elem, li[..n]);
      AcceptedMeaning(c, li[..n]);
      assert li[n].key !in KeysOf(li[..n]);
      hide Accept;
    }
  }

  lemma MoreItemsAcceptMore(c: Config, li: seq<Item>, li': seq<Item>)
    requires DistinctKeys(li) && DistinctKeys(li') && forall it :: it in li ==> it in li'
    ensures forall k :: k in Accepted(c, li) ==> k in Accepted(c, li') && Accepted(c, li)[k] == Accepted(c, li')[k]
    ensures KeysOf(li) <= KeysOf(li')
  {
    hide Accept, Accepted;
    AcceptedMeaning(c, li);
    AcceptedMeaning(c, li');
    forall k | k in Accepted(c, li) ensures k in Accepted(c, li') && Accepted(c, li)[k] == Accepted(c, li')[k] {
      var it :| it in li && it.key == k;
    }
  }

  /** Snapshots with the same pairs in another order absorb alike. */
  lemma AcceptedIsUnordered(c: Config, li: seq<Item>, li': seq<Item>)
    requires DistinctKeys(li) && DistinctKeys(li') && multiset(li) == multiset(li')
    ensures Accepted(c, li) == Accepted(c, li') && KeysOf(li) == KeysOf(li')
  {
    hide Accept, Accepted, DistinctKeys;
    assert forall it :: it in li <==> it in multiset(li);
    assert forall it :: it in li' <==> it in multiset(li');
    MoreItemsAcceptMore(c, li, li');
    MoreItemsAcceptMore(c, li', li);
  }

  // Frames

  /** Entries are keyed by the directory and their own name. */
  ghost predicate Named(c: Config, elem: map<string, LVS>) {
    forall k :: k in elem ==> k == KeyOf(c, elem[k].name)
  }

  /** a is b up to the virtual address and port that the leader fills in. */
  ghost predicate SameRequest(a: LVS, b: LVS) { a == b.(vip := a.vip, port := a.port) }

  /** From w to w' only what belongs to these keys may have changed. */
  ghost predicate Frame(c: Config, w: World, w': World, keys: set<string>) {
    && w'.elem.Keys == w.elem.Keys
    && (forall k :: k in w.elem ==> SameRequest(w'.elem[k], w.elem[k]) && (k !in keys ==> w'.elem[k] == w.elem[k]))
    && (forall n :: KeyOf(c, n) !in keys ==>
          (n in w'.disk <==> n in w.disk) && (n in w.disk ==> w'.disk[n] == w.disk[n]))
    && (forall t, n :: KeyOf(c, n) !in keys ==> (Holds(w.ipam.pool, Id(n), t) <==> Holds(w'.ipam.pool, Id(n), t)))
    && (forall t :: t in w'.ipam.pool.held ==>
          (t in w.ipam.pool.held && w.ipam.pool.held[t] == w'.ipam.pool.held[t])
          || exists k :: k in keys && k in w.elem && w'.ipam.pool.held[t] == Id(w.elem[k].name))
    && (forall k :: k !in keys ==> (k in w'.records <==> k in w.records) && (k in w.records ==> w'.records[k] == w.records[k]))
    && w.records.Keys <= w'.records.Keys
  }

  lemma FrameSelf(c: Config, w: World)
    ensures Frame(c, w, w, {})
  {
  }

  lemma FrameThen(c: Config, w: World, w1: World, w2: World, keys: set<string>, key: string)
    requires Frame(c, w, w1, keys) && Frame(c, w1, w2, {key})
    ensures Frame(c, w, w2, keys + {key})
  {
    forall t | t in w2.ipam.pool.held
      ensures (t in w.ipam.pool.held && w.ipam.pool.held[t] == w2.ipam.pool.held[t])
        || exists k :: k in keys + {key} && k in w.elem && w2.ipam.pool.held[t] == Id(w.elem[k].name)
    {
      if !(t in w1.ipam.pool.held && w1.ipam.pool.held[t] == w2.ipam.pool.held[t]) {
        assert key in keys + {key} && w2.ipam.pool.held[t] == Id(w.elem[key].name);
      } else if !(t in w.ipam.pool.held && w.ipam.pool.held[t] == w1.ipam.pool.held[t]) {
        var k :| k in keys && k in w.elem && w1.ipam.pool.held[t] == Id(w.elem[k].name);
        assert k in keys + {key};
      }
    }
  }

  lemma RequireFrame(c: Config, w: World, l: LVS, env: Env)
    requires c.ring.Valid() && Unique(w.ipam.pool) && KeepsReleases(env)
    ensures var h := HolderOf(w.ipam.pool, Id(l.name));
            var (s, r) := RequireStep(c.ring, w.ipam, Id(l.name), l.vip, h, h, RequireEnvOf(env, l.name));
            && OthersKept(w.ipam.pool, s.pool, Id(l.name)) && Unique(s.pool)
            && (r.Ok? ==> Holds(s.pool, Id(l.name), r.value) && HolderOf(s.pool, Id(l.name)) == Some(r.value))
  {
    hide RequireStep;
    var h := HolderOf(w.ipam.pool, Id(l.name));
    var e := RequireEnvOf(env, l.name);
    var op := Require(Id(l.name), l.vip, h, h, e);
    HolderIsFound(w.ipam.pool, Id(l.name));
    StepTouchesOwnEntries(c.ring, w.ipam, op);
    RequireKeepsUnique(c.ring, w.ipam, Id(l.name), l.vip, h, e);
    GrantIsHeld(c.ring, w.ipam, op);
  }

  lemma FrameFrom(c: Config, w: World, w': World, key: string)
    requires key in w.elem && key == KeyOf(c, w.elem[key].name)
    requires key in w'.elem && SameRequest(w'.elem[key], w.elem[key]) && w'.elem == w.elem[key := w'.elem[key]]
    requires OthersKept(w.ipam.pool, w'.ipam.pool, Id(w.elem[key].name))
    requires w'.disk == w.disk
    requires w'.records == w.records || (key in w'.records && w'.records == w.records[key := w'.records[key]])
    ensures Frame(c, w, w', {key})
  {
    IdsDiffer();
    forall t, n | KeyOf(c, n) != key ensures Holds(w.ipam.pool, Id(n), t) <==> Holds(w'.ipam.pool, Id(n), t) {
      assert Id(n) != Id(w.elem[key].name);
    }
  }

  lemma AllocFrame(c: Config, w: World, key: string, env: Env)
    requires c.ring.Valid() && key in w.elem && key == KeyOf(c, w.elem[key].name)
    requires Unique(w.ipam.pool) && KeepsReleases(env)
    ensures var w' := AllocVIPStep(c, w, key, env).0;
            && Frame(c, w, w', {key}) && Unique(w'.ipam.pool) && w'.disk == w.disk
            && (w'.writes == w.writes || w'.writes == w.writes + [key])
  {
    hide RequireStep, Marshal, Unique, OthersKept, Frame, Holds;
    RequireFrame(c, w, w.elem[key], env);
    var w' := AllocVIPStep(c, w, key, env).0;
    assert w'.elem == w.elem[key := w'.elem[key]];
    FrameFrom(c, w, w', key);
  }

  lemma RenderFrame(c: Config, w: World, key: string, content: File, env: Env)
    requires key in w.elem && key == KeyOf(c, w.elem[key].name)
    ensures Frame(c, w, w.(disk := RenderStep(w.disk, w.elem[key].name, content, env).0), {key})
  {
  }

  lemma ConfigFrame(c: Config, leader: bool, w: World, key: string, env: Env)
    requires c.ring.Valid() && key in w.elem && key == KeyOf(c, w.elem[key].name)
    requires Unique(w.ipam.pool) && KeepsReleases(env)
    ensures var w' := ConfigStep(c, leader, w, key, env).0;
            && Frame(c, w, w', {key}) && Unique(w'.ipam.pool)
            && (w'.writes == w.writes || w'.writes == w.writes + [key])
            && (!leader ==> w' == w.(disk := w'.disk))
  {
    hide AllocVIPStep, RenderStep, Rendered, Frame, Unique;
    AllocFrame(c, w, key, env);
    FrameSelf(c, w);
    FrameThenNothing(c, w, key);
    var w1 := if leader then AllocVIPStep(c, w, key, env).0 else w;
    assert Frame(c, w, w1, {key});
    FrameName(c, w, w1, key);
    RenderFrame(c, w1, key, Rendered(c, w1.elem[key]), env);
    FrameThen(c, w, w1, ConfigStep(c, leader, w, key, env).0, {key}, key) by {
      FrameThenNothing(c, w1, key);
    }
    assert {key} + {key} == {key};
  }

  lemma FrameName(c: Config, w: World, w': World, key: string)
    requires Frame(c, w, w', {key}) && key in w.elem
    ensures key in w'.elem && w'.elem[key].name == w.elem[key].name
  {
  }

  lemma FrameThenNothing(c: Config, w: World, key: string)
    ensures Frame(c, w, w, {key})
  {
  }

  lemma IdsDiffer()
    ensures forall m, n :: Id(m) == Id(n) ==> m == n
    ensures forall n :: Id(n) == Word("l4-" + n)
  {
    forall m: string, n: string | Id(m) == Id(n) ensures m == n {
      assert (STICK + m)[3..] == m && (STICK + n)[3..] == n;
    }
  }

  ghost predicate NoRepeats(keys: seq<string>) {
    forall i, j :: 0 <= i < j < |keys| ==> keys[i] != keys[j]
  }

  /** The second loop changes only what belongs to the collected keys. */
  lemma {:induction false} ConfigAllFrame(c: Config, leader: bool, w: World, keys: seq<string>, env: Env)
    requires c.ring.Valid() && (forall k :: k in keys ==> k in w.elem) && Named(c, w.elem)
    requires Unique(w.ipam.pool) && KeepsReleases(env)
    ensures var w' := ConfigAll(c, leader, w, keys, env).0;
            && Frame(c, w, w', SetOf(keys)) && Unique(w'.ipam.pool) && Named(c, w'.elem)
            && (!leader ==> w' == w.(disk := w'.disk))
  {
    hide ConfigStep, Frame, Unique, Named, KeepsReleases;
    if keys == [] {
      FrameSelf(c, w);
      assert SetOf(keys) == {};
    } else {
      var n := |keys| - 1;
      var w1 := ConfigAll(c, leader, w, keys[..n], env).0;
      var w2 := ConfigStep(c, leader, w1, keys[n], env).0;
      ConfigAllFrame(c, leader, w, keys[..n], env);
      NamedAt(c, w1.elem, keys[n]);
      ConfigFrame(c, leader, w1, keys[n], env);
      FrameThen(c, w, w1, w2, SetOf(keys[..n]), keys[n]);
      assert keys == keys[..n] + [keys[n]];
      assert SetOf(keys) == SetOf(keys[..n]) + {keys[n]};
      FrameKeepsNames(c, w, w2, SetOf(keys));
    }
  }

  /** The last turn of the second loop. */
  lemma ConfigAllLast(c: Config, leader: bool, w: World, keys: seq<string>, env: Env)
    requires c.ring.Valid() && keys != [] && forall k :: k in keys ==> k in w.elem
    ensures var n := |keys| - 1;
            && keys[n] in w.elem && (forall k :: k in keys[..n] ==> k in keys && k in w.elem)
            && var w1 := ConfigAll(c, leader, w, keys[..n], env).0;
            && keys[n] in w1.elem && w1.elem.Keys == w.elem.Keys
            && ConfigAll(c, leader, w, keys, env).0 == ConfigStep(c, leader, w1, keys[n], env).0
    ensures NoRepeats(keys) ==> NoRepeats(keys[..|keys| - 1]) && keys[|keys| - 1] !in keys[..|keys| - 1]
  {
    hide ConfigStep;
  }

  lemma NamedAt(c: Config, elem: map<string, LVS>, k: string)
    requires Named(c, elem) && k in elem
    ensures k == KeyOf(c, elem[k].name)
  {
  }

  /** The second loop writes each collected record back at most once. */
  lemma {:induction false} ConfigAllWrites(c: Config, leader: bool, w: World, keys: seq<string>, env: Env)
    requires c.ring.Valid() && (forall k :: k in keys ==> k in w.elem) && Named(c, w.elem)
    requires Unique(w.ipam.pool) && KeepsReleases(env)
    ensures var w' := ConfigAll(c, leader, w, keys, env).0;
            w.writes <= w'.writes && multiset(w'.writes[|w.writes|..]) <= multiset(keys)
  {
    if keys == [] {
      assert w.writes[|w.writes|..] == [];
    } else {
      hide ConfigStep, Frame, Unique, Named, KeepsReleases;
      var n := |keys| - 1;
      var w1 := ConfigAll(c, leader, w, keys[..n], env).0;
      var w2 := ConfigStep(c, leader, w1, keys[n], env).0;
      ConfigAllWrites(c, leader, w, keys[..n], env);
      ConfigAllFrame(c, leader, w, keys[..n], env);
      NamedAt(c, w1.elem, keys[n]);
      ConfigFrame(c, leader, w1, keys[n], env);
      OneMoreWrite(w.writes, w1.writes, w2.writes, keys[..n], keys[n]);
      assert keys == keys[..n] + [keys[n]];
    }
  }

  lemma OneMoreWrite(ws: seq<string>, ws1: seq<string>, ws2: seq<string>, keys: seq<string>, k: string)
    requires ws <= ws1 && multiset(ws1[|ws|..]) <= multiset(keys)
    requires ws2 == ws1 || ws2 == ws1 + [k]
    ensures ws <= ws2 && multiset(ws2[|ws|..]) <= multiset(keys + [k])
  {
    if ws2 == ws1 + [k] { assert ws2[|ws|..] == ws1[|ws|..] + [k]; }
  }

  lemma FrameKeepsElem(c: Config, w: World, w': World, keys: set<string>, k: string)
    requires Frame(c, w, w', keys) && k in w.elem && k !in keys
    ensures k in w'.elem && w'.elem[k] == w.elem[k]
  {
  }

  /** What the last turn of the second loop finds. */
  lemma ConfigAllNext(c: Config, leader: bool, w: World, keys: seq<string>, env: Env)
    requires c.ring.Valid() && keys != [] && (forall k :: k in keys ==> k in w.elem) && NoRepeats(keys)
    requires Named(c, w.elem) && Unique(w.ipam.pool) && KeepsReleases(env)
    ensures var k := keys[|keys| - 1];
            && (forall k :: k in keys[..|keys| - 1] ==> k in w.elem)
            && var w1 := ConfigAll(c, leader, w, keys[..|keys| - 1], env).0;
            && Named(c, w1.elem) && Unique(w1.ipam.pool) && Frame(c, w, w1, SetOf(keys[..|keys| - 1]))
            && k in w1.elem && w1.elem[k] == w.elem[k] && k == KeyOf(c, w1.elem[k].name)
  {
    hide ConfigAll, ConfigStep, Frame, Named, Unique, KeepsReleases, NoRepeats;
    var n := |keys| - 1;
    ConfigAllLast(c, leader, w, keys, env);
    ConfigAllFrame(c, leader, w, keys[..n], env);
    FrameKeepsElem(c, w, ConfigAll(c, leader, w, keys[..n], env).0, SetOf(keys[..n]), keys[n]);
    NamedAt(c, w.elem, keys[n]);
  }

  lemma FrameKeepsNames(c: Config, w: World, w': World, keys: set<string>)
    requires Frame(c, w, w', keys) && Named(c, w.elem)
    ensures Named(c, w'.elem)
  {
  }

  lemma AcceptedIsNamed(c: Config, elem: map<string, LVS>, li: seq<Item>)
    requires Named(c, elem) && DistinctKeys(li) && Siblings(c, li)
    ensures Named(c, elem + Accepted(c, li))
  {
    hide Accepted, LastSegment;
    AcceptedMeaning(c, li);
    forall k | k in Accepted(c, li) ensures k == KeyOf(c, Accepted(c, li)[k].name) {
      var it :| it in li && it.key == k;
    }
  }

  // handlerEvent as a map

  /** Elem after an event, before the leader completes records: the accepted records over the old ones,
      cut down to the keys of the snapshot. */
  ghost function NextElem(c: Config, elem: map<string, LVS>, li: seq<Item>): map<string, LVS> {
    map k | k in elem + Accepted(c, li) && k in KeysOf(li) :: (elem + Accepted(c, li))[k]
  }

  /** The event from the two loops: the world between the add and the delete pass. */
  ghost function Middle(c: Config, leader: bool, w: World, li: seq<Item>, env: Env): World
    requires c.ring.Valid()
  {
    AbsorbedKeysAreInElem(c, w.elem, li);
    ConfigAll(c, leader, w.(elem := Absorb(c, w.elem, li).0), Absorb(c, w.elem, li).1, env).0
  }

  ghost predicate Healthy(c: Config, w: World) {
    c.Valid() && Named(c, w.elem) && Unique(w.ipam.pool)
  }

  ghost predicate GoodSnapshot(c: Config, li: seq<Item>) { DistinctKeys(li) && Siblings(c, li) }

  lemma MiddleIsConfigAll(c: Config, leader: bool, w: World, li: seq<Item>, env: Env)
    requires c.ring.Valid()
    ensures forall k :: k in Absorb(c, w.elem, li).1 ==> k in w.elem + Accepted(c, li)
    ensures Middle(c, leader, w, li, env)
         == ConfigAll(c, leader, w.(elem := w.elem + Accepted(c, li)), Absorb(c, w.elem, li).1, env).0
  {
    hide Absorb, Accepted, ConfigAll;
    AbsorbedKeysAreInElem(c, w.elem, li);
    AbsorbIsUnion(c, w.elem, li);
  }

  lemma MiddleFrame(c: Config, leader: bool, w: World, li: seq<Item>, env: Env)
    requires Healthy(c, w) && GoodSnapshot(c, li) && KeepsReleases(env)
    ensures var w0, w1 := w.(elem := w.elem + Accepted(c, li)), Middle(c, leader, w, li, env);
            var keys := Absorb(c, w.elem, li).1;
            && Frame(c, w0, w1, SetOf(keys)) && Named(c, w1.elem) && Unique(w1.ipam.pool)
            && w.writes <= w1.writes && multiset(w1.writes[|w.writes|..]) <= multiset(keys)
            && (!leader ==> w1 == w0.(disk := w1.disk))
  {
    hide Absorb, ConfigAll, Frame, Accepted;
    AbsorbIsUnion(c, w.elem, li);
    AbsorbedKeysAreInElem(c, w.elem, li);
    AcceptedIsNamed(c, w.elem, li);
    hide Named, Unique, KeepsReleases;
    ConfigAllFrame(c, leader, w.(elem := Absorb(c, w.elem, li).0), Absorb(c, w.elem, li).1, env);
    ConfigAllWrites(c, leader, w.(elem := Absorb(c, w.elem, li).0), Absorb(c, w.elem, li).1, env);
  }

  lemma EventIsMiddleThenDelete(c: Config, leader: bool, w: World, li: seq<Item>, env: Env)
    requires c.ring.Valid()
    ensures EventStep(c, leader, w, li, env).0 == DeleteStep(leader, Middle(c, leader, w, li, env), li, env).0
  {
    hide Absorb, ConfigAll, DeleteStep;
  }

  lemma DeleteKeepsHealth(c: Config, leader: bool, w: World, li: seq<Item>, env: Env)
    requires Named(c, w.elem) && Unique(w.ipam.pool)
    ensures var w' := DeleteStep(leader, w, li, env).0;
            && w'.elem == (map k | k in w.elem && k in KeysOf(li) :: w.elem[k])
            && Named(c, w'.elem) && Unique(w'.ipam.pool)
            && w'.records == w.records && w'.writes == w.writes
  {
  }

  /** handlerEvent refines a one-line map: the keys of the new Elem are the snapshot keys that are
      accepted or were already known; an accepted key carries its parsed record, completed with an
      address and a port by a leader only; any other kept key carries its old record unchanged. */
  lemma EventRefinesMap(c: Config, leader: bool, w: World, li: seq<Item>, env: Env)
    requires Healthy(c, w) && GoodSnapshot(c, li) && KeepsReleases(env)
    ensures var w', next := EventStep(c, leader, w, li, env).0, NextElem(c, w.elem, li);
            && w'.elem.Keys == next.Keys
            && (forall k :: k in next ==> SameRequest(w'.elem[k], next[k]))
            && (!leader ==> w'.elem == next)
            && (forall k :: k in next && k !in Accepted(c, li) ==> k in w.elem && w'.elem[k] == w.elem[k])
    ensures Healthy(c, EventStep(c, leader, w, li, env).0)
  {
    hide Absorb, ConfigAll, Accepted, EventStep, DeleteStep, Middle, Named, Unique, KeepsReleases, GoodSnapshot;
    MiddleFrame(c, leader, w, li, env);
    CollectedAreAccepted(c, w.elem, li);
    EventIsMiddleThenDelete(c, leader, w, li, env);
    DeleteKeepsHealth(c, leader, Middle(c, leader, w, li, env), li, env);
  }

  lemma CollectedAreAccepted(c: Config, elem: map<string, LVS>, li: seq<Item>)
    requires GoodSnapshot(c, li)
    ensures forall k :: k in Absorb(c, elem, li).1 ==> k in Accepted(c, li)
  {
    hide Absorb, Accepted;
    AbsorbCollects(c, elem, li);
  }

  /** The order of the snapshot decides neither the keys nor the records before completion. */
  lemma EventIsUnordered(c: Config, elem: map<string, LVS>, li: seq<Item>, li': seq<Item>)
    requires DistinctKeys(li) && DistinctKeys(li') && multiset(li) == multiset(li')
    ensures NextElem(c, elem, li) == NextElem(c, elem, li')
  {
    AcceptedIsUnordered(c, li, li');
  }

  /** The delete pass never touches the file, the address or the cache entry of a kept record. */
  lemma DeletePassSparesKept(c: Config, leader: bool, w: World, li: seq<Item>, env: Env, k: string)
    requires Named(c, w.elem) && k in w.elem && k in KeysOf(li)
    ensures var w', n := DeleteStep(leader, w, li, env).0, w.elem[k].name;
            && w'.elem[k] == w.elem[k]
            && (n in w'.disk <==> n in w.disk) && (n in w.disk ==> w'.disk[n] == w.disk[n])
            && (forall t :: Holds(w.ipam.pool, Id(n), t) <==> Holds(w'.ipam.pool, Id(n), t))
            && (Id(n) in w'.ipam.cache <==> Id(n) in w.ipam.cache)
  {
    IdsDiffer();
    assert w.elem[k].name !in Gone(w.elem, li);
  }

  /** What the delete pass does: it drops the entries whose key left the snapshot, removes exactly the files of
      their names unless that fails, for a leader gives back exactly their addresses unless that fails, and
      reports a change exactly when a file went. */
  lemma DeleteExactly(c: Config, leader: bool, w: World, li: seq<Item>, env: Env, n: string)
    requires Named(c, w.elem)
    ensures var (w', changed) := DeleteStep(leader, w, li, env);
            var gone := KeyOf(c, n) in w.elem && KeyOf(c, n) !in KeysOf(li);
            && (KeyOf(c, n) in w'.elem <==> KeyOf(c, n) in w.elem && !gone)
            && (n in w'.disk <==> n in w.disk && !(gone && n !in env.remove))
            && (n in w'.disk ==> w'.disk[n] == w.disk[n])
            && (forall t :: Holds(w'.ipam.pool, Id(n), t) <==>
                 Holds(w.ipam.pool, Id(n), t) && !(leader && gone && n !in env.release))
            && (Id(n) in w'.ipam.cache <==> Id(n) in w.ipam.cache && !(leader && gone && n !in env.release))
            && (changed <==> w'.disk != w.disk)
  {
    IdsDiffer();
    GoneExactly(c, w.elem, li, n);
    var r := Removed(w.disk, Gone(w.elem, li), env);
    if r != {} {
      var m :| m in r;
      assert m in w.disk && m !in w.disk - r;
    } else {
      assert w.disk - r == w.disk;
    }
  }

  lemma GoneExactly(c: Config, elem: map<string, LVS>, li: seq<Item>, n: string)
    requires Named(c, elem)
    ensures n in Gone(elem, li) <==> KeyOf(c, n) in elem && KeyOf(c, n) !in KeysOf(li)
  {
    if KeyOf(c, n) in elem {
      var m := elem[KeyOf(c, n)].name;
      assert (c.dir + m)[|c.dir|..] == m && (c.dir + n)[|c.dir|..] == n;
    }
  }

  // Runs of events

  datatype Event = Event(li: seq<Item>, env: Env)

  ghost function RunEvents(c: Config, leader: bool, w: World, events: seq<Event>): World
    requires c.ring.Valid()
  {
    if events == [] then w
    else EventStep(c, leader, RunEvents(c, leader, w, events[..|events| - 1]),
                   events[|events| - 1].li, events[|events| - 1].env).0
  }

  lemma {:induction false} RunIsHealthy(c: Config, leader: bool, w: World, events: seq<Event>)
    requires Healthy(c, w) && forall e :: e in events ==> GoodSnapshot(c, e.li) && KeepsReleases(e.env)
    ensures Healthy(c, RunEvents(c, leader, w, events))
  {
    if events != [] {
      hide EventStep, Healthy, GoodSnapshot, KeepsReleases;
      var n := |events| - 1;
      RunIsHealthy(c, leader, w, events[..n]);
      assert events[n] in events;
      EventKeepsHealth(c, leader, RunEvents(c, leader, w, events[..n]), events[n].li, events[n].env);
    }
  }

  lemma EventKeepsHealth(c: Config, leader: bool, w: World, li: seq<Item>, env: Env)
    requires Healthy(c, w) && GoodSnapshot(c, li) && KeepsReleases(env)
    ensures c.ring.Valid() && Healthy(c, EventStep(c, leader, w, li, env).0)
  {
    hide EventStep;
    EventRefinesMap(c, leader, w, li, env);
  }
}
