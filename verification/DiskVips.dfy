/** Distinct virtual addresses on disk over leader runs (pkg/lbm/lvs.go, pkg/ipam/ipam.go). */
module DiskVips {
  import opened NetIP
  import opened Ranges
  import opened Allocator
  import opened Ipam
  import opened IpamRuns
  import opened Records
  import opened Reconciler
  import opened Steps
  import opened Takeover

  /** The address in each file is held by the id of that file. */
  ghost predicate OwnedFiles(w: World) {
    forall n :: n in w.disk ==> Holds(w.ipam.pool, Id(n), w.disk[n].vip)
  }

  /** What may be asked for: nothing, the address already held, or one of the range that is free or the asker's. */
  ghost predicate GoodAsk(ring: Ring, p: Pool, id: Text, vip: Text)
    requires ring.Valid()
  {
    || vip == EMPTY
    || Holds(p, id, vip)
    || (ParseIP(vip).Some? && IsAddress(ParseIP(vip).value) && ring.Has(Canon(ParseIP(vip).value))
        && (Print(ParseIP(vip).value) !in p.held || p.held[Print(ParseIP(vip).value)] == id))
  }

  /** An ask that is granted: for any address, one is held or free; for a named one, it is a good ask. */
  ghost predicate Grantable(ring: Ring, p: Pool, id: Text, vip: Text)
    requires ring.Valid()
  {
    if vip == EMPTY then !HoldsNone(p, id) || (exists a :: ring.Has(a) && Print(a) !in p.held)
    else GoodAsk(ring, p, id, vip)
  }

  /** Without errors, an explicit request is granted exactly when it is in range and free. */
  lemma ExplicitOutcome(ring: Ring, p: Pool, id: Text, ip: IP)
    requires ring.Valid()
    ensures var (p', r) := GetStep(ring, p, id, Some(ip), CALM.get);
            && (r.Ok? <==> IsAddress(ip) && ring.Has(Canon(ip)) && Print(ip) !in p.held)
            && (r.Err? ==> p' == p)
  {
  }

  /** Without errors RequireIP grants exactly what is grantable; on a good ask it fails only when a search
      finds the range full, and on a bad ask it fails after giving the old address away. */
  lemma RequireOutcome(ring: Ring, s: State, id: Text, vip: Text)
    requires ring.Valid() && Unique(s.pool)
    ensures var h := HolderOf(s.pool, id);
            var (s', r) := RequireStep(ring, s, id, vip, h, h, CALM);
            && (CheckVIP(vip) ==> (r.Ok? <==> Grantable(ring, s.pool, id, vip)))
            && (GoodAsk(ring, s.pool, id, vip) && r.Err? ==> HoldsNone(s.pool, id) && s' == s)
            && (CheckVIP(vip) && !GoodAsk(ring, s.pool, id, vip) ==> r.Err? && HoldsNone(s'.pool, id))
  {
    hide GetStep, Print, Canon, HolderOf;
    HolderIsFound(s.pool, id);
    var h := HolderOf(s.pool, id);
    var (s', r) := RequireStep(ring, s, id, vip, h, h, CALM);
    if vip == EMPTY {
      SearchIsNextFit(ring, s.pool, id);
      var g := GetStep(ring, s.pool, id, None, CALM.get);
      assert h.None? ==> s'.pool == g.0 && (r.Err? <==> g.1.Err?);
      assert h.Some? ==> Holds(s.pool, id, h.value) && !HoldsNone(s.pool, id);
    } else if Holds(s.pool, id, vip) {
      assert h == Some(vip);
    } else if ParseIP(vip).Some? {
      var ip := ParseIP(vip).value;
      var pool := if h.Some? then ReleaseStep(s.pool, h, CALM_RELEASE).0 else s.pool;
      assert HoldsNone(pool, id);
      assert Print(ip) !in pool.held <==> Print(ip) !in s.pool.held || s.pool.held[Print(ip)] == id;
      ExplicitOutcome(ring, pool, id, ip);
      var g := GetStep(ring, pool, id, Some(ip), CALM.get);
      assert s'.pool == g.0 && (r.Err? <==> g.1.Err?);
      assert IsAddress(ip) && (GoodAsk(ring, s.pool, id, vip) <==> g.1.Ok?);
    }
  }

  /** One allocation and rendering keeps the files owned exactly when the ask is good, or there is no file to go stale. */
  lemma ConfigOwnsExactly(c: Config, w: World, key: string)
    requires c.ring.Valid() && key in w.elem && key == KeyOf(c, w.elem[key].name)
    requires Unique(w.ipam.pool) && OwnedFiles(w)
    ensures var l := w.elem[key];
            var owned, good := OwnedFiles(ConfigStep(c, true, w, key, NO_FAULTS).0),
                               GoodAsk(c.ring, w.ipam.pool, Id(l.name), l.vip);
            (good ==> owned) && (CheckVIP(l.vip) ==> (owned <==> good || l.name !in w.disk))
  {
    hide RequireStep, Marshal, LAddr, Frame, Unique, GoodAsk;
    var l := w.elem[key];
    var w' := ConfigStep(c, true, w, key, NO_FAULTS).0;
    RequireOutcome(c.ring, w.ipam, Id(l.name), l.vip);
    RequireFrame(c, w, l, NO_FAULTS);
    ConfigFrame(c, true, w, key, NO_FAULTS);
    OtherFilesOwned(c, w, w', key);
    var h := HolderOf(w.ipam.pool, Id(l.name));
    var (s, r) := RequireStep(c.ring, w.ipam, Id(l.name), l.vip, h, h, CALM);
    assert w'.ipam == s;
    if r.Ok? {
      assert l.name in w'.disk && w'.disk[l.name].vip == r.value;
    } else {
      assert w'.disk == w.disk;
    }
  }

  /** A bad ask ends in two files with one address: k1 asks for b, which another id holds, and so gives its
      own a away while its file keeps a; then k2 asks for a and gets it. */
  lemma BadAskSharesVIP(c: Config, w: World, k1: string, k2: string, a: IP, b: IP)
    requires c.ring.Valid() && Unique(w.ipam.pool) && c.ring.Has(a) && c.ring.Has(b)
    requires k1 in w.elem && k1 == KeyOf(c, w.elem[k1].name) && k2 in w.elem && k2 == KeyOf(c, w.elem[k2].name) && k1 != k2
    requires w.elem[k1].vip == Print(b) && Print(b) in w.ipam.pool.held && w.ipam.pool.held[Print(b)] != Id(w.elem[k1].name)
    requires Holds(w.ipam.pool, Id(w.elem[k1].name), Print(a)) && w.elem[k1].name in w.disk && w.disk[w.elem[k1].name].vip == Print(a)
    requires w.elem[k2].vip == Print(a) && HoldsNone(w.ipam.pool, Id(w.elem[k2].name))
    ensures var w1 := ConfigStep(c, true, w, k1, NO_FAULTS).0;
            var w2 := ConfigStep(c, true, w1, k2, NO_FAULTS).0;
            var m, n := w.elem[k1].name, w.elem[k2].name;
            m != n && m in w2.disk && n in w2.disk && w2.disk[m].vip == w2.disk[n].vip == Print(a) && !OwnedFiles(w1)
  {
    hide ConfigStep, Frame, Unique, LAddr, Print, OwnedFiles;
    BadAskGivesAway(c, w, k1, a, b);
    var w1 := ConfigStep(c, true, w, k1, NO_FAULTS).0;
    IdsDiffer();
    ExplicitAskIsGranted(c, w1, k2, a);
  }

  lemma BadAskGivesAway(c: Config, w: World, key: string, a: IP, b: IP)
    requires c.ring.Valid() && Unique(w.ipam.pool) && c.ring.Has(a) && c.ring.Has(b)
    requires key in w.elem && key == KeyOf(c, w.elem[key].name)
    requires w.elem[key].vip == Print(b) && Print(b) in w.ipam.pool.held && w.ipam.pool.held[Print(b)] != Id(w.elem[key].name)
    requires Holds(w.ipam.pool, Id(w.elem[key].name), Print(a)) && w.elem[key].name in w.disk && w.disk[w.elem[key].name].vip == Print(a)
    ensures var w' := ConfigStep(c, true, w, key, NO_FAULTS).0;
            && w'.elem == w.elem && w'.disk == w.disk && !OwnedFiles(w')
            && Print(a) !in w'.ipam.pool.held && OthersKept(w.ipam.pool, w'.ipam.pool, Id(w.elem[key].name))
  {
    hide RequireStep, Marshal, LAddr, Unique, Canon, RenderStep;
    var l := w.elem[key];
    var w' := ConfigStep(c, true, w, key, NO_FAULTS).0;
    InRangeIsCanonical(c.ring, b);
    ParsePrint(b);
    RequireOutcome(c.ring, w.ipam, Id(l.name), l.vip);
    RequireFrame(c, w, l, NO_FAULTS);
    var h := HolderOf(w.ipam.pool, Id(l.name));
    var (s, r) := RequireStep(c.ring, w.ipam, Id(l.name), l.vip, h, h, CALM);
    assert r.Err? && w' == w.(ipam := s);
  }

  lemma ExplicitAskIsGranted(c: Config, w: World, key: string, a: IP)
    requires c.ring.Valid() && c.ring.Has(a) && key in w.elem && w.elem[key].vip == Print(a)
    requires HoldsNone(w.ipam.pool, Id(w.elem[key].name)) && Print(a) !in w.ipam.pool.held
    ensures var w', n := ConfigStep(c, true, w, key, NO_FAULTS).0, w.elem[key].name;
            && n in w'.disk && w'.disk[n].vip == Print(a)
            && forall m :: m in w.disk && m != n ==> m in w'.disk && w'.disk[m] == w.disk[m]
  {
    hide Marshal, LAddr, Canon;
    InRangeIsCanonical(c.ring, a);
    ParsePrint(a);
    HolderIsFound(w.ipam.pool, Id(w.elem[key].name));
    var ip := ParseIP(Print(a)).value;
    ExplicitOutcome(c.ring, w.ipam.pool, Id(w.elem[key].name), ip);
    hide GetStep;
    var (s, r) := RequireStep(c.ring, w.ipam, Id(w.elem[key].name), Print(a), None, None, CALM);
    assert r == Ok(Print(a));
  }

  lemma OtherFilesOwned(c: Config, w: World, w': World, key: string)
    requires key in w.elem && key == KeyOf(c, w.elem[key].name)
    requires Frame(c, w, w', {key}) && OwnedFiles(w)
    ensures forall n :: n in w'.disk && n != w.elem[key].name ==> Holds(w'.ipam.pool, Id(n), w'.disk[n].vip)
  {
    forall n | n in w'.disk && n != w.elem[key].name ensures Holds(w'.ipam.pool, Id(n), w'.disk[n].vip) {
      assert KeyOf(c, n) != key by { KeyNames(c, map[key := w.elem[key]], w.elem[key].name); DifferentKeys(c, n, w.elem[key].name); }
    }
  }

  lemma DifferentKeys(c: Config, m: string, n: string)
    requires m != n
    ensures KeyOf(c, m) != KeyOf(c, n)
  {
    assert (c.dir + m)[|c.dir|..] == m && (c.dir + n)[|c.dir|..] == n;
  }

  /** Every ask of the second loop is good at the moment it is made. */
  ghost predicate GoodAsks(c: Config, w: World, keys: seq<string>)
    requires c.ring.Valid() && forall k :: k in keys ==> k in w.elem
  {
    keys != [] ==>
      var w1 := ConfigAll(c, true, w, keys[..|keys| - 1], NO_FAULTS).0;
      var l := w1.elem[keys[|keys| - 1]];
      && GoodAsks(c, w, keys[..|keys| - 1])
      && GoodAsk(c.ring, w1.ipam.pool, Id(l.name), l.vip)
  }

  lemma {:induction false} ConfigAllOwns(c: Config, w: World, keys: seq<string>)
    requires c.ring.Valid() && (forall k :: k in keys ==> k in w.elem) && Named(c, w.elem)
    requires Unique(w.ipam.pool) && OwnedFiles(w) && GoodAsks(c, w, keys)
    ensures OwnedFiles(ConfigAll(c, true, w, keys, NO_FAULTS).0)
  {
    if keys != [] {
      hide ConfigStep, OwnedFiles, Frame, Named, Unique, GoodAsk;
      var n := |keys| - 1;
      var w1 := ConfigAll(c, true, w, keys[..n], NO_FAULTS).0;
      ConfigAllOwns(c, w, keys[..n]);
      ConfigAllFrame(c, true, w, keys[..n], NO_FAULTS);
      NamedAt(c, w1.elem, keys[n]);
      ConfigOwnsExactly(c, w1, keys[n]);
    }
  }

  lemma DeleteOwns(w: World, li: seq<Item>)
    requires OwnedFiles(w)
    ensures OwnedFiles(DeleteStep(true, w, li, NO_FAULTS).0)
  {
    IdsDiffer();
    var w' := DeleteStep(true, w, li, NO_FAULTS).0;
    forall n | n in w'.disk ensures Holds(w'.ipam.pool, Id(n), w'.disk[n].vip) {
      assert Holds(w.ipam.pool, Id(n), w.disk[n].vip);
      assert n !in Removed(w.disk, Gone(w.elem, li), NO_FAULTS);
    }
  }

  /** The asks of one event are good. */
  ghost predicate GoodEvent(c: Config, w: World, li: seq<Item>)
    requires c.ring.Valid()
  {
    AbsorbedKeysAreInElem(c, w.elem, li);
    GoodAsks(c, w.(elem := Absorb(c, w.elem, li).0), Absorb(c, w.elem, li).1)
  }

  lemma EventOwns(c: Config, w: World, li: seq<Item>)
    requires Healthy(c, w) && GoodSnapshot(c, li) && OwnedFiles(w) && GoodEvent(c, w, li)
    ensures OwnedFiles(EventStep(c, true, w, li, NO_FAULTS).0)
    ensures Healthy(c, EventStep(c, true, w, li, NO_FAULTS).0)
  {
    hide Absorb, Accepted, ConfigAll, DeleteStep, GoodAsks, Unique, EventStep;
    AbsorbedKeysAreInElem(c, w.elem, li);
    AbsorbIsUnion(c, w.elem, li);
    AcceptedIsNamed(c, w.elem, li);
    EventRefinesMap(c, true, w, li, NO_FAULTS);
    EventIsMiddleThenDelete(c, true, w, li, NO_FAULTS);
    ConfigAllOwns(c, w.(elem := Absorb(c, w.elem, li).0), Absorb(c, w.elem, li).1);
    DeleteOwns(Middle(c, true, w, li, NO_FAULTS), li);
  }

  /** A run of error-free events with good asks. */
  ghost predicate GoodRun(c: Config, w: World, events: seq<Event>)
    requires c.ring.Valid()
  {
    events != [] ==>
      var n := |events| - 1;
      && GoodRun(c, w, events[..n]) && events[n].env == NO_FAULTS
      && GoodSnapshot(c, events[n].li) && GoodEvent(c, RunEvents(c, true, w, events[..n]), events[n].li)
  }

  lemma {:induction false} RunOwns(c: Config, w: World, events: seq<Event>)
    requires Healthy(c, w) && OwnedFiles(w) && GoodRun(c, w, events)
    ensures OwnedFiles(RunEvents(c, true, w, events)) && Healthy(c, RunEvents(c, true, w, events))
  {
    if events != [] {
      hide EventStep, OwnedFiles, GoodEvent, GoodSnapshot, Named, Unique;
      var n := |events| - 1;
      RunOwns(c, w, events[..n]);
      EventOwns(c, RunEvents(c, true, w, events[..n]), events[n].li);
    }
  }

  /** In leader runs without errors where every explicit ask is good, each file's address stays held by
      the file's own id, so no two files share an address. */
  lemma FilesNeverShareVIP(c: Config, w: World, events: seq<Event>)
    requires Healthy(c, w) && OwnedFiles(w) && GoodRun(c, w, events)
    ensures var w' := RunEvents(c, true, w, events);
            && OwnedFiles(w')
            && forall m, n :: m in w'.disk && n in w'.disk && m != n ==> w'.disk[m].vip != w'.disk[n].vip
  {
    RunOwns(c, w, events);
    hide RunEvents;
    IdsDiffer();
    var w' := RunEvents(c, true, w, events);
    forall m, n | m in w'.disk && n in w'.disk && m != n ensures w'.disk[m].vip != w'.disk[n].vip {
      assert Id(m) != Id(n);
      assert Holds(w'.ipam.pool, Id(m), w'.disk[m].vip) && Holds(w'.ipam.pool, Id(n), w'.disk[n].vip);
    }
  }
}
