/** The leader's write-back loop converges (pkg/lbm/lvs.go allocVIP, pkg/lbm/lbm.go handlerEvent). */
module Convergence {
  import opened NetIP
  import opened Ranges
  import opened Allocator
  import opened Ipam
  import opened IpamRuns
  import opened Records
  import opened Reconciler
  import opened Steps
  import opened Takeover
  import opened DiskVips

  /** li lists the record store. */
  ghost predicate Lists(c: Config, records: map<string, Json>, li: seq<Item>) {
    && GoodSnapshot(c, li) && KeysOf(li) == records.Keys
    && forall it :: it in li ==> it.key in records && records[it.key] == it.value
  }

  /** No store error: allocations, releases and write-backs succeed. Files may fail. */
  predicate StoreCalm(env: Env) { env.require == map[] && env.release == {} && env.update == {} }

  ghost function Stored(c: Config, records: map<string, Json>, k: string): Option<LVS>
    requires k in records
  {
    Accept(c, Item(k, records[k]))
  }

  /** The record has its address, and its port as far as allocVIP would fill it. */
  ghost predicate Complete(p: Pool, l: LVS) {
    Holds(p, Id(l.name), l.vip) && (l.port != 0 || LastOctet(l.vip).None?)
  }

  /** Reading this key again makes the leader write nothing back. */
  ghost predicate Settled(c: Config, w: World, k: string)
    requires k in w.records
  {
    var q := Stored(c, w.records, k);
    q.Some? ==> k in w.elem && (w.elem[k] == q.value || Complete(w.ipam.pool, q.value))
  }

  ghost predicate AllSettled(c: Config, w: World) { forall k :: k in w.records ==> Settled(c, w, k) }

  // Snapshots listed while the event before still runs

  /** An ask that RequireIP answers with the address t when the asker holds t. */
  predicate Asks(ring: Ring, vip: Text, t: Text) {
    || vip == EMPTY || vip == t
    || (ParseIP(vip).Some? && IsAddress(ParseIP(vip).value) && ring.Has(Canon(ParseIP(vip).value)) && Print(ParseIP(vip).value) == t)
  }

  /** The snapshot shows the record as it was before it was written back: the store holds its completion
      under the address t, which its id holds. */
  ghost predicate BehindAt(c: Config, w: World, it: Item, t: Text) {
    && it.key in w.records && Accept(c, it).Some?
    && Holds(w.ipam.pool, Id(Accept(c, it).value.name), t) && Asks(c.ring, Accept(c, it).value.vip, t)
    && w.records[it.key] == Tree(Marshal(Completed(c, Accept(c, it).value, t)))
  }

  ghost predicate Behind(c: Config, w: World, it: Item) { exists t :: BehindAt(c, w, it, t) }

  /** The value the store holds, or the one it held before this process completed it. */
  ghost predicate Recent(c: Config, w: World, it: Item) {
    it.key in w.records && (w.records[it.key] == it.value || Behind(c, w, it))
  }

  /** li lists the record store as it is or as it was before some write-backs. */
  ghost predicate ListsRecent(c: Config, w: World, li: seq<Item>) {
    && GoodSnapshot(c, li) && KeysOf(li) == w.records.Keys
    && forall it :: it in li ==> Recent(c, w, it)
  }

  /** li was listed while an event turned w into w': each value is the one before or after its write-back. */
  ghost predicate ListedDuring(c: Config, w: World, w': World, li: seq<Item>) {
    && GoodSnapshot(c, li) && KeysOf(li) == w'.records.Keys
    && forall it :: it in li ==>
         it.key in w'.records && (w'.records[it.key] == it.value || (it.key in w.records && w.records[it.key] == it.value))
  }

  /** The snapshot as a map. */
  ghost function Values(li: seq<Item>): map<string, Json> {
    if li == [] then map[] else Values(li[..|li| - 1])[li[|li| - 1].key := li[|li| - 1].value]
  }

  lemma {:induction false} ValuesOf(li: seq<Item>)
    requires DistinctKeys(li)
    ensures Values(li).Keys == KeysOf(li) && forall it :: it in li ==> it.key in Values(li) && Values(li)[it.key] == it.value
  {
    hide DistinctKeys, KeysOf;
    if li == [] {
      NoKeys();
    } else {
      LastIsNew(li);
      ValuesOf(li[..|li| - 1]);
    }
  }

  /** What the snapshot v shows for k was collected, is still as parsed, and is recent. */
  ghost predicate Pending(c: Config, w: World, v: map<string, Json>, k: string) {
    && k in w.records && k in w.elem && k in v
    && Accept(c, Item(k, v[k])) == Some(w.elem[k]) && Recent(c, w, Item(k, v[k]))
  }

  /** Every record is as it was in r0, or that is what a snapshot shows of it from before its write-back. */
  ghost predicate Trails(c: Config, r0: map<string, Json>, w: World) {
    w.records.Keys == r0.Keys && forall k :: k in r0 ==> w.records[k] == r0[k] || (k in w.elem && Behind(c, w, Item(k, r0[k])))
  }

  lemma ListsAccepted(c: Config, records: map<string, Json>, li: seq<Item>, k: string)
    requires Lists(c, records, li) && k in records
    ensures k in Accepted(c, li) <==> Stored(c, records, k).Some?
    ensures k in Accepted(c, li) ==> Stored(c, records, k) == Some(Accepted(c, li)[k])
  {
    hide Accept, Accepted;
    AcceptedMeaning(c, li);
    var it :| it in li && it.key == k;
    assert it == Item(k, records[k]);
  }

  lemma AcceptedIsValid(c: Config, it: Item)
    requires Accept(c, it).Some?
    ensures var l := Accept(c, it).value;
            Valid(c.groups, l) && l.clusterName == c.cluster && LastSegment(it.key) == l.name && CheckVIP(l.vip)
  {
    hide LastSegment, CheckServers, FillWeights;
    ValidatedIsValid(c.groups, Unmarshal(it.value.doc));
  }

  lemma NormKeepsIdentity(l: LVS)
    ensures var n := Norm(l);
            n.name == l.name && n.clusterName == l.clusterName && n.vip == l.vip && n.port == l.port
  {
  }

  /** The completion of a freshly parsed record reads back as its normal form, or, when the port is
      out of range, is refused. */
  lemma WrittenReadsBack(c: Config, l: LVS, key: string, v: Json, vip: Text)
    requires Accept(c, Item(key, v)) == Some(l) && CheckVIP(vip)
    ensures var done := Completed(c, l, vip);
            Accept(c, Item(key, Tree(Marshal(done)))) == if CheckPort(done.port) then Some(Norm(done)) else None
  {
    hide Marshal, LastSegment, Norm, Parse, Accept;
    AcceptedIsValid(c, Item(key, v));
    var done := Completed(c, l, vip);
    CompletedReadsBack(c.groups, l, done.vip, done.port);
    NormKeepsIdentity(done);
    AcceptUnfolds(c, key, Tree(Marshal(done)));
  }

  /** With a port base of 65500, which the configuration accepts, and the address 10.0.0.200, the record that
      allocVIP writes back has port 65700 and the next read refuses it. */
  lemma OverflowIsRefused(c: Config, name: string)
    requires c.Valid() && c.portBase == 65500 && CheckName(c.cluster) && CheckName(name) && '/' !in name
    ensures var l, vip := Stub(c, name), Print([10, 0, 0, 200]);
            && Accept(c, Item(KeyOf(c, name), Tree(Marshal(l)))) == Some(l)
            && Completed(c, l, vip).port == 65700
            && Accept(c, Item(KeyOf(c, name), Tree(Marshal(Completed(c, l, vip))))) == None
  {
    hide Marshal, Accept;
    StubReadsBack(c, name);
    ParsePrint([10, 0, 0, 200]);
    WrittenReadsBack(c, Stub(c, name), KeyOf(c, name), Tree(Marshal(Stub(c, name))), Print([10, 0, 0, 200]));
  }

  /** RequireIP answers an asker with the address it holds, and in the end every holder is as before. */
  lemma RequireOfAsked(ring: Ring, s: State, id: Text, vip: Text, t: Text)
    requires ring.Valid() && Unique(s.pool) && s.pool.Valid() && Holds(s.pool, id, t) && Asks(ring, vip, t)
    ensures HolderOf(s.pool, id) == Some(t)
    ensures var (s', r) := RequireStep(ring, s, id, vip, Some(t), Some(t), CALM);
            r == Ok(t) && s'.pool.held == s.pool.held
  {
    hide Canon, GetStep;
    HolderIsFound(s.pool, id);
    if vip != EMPTY && vip != t {
      var ip := ParseIP(vip).value;
      var pool := s.pool.(held := s.pool.held - {t});
      ExplicitOutcome(ring, pool, id, ip);
      GetGives(ring, pool, id, Some(ip), CALM.get);
      var g := GetStep(ring, pool, id, Some(ip), CALM.get);
      assert g.1 == Ok(ip) by { ExplicitValue(ring, pool, id, ip); }
      assert g.0.held == pool.held[t := id] == s.pool.held;
    }
  }

  lemma ExplicitValue(ring: Ring, p: Pool, id: Text, ip: IP)
    requires ring.Valid()
    ensures var r := GetStep(ring, p, id, Some(ip), CALM.get).1; r.Ok? ==> r.value == ip
  {
  }

  /** A grant answers the ask it was made for. */
  lemma GrantAnswers(ring: Ring, s: State, id: Text, vip: Text)
    requires ring.Valid() && Unique(s.pool) && s.pool.Valid() && CheckVIP(vip)
    ensures var h := HolderOf(s.pool, id);
            var (s', r) := RequireStep(ring, s, id, vip, h, h, CALM);
            r.Ok? ==> Asks(ring, vip, r.value)
  {
    hide Canon, GetStep;
    HolderIsFound(s.pool, id);
    var h := HolderOf(s.pool, id);
    if vip != EMPTY && h != Some(vip) {
      var ip := ParseIP(vip).value;
      var pool := if h.Some? then ReleaseStep(s.pool, h, CALM_RELEASE).0 else s.pool;
      ExplicitOutcome(ring, pool, id, ip);
      ExplicitValue(ring, pool, id, ip);
      var g := GetStep(ring, pool, id, Some(ip), CALM.get);
      var (s', r) := RequireStep(ring, s, id, vip, h, h, CALM);
      assert r.Ok? ==> g.1.Ok? && r.value == Print(g.1.value);
    }
  }

  /** A stored completion reads back settled, or is refused. */
  lemma BehindIsSettled(c: Config, w: World, it: Item)
    requires c.Valid() && w.ipam.pool.Valid() && Behind(c, w, it) && it.key in w.elem
    ensures it.key in w.records && Settled(c, w, it.key)
  {
    hide Marshal, Accept, Norm;
    var t :| BehindAt(c, w, it, t);
    var l := Accept(c, it).value;
    ParsePrintHeld(w.ipam.pool);
    WrittenReadsBack(c, l, it.key, it.value, t);
    NormKeepsIdentity(Completed(c, l, t));
  }

  /** What allocVIP leaves for a record as parsed from a recent snapshot: the store shows it as before, or
      holds its completion. What was behind stays stored as it is. */
  lemma AllocSettles(c: Config, w: World, v: map<string, Json>, key: string, env: Env)
    requires c.Valid() && Pending(c, w, v, key) && key == KeyOf(c, w.elem[key].name)
    requires Unique(w.ipam.pool) && w.ipam.pool.Valid() && StoreCalm(env)
    ensures var w' := AllocVIPStep(c, w, key, env).0;
            && key in w'.records && w'.ipam.pool.Valid()
            && Settled(c, w', key)
            && (w'.records == w.records || (w.records[key] == v[key] && Behind(c, w', Item(key, v[key]))))
            && (Behind(c, w, Item(key, v[key])) ==> w'.records == w.records && w'.ipam.pool.held == w.ipam.pool.held)
  {
    hide RequireStep, Marshal, LastSegment, Norm, Unique, Accept, Asks, Settled;
    var l := w.elem[key];
    var it := Item(key, v[key]);
    var w' := AllocVIPStep(c, w, key, env).0;
    RequireFrame(c, w, l, env);
    GrantIsAddress(c.ring, w.ipam, Id(l.name), l.vip);
    AcceptedIsValid(c, it);
    GrantAnswers(c.ring, w.ipam, Id(l.name), l.vip);
    if Behind(c, w, it) {
      var t :| BehindAt(c, w, it, t);
      RequireOfAsked(c.ring, w.ipam, Id(l.name), l.vip, t);
      assert w'.records == w.records;
      assert BehindAt(c, w', it, t);
      BehindIsSettled(c, w', it);
    } else {
      var h := HolderOf(w.ipam.pool, Id(l.name));
      var (s, r) := RequireStep(c.ring, w.ipam, Id(l.name), l.vip, h, h, CALM);
      if r.Ok? && !(r.value == l.vip && (l.port != 0 || LastOctet(r.value).None?)) {
        assert BehindAt(c, w', it, r.value);
        BehindIsSettled(c, w', it);
      } else {
        AsParsedIsSettled(c, w, w', key);
      }
    }
  }

  lemma AsParsedIsSettled(c: Config, w: World, w': World, key: string)
    requires key in w.records && key in w.elem && Stored(c, w.records, key) == Some(w.elem[key])
    requires w'.records == w.records && key in w'.elem
    requires w'.elem[key] == w.elem[key] || (w'.elem[key] == w.elem[key].(vip := w'.elem[key].vip) && Complete(w'.ipam.pool, w.elem[key]))
    ensures Settled(c, w', key)
  {
    hide Accept, Complete;
  }

  lemma AcceptUnfolds(c: Config, k: string, v: Json)
    ensures Accept(c, Item(k, v)) ==
      match Parse(c.groups, v)
      case None => None
      case Some(l) => if l.clusterName == c.cluster && LastSegment(k) == l.name then Some(l) else None
  {
  }

  lemma GrantIsAddress(ring: Ring, s: State, id: Text, vip: Text)
    requires ring.Valid() && s.pool.Valid()
    ensures var h := HolderOf(s.pool, id);
            var (s', r) := RequireStep(ring, s, id, vip, h, h, CALM);
            s'.pool.Valid() && (r.Ok? ==> CheckVIP(r.value) && r.value.Address?)
  {
    hide GetStep;
    HolderIsFound(s.pool, id);
    var h := HolderOf(s.pool, id);
    var pool := if h.Some? then ReleaseStep(s.pool, h, CALM_RELEASE).0 else s.pool;
    GetKeepsKeys(ring, pool, id, ParseIP(vip), CALM.get);
    GetGives(ring, pool, id, ParseIP(vip), CALM.get);
    var (s', r) := RequireStep(ring, s, id, vip, h, h, CALM);
    var g := GetStep(ring, pool, id, ParseIP(vip), CALM.get);
    if g.1.Ok? { ParsePrint(g.1.value); }
    if h.Some? { ParsePrint(h.value.ip); }
    assert s' == s || s'.pool == g.0;
  }

  ghost predicate SiblingRecords(c: Config, records: map<string, Json>) {
    forall k :: k in records ==> k == KeyOf(c, LastSegment(k))
  }

  lemma SettledElsewhere(c: Config, w: World, w': World, key: string, k: string)
    requires Frame(c, w, w', {key}) && SiblingRecords(c, w.records)
    requires k in w.records && k != key && Settled(c, w, k)
    ensures k in w'.records && Settled(c, w', k)
  {
    hide Accept, LastSegment;
    AcceptUnfolds(c, k, w.records[k]);
  }

  /** What an event on a recent snapshot keeps during its add pass. */
  ghost predicate Tidy(c: Config, r0: map<string, Json>, w: World) {
    AllSettled(c, w) && w.ipam.pool.Valid() && SiblingRecords(c, w.records) && Trails(c, r0, w)
  }

  lemma ConfigSettles(c: Config, r0: map<string, Json>, w: World, v: map<string, Json>, key: string, env: Env)
    requires c.Valid() && Pending(c, w, v, key) && Named(c, w.elem) && Unique(w.ipam.pool) && StoreCalm(env)
    requires Tidy(c, r0, w) && key in r0 && w.records[key] == r0[key]
    ensures var w' := ConfigStep(c, true, w, key, env).0;
            && Tidy(c, r0, w')
            && (Behind(c, w, Item(key, v[key])) ==> w'.records == w.records && w'.ipam.pool.held == w.ipam.pool.held)
  {
    hide AllocVIPStep, RenderStep, Rendered, Settled, Frame, Unique, LastSegment, Accept, BehindAt;
    var w1, w' := AllocVIPStep(c, w, key, env).0, ConfigStep(c, true, w, key, env).0;
    NamedAt(c, w.elem, key);
    AllocSettles(c, w, v, key, env);
    ConfigFrame(c, true, w, key, env);
    SameRecordsAsAlloc(c, w, key, env);
    SettledIgnoresDisk(c, w1, w', key);
    BehindIgnoresDisk(c, w1, w', Item(key, v[key]));
    FrameKeepsRecordKeys(c, w, w', key);
    forall k | k in w'.records ensures Settled(c, w', k) {
      if k != key { SettledElsewhere(c, w, w', key, k); }
    }
    forall k | k in r0 ensures w'.records[k] == r0[k] || (k in w'.elem && Behind(c, w', Item(k, r0[k]))) {
      if k != key { TrailsElsewhere(c, w, w', {key}, k, r0[k]); }
    }
  }

  lemma BehindIgnoresDisk(c: Config, w: World, w': World, it: Item)
    requires w' == w.(disk := w'.disk)
    ensures Behind(c, w, it) <==> Behind(c, w', it)
  {
    hide Accept;
    forall t ensures BehindAt(c, w, it, t) <==> BehindAt(c, w', it, t) {}
  }

  /** Configuring other keys changes neither a record nor what a snapshot shows of it. */
  lemma TrailsElsewhere(c: Config, w: World, w': World, keys: set<string>, k: string, value: Json)
    requires Frame(c, w, w', keys) && k !in keys && k in w.records && k == KeyOf(c, LastSegment(k))
    ensures k in w'.records && w'.records[k] == w.records[k]
    ensures Behind(c, w, Item(k, value)) <==> Behind(c, w', Item(k, value))
  {
    hide LastSegment, Accept;
    AcceptUnfolds(c, k, value);
    forall t ensures BehindAt(c, w, Item(k, value), t) <==> BehindAt(c, w', Item(k, value), t) {}
  }

  lemma FrameKeepsRecordKeys(c: Config, w: World, w': World, key: string)
    requires Frame(c, w, w', {key}) && key in w.records
    ensures w'.records.Keys == w.records.Keys
  {
  }

  lemma SameRecordsAsAlloc(c: Config, w: World, key: string, env: Env)
    requires c.ring.Valid() && key in w.elem
    ensures var w1, w' := AllocVIPStep(c, w, key, env).0, ConfigStep(c, true, w, key, env).0;
            w' == w1.(disk := w'.disk)
  {
    hide AllocVIPStep, RenderStep, Rendered;
  }

  lemma SettledIgnoresDisk(c: Config, w: World, w': World, k: string)
    requires w' == w.(disk := w'.disk) && k in w.records
    ensures Settled(c, w, k) <==> Settled(c, w', k)
  {
    hide Accept;
  }

  /** The second loop settles every record of the store. */
  lemma {:induction false} ConfigAllSettles(c: Config, w: World, v: map<string, Json>, keys: seq<string>, env: Env)
    requires c.Valid() && (forall k :: k in keys ==> k in w.elem && Pending(c, w, v, k)) && NoRepeats(keys)
    requires Named(c, w.elem) && Unique(w.ipam.pool) && StoreCalm(env) && Tidy(c, w.records, w)
    ensures Tidy(c, w.records, ConfigAll(c, true, w, keys, env).0)
  {
    if keys != [] {
      hide ConfigStep, ConfigAll, Frame, Settled, Unique, Named, Accept, LastSegment, Behind, Trails, AllSettled, NoRepeats;
      var n := |keys| - 1;
      var w1 := ConfigAll(c, true, w, keys[..n], env).0;
      ConfigAllLast(c, true, w, keys, env);
      ConfigAllSettles(c, w, v, keys[..n], env);
      ConfigAllFrame(c, true, w, keys[..n], env);
      PendingElsewhere(c, w, w1, v, SetOf(keys[..n]), keys[n]);
      ConfigSettles(c, w.records, w1, v, keys[n], env);
    }
  }

  lemma PendingElsewhere(c: Config, w: World, w': World, v: map<string, Json>, keys: set<string>, k: string)
    requires Frame(c, w, w', keys) && k !in keys && Pending(c, w, v, k) && SiblingRecords(c, w.records)
    ensures Pending(c, w', v, k) && w'.records[k] == w.records[k]
    ensures Behind(c, w, Item(k, v[k])) <==> Behind(c, w', Item(k, v[k]))
  {
    hide Accept, Behind, LastSegment;
    TrailsElsewhere(c, w, w', keys, k, v[k]);
  }

  /** Once every stored record is settled and Elem has no other keys, only re-reading is left. */
  ghost predicate Stable(c: Config, w: World) {
    && Healthy(c, w) && w.ipam.pool.Valid() && SiblingRecords(c, w.records)
    && w.elem.Keys <= w.records.Keys && AllSettled(c, w)
  }

  lemma RecentSiblings(c: Config, w: World, li: seq<Item>)
    requires ListsRecent(c, w, li)
    ensures SiblingRecords(c, w.records)
  {
    hide LastSegment, Recent;
    forall k | k in w.records ensures k == KeyOf(c, LastSegment(k)) {
      var it :| it in li && it.key == k;
    }
  }

  /** After absorbing a recent snapshot, every record is settled and what was collected is as parsed. */
  lemma AbsorbSettles(c: Config, w: World, li: seq<Item>)
    requires c.Valid() && w.ipam.pool.Valid() && ListsRecent(c, w, li)
    ensures var w0 := w.(elem := w.elem + Accepted(c, li));
            AllSettled(c, w0) && forall k :: k in Absorb(c, w.elem, li).1 ==> Pending(c, w0, Values(li), k)
  {
    hide Absorb, Accepted, Accept, Behind;
    CollectedAreAccepted(c, w.elem, li);
    AcceptedMeaning(c, li);
    ValuesOf(li);
    var w0 := w.(elem := w.elem + Accepted(c, li));
    forall k | k in w.records
      ensures Settled(c, w0, k) && (k in Accepted(c, li) ==> Pending(c, w0, Values(li), k))
    {
      var it :| it in li && it.key == k;
      BehindIgnoresElem(c, w, w0, it);
      if w.records[k] != it.value {
        assert Accept(c, it).Some? by { BehindIsAccepted(c, w, it); }
        BehindIsSettled(c, w0, it);
      } else {
        assert it == Item(k, w.records[k]);
      }
    }
  }

  lemma BehindIsAccepted(c: Config, w: World, it: Item)
    requires Behind(c, w, it)
    ensures Accept(c, it).Some?
  {
    hide Accept;
  }

  lemma BehindIgnoresElem(c: Config, w: World, w': World, it: Item)
    requires w' == w.(elem := w'.elem)
    ensures Behind(c, w, it) <==> Behind(c, w', it)
  {
    hide Accept;
    forall t ensures BehindAt(c, w, it, t) <==> BehindAt(c, w', it, t) {}
  }

  lemma DeleteSettles(c: Config, r0: map<string, Json>, w: World, li: seq<Item>, env: Env)
    requires Named(c, w.elem) && Tidy(c, r0, w) && w.records.Keys == KeysOf(li)
    ensures var w' := DeleteStep(true, w, li, env).0;
            Tidy(c, r0, w') && w'.elem.Keys <= w'.records.Keys && w'.records == w.records
  {
    hide Accept, LastSegment, BehindAt;
    var w' := DeleteStep(true, w, li, env).0;
    forall k | k in w'.records ensures Settled(c, w', k) {
      assert Settled(c, w, k);
      if Stored(c, w.records, k).Some? {
        AcceptUnfolds(c, k, w.records[k]);
        KeyNames(c, w.elem, LastSegment(k));
        DeletePassSparesKept(c, true, w, li, env, k);
      }
    }
    forall k | k in r0 ensures w'.records[k] == r0[k] || (k in w'.elem && Behind(c, w', Item(k, r0[k]))) {
      if w.records[k] != r0[k] { DeleteKeepsBehind(c, w, li, env, Item(k, r0[k])); }
    }
  }

  lemma DeleteKeepsBehind(c: Config, w: World, li: seq<Item>, env: Env, it: Item)
    requires Named(c, w.elem) && SiblingRecords(c, w.records) && w.records.Keys == KeysOf(li)
    requires it.key in w.elem && Behind(c, w, it)
    ensures var w' := DeleteStep(true, w, li, env).0; it.key in w'.elem && Behind(c, w', it)
  {
    hide Accept, LastSegment;
    var w' := DeleteStep(true, w, li, env).0;
    AcceptUnfolds(c, it.key, it.value);
    KeyNames(c, w.elem, LastSegment(it.key));
    DeletePassSparesKept(c, true, w, li, env, it.key);
    var t :| BehindAt(c, w, it, t);
    assert BehindAt(c, w', it, t);
  }

  /** One event on a recent snapshot leaves everything settled, writes each record at most once, and leaves
      each record as it was or with its completion. */
  lemma EventStabilizes(c: Config, w: World, li: seq<Item>, env: Env)
    requires Healthy(c, w) && w.ipam.pool.Valid() && ListsRecent(c, w, li) && StoreCalm(env)
    ensures var w' := EventStep(c, true, w, li, env).0;
            && Stable(c, w') && Trails(c, w.records, w')
            && w.writes <= w'.writes && forall k :: multiset(w'.writes[|w.writes|..])[k] <= 1
  {
    hide Absorb, Accepted, ConfigAll, DeleteStep, EventStep, AllSettled, Frame, Named, Unique, Middle, Behind, Recent, Trails;
    var w0, w1 := w.(elem := w.elem + Accepted(c, li)), Middle(c, true, w, li, env);
    var keys := Absorb(c, w.elem, li).1;
    RecentSiblings(c, w, li);
    AbsorbIsUnion(c, w.elem, li);
    AbsorbSettles(c, w, li);
    TrailsItself(c, w0);
    CollectedOnce(c, w.elem, li);
    AcceptedIsNamed(c, w.elem, li);
    MiddleIsConfigAll(c, true, w, li, env);
    ConfigAllSettles(c, w0, Values(li), keys, env);
    MiddleFrame(c, true, w, li, env);
    EventIsMiddleThenDelete(c, true, w, li, env);
    EventRefinesMap(c, true, w, li, env);
    TrailsKeys(c, w.records, w1);
    DeleteSettles(c, w.records, w1, li, env);
    DeleteKeepsHealth(c, true, w1, li, env);
    AtMostOnce(keys);
  }

  lemma TrailsItself(c: Config, w: World)
    ensures Trails(c, w.records, w)
  {
  }

  lemma TrailsKeys(c: Config, r0: map<string, Json>, w: World)
    ensures Trails(c, r0, w) ==> w.records.Keys == r0.Keys
  {
  }

  /** A snapshot listed while an event runs is recent when the event has ended. */
  lemma ListedIsRecent(c: Config, w: World, w': World, li: seq<Item>)
    requires Trails(c, w.records, w') && ListedDuring(c, w, w', li)
    ensures ListsRecent(c, w', li)
  {
    hide Behind;
    forall it | it in li ensures Recent(c, w', it) {
      assert it == Item(it.key, it.value);
    }
  }

  lemma CollectedOnce(c: Config, elem: map<string, LVS>, li: seq<Item>)
    requires DistinctKeys(li)
    ensures NoRepeats(Absorb(c, elem, li).1)
  {
    hide Absorb, Accepted;
    AbsorbCollects(c, elem, li);
  }

  lemma {:induction false} AtMostOnce(keys: seq<string>)
    requires NoRepeats(keys)
    ensures forall k :: multiset(keys)[k] <= 1
  {
    if keys != [] {
      var n := |keys| - 1;
      AtMostOnce(keys[..n]);
      assert keys == keys[..n] + [keys[n]];
      assert keys[n] !in keys[..n];
    }
  }

  // Re-reading a stable store

  /** A complete record is left alone by allocVIP: no store is touched. */
  lemma ConfigOfComplete(c: Config, w: World, key: string, env: Env)
    requires c.ring.Valid() && key in w.elem && Unique(w.ipam.pool) && StoreCalm(env)
    requires Complete(w.ipam.pool, w.elem[key])
    ensures var w' := ConfigStep(c, true, w, key, env).0; w' == w.(disk := w'.disk)
  {
    hide RenderStep, Rendered, GetStep, Marshal;
    var l := w.elem[key];
    HolderIsFound(w.ipam.pool, Id(l.name));
    assert HolderOf(w.ipam.pool, Id(l.name)) == Some(l.vip);
    assert Completed(c, l, l.vip) == l;
    assert w.elem[key := l] == w.elem;
  }

  lemma {:induction false} ConfigAllOfComplete(c: Config, w: World, keys: seq<string>, env: Env)
    requires c.ring.Valid() && Unique(w.ipam.pool) && StoreCalm(env)
    requires forall k :: k in keys ==> k in w.elem && Complete(w.ipam.pool, w.elem[k])
    ensures var w' := ConfigAll(c, true, w, keys, env).0; w' == w.(disk := w'.disk)
  {
    if keys != [] {
      hide ConfigStep, Complete, Unique;
      var n := |keys| - 1;
      ConfigAllOfComplete(c, w, keys[..n], env);
      ConfigOfComplete(c, ConfigAll(c, true, w, keys[..n], env).0, keys[n], env);
    }
  }

  /** Elem is exactly what the store parses to, for every accepted record. */
  ghost predicate Quiet(c: Config, w: World) {
    && w.elem.Keys <= w.records.Keys
    && forall k :: k in w.records && Stored(c, w.records, k).Some? ==>
         k in w.elem && w.elem[k] == Stored(c, w.records, k).value
  }

  lemma CollectedAreComplete(c: Config, w: World, li: seq<Item>)
    requires AllSettled(c, w) && Lists(c, w.records, li)
    ensures forall k :: k in Absorb(c, w.elem, li).1 ==>
              k in w.elem + Accepted(c, li) && Complete(w.ipam.pool, (w.elem + Accepted(c, li))[k])
  {
    hide Absorb, Accepted, Accept, Complete;
    AbsorbCollects(c, w.elem, li);
    AcceptedMeaning(c, li);
    forall k | k in Absorb(c, w.elem, li).1 ensures Complete(w.ipam.pool, Accepted(c, li)[k]) {
      assert Settled(c, w, k);
      ListsAccepted(c, w.records, li, k);
    }
  }

  lemma DeleteOfNothing(leader: bool, w: World, li: seq<Item>, env: Env)
    requires w.elem.Keys <= KeysOf(li)
    ensures DeleteStep(leader, w, li, env) == (w, false)
  {
    hide Purge;
    assert Gone(w.elem, li) == {};
    assert (map k | k in w.elem && k in KeysOf(li) :: w.elem[k]) == w.elem;
    PurgeNothing(leader, w, env);
  }

  /** What one configuration may be of without any change to the record store and the held addresses. */
  ghost predicate Harmless(c: Config, w: World, v: map<string, Json>, k: string) {
    k in w.elem && (Complete(w.ipam.pool, w.elem[k]) || (Pending(c, w, v, k) && Behind(c, w, Item(k, v[k]))))
  }

  lemma ConfigIsHarmless(c: Config, w: World, v: map<string, Json>, key: string, env: Env)
    requires c.Valid() && Unique(w.ipam.pool) && w.ipam.pool.Valid() && StoreCalm(env) && Named(c, w.elem)
    requires Harmless(c, w, v, key)
    ensures var w' := ConfigStep(c, true, w, key, env).0;
            w'.records == w.records && w'.ipam.pool.held == w.ipam.pool.held
  {
    hide ConfigStep, AllocVIPStep, Complete, Pending, Behind, Unique;
    SameRecordsAsAlloc(c, w, key, env);
    if Complete(w.ipam.pool, w.elem[key]) {
      ConfigOfComplete(c, w, key, env);
    } else {
      NamedAt(c, w.elem, key);
      AllocSettles(c, w, v, key, env);
    }
  }

  lemma HarmlessElsewhere(c: Config, w: World, w': World, v: map<string, Json>, keys: set<string>, k: string)
    requires Frame(c, w, w', keys) && k !in keys && SiblingRecords(c, w.records) && Named(c, w.elem)
    requires Harmless(c, w, v, k)
    ensures Harmless(c, w', v, k)
  {
    hide Behind, Complete;
    NamedAt(c, w.elem, k);
    CompleteElsewhere(c, w, w', keys, k);
    if Pending(c, w, v, k) && Behind(c, w, Item(k, v[k])) { PendingElsewhere(c, w, w', v, keys, k); }
  }

  lemma CompleteElsewhere(c: Config, w: World, w': World, keys: set<string>, k: string)
    requires Frame(c, w, w', keys) && k !in keys && k in w.elem && k == KeyOf(c, w.elem[k].name)
    ensures k in w'.elem && w'.elem[k] == w.elem[k]
    ensures Complete(w.ipam.pool, w.elem[k]) ==> Complete(w'.ipam.pool, w.elem[k])
  {
  }

  lemma {:induction false} ConfigAllIsHarmless(c: Config, w: World, v: map<string, Json>, keys: seq<string>, env: Env)
    requires c.Valid() && Unique(w.ipam.pool) && w.ipam.pool.Valid() && StoreCalm(env) && Named(c, w.elem)
    requires SiblingRecords(c, w.records) && NoRepeats(keys) && forall k :: k in keys ==> k in w.elem && Harmless(c, w, v, k)
    ensures var w' := ConfigAll(c, true, w, keys, env).0;
            w'.records == w.records && w'.ipam.pool.held == w.ipam.pool.held
  {
    if keys != [] {
      hide ConfigStep, ConfigAll, Harmless, Frame, Named, Unique, NoRepeats, SiblingRecords;
      var n := |keys| - 1;
      var w1 := ConfigAll(c, true, w, keys[..n], env).0;
      ConfigAllLast(c, true, w, keys, env);
      ConfigAllIsHarmless(c, w, v, keys[..n], env);
      ConfigAllFrame(c, true, w, keys[..n], env);
      HarmlessElsewhere(c, w, w1, v, SetOf(keys[..n]), keys[n]);
      ConfigIsHarmless(c, w1, v, keys[n], env);
    }
  }

  /** An event on a recent snapshot of a stable store changes no stored record and no held address, though
      it writes records that are behind once more. */
  lemma RecentEventKeepsStore(c: Config, w: World, li: seq<Item>, env: Env)
    requires Stable(c, w) && ListsRecent(c, w, li) && StoreCalm(env)
    ensures var w' := EventStep(c, true, w, li, env).0;
            w'.records == w.records && w'.ipam.pool.held == w.ipam.pool.held
  {
    hide Absorb, Accepted, ConfigAll, DeleteStep, EventStep, Middle, Complete, Accept, Unique, Named, Harmless, Behind, AllSettled, Pending;
    var w0, w1 := w.(elem := w.elem + Accepted(c, li)), Middle(c, true, w, li, env);
    AcceptedMeaning(c, li);
    AcceptedIsNamed(c, w.elem, li);
    AbsorbSettles(c, w, li);
    CollectedOnce(c, w.elem, li);
    forall k | k in Absorb(c, w.elem, li).1 ensures Harmless(c, w0, Values(li), k) { CollectedIsHarmless(c, w, li, k); }
    MiddleIsConfigAll(c, true, w, li, env);
    ConfigAllIsHarmless(c, w0, Values(li), Absorb(c, w.elem, li).1, env);
    MiddleFrame(c, true, w, li, env);
    FrameKeys(c, w0, w1, SetOf(Absorb(c, w.elem, li).1));
    DeleteOfNothing(true, w1, li, env);
    EventIsMiddleThenDelete(c, true, w, li, env);
  }

  lemma FrameKeys(c: Config, w: World, w': World, keys: set<string>)
    requires Frame(c, w, w', keys)
    ensures w'.elem.Keys == w.elem.Keys
  {
  }

  lemma CollectedIsHarmless(c: Config, w: World, li: seq<Item>, k: string)
    requires Stable(c, w) && ListsRecent(c, w, li) && k in Absorb(c, w.elem, li).1
    ensures Harmless(c, w.(elem := w.elem + Accepted(c, li)), Values(li), k)
  {
    hide Absorb, Accepted, Complete, Accept, Behind, Unique, Named;
    var w0 := w.(elem := w.elem + Accepted(c, li));
    AbsorbSettles(c, w, li);
    AbsorbCollects(c, w.elem, li);
    AcceptedMeaning(c, li);
    ValuesOf(li);
    var it :| it in li && it.key == k;
    BehindIgnoresElem(c, w, w0, it);
    assert it == Item(k, Values(li)[k]);
    assert Settled(c, w, k);
  }

  /** The next event on the resulting store writes nothing back and allocates nothing. */
  lemma StableEventIsReadOnly(c: Config, w: World, li: seq<Item>, env: Env)
    requires Stable(c, w) && Lists(c, w.records, li) && StoreCalm(env)
    ensures var w' := EventStep(c, true, w, li, env).0;
            && w'.records == w.records && w'.writes == w.writes && w'.ipam == w.ipam && Quiet(c, w')
  {
    hide Absorb, Accepted, ConfigAll, DeleteStep, EventStep, Middle, Complete, Accept, Unique, Named;
    var w0, w1 := w.(elem := w.elem + Accepted(c, li)), Middle(c, true, w, li, env);
    CollectedAreComplete(c, w, li);
    MiddleIsConfigAll(c, true, w, li, env);
    ConfigAllOfComplete(c, w0, Absorb(c, w.elem, li).1, env);
    assert w1 == w0.(disk := w1.disk);
    AcceptedMeaning(c, li);
    DeleteOfNothing(true, w1, li, env);
    EventIsMiddleThenDelete(c, true, w, li, env);
    forall k | k in w.records && Stored(c, w.records, k).Some?
      ensures k in w1.elem && w1.elem[k] == Stored(c, w.records, k).value
    {
      ListsAccepted(c, w.records, li, k);
    }
  }

  /** On a quiet store an event does nothing at all, for a leader and a follower, whatever fails. */
  lemma QuietEventDoesNothing(c: Config, leader: bool, w: World, li: seq<Item>, env: Env)
    requires c.ring.Valid() && Quiet(c, w) && Lists(c, w.records, li)
    ensures EventStep(c, leader, w, li, env) == (w, false)
  {
    hide Absorb, DeleteStep, Accept;
    forall it | it in li && Accept(c, it).Some? ensures it.key in w.elem && w.elem[it.key] == Accept(c, it).value {
      assert it == Item(it.key, w.records[it.key]);
    }
    AbsorbNoNews(c, w.elem, li);
    DeleteOfNothing(leader, w, li, env);
    assert w.(elem := w.elem) == w;
  }

  lemma {:induction false} AbsorbNoNews(c: Config, elem: map<string, LVS>, li: seq<Item>)
    requires forall it :: it in li && Accept(c, it).Some? ==> it.key in elem && elem[it.key] == Accept(c, it).value
    ensures Absorb(c, elem, li) == (elem, [])
  {
    hide Accept;
    if li != [] { AbsorbNoNews(c, elem, li[..|li| - 1]); }
  }

  /** Convergence, with each snapshot listed at any moments while the event before it runs. From any leader
      state, the first event writes each record back at most once. The second can write records once more,
      from what the snapshot shows of them, but changes no stored record and no held address. The third
      writes nothing, and every event after that leaves the whole state as it is and asks for no reload.
      Files may fail to be read, written or removed. */
  lemma WriteBackConverges(c: Config, w: World, li1: seq<Item>, li2: seq<Item>, li3: seq<Item>, li4: seq<Item>,
                           env1: Env, env2: Env, env3: Env, env4: Env)
    requires Healthy(c, w) && w.ipam.pool.Valid() && StoreCalm(env1) && StoreCalm(env2) && StoreCalm(env3)
    requires ListsRecent(c, w, li1)
    requires var w1 := EventStep(c, true, w, li1, env1).0;
             var w2 := EventStep(c, true, w1, li2, env2).0;
             var w3 := EventStep(c, true, w2, li3, env3).0;
             ListedDuring(c, w, w1, li2) && ListedDuring(c, w1, w2, li3) && ListedDuring(c, w2, w3, li4)
    ensures var w1 := EventStep(c, true, w, li1, env1).0;
            var w2 := EventStep(c, true, w1, li2, env2).0;
            var w3 := EventStep(c, true, w2, li3, env3).0;
            && w.writes <= w1.writes && (forall k :: multiset(w1.writes[|w.writes|..])[k] <= 1)
            && w1.writes <= w2.writes && (forall k :: multiset(w2.writes[|w1.writes|..])[k] <= 1)
            && w2.records == w1.records && w2.ipam.pool.held == w1.ipam.pool.held
            && w3.records == w2.records && w3.writes == w2.writes && w3.ipam == w2.ipam
            && Quiet(c, w3) && EventStep(c, true, w3, li4, env4) == (w3, false)
  {
    hide EventStep, Stable, Quiet, ListsRecent, Trails, ListedDuring, Lists;
    HealthyIsValid(c, w);
    var w1 := EventStep(c, true, w, li1, env1).0;
    EventStabilizes(c, w, li1, env1);
    StableIsHealthy(c, w1);
    ListedIsRecent(c, w, w1, li2);
    RecentEventKeepsStore(c, w1, li2, env2);
    EventStabilizes(c, w1, li2, env2);
    var w2 := EventStep(c, true, w1, li2, env2).0;
    ListedIsCurrent(c, w1, w2, li3);
    StableEventIsReadOnly(c, w2, li3, env3);
    var w3 := EventStep(c, true, w2, li3, env3).0;
    ListedIsCurrent(c, w2, w3, li4);
    QuietEventDoesNothing(c, true, w3, li4, env4);
  }

  lemma StableIsHealthy(c: Config, w: World)
    requires Stable(c, w)
    ensures Healthy(c, w) && w.ipam.pool.Valid()
  {
  }

  lemma ListedIsCurrent(c: Config, w: World, w': World, li: seq<Item>)
    requires w'.records == w.records && ListedDuring(c, w, w', li)
    ensures Lists(c, w'.records, li)
  {
  }

  // Which records an event writes

  /** The record changes when an address is granted for it. */
  predicate NeedsCompletion(l: LVS) { !l.vip.Address? || (l.port == 0 && LastOctet(l.vip).Some?) }

  ghost predicate WritesBack(c: Config, w: World, key: string)
    requires c.ring.Valid() && key in w.elem
  {
    Grantable(c.ring, w.ipam.pool, Id(w.elem[key].name), w.elem[key].vip) && NeedsCompletion(w.elem[key])
  }

  /** The collected keys whose ask is grantable when their turn comes and whose record needs completion. */
  ghost function Written(c: Config, w: World, keys: seq<string>, env: Env): seq<string>
    requires c.ring.Valid() && forall k :: k in keys ==> k in w.elem
  {
    if keys == [] then []
    else
      var n := |keys| - 1;
      Written(c, w, keys[..n], env)
      + if WritesBack(c, ConfigAll(c, true, w, keys[..n], env).0, keys[n]) then [keys[n]] else []
  }

  lemma ConfigWritesExactly(c: Config, w: World, key: string, env: Env)
    requires c.ring.Valid() && key in w.elem && key == KeyOf(c, w.elem[key].name) && CheckVIP(w.elem[key].vip)
    requires Unique(w.ipam.pool) && w.ipam.pool.Valid() && StoreCalm(env)
    ensures var w' := ConfigStep(c, true, w, key, env).0;
            && w'.writes == w.writes + (if WritesBack(c, w, key) then [key] else []) && w'.ipam.pool.Valid()
  {
    hide RequireStep, Marshal, Unique, Grantable, RenderStep, Rendered, Print, Canon;
    var l := w.elem[key];
    RequireOutcome(c.ring, w.ipam, Id(l.name), l.vip);
    GrantIsAddress(c.ring, w.ipam, Id(l.name), l.vip);
    GrantAnswers(c.ring, w.ipam, Id(l.name), l.vip);
    if l.vip.Address? { PrintedAgain(l.vip); }
  }

  lemma PrintedAgain(t: Text)
    requires t.Address?
    ensures ParseIP(t).Some? && Print(ParseIP(t).value) == t
  {
    ParsePrint(t.ip);
  }

  lemma CalmKeepsReleases(env: Env)
    requires StoreCalm(env)
    ensures KeepsReleases(env)
  {
  }

  lemma WrittenLast(c: Config, w: World, keys: seq<string>, env: Env)
    requires c.ring.Valid() && keys != [] && forall k :: k in keys ==> k in w.elem
    ensures var n := |keys| - 1;
            && (forall k :: k in keys[..n] ==> k in w.elem) && keys[n] in ConfigAll(c, true, w, keys[..n], env).0.elem
            && Written(c, w, keys, env) == Written(c, w, keys[..n], env)
               + if WritesBack(c, ConfigAll(c, true, w, keys[..n], env).0, keys[n]) then [keys[n]] else []
  {
    hide WritesBack, ConfigStep;
  }

  lemma {:induction false} ConfigAllWritesExactly(c: Config, w: World, keys: seq<string>, env: Env)
    requires c.Valid() && (forall k :: k in keys ==> k in w.elem && CheckVIP(w.elem[k].vip)) && NoRepeats(keys)
    requires Named(c, w.elem) && Unique(w.ipam.pool) && w.ipam.pool.Valid() && StoreCalm(env)
    ensures var w' := ConfigAll(c, true, w, keys, env).0;
            w'.writes == w.writes + Written(c, w, keys, env) && w'.ipam.pool.Valid()
  {
    if keys != [] {
      hide ConfigStep, ConfigAll, Frame, Named, Unique, Written, WritesBack, CheckVIP, NoRepeats, KeepsReleases, StoreCalm, Pool.Valid;
      CalmKeepsReleases(env);
      var n := |keys| - 1;
      var w1 := ConfigAll(c, true, w, keys[..n], env).0;
      ConfigAllLast(c, true, w, keys, env);
      WrittenLast(c, w, keys, env);
      ConfigAllWritesExactly(c, w, keys[..n], env);
      ConfigAllNext(c, true, w, keys, env);
      ConfigWritesExactly(c, w1, keys[n], env);
      var x := if WritesBack(c, w1, keys[n]) then [keys[n]] else [];
      assert w.writes + (Written(c, w, keys[..n], env) + x) == w.writes + Written(c, w, keys[..n], env) + x;
    }
  }

  lemma CollectedHaveVIPs(c: Config, elem: map<string, LVS>, li: seq<Item>)
    requires GoodSnapshot(c, li)
    ensures forall k :: k in Absorb(c, elem, li).1 ==> k in Accepted(c, li) && CheckVIP((elem + Accepted(c, li))[k].vip)
  {
    hide Absorb, Accepted, Accept, CheckVIP;
    CollectedAreAccepted(c, elem, li);
    AcceptedMeaning(c, li);
    forall k | k in Accepted(c, li) ensures CheckVIP(Accepted(c, li)[k].vip) {
      var it :| it in li && it.key == k;
      AcceptedIsValid(c, it);
    }
  }

  /** An event without store errors writes back exactly the collected records whose ask is grantable when
      their turn comes and which need an address, a spelling of it, or a port, in the order of collection. */
  lemma EventWritesExactly(c: Config, w: World, li: seq<Item>, env: Env)
    requires Healthy(c, w) && w.ipam.pool.Valid() && GoodSnapshot(c, li) && StoreCalm(env)
    ensures var w0, keys := w.(elem := w.elem + Accepted(c, li)), Absorb(c, w.elem, li).1;
            && (forall k :: k in keys ==> k in w0.elem)
            && EventStep(c, true, w, li, env).0.writes == w.writes + Written(c, w0, keys, env)
  {
    hide Absorb, Accepted, ConfigAll, DeleteStep, EventStep, Middle, Named, Unique, Written, CheckVIP;
    var w0, keys := w.(elem := w.elem + Accepted(c, li)), Absorb(c, w.elem, li).1;
    CollectedHaveVIPs(c, w.elem, li);
    CollectedOnce(c, w.elem, li);
    AcceptedIsNamed(c, w.elem, li);
    MiddleIsConfigAll(c, true, w, li, env);
    ConfigAllWritesExactly(c, w0, keys, env);
    EventIsMiddleThenDelete(c, true, w, li, env);
    MiddleFrame(c, true, w, li, env);
    DeleteKeepsHealth(c, true, Middle(c, true, w, li, env), li, env);
  }

  /** A stale snapshot of a record without address is written back again, over whatever the store holds by
      then: once more for a completion already stored, and over a newer value for one that is not. */
  lemma StaleWritesAgain(c: Config, w: World, it: Item, l: LVS, t: Text)
    requires Healthy(c, w) && w.ipam.pool.Valid() && GoodSnapshot(c, [it]) && Accept(c, it) == Some(l)
    requires l.vip == EMPTY && Holds(w.ipam.pool, Id(l.name), t) && !(it.key in w.elem && w.elem[it.key] == l)
    ensures var w' := EventStep(c, true, w, [it], NO_FAULTS).0;
            w'.writes == w.writes + [it.key] && it.key in w'.records && w'.records[it.key] == Tree(Marshal(Completed(c, l, t)))
  {
    hide Marshal, Accept, EventStep, DeleteStep, ConfigStep, Middle, Named, Unique, Completed, LastSegment, Absorb, Accepted, ConfigAll, Frame;
    var li := [it];
    assert it in li && LastSegment(it.key) == l.name by { AcceptUnfolds(c, it.key, it.value); }
    var w0 := w.(elem := w.elem[it.key := l]);
    AbsorbOfOne(c, w.elem, it);
    SingleConfig(c, w0, it.key);
    AcceptedOfOne(c, it);
    assert w0.elem == w.elem + Accepted(c, li);
    AcceptedIsNamed(c, w.elem, li);
    NamedAt(c, w0.elem, it.key);
    EventWritesOne(c, w0, it.key, t);
    MiddleIsConfigAll(c, true, w, li, NO_FAULTS);
    MiddleFrame(c, true, w, li, NO_FAULTS);
    EventIsMiddleThenDelete(c, true, w, li, NO_FAULTS);
    DeleteKeepsHealth(c, true, Middle(c, true, w, li, NO_FAULTS), li, NO_FAULTS);
  }

  lemma SingleConfig(c: Config, w: World, key: string)
    requires c.ring.Valid() && key in w.elem
    ensures ConfigAll(c, true, w, [key], NO_FAULTS).0 == ConfigStep(c, true, w, key, NO_FAULTS).0
  {
    hide ConfigStep;
    assert [key][..0] == [];
  }

  lemma AbsorbOfOne(c: Config, elem: map<string, LVS>, it: Item)
    requires Accept(c, it).Some? && !(it.key in elem && elem[it.key] == Accept(c, it).value)
    ensures Absorb(c, elem, [it]) == (elem[it.key := Accept(c, it).value], [it.key])
  {
    hide Accept;
    var li := [it];
    assert li[..0] == [];
    AbsorbNothing(c, elem);
    var (e, keys) := Absorb(c, elem, li[..0]);
    assert e == elem && keys == [] && keys + [it.key] == [it.key];
  }

  lemma AcceptedOfOne(c: Config, it: Item)
    requires Accept(c, it).Some?
    ensures Accepted(c, [it]) == map[it.key := Accept(c, it).value]
  {
    hide Accept;
    assert [it][..0] == [];
  }

  lemma EventWritesOne(c: Config, w: World, key: string, t: Text)
    requires c.ring.Valid() && key in w.elem && key == KeyOf(c, w.elem[key].name) && w.elem[key].vip == EMPTY
    requires Unique(w.ipam.pool) && w.ipam.pool.Valid() && Holds(w.ipam.pool, Id(w.elem[key].name), t)
    ensures var w' := ConfigStep(c, true, w, key, NO_FAULTS).0;
            && w'.writes == w.writes + [key]
            && w'.records == w.records[key := Tree(Marshal(Completed(c, w.elem[key], t)))]
  {
    hide Marshal, RenderStep, Rendered, RequireStep, Completed;
    RequireOfAsked(c.ring, w.ipam, Id(w.elem[key].name), EMPTY, t);
  }

  lemma HealthyIsValid(c: Config, w: World)
    requires Healthy(c, w)
    ensures c.Valid()
  {
  }
}
