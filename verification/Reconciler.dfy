/** The reconcile loop of pkg/lbm/lbm.go and pkg/lbm/lvs.go: each event is a snapshot of the desired
    records, folded into Elem, the address store, the config files and the record store. */
module Reconciler {
  import opened NetIP
  import opened Ranges
  import opened Allocator
  import opened Ipam
  import opened IpamRuns
  import opened Records

  const STICK := "l4-"

  /** dir is the etcd directory of the records, such as /xxx.com/lb/dev/l4/. */
  datatype Config = Config(dir: string, cluster: string, portBase: int, groups: Groups, script: string, ring: Ring) {
    ghost predicate Valid() {
      && dir != "" && dir[|dir| - 1] == '/'
      && 5000 <= portBase <= 65535
      && ValidGroups(groups) && ring.Valid()
    }
  }

  /** One pair of a snapshot: the full key and the bytes stored there. */
  datatype Item = Item(key: string, value: Json)

  /** The faults of one event, by service name: the faults inside RequireIP, and the names whose
      release, write-back, file read, file write or file removal fails. A ReleaseIP that fails, in
      its listing or in its delete, changes nothing. */
  datatype Env = Env(require: map<string, RequireEnv>, release: set<string>, update: set<string>,
                     read: set<string>, write: set<string>, remove: set<string>)

  const NO_FAULTS := Env(map[], {}, {}, {}, {}, {})

  function RequireEnvOf(env: Env, name: string): RequireEnv {
    if name in env.require then env.require[name] else CALM
  }

  /** No delete inside RequireIP fails, so each id keeps one address. */
  ghost predicate KeepsReleases(env: Env) {
    forall n :: n in env.require ==> !env.require[n].release.Keeps()
  }

  /** elem is Elem, disk the files by service name, records the record store and writes its write log. */
  datatype World = World(elem: map<string, LVS>, disk: map<string, File>, ipam: State,
                         records: map<string, Json>, writes: seq<string>)

  /** The part of a key after its last slash. */
  function LastSegment(s: string): (r: string)
    ensures '/' !in r
  {
    if '/' in s then LastSegment(s[1..]) else s
  }

  function Id(name: string): Text { Word(STICK + name) }

  ghost function HolderOf(p: Pool, id: Text): Option<Text> {
    if t :| Holds(p, id, t) then Some(t) else None
  }

  function SetOf(s: seq<string>): set<string> { set x | x in s }

  function KeyOf(c: Config, name: string): string { c.dir + name }

  // handlerAddOrUpdate, first loop

  ghost function Accept(c: Config, it: Item): Option<LVS> {
    match Parse(c.groups, it.value)
    case None => None
    case Some(l) => if l.clusterName == c.cluster && LastSegment(it.key) == l.name then Some(l) else None
  }

  /** Elem after the first loop and the keys of the objects it collected. */
  ghost function Absorb(c: Config, elem: map<string, LVS>, li: seq<Item>): (map<string, LVS>, seq<string>) {
    if li == [] then (elem, [])
    else
      var it := li[|li| - 1];
      var (e, keys) := Absorb(c, elem, li[..|li| - 1]);
      match Accept(c, it)
      case None => (e, keys)
      case Some(l) => if it.key in e && e[it.key] == l then (e, keys) else (e[it.key := l], keys + [it.key])
  }

  // ConfigService

  /** The last octet of a printed IPv4 address. */
  function LastOctet(vip: Text): Option<int> {
    if vip.Address? && |vip.ip| == 4 then Some(vip.ip[3] as int) else None
  }

  function Completed(c: Config, l: LVS, vip: Text): LVS {
    l.(vip := vip, port := if l.port == 0 && LastOctet(vip).Some? then c.portBase + LastOctet(vip).value else l.port)
  }

  /** allocVIP: ask for the address, complete the shared object, write the record back if it changed. */
  ghost function AllocVIPStep(c: Config, w: World, key: string, env: Env): (r: (World, bool))
    requires c.ring.Valid() && key in w.elem
    ensures r.0.elem.Keys == w.elem.Keys
  {
    var l := w.elem[key];
    var holder := HolderOf(w.ipam.pool, Id(l.name));
    var (ipam, r) := RequireStep(c.ring, w.ipam, Id(l.name), l.vip, holder, holder, RequireEnvOf(env, l.name));
    match r
    case Err(_) => (w.(ipam := ipam), false)
    case Ok(vip) =>
      var done := Completed(c, l, vip);
      var w' := w.(ipam := ipam, elem := w.elem[key := done]);
      if vip == l.vip && (l.port != 0 || LastOctet(vip).None?) then (w', true)
      else if l.name in env.update then (w', false)
      else (w'.(records := w.records[c.dir + l.name := Tree(Marshal(done))], writes := w.writes + [c.dir + l.name]), true)
  }

  predicate CheckValid(l: LVS) { l.vip != EMPTY && l.port != 0 }

  ghost function Rendered(c: Config, l: LVS): File { RenderFile(c.script, LAddr(c.groups, l), l) }

  /** Render: write the file unless it already has this content. */
  function RenderStep(disk: map<string, File>, name: string, content: File, env: Env): (map<string, File>, bool) {
    if name in env.read then (disk, false)
    else if name in disk && disk[name] == content then (disk, false)
    else if name in env.write then (disk, false)
    else (disk[name := content], true)
  }

  ghost function ConfigStep(c: Config, leader: bool, w: World, key: string, env: Env): (r: (World, bool))
    requires c.ring.Valid() && key in w.elem
    ensures r.0.elem.Keys == w.elem.Keys
  {
    hide AllocVIPStep, RenderStep, Rendered;
    var (w', ok) := if leader then AllocVIPStep(c, w, key, env) else (w, CheckValid(w.elem[key]));
    if !ok then (w', false)
    else
      var l := w'.elem[key];
      var (disk, changed) := RenderStep(w'.disk, l.name, Rendered(c, l), env);
      (w'.(disk := disk), changed)
  }

  /** handlerAddOrUpdate, second loop. */
  ghost function ConfigAll(c: Config, leader: bool, w: World, keys: seq<string>, env: Env): (r: (World, bool))
    requires c.ring.Valid() && forall k :: k in keys ==> k in w.elem
    ensures r.0.elem.Keys == w.elem.Keys
  {
    hide ConfigStep;
    if keys == [] then (w, false)
    else
      var (w1, need) := ConfigAll(c, leader, w, keys[..|keys| - 1], env);
      var (w2, changed) := ConfigStep(c, leader, w1, keys[|keys| - 1], env);
      (w2, need || changed)
  }

  // What the steps mean

  /** Completion sets the address, and for an IPv4 address also a port that is zero: to the port base plus the
      last octet. Nothing else changes. */
  lemma CompletedExactly(c: Config, l: LVS, a: IP)
    requires IsAddress(a)
    ensures var done := Completed(c, l, Print(a));
            && done == l.(vip := done.vip, port := done.port) && done.vip == Print(a)
            && (l.port != 0 ==> done.port == l.port)
            && (l.port == 0 && |Canon(a)| == 4 ==> done.port == c.portBase + Canon(a)[3])
            && (l.port == 0 && |Canon(a)| == 16 ==> done.port == 0)
  {
    CanonIdempotent(a);
  }

  /** A rendering reports a change exactly when the disk changed, and then only in this file; unless a fault
      is in the way, the file has the content afterwards. */
  lemma RenderReports(disk: map<string, File>, name: string, content: File, env: Env)
    ensures var (disk', changed) := RenderStep(disk, name, content, env);
            && (changed <==> disk' != disk) && (changed ==> disk' == disk[name := content])
            && (name !in env.read && name !in env.write ==> name in disk' && disk'[name] == content)
            && (name in env.read || name in env.write ==> disk' == disk)
  {
    if disk[name := content] == disk { assert name in disk && disk[name] == content; }
  }

  /** A follower leaves a record without address or port alone, and writes every other one out. */
  lemma FollowerConfigExactly(c: Config, w: World, key: string, env: Env)
    requires c.ring.Valid() && key in w.elem
    ensures var l := w.elem[key];
            var (w', changed) := ConfigStep(c, false, w, key, env);
            && (l.vip == EMPTY || l.port == 0 ==> (w', changed) == (w, false))
            && (l.vip != EMPTY && l.port != 0 && l.name !in env.read && l.name !in env.write ==>
                 && w' == w.(disk := w.disk[l.name := Rendered(c, l)])
                 && (changed <==> w'.disk != w.disk))
  {
    hide Rendered;
    var l := w.elem[key];
    RenderReports(w.disk, l.name, Rendered(c, l), env);
    if l.name in w.disk && w.disk[l.name] == Rendered(c, l) { assert w.disk[l.name := Rendered(c, l)] == w.disk; }
  }

  /** Whatever the leader was granted stays with the record in Elem and in the address store when the write-back
      fails; the record store keeps the old value and no file is rendered. */
  lemma FailedWriteBackKeepsAddress(c: Config, w: World, key: string, env: Env)
    requires c.ring.Valid() && key in w.elem && w.elem[key].name in env.update
    ensures var l := w.elem[key];
            var h := HolderOf(w.ipam.pool, Id(l.name));
            var (s, r) := RequireStep(c.ring, w.ipam, Id(l.name), l.vip, h, h, RequireEnvOf(env, l.name));
            var (w', changed) := ConfigStep(c, true, w, key, env);
            && w'.records == w.records && w'.writes == w.writes && w'.ipam == s
            && (r.Ok? ==> w'.elem == w.elem[key := Completed(c, l, r.value)])
            && (r.Ok? && r.value != l.vip ==> w'.disk == w.disk && !changed)
  {
    hide RequireStep, RenderStep, Rendered, Marshal;
  }

  /** The last segment of a key is what follows its last slash, or the whole key. */
  lemma {:induction false} LastSegmentExactly(s: string, n: string)
    ensures LastSegment(s) == n <==> '/' !in n && (s == n || exists d: string :: s == d + "/" + n)
  {
    if '/' in s {
      LastSegmentExactly(s[1..], n);
      if d: string :| s == d + "/" + n {
        if d == "" { assert s[1..] == n; } else { assert s[1..] == d[1..] + "/" + n; }
      }
      if s[1..] == n && '/' !in n { assert s[0] == '/' by { assert s == [s[0]] + n; } assert s == "" + "/" + n; }
      if d: string :| s[1..] == d + "/" + n { assert s == [s[0]] + d + "/" + n; }
    } else {
      forall d: string ensures s != d + "/" + n { assert (d + "/" + n)[|d|] == '/'; }
    }
  }

  /** A record is taken from a snapshot exactly when its value parses to it, it is of this cluster, and its key
      ends in its name. */
  lemma AcceptExactly(c: Config, it: Item, l: LVS)
    ensures Accept(c, it) == Some(l) <==>
      && Parse(c.groups, it.value) == Some(l) && l.clusterName == c.cluster
      && '/' !in l.name && (it.key == l.name || exists d: string :: it.key == d + "/" + l.name)
  {
    LastSegmentExactly(it.key, l.name);
  }

  /** The stub of a name is what a stored value with that name and the cluster, and nothing else, reads as. */
  lemma StubReads(c: Config, name: string)
    ensures Stub(c, name)
         == Unmarshal(LVSDoc(None, Some(name), None, Some(c.cluster), None, None, None, None, None, None, None))
  {
  }

  // handlerDelete

  function KeysOf(li: seq<Item>): set<string> { set it | it in li :: it.key }

  function Gone(elem: map<string, LVS>, li: seq<Item>): set<string> {
    set k | k in elem && k !in KeysOf(li) :: elem[k].name
  }

  /** Release the ids of these names: with one address for each id, all their addresses go. */
  ghost function ReleaseAll(s: State, names: set<string>): State {
    State(s.pool.(held := map t | t in s.pool.held && (forall n :: n in names ==> s.pool.held[t] != Id(n)) :: s.pool.held[t]),
          s.cache - set n | n in names :: Id(n))
  }

  function Released(leader: bool, names: set<string>, env: Env): set<string> {
    if leader then names - env.release else {}
  }

  function Removed(disk: map<string, File>, names: set<string>, env: Env): set<string> {
    names * disk.Keys - env.remove
  }

  /** DeleteService for each of these names, in any order. */
  ghost function Purge(leader: bool, w: World, names: set<string>, env: Env): (World, bool) {
    (w.(ipam := ReleaseAll(w.ipam, Released(leader, names, env)), disk := w.disk - Removed(w.disk, names, env)),
     Removed(w.disk, names, env) != {})
  }

  /** The delete pass, whatever order the map and the list of names are walked in. */
  ghost function DeleteStep(leader: bool, w: World, li: seq<Item>, env: Env): (World, bool) {
    Purge(leader, w.(elem := map k | k in w.elem && k in KeysOf(li) :: w.elem[k]), Gone(w.elem, li), env)
  }

  ghost function EventStep(c: Config, leader: bool, w: World, li: seq<Item>, env: Env): (World, bool)
    requires c.ring.Valid()
  {
    var (elem, keys) := Absorb(c, w.elem, li);
    AbsorbedKeysAreInElem(c, w.elem, li);
    var (w1, configured) := ConfigAll(c, leader, w.(elem := elem), keys, env);
    var (w2, deleted) := DeleteStep(leader, w1, li, env);
    (w2, configured || deleted)
  }

  lemma {:induction false} AbsorbedKeysAreInElem(c: Config, elem: map<string, LVS>, li: seq<Item>)
    ensures forall k :: k in Absorb(c, elem, li).1 ==> k in Absorb(c, elem, li).0
  {
    if li != [] { AbsorbedKeysAreInElem(c, elem, li[..|li| - 1]); }
  }

  // Recover

  predicate HasStick(id: Text) { id.Word? && STICK <= id.s }

  /** strings.Replace(s, "l4-", "", -1). */
  function Strip(s: string): string {
    if STICK <= s then Strip(s[3..]) else if s == "" then "" else [s[0]] + Strip(s[1..])
  }

  function Stub(c: Config, name: string): LVS { NEW_LVS.(name := name, clusterName := c.cluster) }

  ghost function WithStubs(c: Config, elem: map<string, LVS>, names: set<string>): map<string, LVS> {
    OneMoreKey(c.dir, names, "");
    elem + map k | k in StubKeySet(c.dir, names) :: Stub(c, k[|c.dir|..])
  }

  /** A stub record for every cached id that starts with the stick. */
  ghost function RecoverStep(c: Config, w: World): World {
    w.(elem := WithStubs(c, w.elem, set id | id in w.ipam.cache && HasStick(id) :: Strip(id.s)))
  }

  function StubKeySet(dir: string, names: set<string>): set<string> { set n | n in names :: dir + n }

  lemma OneMoreKey(dir: string, names: set<string>, name: string)
    ensures StubKeySet(dir, names + {name}) == StubKeySet(dir, names) + {dir + name}
    ensures forall k :: k in StubKeySet(dir, names) ==> |k| >= |dir|
  {
  }

  lemma OneMoreStub(c: Config, elem: map<string, LVS>, names: set<string>, name: string)
    ensures WithStubs(c, elem, names + {name}) == WithStubs(c, elem, names)[c.dir + name := Stub(c, name)]
  {
    hide Stub, StubKeySet;
    var key := c.dir + name;
    OneMoreKey(c.dir, names, name);
    OneMoreKey(c.dir, names + {name}, name);
    assert key[|c.dir|..] == name;
    var m, m' := WithStubs(c, elem, names)[key := Stub(c, name)], WithStubs(c, elem, names + {name});
    assert m.Keys == m'.Keys;
    forall k | k in m ensures m[k] == m'[k] {}
  }

  class LVSImpl {
    const c: Config
    const alc: IPAllocator
    const ipam: IPAM
    var isLeader: bool
    var elem: map<string, LVS>
    var disk: map<string, File>
    var records: map<string, Json>
    var writes: seq<string>
    var toReload: bool

    ghost predicate Valid()
      reads this, ipam, alc.store
    {
      && c.Valid() && ipam.alc == alc && alc.Range() == c.ring
      && ipam.Valid() && Unique(ipam.View().pool)
    }

    ghost function View(): World
      reads this, ipam, ipam.alc.store
    {
      World(elem, disk, ipam.View(), records, writes)
    }

    constructor (c: Config, ipam: IPAM)
      requires c.Valid() && ipam.Valid() && ipam.alc.Range() == c.ring && Unique(ipam.View().pool)
      ensures Valid() && this.c == c && this.ipam == ipam && !isLeader && !toReload
      ensures View() == World(map[], map[], ipam.View(), map[], [])
    {
      this.c, this.ipam, this.alc := c, ipam, ipam.alc;
      isLeader, elem, disk, records, writes, toReload := false, map[], map[], map[], [], false;
    }

    method Parse(data: Json) returns (r: Option<LVS>)
      ensures r.Some? ==> data.Tree? && CheckHead(Unmarshal(data.doc)) && r.value == FillWeights(Unmarshal(data.doc))
      ensures DisjointGroups(c.groups) ==> r == Records.Parse(c.groups, data)
    {
      if data.Malformed? { return None; }
      r := Validate(c.groups, Unmarshal(data.doc));
    }

    method Render(name: string, content: File, env: Env) returns (changed: bool)
      modifies this`disk
      ensures (disk, changed) == RenderStep(old(disk), name, content, env)
    {
      if name in env.read { return false; }
      if name in disk && disk[name] == content { return false; }
      if name in env.write { return false; }
      disk := disk[name := content];
      return true;
    }

    method RenderTemplate(l: LVS, env: Env) returns (changed: bool)
      requires DisjointGroups(c.groups)
      modifies this`disk
      ensures (disk, changed) == RenderStep(old(disk), l.name, Rendered(c, l), env)
    {
      var laddr := "";
      if l.Servers() != [] {
        var g := GetLAddrGroupName(c.groups, l.Servers()[0].ip);
        laddr := Or(g, "");
      }
      changed := Render(l.name, RenderFile(c.script, laddr, l), env);
    }

    method AllocVIP(key: string, env: Env) returns (ok: bool)
      requires Valid() && key in elem && KeepsReleases(env)
      modifies this, ipam, alc.store
      ensures Valid() && isLeader == old(isLeader) && toReload == old(toReload)
      ensures (View(), ok) == AllocVIPStep(c, old(View()), key, env)
    {
      hide RequireStep, Marshal, Step, Unique, HolderOf, ValidFound, Config.Valid, Ring.Valid;
      var l := elem[key];
      var name, vip := l.name, l.vip;
      ghost var s := ipam.View();
      ghost var holder := HolderOf(s.pool, Id(name));
      HolderIsFound(s.pool, Id(name));
      var r;
      ghost var found, again;
      r, found, again := ipam.RequireIP(Id(name), vip, RequireEnvOf(env, name));
      FoundIsHolder(s.pool, Id(name), found);
      FoundIsHolder(s.pool, Id(name), again);
      RequireKeepsUnique(c.ring, s, Id(name), vip, holder, RequireEnvOf(env, name));
      if r.Err? { return false; }
      var update := vip != r.value;
      l := l.(vip := r.value);
      if l.port == 0 && LastOctet(r.value).Some? {
        l := l.(port := c.portBase + LastOctet(r.value).value);
        update := true;
      }
      elem := elem[key := l];
      if update {
        if name in env.update { return false; }
        records := records[c.dir + name := Tree(Marshal(l))];
        writes := writes + [c.dir + name];
      }
      return true;
    }

    method ConfigService(key: string, env: Env) returns (changed: bool)
      requires Valid() && key in elem && KeepsReleases(env) && DisjointGroups(c.groups)
      modifies this, ipam, alc.store
      ensures Valid() && isLeader == old(isLeader) && toReload == old(toReload)
      ensures (View(), changed) == ConfigStep(c, isLeader, old(View()), key, env)
    {
      hide AllocVIPStep, RenderStep, Rendered;
      if isLeader {
        var ok := AllocVIP(key, env);
        AllocKeepsKeys(c, old(View()), key, env);
        if !ok { return false; }
      } else {
        if !CheckValid(elem[key]) { return false; }
      }
      changed := RenderTemplate(elem[key], env);
    }

    method DeleteService(name: string, env: Env) returns (changed: bool)
      requires Valid()
      modifies this, ipam, alc.store
      ensures Valid() && isLeader == old(isLeader) && toReload == old(toReload)
      ensures (View(), changed) == Purge(isLeader, old(View()), {name}, env)
    {
      ghost var s := ipam.View();
      ReleaseOne(s, name);
      if isLeader {
        var ok;
        ghost var found;
        ok, found := ipam.ReleaseIP(Id(name), ReleaseEnv(name in env.release, DeleteOk));
        FoundIsHolder(s.pool, Id(name), found);
      }
      assert ipam.View() == ReleaseAll(s, Released(isLeader, {name}, env)) by {
        ReleaseNone(s);
        assert Released(isLeader, {name}, env) == if isLeader && name !in env.release then {name} else {};
      }
      if name in disk && name !in env.remove {
        assert Removed(disk, {name}, env) == {name};
        disk := disk - {name};
        return true;
      }
      assert Removed(disk, {name}, env) == {};
      assert disk - {} == disk;
      return false;
    }

    method HandlerAddOrUpdate(li: seq<Item>, env: Env) returns (needReload: bool)
      requires Valid() && KeepsReleases(env) && DisjointGroups(c.groups)
      modifies this, ipam, alc.store
      ensures Valid() && isLeader == old(isLeader) && toReload == old(toReload)
      ensures var (e, keys) := Absorb(c, old(elem), li);
              && (forall k :: k in keys ==> k in e)
              && (View(), needReload) == ConfigAll(c, isLeader, old(View()).(elem := e), keys, env)
    {
      hide Absorb, Accept, ConfigAll;
      var lbs := AbsorbItems(li);
      AbsorbedKeysAreInElem(c, old(elem), li);
      needReload := ConfigServices(lbs, env);
    }

    /** The first loop of handlerAddOrUpdate: enter what is accepted, collect what is new or differs. */
    method AbsorbItems(li: seq<Item>) returns (lbs: seq<string>)
      requires DisjointGroups(c.groups)
      modifies this`elem
      ensures (elem, lbs) == Absorb(c, old(elem), li)
    {
      hide Absorb, Accept;
      lbs := [];
      var i := 0;
      AbsorbNothing(c, elem);
      while i < |li|
        invariant 0 <= i <= |li|
        invariant (elem, lbs) == Absorb(c, old(elem), li[..i])
      {
        var it := li[i];
        AbsorbOne(c, old(elem), li, i);
        i := i + 1;
        var lb := Parse(it.value);
        if lb.None? { continue; }
        if lb.value.clusterName != c.cluster { continue; }
        if LastSegment(it.key) != lb.value.name { continue; }
        if it.key in elem && lb.value == elem[it.key] { continue; }
        lbs := lbs + [it.key];
        elem := elem[it.key := lb.value];
      }
      assert li[..i] == li;
    }

    /** The second loop of handlerAddOrUpdate. */
    method ConfigServices(lbs: seq<string>, env: Env) returns (needReload: bool)
      requires Valid() && KeepsReleases(env) && DisjointGroups(c.groups) && forall k :: k in lbs ==> k in elem
      modifies this, ipam, alc.store
      ensures Valid() && isLeader == old(isLeader) && toReload == old(toReload)
      ensures (View(), needReload) == ConfigAll(c, isLeader, old(View()), lbs, env)
    {
      hide ConfigStep;
      needReload := false;
      var i := 0;
      while i < |lbs|
        invariant 0 <= i <= |lbs|
        invariant Valid() && isLeader == old(isLeader) && toReload == old(toReload)
        invariant (View(), needReload) == ConfigAll(c, isLeader, old(View()), lbs[..i], env)
      {
        assert lbs[..i + 1][..i] == lbs[..i];
        var changed := ConfigService(lbs[i], env);
        if changed { needReload := true; }
        i := i + 1;
      }
      assert lbs[..i] == lbs;
    }

    /** The first loop of handlerDelete: drop the entries whose key left the snapshot, keep their names. */
    method TakeGone(li: seq<Item>) returns (lbs: seq<string>)
      modifies this`elem
      ensures elem == map k | k in old(elem) && k in KeysOf(li) :: old(elem)[k]
      ensures SetOf(lbs) == Gone(old(elem), li)
    {
      lbs := [];
      var rest := elem.Keys;
      while rest != {}
        invariant rest <= elem.Keys <= old(elem).Keys
        invariant forall k :: k in elem ==> elem[k] == old(elem)[k]
        invariant forall k :: k in old(elem) && k !in rest ==> (k in elem <==> k in KeysOf(li))
        invariant forall n :: n in lbs <==> exists k :: k in old(elem) && k !in elem && old(elem)[k].name == n
        decreases rest
      {
        var k :| k in rest;
        rest := rest - {k};
        var found := false;
        var i := 0;
        while i < |li|
          invariant 0 <= i <= |li|
          invariant !found && forall j :: 0 <= j < i ==> li[j].key != k
        {
          if k == li[i].key { found := true; break; }
          i := i + 1;
        }
        assert found ==> li[i] in li;
        if !found {
          lbs := lbs + [elem[k].name];
          elem := elem - {k};
        }
      }
    }

    method HandlerDelete(li: seq<Item>, env: Env) returns (needReload: bool)
      requires Valid()
      modifies this, ipam, alc.store
      ensures Valid() && isLeader == old(isLeader) && toReload == old(toReload)
      ensures (View(), needReload) == DeleteStep(isLeader, old(View()), li, env)
    {
      hide Purge, Gone;
      var lbs := TakeGone(li);
      needReload := DeleteServices(lbs, env);
    }

    /** The second loop of handlerDelete. */
    method DeleteServices(lbs: seq<string>, env: Env) returns (needReload: bool)
      requires Valid()
      modifies this, ipam, alc.store
      ensures Valid() && isLeader == old(isLeader) && toReload == old(toReload)
      ensures (View(), needReload) == Purge(isLeader, old(View()), SetOf(lbs), env)
    {
      hide Purge;
      needReload := false;
      PurgeNothing(isLeader, View(), env);
      assert SetOf(lbs[..0]) == {};
      var i := 0;
      while i < |lbs|
        invariant 0 <= i <= |lbs|
        invariant Valid() && isLeader == old(isLeader) && toReload == old(toReload)
        invariant (View(), needReload) == Purge(isLeader, old(View()), SetOf(lbs[..i]), env)
      {
        PurgeAdds(isLeader, old(View()), SetOf(lbs[..i]), lbs[i], env);
        assert SetOf(lbs[..i + 1]) == SetOf(lbs[..i]) + {lbs[i]};
        var changed := DeleteService(lbs[i], env);
        if changed { needReload := true; }
        i := i + 1;
      }
      assert lbs[..i] == lbs;
    }

    method HandlerEvent(li: seq<Item>, env: Env)
      requires Valid() && KeepsReleases(env) && DisjointGroups(c.groups)
      modifies this, ipam, alc.store
      ensures Valid() && isLeader == old(isLeader)
      ensures var (w, needReload) := EventStep(c, isLeader, old(View()), li, env);
              View() == w && toReload == (old(toReload) || needReload)
    {
      hide ConfigAll, DeleteStep, Absorb;
      var needReload := HandlerAddOrUpdate(li, env);
      var deleted := HandlerDelete(li, env);
      if deleted { needReload := true; }
      if needReload { toReload := true; }
    }

    /** The role change of Run: recover first, then take the role. */
    method Run(leader: bool)
      modifies this`elem, this`isLeader
      ensures View() == RecoverStep(c, old(View())) && isLeader == leader && (old(Valid()) ==> Valid())
    {
      Recover();
      isLeader := leader;
    }

    method Recover()
      modifies this`elem
      ensures View() == RecoverStep(c, old(View())) && (old(Valid()) ==> Valid())
    {
      hide WithStubs, Strip, Stub;
      var keys := ipam.GetKeys();
      ghost var done: set<string> := {};
      assert elem == WithStubs(c, elem, {}) by { NoStubs(c, elem); }
      var i := 0;
      while i < |keys|
        invariant 0 <= i <= |keys|
        invariant done == (set j | 0 <= j < i && HasStick(keys[j]) :: Strip(keys[j].s))
        invariant elem == WithStubs(c, old(elem), done)
      {
        if HasStick(keys[i]) {
          var name := Strip(keys[i].s);
          OneMoreStub(c, old(elem), done, name);
          elem := elem[c.dir + name := Stub(c, name)];
          done := done + {name};
        }
        i := i + 1;
      }
      forall id | id in ipam.cache && HasStick(id) ensures Strip(id.s) in done {
        var j :| 0 <= j < |keys| && keys[j] == id;
      }
      forall n | n in done ensures exists id :: id in ipam.cache && HasStick(id) && Strip(id.s) == n {
        var j :| 0 <= j < |keys| && HasStick(keys[j]) && Strip(keys[j].s) == n;
        assert keys[j] in keys;
      }
      assert done == set id | id in ipam.cache && HasStick(id) :: Strip(id.s);
    }
  }

  lemma NoStubs(c: Config, elem: map<string, LVS>)
    ensures WithStubs(c, elem, {}) == elem
  {
    assert StubKeySet(c.dir, {}) == {};
  }

  lemma HolderIsFound(p: Pool, id: Text)
    ensures ValidFound(p, id, HolderOf(p, id))
  {
    if HolderOf(p, id).None? {
      forall t | t in p.held ensures p.held[t] != id {
        if p.held[t] == id { assert Holds(p, id, t); }
      }
    }
  }

  lemma FoundIsHolder(p: Pool, id: Text, found: Option<Text>)
    requires Unique(p) && ValidFound(p, id, found)
    ensures found == HolderOf(p, id)
  {
    HolderIsFound(p, id);
  }

  lemma RequireKeepsUnique(ring: Ring, s: State, id: Text, req: Text, holder: Option<Text>, env: RequireEnv)
    requires ring.Valid() && Unique(s.pool) && ValidFound(s.pool, id, holder)
    requires !env.release.Keeps()
    ensures Unique(RequireStep(ring, s, id, req, holder, holder, env).0.pool)
  {
    hide RequireStep;
    var op := Require(id, req, holder, holder, env);
    UniqueExactly(ring, s, op);
    assert Step(ring, s, op) == RequireStep(ring, s, id, req, holder, holder, env).0;
  }

  lemma AllocKeepsKeys(c: Config, w: World, key: string, env: Env)
    requires c.ring.Valid() && key in w.elem
    ensures AllocVIPStep(c, w, key, env).0.elem.Keys == w.elem.Keys
  {
    hide RequireStep, Marshal;
  }

  lemma AbsorbNothing(c: Config, elem: map<string, LVS>)
    ensures Absorb(c, elem, []) == (elem, [])
  {
  }

  lemma AbsorbOne(c: Config, elem: map<string, LVS>, li: seq<Item>, i: nat)
    requires i < |li|
    ensures var (e, keys) := Absorb(c, elem, li[..i]);
            Absorb(c, elem, li[..i + 1]) ==
            match Parse(c.groups, li[i].value)
            case None => (e, keys)
            case Some(l) =>
              if l.clusterName != c.cluster || LastSegment(li[i].key) != l.name then (e, keys)
              else if li[i].key in e && e[li[i].key] == l then (e, keys)
              else (e[li[i].key := l], keys + [li[i].key])
  {
    assert li[..i + 1][..i] == li[..i];
  }

  lemma ReleaseNone(s: State)
    ensures ReleaseAll(s, {}) == s
  {
    assert (set n: string | n in {} :: Id(n)) == {};
  }

  /** Releasing one id removes every address it holds. */
  lemma ReleaseOne(s: State, name: string)
    requires Unique(s.pool)
    ensures var (s', ok) := ReleaseIPStep(s, Id(name), HolderOf(s.pool, Id(name)), CALM_RELEASE);
            ok && s' == ReleaseAll(s, {name})
  {
    HolderIsFound(s.pool, Id(name));
    var (s', ok) := ReleaseIPStep(s, Id(name), HolderOf(s.pool, Id(name)), CALM_RELEASE);
    assert (set n | n in {name} :: Id(n)) == {Id(name)};
    assert s'.pool.held == ReleaseAll(s, {name}).pool.held;
  }

  lemma PurgeNothing(leader: bool, w: World, env: Env)
    ensures Purge(leader, w, {}, env) == (w, false)
  {
    ReleaseNone(w.ipam);
    assert Released(leader, {}, env) == {} && Removed(w.disk, {}, env) == {};
    assert w.disk - {} == w.disk;
  }

  lemma PurgeAdds(leader: bool, w: World, names: set<string>, name: string, env: Env)
    ensures var (w1, b1) := Purge(leader, w, names, env);
            var (w2, b2) := Purge(leader, w1, {name}, env);
            Purge(leader, w, names + {name}, env) == (w2, b1 || b2)
  {
    var (w1, b1) := Purge(leader, w, names, env);
    var (w2, b2) := Purge(leader, w1, {name}, env);
    var (w3, b3) := Purge(leader, w, names + {name}, env);
    assert w2.disk == w3.disk;
    assert w2.ipam.pool.held == w3.ipam.pool.held;
    assert w2.ipam.cache == w3.ipam.cache;
    assert Removed(w.disk, names + {name}, env) == Removed(w.disk, names, env) + Removed(w1.disk, {name}, env);
  }
}
