/** LVS records: defaults, validation, JSON field trees, local address groups and the rendered
    configuration (pkg/lbm/types.go, pkg/lbm/lvsconf.go, pkg/lbm/tmpl.go, pkg/conf/conf.go). */
module Records {
  import opened NetIP
  import opened Ranges

  const MAX_LEN := 255
  const MAX_TIMEOUT := 10000
  const MAX_BPS := 10000
  const MAX_CPS := 20000

  datatype Backend = Backend(ip: Text, port: int, weight: int)

  datatype HealthCheck = HealthCheck(
    typ: string, urlPath: string, statusCode: int, interval: int, rise: int,
    timeout: int, maxRetries: int, delay: int, enable: bool)

  datatype LVSConf = LVSConf(
    strategy: string, persistenceTimeout: nat, synProxy: bool, kind: string, bpsLimit: nat, cpsLimit: nat)

  datatype LBStatus = LBStatus(status: string, msg: string, ip: string, hostName: string)

  /** servers is None for a nil slice: comparison tells it from an empty one. */
  datatype LVS = LVS(
    id: string, name: string, typ: string, clusterName: string, protocol: string, status: LBStatus,
    vip: Text, port: int, conf: LVSConf, monitor: HealthCheck, servers: Option<seq<Backend>>)
  {
    function Servers(): seq<Backend> { if servers.Some? then servers.value else [] }
  }

  const NEW_LVS := LVS("", "", "l4", "", "TCP", LBStatus("", "", "", ""), EMPTY, 0,
    LVSConf("rr", 0, false, "FNAT", 0, 0),
    HealthCheck("TCP", "/", 200, 7, 0, 10, 2, 5, false), None)

  // Local address groups

  type Groups = map<string, IPNet>

  ghost predicate ValidGroups(groups: Groups) { forall g :: g in groups ==> groups[g].Valid() }

  ghost predicate DisjointGroups(groups: Groups) {
    forall g, h :: g in groups && h in groups && g != h ==> Disjoint(groups[g], groups[h])
  }

  predicate InGroup(groups: Groups, g: string, ip: Text) {
    g in groups && ParseIP(ip).Some? && groups[g].Contains(ParseIP(ip).value)
  }

  /** The group of a backend address, for disjoint groups. */
  ghost function GroupOf(groups: Groups, ip: Text): Option<string> {
    if g :| InGroup(groups, g, ip) then Some(g) else None
  }

  lemma GroupIsUnique(groups: Groups, g: string, ip: Text)
    requires DisjointGroups(groups) && InGroup(groups, g, ip)
    ensures GroupOf(groups, ip) == Some(g)
  {
    var h := GroupOf(groups, ip).value;
    if g != h { OverlapIsAmbiguous(groups, g, h, ip); }
  }

  /** GetLAddrGroupName walks the map in whatever order: it returns some group that contains ip. */
  method GetLAddrGroupName(groups: Groups, ip: Text) returns (r: Option<string>)
    ensures r.Some? ==> InGroup(groups, r.value, ip)
    ensures r.None? ==> forall g :: !InGroup(groups, g, ip)
    ensures DisjointGroups(groups) ==> r == GroupOf(groups, ip)
  {
    var rest := groups.Keys;
    while rest != {}
      invariant rest <= groups.Keys
      invariant forall g :: g in groups && g !in rest ==> !InGroup(groups, g, ip)
      decreases rest
    {
      var g :| g in rest;
      rest := rest - {g};
      if ParseIP(ip).Some? && groups[g].Contains(ParseIP(ip).value) {
        if DisjointGroups(groups) { GroupIsUnique(groups, g, ip); }
        return Some(g);
      }
    }
    return None;
  }

  lemma OverlapIsAmbiguous(groups: Groups, g: string, h: string, ip: Text)
    requires g != h && InGroup(groups, g, ip) && InGroup(groups, h, ip)
    ensures !DisjointGroups(groups)
  {
    assert !Disjoint(groups[g], groups[h]);
  }

  /** Some address has two answers exactly when two groups overlap. */
  lemma AmbiguousExactly(groups: Groups)
    requires ValidGroups(groups)
    ensures !DisjointGroups(groups) <==> exists g, h, ip :: g != h && InGroup(groups, g, ip) && InGroup(groups, h, ip)
  {
    if g, h, ip :| g != h && InGroup(groups, g, ip) && InGroup(groups, h, ip) { OverlapIsAmbiguous(groups, g, h, ip); }
    if !DisjointGroups(groups) {
      var g, h :| g in groups && h in groups && g != h && !Disjoint(groups[g], groups[h]);
      var x: IP :| groups[g].Contains(x) && groups[h].Contains(x);
      PrintedIsContained(groups[g], x);
      PrintedIsContained(groups[h], x);
      assert InGroup(groups, g, Print(x)) && InGroup(groups, h, Print(x));
    }
  }

  lemma PrintedIsContained(net: IPNet, x: IP)
    requires net.Valid() && net.Contains(x)
    ensures ParseIP(Print(x)).Some? && net.Contains(ParseIP(Print(x)).value)
  {
    assert IsAddress(x);
    ParsePrint(x);
  }

  // Validation

  predicate Element(s: string, l: seq<string>) { s in l }

  predicate CheckName(name: string) { name != "" && |name| <= MAX_LEN }

  predicate HasPrefix(s: string, p: string) { p <= s }

  predicate CheckConf(c: LVSConf) {
    if c.strategy != "" then
      Element(c.strategy, ["rr", "wrr", "dh", "sh", "sed", "nq", "lc", "wlc", "lblc", "lblcr"])
    else if c.persistenceTimeout > MAX_TIMEOUT then false
    else if c.kind != "" then Element(c.kind, ["FNAT"])
    else c.bpsLimit <= MAX_BPS && c.cpsLimit <= MAX_CPS
  }

  predicate CheckL4(h: HealthCheck) {
    && Element(h.typ, ["TCP", "HTTP", "MISC"])
    && (h.typ == "HTTP" ==> HasPrefix(h.urlPath, "/"))
    && h.interval > 0 && h.timeout > 0 && h.maxRetries > 0 && h.delay > 0
  }

  predicate CheckPort(port: int) { 0 <= port <= 65535 }

  predicate CheckVIP(vip: Text) { vip != EMPTY ==> ParseIP(vip).Some? }

  predicate CheckProtocol(l: LVS) {
    && Element(l.protocol, ["TCP", "UDP"])
    && !(l.protocol == "TCP" && l.monitor.typ == "MISC")
    && !(l.protocol == "UDP" && l.monitor.typ != "MISC")
  }

  /** Everything Validate checks before it looks at the servers. */
  predicate CheckHead(l: LVS) {
    && Element(l.typ, ["l4", "l7"]) && CheckName(l.name) && CheckName(l.clusterName)
    && l.typ == "l4"
    && CheckVIP(l.vip) && CheckPort(l.port) && CheckProtocol(l) && CheckConf(l.conf) && CheckL4(l.monitor)
  }

  predicate CheckBackend(b: Backend) {
    ParseIP(b.ip).Some? && 0 < b.port <= 65535 && b.weight >= 0
  }

  function FillWeight(b: Backend): Backend { if b.weight == 0 then b.(weight := 100) else b }

  function FillAll(servers: seq<Backend>): seq<Backend> {
    seq(|servers|, i requires 0 <= i < |servers| => FillWeight(servers[i]))
  }

  function FillWeights(l: LVS): LVS {
    if l.servers.None? then l else l.(servers := Some(FillAll(l.servers.value)))
  }

  /** Every server is valid and all of them are in the group of the first. */
  ghost predicate CheckServers(groups: Groups, servers: seq<Backend>) {
    forall i :: 0 <= i < |servers| ==>
      CheckBackend(servers[i]) && GroupOf(groups, servers[i].ip).Some?
      && GroupOf(groups, servers[i].ip) == GroupOf(groups, servers[0].ip)
  }

  /** The record Validate leaves behind when it accepts. */
  ghost function Validated(groups: Groups, l: LVS): Option<LVS> {
    if CheckHead(l) && CheckServers(groups, l.Servers()) then Some(FillWeights(l)) else None
  }

  lemma CheckServersStep(groups: Groups, s: seq<Backend>, i: nat)
    requires i < |s|
    ensures CheckServers(groups, s[..i + 1]) <==>
            && CheckServers(groups, s[..i]) && CheckBackend(s[i])
            && GroupOf(groups, s[i].ip).Some? && GroupOf(groups, s[i].ip) == GroupOf(groups, s[0].ip)
    ensures CheckServers(groups, s) ==> CheckServers(groups, s[..i + 1])
  {
    hide GroupOf, CheckBackend;
    var p, q := s[..i], s[..i + 1];
    assert q[0] == s[0] && q[i] == s[i] && (i > 0 ==> p[0] == s[0]);
    assert forall j :: 0 <= j < i ==> p[j] == s[j] && q[j] == s[j];
    if CheckServers(groups, q) {
      forall j | 0 <= j < i
        ensures CheckBackend(p[j]) && GroupOf(groups, p[j].ip).Some? && GroupOf(groups, p[j].ip) == GroupOf(groups, p[0].ip)
      {
        assert q[j] == p[j];
      }
    }
  }

  lemma FillStep(s: seq<Backend>, i: nat)
    requires i < |s|
    ensures FillAll(s[..i + 1]) + s[i + 1..] == (FillAll(s[..i]) + s[i..])[i := FillWeight(s[i])]
  {
  }

  ghost predicate AllIn(groups: Groups, g: string, servers: seq<Backend>) {
    forall i :: 0 <= i < |servers| ==> CheckBackend(servers[i]) && InGroup(groups, g, servers[i].ip)
  }

  /** Whatever the groups and the map order, an accepted record has a valid head and all its servers in one
      group; with disjoint groups the order does not matter and acceptance is exact. */
  method Validate(groups: Groups, l: LVS) returns (r: Option<LVS>)
    ensures r.Some? ==> CheckHead(l) && r.value == FillWeights(l)
    ensures r.Some? && l.Servers() != [] ==> exists g :: AllIn(groups, g, l.Servers())
    ensures DisjointGroups(groups) ==> r == Validated(groups, l)
  {
    hide CheckHead, GroupOf, DisjointGroups, InGroup, CheckServers, CheckBackend, FillAll;
    if !CheckHead(l) { return None; }
    NoServers(groups);
    if l.servers.None? { return Some(l); }
    ghost var given := l.servers.value;
    var servers := l.servers.value;
    var laddr := "";
    var idx := 0;
    assert given[..0] == [] && given[0..] == given;
    while idx < |servers|
      invariant 0 <= idx <= |servers| == |given|
      invariant servers == FillAll(given[..idx]) + given[idx..] && |FillAll(given[..idx])| == idx
      invariant idx > 0 ==> AllIn(groups, laddr, given[..idx])
      invariant DisjointGroups(groups) ==> CheckServers(groups, given[..idx])
      invariant DisjointGroups(groups) && idx > 0 ==> GroupOf(groups, given[0].ip) == Some(laddr)
    {
      var be := servers[idx];
      assert be == given[idx];
      CheckServersStep(groups, given, idx);
      FillStep(given, idx);
      FillLength(given[..idx + 1]);
      if !CheckBackend(be) { return None; }
      be := FillWeight(be);
      var la := GetLAddrGroupName(groups, be.ip);
      if la.None? { return None; }
      if idx == 0 {
        laddr := la.value;
      } else if laddr != la.value {
        return None;
      }
      servers := servers[idx := be];
      idx := idx + 1;
    }
    assert given[..idx] == given && given[idx..] == [];
    assert servers == FillAll(given);
    assert given != [] ==> AllIn(groups, laddr, given);
    return Some(l.(servers := Some(servers)));
  }

  lemma NoServers(groups: Groups)
    ensures CheckServers(groups, []) && FillAll([]) == []
  {
  }

  lemma FillLength(s: seq<Backend>)
    ensures |FillAll(s)| == |s|
  {
  }

  /** With disjoint groups, the servers of an accepted record lie in the one block whose group name
      comes from the first server, and in no other block. */
  lemma AcceptedServersShareBlock(groups: Groups, l: LVS, r: LVS, i: nat, h: string)
    requires DisjointGroups(groups) && Validated(groups, l) == Some(r) && i < |r.Servers()|
    requires h in groups
    ensures GroupOf(groups, r.Servers()[0].ip).Some?
    ensures InGroup(groups, h, r.Servers()[i].ip) <==> GroupOf(groups, r.Servers()[0].ip) == Some(h)
  {
    assert r.Servers()[i] == FillWeight(l.Servers()[i]) && r.Servers()[0] == FillWeight(l.Servers()[0]);
    var g := GroupOf(groups, r.Servers()[i].ip).value;
    if InGroup(groups, h, r.Servers()[i].ip) { GroupIsUnique(groups, h, r.Servers()[i].ip); }
  }

  lemma GroupOfSome(groups: Groups, ip: Text)
    ensures GroupOf(groups, ip).Some? <==> exists g :: InGroup(groups, g, ip)
    ensures GroupOf(groups, ip).Some? ==> InGroup(groups, GroupOf(groups, ip).value, ip)
  {
  }

  /** Every server has an address, a port and a weight that is not negative, and lies in group g. */
  ghost predicate ServersIn(groups: Groups, g: string, servers: seq<Backend>) {
    forall i :: 0 <= i < |servers| ==>
      && ParseIP(servers[i].ip).Some? && 1 <= servers[i].port <= 65535 && servers[i].weight >= 0
      && g in groups && groups[g].Contains(ParseIP(servers[i].ip).value)
  }

  lemma CheckServersExactly(groups: Groups, servers: seq<Backend>)
    requires DisjointGroups(groups)
    ensures CheckServers(groups, servers) <==> servers == [] || exists g :: ServersIn(groups, g, servers)
  {
    hide DisjointGroups, GroupOf;
    if servers != [] && CheckServers(groups, servers) {
      var g := GroupOf(groups, servers[0].ip).value;
      forall i | 0 <= i < |servers| ensures InGroup(groups, g, servers[i].ip) { GroupOfSome(groups, servers[i].ip); }
      assert ServersIn(groups, g, servers);
    }
    if servers != [] {
      if g :| ServersIn(groups, g, servers) {
        forall i | 0 <= i < |servers| ensures GroupOf(groups, servers[i].ip) == Some(g) {
          GroupIsUnique(groups, g, servers[i].ip);
        }
      }
    }
  }

  /** The head of a record that Validate accepts: TCP with a TCP or HTTP check or UDP with a script; and either
      a known algorithm, which lets every other option pass, or all the limits. */
  lemma CheckHeadExactly(l: LVS)
    ensures CheckHead(l) <==>
      && l.typ == "l4" && 1 <= |l.name| <= 255 && 1 <= |l.clusterName| <= 255
      && (l.vip == EMPTY || !l.vip.Word?) && 0 <= l.port <= 65535
      && (l.protocol, l.monitor.typ) in {("TCP", "TCP"), ("TCP", "HTTP"), ("UDP", "MISC")}
      && (l.monitor.typ == "HTTP" ==> l.monitor.urlPath != "" && l.monitor.urlPath[0] == '/')
      && l.monitor.interval >= 1 && l.monitor.timeout >= 1 && l.monitor.maxRetries >= 1 && l.monitor.delay >= 1
      && (l.conf.strategy in {"rr", "wrr", "dh", "sh", "sed", "nq", "lc", "wlc", "lblc", "lblcr"}
          || (l.conf.strategy == "" && l.conf.persistenceTimeout <= 10000
              && (l.conf.kind == "FNAT" || (l.conf.kind == "" && l.conf.bpsLimit <= 10000 && l.conf.cpsLimit <= 20000))))
  {
  }

  /** What Validate accepts and what it leaves, field by field, for disjoint groups: a legal head, and servers
      that are all valid and all in one group; only weights change, and only from 0 to 100. */
  lemma ValidatedExactly(groups: Groups, l: LVS)
    requires DisjointGroups(groups)
    ensures Validated(groups, l).Some? <==>
      && l.typ == "l4" && 1 <= |l.name| <= 255 && 1 <= |l.clusterName| <= 255
      && (l.vip == EMPTY || !l.vip.Word?) && 0 <= l.port <= 65535
      && (l.protocol, l.monitor.typ) in {("TCP", "TCP"), ("TCP", "HTTP"), ("UDP", "MISC")}
      && (l.monitor.typ == "HTTP" ==> l.monitor.urlPath != "" && l.monitor.urlPath[0] == '/')
      && l.monitor.interval >= 1 && l.monitor.timeout >= 1 && l.monitor.maxRetries >= 1 && l.monitor.delay >= 1
      && (l.conf.strategy in {"rr", "wrr", "dh", "sh", "sed", "nq", "lc", "wlc", "lblc", "lblcr"}
          || (l.conf.strategy == "" && l.conf.persistenceTimeout <= 10000
              && (l.conf.kind == "FNAT" || (l.conf.kind == "" && l.conf.bpsLimit <= 10000 && l.conf.cpsLimit <= 20000))))
      && (l.Servers() == [] || exists g :: ServersIn(groups, g, l.Servers()))
    ensures Validated(groups, l).Some? ==>
      var r := Validated(groups, l).value;
      && r == l.(servers := r.servers) && (r.servers.None? <==> l.servers.None?) && |r.Servers()| == |l.Servers()|
      && forall i :: 0 <= i < |l.Servers()| ==>
           && r.Servers()[i].ip == l.Servers()[i].ip && r.Servers()[i].port == l.Servers()[i].port
           && r.Servers()[i].weight == if l.Servers()[i].weight == 0 then 100 else l.Servers()[i].weight
  {
    CheckHeadExactly(l);
    hide CheckHead, CheckServers, DisjointGroups;
    CheckServersExactly(groups, l.Servers());
  }

  // JSON as trees of optional fields

  datatype BackendDoc = BackendDoc(ip: Option<Text>, port: Option<int>, weight: Option<int>)

  datatype ConfDoc = ConfDoc(
    strategy: Option<string>, persistenceTimeout: Option<nat>, synProxy: Option<bool>,
    kind: Option<string>, bpsLimit: Option<nat>, cpsLimit: Option<nat>)

  datatype MonitorDoc = MonitorDoc(
    typ: Option<string>, urlPath: Option<string>, statusCode: Option<int>, interval: Option<int>,
    rise: Option<int>, timeout: Option<int>, maxRetries: Option<int>, delay: Option<int>, enable: Option<bool>)

  datatype StatusDoc = StatusDoc(status: Option<string>, msg: Option<string>, ip: Option<string>, hostName: Option<string>)

  datatype LVSDoc = LVSDoc(
    id: Option<string>, name: Option<string>, typ: Option<string>, clusterName: Option<string>,
    protocol: Option<string>, status: Option<StatusDoc>, vip: Option<Text>, port: Option<int>,
    conf: Option<ConfDoc>, monitor: Option<MonitorDoc>, servers: Option<seq<BackendDoc>>)

  /** The bytes of one store value: a field tree, or something Unmarshal rejects. */
  datatype Json = Malformed | Tree(doc: LVSDoc)

  function Omit<T(==)>(v: T, zero: T): Option<T> { if v == zero then None else Some(v) }

  function Or<T>(o: Option<T>, default: T): T { if o.Some? then o.value else default }

  function PrintBackend(b: Backend): BackendDoc {
    BackendDoc(Omit(b.ip, EMPTY), Omit(b.port, 0), Omit(b.weight, 0))
  }

  function ReadBackend(d: BackendDoc): Backend { Backend(Or(d.ip, EMPTY), Or(d.port, 0), Or(d.weight, 0)) }

  function PrintConf(c: LVSConf): ConfDoc {
    ConfDoc(Omit(c.strategy, ""), Omit(c.persistenceTimeout, 0), Omit(c.synProxy, false),
            Omit(c.kind, ""), Omit(c.bpsLimit, 0), Omit(c.cpsLimit, 0))
  }

  function ReadConf(d: ConfDoc, c: LVSConf): LVSConf {
    LVSConf(Or(d.strategy, c.strategy), Or(d.persistenceTimeout, c.persistenceTimeout), Or(d.synProxy, c.synProxy),
            Or(d.kind, c.kind), Or(d.bpsLimit, c.bpsLimit), Or(d.cpsLimit, c.cpsLimit))
  }

  function PrintMonitor(h: HealthCheck): MonitorDoc {
    MonitorDoc(Omit(h.typ, ""), Omit(h.urlPath, ""), Omit(h.statusCode, 0), Omit(h.interval, 0), Omit(h.rise, 0),
               Omit(h.timeout, 0), Omit(h.maxRetries, 0), Omit(h.delay, 0), Omit(h.enable, false))
  }

  function ReadMonitor(d: MonitorDoc, h: HealthCheck): HealthCheck {
    HealthCheck(Or(d.typ, h.typ), Or(d.urlPath, h.urlPath), Or(d.statusCode, h.statusCode), Or(d.interval, h.interval),
                Or(d.rise, h.rise), Or(d.timeout, h.timeout), Or(d.maxRetries, h.maxRetries), Or(d.delay, h.delay),
                Or(d.enable, h.enable))
  }

  function PrintStatus(s: LBStatus): StatusDoc {
    StatusDoc(Omit(s.status, ""), Omit(s.msg, ""), Omit(s.ip, ""), Omit(s.hostName, ""))
  }

  function ReadStatus(d: StatusDoc, s: LBStatus): LBStatus {
    LBStatus(Or(d.status, s.status), Or(d.msg, s.msg), Or(d.ip, s.ip), Or(d.hostName, s.hostName))
  }

  /** json.Marshal: zero fields and empty lists are omitted, nested structs are not. */
  function Marshal(l: LVS): LVSDoc {
    LVSDoc(Omit(l.id, ""), Omit(l.name, ""), Omit(l.typ, ""), Omit(l.clusterName, ""), Omit(l.protocol, ""),
           Some(PrintStatus(l.status)), Omit(l.vip, EMPTY), Omit(l.port, 0),
           Some(PrintConf(l.conf)), Some(PrintMonitor(l.monitor)),
           if l.Servers() == [] then None
           else Some(seq(|l.Servers()|, i requires 0 <= i < |l.Servers()| => PrintBackend(l.Servers()[i]))))
  }

  /** json.Unmarshal over the NewLVS defaults: an absent field keeps its default. */
  function Unmarshal(d: LVSDoc): LVS {
    var l := NEW_LVS;
    LVS(Or(d.id, l.id), Or(d.name, l.name), Or(d.typ, l.typ), Or(d.clusterName, l.clusterName), Or(d.protocol, l.protocol),
        if d.status.Some? then ReadStatus(d.status.value, l.status) else l.status,
        Or(d.vip, l.vip), Or(d.port, l.port),
        if d.conf.Some? then ReadConf(d.conf.value, l.conf) else l.conf,
        if d.monitor.Some? then ReadMonitor(d.monitor.value, l.monitor) else l.monitor,
        if d.servers.Some?
        then Some(seq(|d.servers.value|, i requires 0 <= i < |d.servers.value| => ReadBackend(d.servers.value[i])))
        else l.servers)
  }

  /** Parse: nothing for bytes that do not unmarshal or a record that Validate refuses. */
  ghost function Parse(groups: Groups, j: Json): Option<LVS> {
    match j
    case Malformed => None
    case Tree(doc) => Validated(groups, Unmarshal(doc))
  }

  /** A stored value gives each field that it has, and for each that it lacks the default of a new record. */
  lemma UnmarshalReads(d: LVSDoc)
    ensures var l := Unmarshal(d);
      && l.id == Or(d.id, "") && l.name == Or(d.name, "") && l.typ == Or(d.typ, "l4")
      && l.clusterName == Or(d.clusterName, "") && l.protocol == Or(d.protocol, "TCP")
      && l.vip == Or(d.vip, EMPTY) && l.port == Or(d.port, 0)
    ensures var l, s := Unmarshal(d), Or(d.status, StatusDoc(None, None, None, None));
      && l.status.status == Or(s.status, "") && l.status.msg == Or(s.msg, "")
      && l.status.ip == Or(s.ip, "") && l.status.hostName == Or(s.hostName, "")
    ensures var l, k := Unmarshal(d), Or(d.conf, ConfDoc(None, None, None, None, None, None));
      && l.conf.strategy == Or(k.strategy, "rr") && l.conf.persistenceTimeout == Or(k.persistenceTimeout, 0)
      && l.conf.synProxy == Or(k.synProxy, false) && l.conf.kind == Or(k.kind, "FNAT")
      && l.conf.bpsLimit == Or(k.bpsLimit, 0) && l.conf.cpsLimit == Or(k.cpsLimit, 0)
    ensures var l, m := Unmarshal(d), Or(d.monitor, MonitorDoc(None, None, None, None, None, None, None, None, None));
      && l.monitor.typ == Or(m.typ, "TCP") && l.monitor.urlPath == Or(m.urlPath, "/")
      && l.monitor.statusCode == Or(m.statusCode, 200) && l.monitor.interval == Or(m.interval, 7)
      && l.monitor.rise == Or(m.rise, 0) && l.monitor.timeout == Or(m.timeout, 10)
      && l.monitor.maxRetries == Or(m.maxRetries, 2) && l.monitor.delay == Or(m.delay, 5)
      && l.monitor.enable == Or(m.enable, false)
    ensures var l := Unmarshal(d);
      && (l.servers.None? <==> d.servers.None?)
      && (d.servers.Some? ==> |l.servers.value| == |d.servers.value| && forall i :: 0 <= i < |d.servers.value| ==>
            var b, e := l.servers.value[i], d.servers.value[i];
            b.ip == Or(e.ip, EMPTY) && b.port == Or(e.port, 0) && b.weight == Or(e.weight, 0))
  {
  }

  /** A printed record has exactly the fields that are not zero, with their values; status, conf and monitor
      are always there. */
  lemma MarshalPrints(l: LVS)
    ensures var d := Marshal(l);
      && (d.vip.Some? <==> l.vip != EMPTY) && (d.vip.Some? ==> d.vip.value == l.vip)
      && (d.port.Some? <==> l.port != 0) && (d.port.Some? ==> d.port.value == l.port)
      && (d.name.Some? <==> l.name != "") && (d.name.Some? ==> d.name.value == l.name)
      && (d.clusterName.Some? <==> l.clusterName != "") && (d.clusterName.Some? ==> d.clusterName.value == l.clusterName)
      && (d.servers.Some? <==> l.Servers() != []) && (d.servers.Some? ==> |d.servers.value| == |l.Servers()|)
      && d.status.Some? && d.conf.Some? && d.monitor.Some?
      && (d.conf.value.bpsLimit.Some? <==> l.conf.bpsLimit != 0) && (d.conf.value.cpsLimit.Some? <==> l.conf.cpsLimit != 0)
      && (d.monitor.value.statusCode.Some? <==> l.monitor.statusCode != 0)
  {
  }

  // The normal form

  function NonEmpty(s: string, default: string): string { if s == "" then default else s }

  /** Printing and parsing back changes these fields only. */
  function Norm(l: LVS): LVS {
    l.(conf := l.conf.(strategy := NonEmpty(l.conf.strategy, "rr"), kind := NonEmpty(l.conf.kind, "FNAT")),
       monitor := l.monitor.(urlPath := NonEmpty(l.monitor.urlPath, "/"),
                             statusCode := if l.monitor.statusCode == 0 then 200 else l.monitor.statusCode),
       servers := if l.Servers() == [] then None else l.servers)
  }

  /** A record as Validate leaves it: accepted, with its weights filled. */
  ghost predicate Valid(groups: Groups, l: LVS) { Validated(groups, l) == Some(l) }

  lemma ValidatedIsValid(groups: Groups, l: LVS)
    requires Validated(groups, l).Some?
    ensures Valid(groups, Validated(groups, l).value)
  {
    var r := Validated(groups, l).value;
    forall i | 0 <= i < |r.Servers()|
      ensures r.Servers()[i] == FillWeight(l.Servers()[i]) && FillWeight(r.Servers()[i]) == r.Servers()[i]
    {}
    if r.servers.Some? { assert FillWeights(r).servers.value == r.servers.value; }
  }

  lemma ReadPrintFields(l: LVS)
    requires CheckHead(l.(vip := EMPTY, port := 0))
    ensures var n := Unmarshal(Marshal(l));
            && n.(servers := None) == Norm(l).(servers := None)
  {
  }

  lemma ReadPrintServers(l: LVS)
    ensures Unmarshal(Marshal(l)).servers == Norm(l).servers
  {
    if l.Servers() != [] {
      var s := Unmarshal(Marshal(l)).servers.value;
      forall i | 0 <= i < |s| ensures s[i] == l.Servers()[i] {}
      assert s == l.Servers();
    }
  }

  lemma NormKeepsValid(groups: Groups, l: LVS)
    requires Valid(groups, l)
    ensures Valid(groups, Norm(l)) && Norm(Norm(l)) == Norm(l)
  {
    assert Norm(l).Servers() == l.Servers();
  }

  /** Print then parse is the normal form, which is stable and valid. */
  lemma PrintParseNormalizes(groups: Groups, l: LVS)
    requires Valid(groups, l)
    ensures Parse(groups, Tree(Marshal(l))) == Some(Norm(l))
    ensures Valid(groups, Norm(l)) && Norm(Norm(l)) == Norm(l)
    ensures Parse(groups, Tree(Marshal(Norm(l)))) == Some(Norm(l))
  {
    hide Marshal, Unmarshal, Norm, CheckServers, FillWeights;
    NormKeepsValid(groups, l);
    ReadPrint(l);
    ReadPrint(Norm(l));
  }

  lemma ReadPrint(l: LVS)
    requires CheckHead(l.(vip := EMPTY, port := 0))
    ensures Unmarshal(Marshal(l)) == Norm(l)
  {
    ReadPrintFields(l);
    ReadPrintServers(l);
    hide Marshal, Unmarshal, Norm;
    var n, m := Unmarshal(Marshal(l)), Norm(l);
    assert n == n.(servers := None).(servers := n.servers);
    assert m == m.(servers := None).(servers := m.servers);
  }

  /** A valid record with an address and a port filled in is read back from the store as its normal form
      exactly when the port is one, and refused otherwise. */
  lemma CompletedReadsBack(groups: Groups, l: LVS, vip: Text, port: int)
    requires Valid(groups, l) && CheckVIP(vip)
    ensures var done := l.(vip := vip, port := port);
            Parse(groups, Tree(Marshal(done))) == if CheckPort(port) then Some(Norm(done)) else None
  {
    var done := l.(vip := vip, port := port);
    ReadPrint(done);
    assert Norm(done).Servers() == l.Servers();
    if CheckPort(port) {
      assert Valid(groups, done);
      NormKeepsValid(groups, done);
    }
  }

  // The rendered configuration

  datatype Check =
    | MiscCheck(script: string, timeout: int)
    | HttpGet(path: string, statusCode: int, timeout: int, retries: int)
    | TcpCheck(timeout: int, retries: int, delay: int)

  datatype RealServer = RealServer(ip: Text, port: int, weight: int, check: Check)

  /** The slots of the lvsTmpl text; an absent option leaves its line out. */
  datatype File = File(
    vip: Text, port: int, interval: int, algo: string, kind: string, udp: bool,
    persistence: Option<nat>, synProxy: bool, bps: Option<nat>, cps: Option<nat>,
    laddr: Option<string>, servers: seq<RealServer>)

  function RenderCheck(script: string, h: HealthCheck): Check {
    if h.typ == "MISC" then MiscCheck(script, h.timeout)
    else if h.typ == "HTTP" then HttpGet(h.urlPath, h.statusCode, h.timeout, h.maxRetries)
    else TcpCheck(h.timeout, h.maxRetries, h.delay)
  }

  function RenderFile(script: string, laddr: string, l: LVS): File {
    File(l.vip, l.port, l.monitor.interval, NonEmpty(l.conf.strategy, "rr"), NonEmpty(l.conf.kind, "FNAT"),
         l.protocol == "UDP", Omit(l.conf.persistenceTimeout, 0), l.conf.synProxy,
         Omit(l.conf.bpsLimit, 0), Omit(l.conf.cpsLimit, 0), Omit(laddr, ""),
         seq(|l.Servers()|, i requires 0 <= i < |l.Servers()| =>
           RealServer(l.Servers()[i].ip, l.Servers()[i].port, l.Servers()[i].weight, RenderCheck(script, l.monitor))))
  }

  /** The laddr_group_name that renderTemplate passes: the group of the first server. */
  ghost function LAddr(groups: Groups, l: LVS): string {
    if l.Servers() == [] then "" else Or(GroupOf(groups, l.Servers()[0].ip), "")
  }

  /** A round trip through the store changes the rendered text of a valid record exactly when it has
      servers under an HTTP monitor with status code 0. */
  lemma NormRendersSame(groups: Groups, script: string, l: LVS)
    requires Valid(groups, l)
    ensures LAddr(groups, Norm(l)) == LAddr(groups, l)
    ensures RenderFile(script, LAddr(groups, l), Norm(l)) == RenderFile(script, LAddr(groups, l), l)
       <==> !(l.monitor.typ == "HTTP" && l.monitor.statusCode == 0 && l.Servers() != [])
  {
    var n := Norm(l);
    assert n.Servers() == l.Servers();
    var f, g := RenderFile(script, LAddr(groups, l), l), RenderFile(script, LAddr(groups, l), n);
    if l.monitor.typ == "HTTP" && l.monitor.statusCode == 0 && l.Servers() != [] {
      assert f.servers[0].check != g.servers[0].check;
    } else {
      assert f.servers == g.servers;
    }
  }

  /** What the text depends on: the settings after defaults, and the monitor fields of its check type. */
  ghost predicate SameEffect(l: LVS, m: LVS) {
    && l.vip == m.vip && l.port == m.port && l.monitor.interval == m.monitor.interval
    && NonEmpty(l.conf.strategy, "rr") == NonEmpty(m.conf.strategy, "rr")
    && NonEmpty(l.conf.kind, "FNAT") == NonEmpty(m.conf.kind, "FNAT")
    && (l.protocol == "UDP" <==> m.protocol == "UDP")
    && l.conf.persistenceTimeout == m.conf.persistenceTimeout && l.conf.synProxy == m.conf.synProxy
    && l.conf.bpsLimit == m.conf.bpsLimit && l.conf.cpsLimit == m.conf.cpsLimit
    && l.Servers() == m.Servers()
    && (l.Servers() != [] ==>
         && (l.monitor.typ == "MISC" <==> m.monitor.typ == "MISC") && (l.monitor.typ == "HTTP" <==> m.monitor.typ == "HTTP")
         && l.monitor.timeout == m.monitor.timeout
         && (l.monitor.typ != "MISC" ==> l.monitor.maxRetries == m.monitor.maxRetries)
         && (l.monitor.typ == "HTTP" ==> l.monitor.urlPath == m.monitor.urlPath && l.monitor.statusCode == m.monitor.statusCode)
         && (l.monitor.typ != "MISC" && l.monitor.typ != "HTTP" ==> l.monitor.delay == m.monitor.delay))
  }

  /** Two records in the same address group have the same file exactly when they have the same effect. */
  lemma SameFileSameEffect(script: string, laddr: string, l: LVS, m: LVS)
    ensures RenderFile(script, laddr, l) == RenderFile(script, laddr, m) <==> SameEffect(l, m)
  {
    var f, g := RenderFile(script, laddr, l), RenderFile(script, laddr, m);
    if f == g {
      assert |l.Servers()| == |f.servers| == |g.servers| == |m.Servers()|;
      forall i | 0 <= i < |l.Servers()| ensures l.Servers()[i] == m.Servers()[i] {
        assert f.servers[i] == g.servers[i];
      }
      assert l.Servers() == m.Servers();
      if l.Servers() != [] { assert f.servers[0].check == g.servers[0].check; }
    }
    if SameEffect(l, m) {
      assert f.servers == g.servers;
    }
  }

  /** What the file says, slot by slot. */
  lemma FileShows(script: string, laddr: string, l: LVS)
    ensures var f := RenderFile(script, laddr, l);
      && f.vip == l.vip && f.port == l.port && f.interval == l.monitor.interval
      && f.algo == (if l.conf.strategy == "" then "rr" else l.conf.strategy)
      && f.kind == (if l.conf.kind == "" then "FNAT" else l.conf.kind)
      && (f.udp <==> l.protocol == "UDP") && (f.synProxy <==> l.conf.synProxy)
      && (if l.conf.persistenceTimeout == 0 then f.persistence.None? else f.persistence == Some(l.conf.persistenceTimeout))
      && (if l.conf.bpsLimit == 0 then f.bps.None? else f.bps == Some(l.conf.bpsLimit))
      && (if l.conf.cpsLimit == 0 then f.cps.None? else f.cps == Some(l.conf.cpsLimit))
      && (if laddr == "" then f.laddr.None? else f.laddr == Some(laddr))
    ensures var f := RenderFile(script, laddr, l);
      |f.servers| == |l.Servers()| && forall i :: 0 <= i < |l.Servers()| ==>
        var s, b, m := f.servers[i], l.Servers()[i], l.monitor;
        && s.ip == b.ip && s.port == b.port && s.weight == b.weight
        && (m.typ == "MISC" ==> s.check.MiscCheck? && s.check.script == script && s.check.timeout == m.timeout)
        && (m.typ == "HTTP" ==> s.check.HttpGet? && s.check.path == m.urlPath && s.check.statusCode == m.statusCode
                                && s.check.timeout == m.timeout && s.check.retries == m.maxRetries)
        && (m.typ != "MISC" && m.typ != "HTTP" ==>
              s.check.TcpCheck? && s.check.timeout == m.timeout && s.check.retries == m.maxRetries && s.check.delay == m.delay)
  {
  }

  /** The address group in the file: one that contains the first server, and none without servers or group. */
  lemma LAddrShows(groups: Groups, l: LVS)
    ensures l.Servers() == [] ==> LAddr(groups, l) == ""
    ensures l.Servers() != [] && (exists g :: InGroup(groups, g, l.Servers()[0].ip)) ==>
              InGroup(groups, LAddr(groups, l), l.Servers()[0].ip)
    ensures l.Servers() != [] && (forall g :: !InGroup(groups, g, l.Servers()[0].ip)) ==> LAddr(groups, l) == ""
  {
    if l.Servers() != [] { GroupOfSome(groups, l.Servers()[0].ip); }
  }

  // Reading a file back

  function CheckRead(h: HealthCheck, check: Check): HealthCheck {
    match check
    case MiscCheck(_, timeout) => h.(typ := "MISC", timeout := timeout)
    case HttpGet(path, code, timeout, retries) =>
      h.(typ := "HTTP", urlPath := path, statusCode := code, timeout := timeout, maxRetries := retries)
    case TcpCheck(timeout, retries, delay) => h.(typ := "TCP", timeout := timeout, maxRetries := retries, delay := delay)
  }

  /** A record with the settings that a file shows. */
  function ReadFile(f: File): LVS {
    NEW_LVS.(
      vip := f.vip, port := f.port, protocol := if f.udp then "UDP" else "TCP",
      conf := LVSConf(f.algo, Or(f.persistence, 0), f.synProxy, f.kind, Or(f.bps, 0), Or(f.cps, 0)),
      monitor := (if f.servers == [] then NEW_LVS.monitor else CheckRead(NEW_LVS.monitor, f.servers[0].check)).(interval := f.interval),
      servers := Some(seq(|f.servers|, i requires 0 <= i < |f.servers| =>
                            Backend(f.servers[i].ip, f.servers[i].port, f.servers[i].weight))))
  }

  /** Nothing that matters is lost in a file: the record read back has the same effect, and renders to the
      same file. */
  lemma FileReadsBack(script: string, laddr: string, l: LVS)
    ensures var f := RenderFile(script, laddr, l);
            SameEffect(ReadFile(f), l) && RenderFile(script, laddr, ReadFile(f)) == f
  {
    var f := RenderFile(script, laddr, l);
    var r := ReadFile(f);
    assert r.Servers() == l.Servers() by {
      forall i | 0 <= i < |l.Servers()| ensures r.Servers()[i] == l.Servers()[i] {}
    }
    SameFileSameEffect(script, laddr, r, l);
  }
}
