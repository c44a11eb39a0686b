/** The next-fit ring allocator of pkg/ipam/backend/allocator/allocator.go over the etcd store
    of pkg/ipam/backend/etcd/backend.go. */
module Allocator {
  import opened NetIP
  import opened Ranges

  datatype Failure = StoreError | OutOfRange | Taken | NoneFree

  datatype Result<+T> = Ok(value: T) | Err(failure: Failure)

  // Ring positions

  function At(ring: Ring, k: nat): IP
    requires ring.Valid() && k < ring.Size()
  {
    Bytes(Value(ring.start) + k)
  }

  function Pos(ring: Ring, a: IP): nat
    requires ring.Valid() && ring.Has(a)
  {
    Value(a) - Value(ring.start)
  }

  /** Positions 0..size-1 and the addresses of the range are in bijection; the addresses are canonical. */
  lemma AtPos(ring: Ring, k: nat)
    requires ring.Valid() && k < ring.Size()
    ensures ring.Has(At(ring, k)) && Pos(ring, At(ring, k)) == k
    ensures IsAddress(At(ring, k)) && Canon(At(ring, k)) == At(ring, k)
  {
    hide Value, Bytes, Canon, To4, Pow2;
    var n := Value(ring.start) + k;
    BytesShape(n);
    ValueBound(ring.start);
    ValueBound(ring.end);
    BytesLength(n, |ring.start|);
    LeadingByteIsCanonical(At(ring, k));
  }

  lemma PosAt(ring: Ring, a: IP)
    requires ring.Valid() && ring.Has(a)
    ensures Pos(ring, a) < ring.Size() && At(ring, Pos(ring, a)) == a
  {
    AtPos(ring, Pos(ring, a));
    ValueInjective(At(ring, Pos(ring, a)), a);
  }

  lemma InRangeIsCanonical(ring: Ring, a: IP)
    requires ring.Valid() && ring.Has(a)
    ensures IsAddress(a) && Canon(a) == a
  {
    PosAt(ring, a);
    AtPos(ring, Pos(ring, a));
  }

  /** k modulo the ring size, for positions less than two turns away. */
  function Wrap(ring: Ring, k: nat): (w: nat)
    requires ring.Valid() && k < 2 * ring.Size()
    ensures w < ring.Size()
  {
    if k < ring.Size() then k else k - ring.Size()
  }

  /** nextIP: the end of the range is followed by its start. */
  function NextIn(ring: Ring, cur: IP): IP {
    if Equal(cur, ring.end) then ring.start else NextIP(cur)
  }

  lemma NextIsSuccessor(ring: Ring, cur: IP)
    requires ring.Valid() && IsAddress(cur) && ring.Has(Canon(cur))
    ensures NextIn(ring, cur) == At(ring, Wrap(ring, Pos(ring, Canon(cur)) + 1))
  {
    hide Value, Bytes, Canon, To4, Pow2, Equal, NextIP;
    var c := Canon(cur);
    LeadingByteIsCanonicalEnds(ring);
    EqualIsSameText(cur, ring.end);
    PosAt(ring, ring.start);
    if c == ring.end {
      assert Pos(ring, c) + 1 == ring.Size();
      assert At(ring, 0) == ring.start;
    } else {
      if Value(c) == Value(ring.end) { ValueInjective(c, ring.end); }
      NextIPExact(cur);
      assert NextIP(cur) == Bytes(Value(c) + 1) by { NextIPIsBytes(cur); }
    }
  }

  lemma LeadingByteIsCanonicalEnds(ring: Ring)
    requires ring.Valid()
    ensures Canon(ring.start) == ring.start && Canon(ring.end) == ring.end
  {
    InRangeIsCanonical(ring, ring.start);
    InRangeIsCanonical(ring, ring.end);
  }

  function Iterate(ring: Ring, k: nat): IP {
    if k == 0 then ring.start else NextIn(ring, Iterate(ring, k - 1))
  }

  /** Walking k steps from start lands k modulo the ring size after it. */
  lemma {:induction false} IterateIsModular(ring: Ring, k: nat)
    requires ring.Valid()
    ensures Iterate(ring, k) == At(ring, k % ring.Size())
  {
    if k == 0 {
      PosAt(ring, ring.start);
    } else {
      hide NextIn, At, Canon, To4, Value;
      IterateIsModular(ring, k - 1);
      ModStep(k, ring.Size());
      AtPos(ring, (k - 1) % ring.Size());
      NextIsSuccessor(ring, Iterate(ring, k - 1));
    }
  }

  lemma ModStep(k: nat, n: nat)
    requires k > 0 && n > 0
    ensures k % n == (if (k - 1) % n + 1 == n then 0 else (k - 1) % n + 1)
  {
    var q, r := (k - 1) / n, (k - 1) % n;
    assert k - 1 == n * q + r;
    if r + 1 == n {
      assert k == n * (q + 1) + 0;
      DivUnique(k, n, q + 1, 0);
    } else {
      DivUnique(k, n, q, r + 1);
    }
  }

  // The etcd directory of one subnet: printed addresses to ids, and the cursor

  const LAST_IP := "last_reserved_ip"

  /** held maps the text of each reserved address to its id; cursor is what last_reserved_ip holds. */
  datatype Pool = Pool(held: map<Text, Text>, cursor: Option<Text>) {
    /** Only Reserve writes keys other than the cursor, so they are printed addresses. */
    ghost predicate Valid() {
      forall t :: t in held ==> t.Address?
    }
  }

  /** Keys read back as the addresses they were printed from. */
  lemma ParsePrintHeld(p: Pool)
    requires p.Valid()
    ensures forall t :: t in p.held ==> ParseIP(t).Some? && Print(ParseIP(t).value) == t
  {
    forall t | t in p.held ensures ParseIP(t).Some? && Print(ParseIP(t).value) == t { ParsePrint(t.ip); }
  }

  /** A check or a write that does not reach the store, or a write applied whose answer is lost. */
  datatype ReserveFault = NoFault | CheckFails | WriteFails | WriteLost | CursorFails | CursorLost

  datatype Reservation = Granted | Held | Failed

  /** Reserve: refuse a key that exists, else write the holder and then the cursor. */
  function ReserveStep(p: Pool, id: Text, ip: IP, fault: ReserveFault): (Pool, Reservation) {
    if fault == CheckFails then (p, Failed)
    else if Print(ip) in p.held then (p, Held)
    else if fault == WriteFails then (p, Failed)
    else
      var written := p.(held := p.held[Print(ip) := id]);
      if fault == WriteLost || fault == CursorFails then (written, Failed)
      else (written.(cursor := Some(Print(ip))), if fault == CursorLost then Failed else Granted)
  }

  /** The entry a scan of the listing meets first for an id; the order of the listing is left open. */
  ghost predicate ValidFound(p: Pool, id: Text, found: Option<Text>) {
    match found
    case None => forall t :: t in p.held ==> p.held[t] != id
    case Some(t) => t in p.held && p.held[t] == id
  }

  /** A delete that does not reach the store, or one applied whose answer is lost. */
  datatype DeleteFault = DeleteOk | DeleteFails | DeleteLost

  datatype ReleaseEnv = ReleaseEnv(listFails: bool, delete: DeleteFault) {
    /** The entry found stays in the store. */
    predicate Keeps() { listFails || delete == DeleteFails }
  }

  function ReleaseStep(p: Pool, found: Option<Text>, env: ReleaseEnv): (Pool, bool) {
    if env.listFails then (p, false)
    else match found
      case None => (p, true)
      case Some(t) => if env.delete == DeleteFails then (p, false) else (p.(held := p.held - {t}), env.delete == DeleteOk)
  }

  lemma FullKeyIsNotBare(dir: string, key: string)
    requires '/' in dir
    ensures dir + key != LAST_IP
  {
    assert '/' in dir + key && '/' !in LAST_IP;
  }

  datatype Entry = Entry(key: Text, value: Text)

  class Store {
    /** The prefix and item of every key, such as /xxx.com/ipam/net/. */
    const dir: string
    var held: map<Text, Text>
    var cursor: Option<Text>

    ghost function View(): Pool reads this { Pool(held, cursor) }

    constructor (dir: string)
      ensures this.dir == dir && View() == Pool(map[], None)
    {
      this.dir, held, cursor := dir, map[], None;
    }

    method Reserve(id: Text, ip: IP, fault: ReserveFault) returns (r: Reservation)
      modifies this
      ensures (View(), r) == ReserveStep(old(View()), id, ip, fault)
      ensures r == Granted <==> fault == NoFault && Print(ip) !in old(held)
      ensures r == Granted ==> held == old(held)[Print(ip) := id] && cursor == Some(Print(ip))
    {
      if fault == CheckFails { return Failed; }
      if Print(ip) in held { return Held; }
      if fault == WriteFails { return Failed; }
      held := held[Print(ip) := id];
      if fault == WriteLost || fault == CursorFails { return Failed; }
      cursor := Some(Print(ip));
      return if fault == CursorLost then Failed else Granted;
    }

    /** A read that fails and text that is no address both leave no cursor to start from. */
    method LastReservedIP(fails: bool) returns (r: Option<IP>)
      ensures r == if fails || cursor.None? then None else ParseIP(cursor.value)
    {
      if fails || cursor.None? { return None; }
      return ParseIP(cursor.value);
    }

    /** The recursive listing of the directory: every address entry once, then the cursor, whose
        name sorts after every printed address. */
    method List() returns (entries: seq<Entry>)
      ensures forall t :: t in held ==> Entry(t, held[t]) in entries
      ensures forall e :: e in entries ==>
        (e.key in held && e.value == held[e.key]) || (cursor.Some? && e == Entry(Word(LAST_IP), cursor.value))
      ensures cursor.Some? ==> entries != [] && entries[|entries| - 1] == Entry(Word(LAST_IP), cursor.value)
      ensures forall i :: 0 <= i < |entries| - (if cursor.Some? then 1 else 0) ==>
        entries[i].key in held && entries[i].value == held[entries[i].key]
    {
      entries := [];
      var rest := held.Keys;
      while rest != {}
        invariant rest <= held.Keys
        invariant forall t :: t in held && t !in rest ==> Entry(t, held[t]) in entries
        invariant forall i :: 0 <= i < |entries| ==> entries[i].key in held && entries[i].value == held[entries[i].key]
        decreases rest
      {
        var t :| t in rest;
        rest := rest - {t};
        entries := entries + [Entry(t, held[t])];
      }
      if cursor.Some? { entries := entries + [Entry(Word(LAST_IP), cursor.value)]; }
    }

    /** Exist: the first entry whose value is the id. Meeting the cursor entry reads as no address. */
    method Exist(id: Text, fails: bool) returns (r: Result<Option<IP>>, ghost found: Option<Text>)
      ensures ValidFound(View(), id, found)
      ensures r == if fails then Err(StoreError) else Ok(if found.None? then None else ParseIP(found.value))
      ensures View().Valid() && !fails ==> r.Ok? && (r.value.None? <==> forall t :: t in held ==> held[t] != id)
      ensures View().Valid() && r.Ok? && r.value.Some? ==>
        Print(r.value.value) in held && held[Print(r.value.value)] == id
    {
      if View().Valid() { ParsePrintHeld(View()); }
      var entries := List();
      if fails {
        found := if t :| t in held && held[t] == id then Some(t) else None;
        return Err(StoreError), found;
      }
      var i := 0;
      while i < |entries|
        invariant 0 <= i <= |entries|
        invariant forall j :: 0 <= j < i ==> entries[j].value != id
      {
        if entries[i].value == id {
          if cursor.Some? && i == |entries| - 1 {
            forall t | t in held ensures held[t] != id || Entry(t, id) == entries[i] {
              var j :| 0 <= j < |entries| && entries[j] == Entry(t, held[t]);
            }
          }
          found := if entries[i].key in held && held[entries[i].key] == id then Some(entries[i].key) else None;
          return Ok(ParseIP(entries[i].key)), found;
        }
        i := i + 1;
      }
      return Ok(None), None;
    }

    /** ReleaseByID removes the one entry that Exist meets. */
    method ReleaseByID(id: Text, env: ReleaseEnv) returns (ok: bool, ghost found: Option<Text>)
      requires View().Valid()
      modifies this
      ensures ValidFound(old(View()), id, found)
      ensures (View(), ok) == ReleaseStep(old(View()), found, env)
    {
      var r;
      r, found := Exist(id, env.listFails);
      if r.Err? { return false, found; }
      if r.value.Some? {
        ParsePrint(found.value.ip);
        if env.delete == DeleteFails { return false, found; }
        held := held - {Print(r.value.value)};
        if env.delete == DeleteLost { return false, found; }
      }
      return true, found;
    }

    /** Recover maps ids to keys. The test that should skip the cursor compares its full key with
        the bare name, so the text of the last reserved address becomes an id as well. */
    method Recover(fails: bool) returns (r: Result<set<Text>>)
      requires '/' in dir
      ensures r == if fails then Err(StoreError)
                   else Ok(held.Values + if cursor.Some? then {cursor.value} else {})
    {
      if fails { return Err(StoreError); }
      var entries := List();
      var ids: set<Text> := {};
      var i := 0;
      while i < |entries|
        invariant 0 <= i <= |entries|
        invariant forall v :: v in ids <==> exists j :: 0 <= j < i && entries[j].value == v
      {
        if entries[i].key.Word? { FullKeyIsNotBare(dir, entries[i].key.s); }
        if entries[i].key.Word? && dir + entries[i].key.s == LAST_IP {
        } else {
          ids := ids + {entries[i].value};
        }
        i := i + 1;
      }
      forall v | v in held.Values ensures v in ids {
        var t :| t in held && held[t] == v;
        var j :| 0 <= j < |entries| && entries[j] == Entry(t, held[t]);
      }
      forall v | v in ids ensures v in held.Values || (cursor.Some? && v == cursor.value) {
        var j :| 0 <= j < |entries| && entries[j].value == v;
        assert entries[j] in entries;
      }
      assert ids == held.Values + if cursor.Some? then {cursor.value} else {};
      return Ok(ids);
    }
  }

  // The search

  function FaultAt(faults: seq<ReserveFault>, i: nat): ReserveFault {
    if i < |faults| then faults[i] else NoFault
  }

  /** Where the search starts: after the cursor when it is an address of the range, else at start. */
  function From(ring: Ring, p: Pool, cursorFails: bool): (k: nat)
    requires ring.Valid()
    ensures k < ring.Size()
  {
    if cursorFails || p.cursor.None? then 0
    else match ParseIP(p.cursor.value)
      case None => 0
      case Some(ip) => if ring.Has(Canon(ip)) then Wrap(ring, Pos(ring, Canon(ip)) + 1) else 0
  }

  /** The cursor can be read, is the text of an address, and that address is in the range. */
  predicate UsableCursor(ring: Ring, p: Pool, cursorFails: bool) {
    !cursorFails && p.cursor.Some? && ParseIP(p.cursor.value).Some? && ring.Has(Canon(ParseIP(p.cursor.value).value))
  }

  function Probed(ring: Ring, from: nat, i: nat): IP
    requires ring.Valid() && from < ring.Size() && i < ring.Size()
  {
    At(ring, Wrap(ring, from + i))
  }

  /** The search from probe i on. */
  function Search(ring: Ring, p: Pool, id: Text, from: nat, i: nat, faults: seq<ReserveFault>): (Pool, Result<IP>)
    requires ring.Valid() && from < ring.Size() && i < ring.Size()
    decreases ring.Size() - i
  {
    var cur := Probed(ring, from, i);
    var (p', r) := ReserveStep(p, id, cur, FaultAt(faults, i));
    match r
    case Granted => (p', Ok(cur))
    case Failed => (p', Err(StoreError))
    case Held => if i + 1 == ring.Size() then (p', Err(NoneFree)) else Search(ring, p', id, from, i + 1, faults)
  }

  function AsResult(step: (Pool, Reservation), ip: IP): (Pool, Result<IP>) {
    (step.0, match step.1 case Granted => Ok(ip) case Failed => Err(StoreError) case Held => Err(Taken))
  }

  datatype GetEnv = GetEnv(cursorFails: bool, reserve: seq<ReserveFault>)

  function GetStep(ring: Ring, p: Pool, id: Text, requested: Option<IP>, env: GetEnv): (Pool, Result<IP>)
    requires ring.Valid()
  {
    match requested
    case Some(ip) =>
      if !IsAddress(ip) || !ring.Has(Canon(ip)) then (p, Err(OutOfRange))
      else AsResult(ReserveStep(p, id, ip, FaultAt(env.reserve, 0)), ip)
    case None => Search(ring, p, id, From(ring, p, env.cursorFails), 0, env.reserve)
  }

  lemma ProbesAreDistinct(ring: Ring, from: nat, i: nat, j: nat)
    requires ring.Valid() && from < ring.Size() && i < j < ring.Size()
    ensures Probed(ring, from, i) != Probed(ring, from, j)
  {
    hide At;
    AtPos(ring, Wrap(ring, from + i));
    AtPos(ring, Wrap(ring, from + j));
  }

  /** The search meets its end exactly at the last probe, and nextIP leads from each probe to the next. */
  lemma ProbeIsLastOrNext(ring: Ring, from: nat, i: nat, endIP: IP)
    requires ring.Valid() && from < ring.Size() && i < ring.Size()
    requires IsAddress(endIP) && Canon(endIP) == Probed(ring, from, ring.Size() - 1)
    ensures Equal(Probed(ring, from, i), endIP) <==> i == ring.Size() - 1
    ensures i < ring.Size() - 1 ==> NextIn(ring, Probed(ring, from, i)) == Probed(ring, from, i + 1)
  {
    hide At, Canon, To4, Equal, NextIn;
    AtPos(ring, Wrap(ring, from + i));
    AtPos(ring, Wrap(ring, from + (ring.Size() - 1)));
    EqualIsSameText(Probed(ring, from, i), endIP);
    if i < ring.Size() - 1 {
      ProbesAreDistinct(ring, from, i, ring.Size() - 1);
      NextIsSuccessor(ring, Probed(ring, from, i));
    }
  }

  lemma ProbeListHasNoRepeats(ring: Ring, from: nat, probed: seq<IP>)
    requires ring.Valid() && from < ring.Size() && |probed| <= ring.Size()
    requires forall j :: 0 <= j < |probed| ==> probed[j] == Probed(ring, from, j)
    ensures forall i, j :: 0 <= i < j < |probed| ==> probed[i] != probed[j]
  {
    forall i, j | 0 <= i < j < |probed| ensures probed[i] != probed[j] {
      ProbesAreDistinct(ring, from, i, j);
    }
  }

  /** Every address of the range is probed at some step. */
  lemma ProbesCover(ring: Ring, from: nat, a: IP) returns (i: nat)
    requires ring.Valid() && from < ring.Size() && ring.Has(a)
    ensures i < ring.Size() && Probed(ring, from, i) == a
  {
    hide At;
    PosAt(ring, a);
    var k := Pos(ring, a);
    i := if k >= from then k - from else k + ring.Size() - from;
  }

  /** The probes before i are all held, and probe i is free: i is the first free step of the ring walk. */
  ghost predicate FirstFree(ring: Ring, p: Pool, from: nat, i: nat)
    requires ring.Valid() && from < ring.Size()
  {
    && i < ring.Size() && Print(Probed(ring, from, i)) !in p.held
    && forall j: nat :: j < i ==> Print(Probed(ring, from, j)) in p.held
  }

  lemma CalmReserve(p: Pool, id: Text, ip: IP)
    ensures ReserveStep(p, id, ip, NoFault) ==
      if Print(ip) in p.held then (p, Held) else (Pool(p.held[Print(ip) := id], Some(Print(ip))), Granted)
  {
  }

  lemma {:induction false} SearchFrom(ring: Ring, p: Pool, id: Text, from: nat, i: nat)
    requires ring.Valid() && from < ring.Size() && i < ring.Size()
    requires forall j: nat :: j < i ==> Print(Probed(ring, from, j)) in p.held
    ensures var (p', r) := Search(ring, p, id, from, i, []);
            match r
            case Ok(a) =>
              && p' == Pool(p.held[Print(a) := id], Some(Print(a)))
              && exists f: nat :: FirstFree(ring, p, from, f) && a == Probed(ring, from, f)
            case Err(e) =>
              && e == NoneFree && p' == p
              && forall j: nat :: j < ring.Size() ==> Print(Probed(ring, from, j)) in p.held
    decreases ring.Size() - i
  {
    hide Probed, Print, ReserveStep, Ring.Valid;
    CalmReserve(p, id, Probed(ring, from, i));
    if Print(Probed(ring, from, i)) !in p.held {
      assert FirstFree(ring, p, from, i);
    } else if i + 1 < ring.Size() {
      SearchFrom(ring, p, id, from, i + 1);
    }
  }

  /** Without store errors the search grants the cyclically first free address after the cursor and
      moves the cursor there, and it fails exactly when every address of the range is held. */
  lemma SearchIsNextFit(ring: Ring, p: Pool, id: Text)
    requires ring.Valid()
    ensures var from := From(ring, p, false);
            var (p', r) := GetStep(ring, p, id, None, GetEnv(false, []));
            && (r.Ok? ==> exists i: nat :: FirstFree(ring, p, from, i) && r.value == Probed(ring, from, i))
            && (r.Ok? ==> ring.Has(r.value) && p' == Pool(p.held[Print(r.value) := id], Some(Print(r.value))))
            && (r.Err? ==> r.failure == NoneFree && p' == p)
            && (r.Err? <==> forall a :: ring.Has(a) ==> Print(a) in p.held)
  {
    hide At, Print, Search;
    var from := From(ring, p, false);
    SearchFrom(ring, p, id, from, 0);
    var (p', r) := GetStep(ring, p, id, None, GetEnv(false, []));
    if r.Ok? {
      var i :| FirstFree(ring, p, from, i) && r.value == Probed(ring, from, i);
      AtPos(ring, Wrap(ring, from + i));
    } else {
      forall a | ring.Has(a) ensures Print(a) in p.held {
        var i := ProbesCover(ring, from, a);
      }
    }
  }

  /** The search by itself, wherever it starts: the address it grants is free, and every free address of the
      range comes later in the walk. */
  lemma GrantIsFirstInWalk(ring: Ring, p: Pool, id: Text, cursorFails: bool)
    requires ring.Valid()
    ensures var (p', r) := GetStep(ring, p, id, None, GetEnv(cursorFails, []));
            r.Ok? ==> exists i: nat :: FirstFree(ring, p, From(ring, p, cursorFails), i)
                                       && r.value == Probed(ring, From(ring, p, cursorFails), i)
  {
    hide At, Print, Search, From;
    SearchFrom(ring, p, id, From(ring, p, cursorFails), 0);
  }

  lemma EarlierProbeIsHeld(ring: Ring, p: Pool, from: nat, i: nat, a: IP, k: nat)
    requires ring.Valid() && from < ring.Size() && FirstFree(ring, p, from, i) && ring.Has(a)
    requires k < ring.Size() && Pos(ring, a) == Wrap(ring, from + k) && k < i
    ensures Print(a) in p.held
  {
    hide At, Print;
    PosAt(ring, a);
    assert Probed(ring, from, k) == a;
  }

  /** Without a usable cursor (none, one that cannot be read or is no address, or one outside the range) the
      search grants the lowest free address of the range. */
  lemma UnusableCursorGrantsLowest(ring: Ring, p: Pool, id: Text, cursorFails: bool, a: IP)
    requires ring.Valid() && ring.Has(a)
    requires cursorFails || p.cursor.None? || ParseIP(p.cursor.value).None? || !ring.Has(Canon(ParseIP(p.cursor.value).value))
    ensures var r := GetStep(ring, p, id, None, GetEnv(cursorFails, [])).1;
            r.Ok? ==> ring.Has(r.value) && Print(r.value) !in p.held && (Value(a) < Value(r.value) ==> Print(a) in p.held)
  {
    hide At, Print, Search, Value, Canon;
    GrantIsFirstInWalk(ring, p, id, cursorFails);
    var r := GetStep(ring, p, id, None, GetEnv(cursorFails, [])).1;
    if r.Ok? {
      var from := From(ring, p, cursorFails);
      var i: nat :| FirstFree(ring, p, from, i) && r.value == Probed(ring, from, i);
      AtPos(ring, Wrap(ring, from + i));
      assert Pos(ring, r.value) == i;
      if Value(a) < Value(r.value) { EarlierProbeIsHeld(ring, p, from, i, a, Pos(ring, a)); }
    }
  }

  /** The steps forward from c to a, round the ring: 1 for the next address, the whole size for c itself. */
  function Ahead(ring: Ring, c: IP, a: IP): (d: int)
    requires ring.Valid() && ring.Has(c) && ring.Has(a)
    ensures 1 <= d <= ring.Size()
  {
    if Value(a) > Value(c) then Value(a) - Value(c) else Value(a) - Value(c) + ring.Size()
  }

  /** With a cursor in the range the search grants the free address that comes first after it in ring order. */
  lemma UsableCursorGrantsNearest(ring: Ring, p: Pool, id: Text, a: IP)
    requires ring.Valid() && ring.Has(a)
    requires p.cursor.Some? && ParseIP(p.cursor.value).Some? && ring.Has(Canon(ParseIP(p.cursor.value).value))
    ensures var c := Canon(ParseIP(p.cursor.value).value);
            var r := GetStep(ring, p, id, None, GetEnv(false, [])).1;
            r.Ok? ==> ring.Has(r.value) && Print(r.value) !in p.held
                      && (Ahead(ring, c, a) < Ahead(ring, c, r.value) ==> Print(a) in p.held)
  {
    hide At, Print, Search, Value, Canon;
    GrantIsFirstInWalk(ring, p, id, false);
    var c := Canon(ParseIP(p.cursor.value).value);
    var r := GetStep(ring, p, id, None, GetEnv(false, [])).1;
    if r.Ok? {
      var from := From(ring, p, false);
      var i: nat :| FirstFree(ring, p, from, i) && r.value == Probed(ring, from, i);
      AtPos(ring, Wrap(ring, from + i));
      assert Ahead(ring, c, r.value) == i + 1;
      var k := Ahead(ring, c, a) - 1;
      if k < i {
        assert Pos(ring, a) == Wrap(ring, from + k);
        EarlierProbeIsHeld(ring, p, from, i, a, k);
      }
    }
  }

  /** A reservation, fault by fault: what it holds afterwards, where the cursor is, and what it reports. */
  lemma ReserveExactly(p: Pool, id: Text, ip: IP, fault: ReserveFault)
    ensures var (p', r) := ReserveStep(p, id, ip, fault);
            var free := Print(ip) !in p.held;
            && (r == Held <==> fault != CheckFails && !free)
            && (r == Granted <==> free && fault == NoFault)
            && p'.held == (if free && fault !in {CheckFails, WriteFails} then p.held[Print(ip) := id] else p.held)
            && p'.cursor == (if free && fault in {NoFault, CursorLost} then Some(Print(ip)) else p.cursor)
  {
  }

  /** An explicit request without a failing check: which error it reports, and when. */
  lemma ExplicitExactly(ring: Ring, p: Pool, id: Text, ip: IP, env: GetEnv)
    requires ring.Valid()
    ensures var (p', r) := GetStep(ring, p, id, Some(ip), env);
            var inRange := IsAddress(ip) && ring.Has(Canon(ip));
            && (r == Err(OutOfRange) <==> !inRange)
            && (r == Err(Taken) <==> inRange && FaultAt(env.reserve, 0) != CheckFails && Print(ip) in p.held)
            && (r.Ok? <==> inRange && FaultAt(env.reserve, 0) == NoFault && Print(ip) !in p.held)
            && (r.Ok? ==> r.value == ip)
  {
    hide Print, Canon;
  }

  // A range out of order

  /** Where a search in a range out of order looks: at start, and then at one address after another. */
  function Upward(start: IP, k: nat): IP { if k == 0 then start else Bytes(Value(start) + k) }

  /** The walk can come to step k: the addresses up to it have the length of start. */
  predicate Walkable(ring: Ring, k: nat) {
    k == 0 || (IsAddress(ring.start) && |ring.start| == |ring.end| && Value(ring.start) + k < Pow2(8 * |ring.start|))
  }

  /** Step f is the first of the walk whose address is free. */
  ghost predicate FirstUp(ring: Ring, p: Pool, f: nat) {
    && Walkable(ring, f) && Print(Upward(ring.start, f)) !in p.held
    && forall j: nat :: j < f ==> Print(Upward(ring.start, j)) in p.held
  }

  lemma UpwardIs(ring: Ring, k: nat)
    requires ring.start != [] && ring.start[0] != 0 && Walkable(ring, k) && k > 0
    ensures var a := Upward(ring.start, k);
            |a| == |ring.start| && a[0] != 0 && Canon(a) == a && Value(a) == Value(ring.start) + k
  {
    hide Bytes, Value, To4, Canon;
    var n := Value(ring.start) + k;
    BytesShape(n);
    ValueBound(ring.start);
    BytesLength(n, |ring.start|);
    LeadingByteIsCanonical(Bytes(n));
  }

  lemma UpwardStep(ring: Ring, k: nat)
    requires ring.start != [] && ring.start[0] != 0 && Walkable(ring, k + 1) && Value(ring.start) > Value(ring.end)
    ensures var a := Upward(ring.start, k); !Equal(a, ring.end) && NextIP(a) == Upward(ring.start, k + 1)
  {
    hide Bytes, Value, To4, Canon, NextIP;
    var a := Upward(ring.start, k);
    if k > 0 { UpwardIs(ring, k); } else { LeadingByteIsCanonical(a); }
    NextIPIsBytes(a);
  }

  lemma WalkHasNoRepeats(ring: Ring, f: nat, probed: seq<IP>)
    requires ring.start != [] && ring.start[0] != 0 && Walkable(ring, f) && |probed| <= f + 1
    requires forall j :: 0 <= j < |probed| ==> probed[j] == Upward(ring.start, j)
    ensures forall i, j :: 0 <= i < j < |probed| ==> probed[i] != probed[j]
  {
    hide Bytes, Value, Canon;
    forall i, j | 0 <= i < j < |probed| ensures probed[i] != probed[j] {
      UpwardIs(ring, j);
      if i > 0 { UpwardIs(ring, i); }
    }
  }

  lemma WalkableBefore(ring: Ring, k: nat, f: nat)
    requires k <= f && Walkable(ring, f)
    ensures Walkable(ring, k)
  {
  }

  /** What a search in a range out of order does: grant the first free address of the walk, unless a check
      fails before. */
  ghost predicate WalkOutcome(ring: Ring, p: Pool, id: Text, f: nat, faults: seq<ReserveFault>, p': Pool, r: Result<IP>) {
    && FirstUp(ring, p, f)
    && if forall j: nat :: j <= f ==> FaultAt(faults, j) != CheckFails
       then (p', r) == AsResult(ReserveStep(p, id, Upward(ring.start, f), FaultAt(faults, f)), Upward(ring.start, f))
       else p' == p && r == Err(StoreError)
  }

  /** Reservation i of the walk settles the outcome, or finds the address held and the walk goes on. */
  lemma WalkEnds(ring: Ring, p: Pool, id: Text, f: nat, i: nat, faults: seq<ReserveFault>)
    requires FirstUp(ring, p, f) && i <= f && forall j: nat :: j < i ==> FaultAt(faults, j) != CheckFails
    ensures var (p', r) := ReserveStep(p, id, Upward(ring.start, i), FaultAt(faults, i));
            if r == Held then p' == p && i < f && FaultAt(faults, i) != CheckFails
            else WalkOutcome(ring, p, id, f, faults, p', if r == Granted then Ok(Upward(ring.start, i)) else Err(StoreError))
  {
    hide Upward, Print, Walkable;
  }

  class IPAllocator {
    const subnet: IPNet
    const start: IP
    const end: IP
    const store: Store

    ghost function Range(): Ring { Ring(start, end) }

    /** What NewIPAllocator leaves when no bound is configured: the range can still be out of order. */
    ghost predicate Built() {
      && subnet.Valid() && subnet.ones <= 8 * subnet.len - 2 && |Canon(subnet.ip)| == subnet.len
      && start == NextIP(subnet.ip) && |end| == subnet.len && Value(end) == LastHost(subnet)
    }

    ghost predicate Valid() { Built() && Range().Valid() }

    /** The last part of NewIPAllocator; RangeIsRing says when the range is in order. */
    constructor (subnet: IPNet, start: IP, end: IP, store: Store)
      requires subnet.Valid() && subnet.ones <= 8 * subnet.len - 2 && |Canon(subnet.ip)| == subnet.len
      requires start == NextIP(subnet.ip) && |end| == subnet.len && Value(end) == LastHost(subnet)
      ensures Built() && Range() == Ring(start, end) && this.store == store && this.subnet == subnet
    {
      this.subnet, this.start, this.end, this.store := subnet, start, end, store;
    }

    /** validateRangeIP with the bounds of the allocator decides membership of the range; a range out of
        order has no members. */
    method InRange(ip: IP) returns (ok: bool)
      requires Built()
      ensures ok <==> Range().Valid() && IsAddress(ip) && Range().Has(Canon(ip))
    {
      ghost var valid := Range().Valid();
      if valid {
        LeadingByteIsCanonicalEnds(Range());
        if IsAddress(ip) {
          CanonIdempotent(ip);
          ContainsCanon(subnet, ip);
          if Range().Has(Canon(ip)) { RangeInsideBlock(subnet, Range(), Canon(ip)); }
        }
      } else {
        RefusedRangeIsEmpty(subnet, start, end, ip);
      }
      hide Value, Canon, Built, Ring.Valid, NextIP;
      ok := ValidateRangeIP(ip, subnet, Some(start), Some(end));
    }

    method NextIPOf(cur: IP) returns (next: IP)
      ensures next == NextIn(Range(), cur)
    {
      if Equal(cur, end) { return start; }
      return NextIP(cur);
    }

    /** getSearchRange: from the address after the cursor round to the cursor itself, or the whole
        range when the cursor cannot be read or lies outside it. */
    method GetSearchRange(cursorFails: bool) returns (startIP: IP, endIP: IP)
      requires Built()
      ensures Range().Valid() ==>
        && startIP == Probed(Range(), From(Range(), store.View(), cursorFails), 0)
        && IsAddress(endIP)
        && Canon(endIP) == Probed(Range(), From(Range(), store.View(), cursorFails), Range().Size() - 1)
      ensures !Range().Valid() ==> startIP == start && endIP == end
      ensures !UsableCursor(Range(), store.View(), cursorFails) ==> startIP == start && endIP == end
      ensures Range().Valid() && UsableCursor(Range(), store.View(), cursorFails) ==>
        endIP == ParseIP(store.cursor.value).value && startIP == NextIn(Range(), endIP)
    {
      hide Value, At, Bytes, To4, Canon, Equal, NextIP, Built;
      ghost var valid := Range().Valid();
      if valid {
        LeadingByteIsCanonicalEnds(Range());
        PosAt(Range(), start);
        PosAt(Range(), end);
      }
      var last := store.LastReservedIP(cursorFails);
      if last.Some? {
        var ok := InRange(last.value);
        if ok {
          endIP := last.value;
          startIP := NextIPOf(last.value);
          NextIsSuccessor(Range(), last.value);
          PosAt(Range(), Canon(last.value));
          return;
        }
      }
      return start, end;
    }

    /** Get without a gateway, as every caller asks for. In a range that is in order the search ends after
        at most one turn and probes no address twice. A range out of order refuses every explicit request,
        and its search walks from the start on, out of the block, to the first free address. */
    method Get(id: Text, requested: Option<IP>, env: GetEnv) returns (r: Result<IP>, ghost probed: seq<IP>)
      requires Built() && (Range().Valid() || requested.Some? || exists f: nat :: FirstUp(Range(), store.View(), f))
      modifies store
      ensures Range().Valid() ==> (store.View(), r) == GetStep(Range(), old(store.View()), id, requested, env)
      ensures Range().Valid() ==> |probed| <= Range().Size()
      ensures forall i, j :: 0 <= i < j < |probed| ==> probed[i] != probed[j]
      ensures requested.None? && r.Ok? ==> probed != [] && r.value == probed[|probed| - 1]
      ensures !Range().Valid() && requested.Some? ==> r == Err(OutOfRange) && store.View() == old(store.View())
      ensures !Range().Valid() && requested.None? ==>
        exists f: nat :: WalkOutcome(Range(), old(store.View()), id, f, env.reserve, store.View(), r)
    {
      hide Value, At, Bytes, To4, Canon, Equal, NextIP, NextIn, Probed, Print, Built, Ring.Valid, Upward, Walkable, WalkOutcome;
      probed := [];
      if requested.Some? {
        var ok := InRange(requested.value);
        if !ok { return Err(OutOfRange), probed; }
        var reserved := store.Reserve(id, requested.value, FaultAt(env.reserve, 0));
        match reserved {
          case Granted => return Ok(requested.value), probed;
          case Failed => return Err(StoreError), probed;
          case Held => return Err(Taken), probed;
        }
      }
      var startIP, endIP := GetSearchRange(env.cursorFails);
      ghost var ring, valid := Range(), Range().Valid();
      ghost var f: nat := 0;
      if !valid { f :| FirstUp(ring, store.View(), f); StartOfWalk(f); }
      ghost var from, n := if valid then From(ring, store.View(), env.cursorFails) else 0, if valid then ring.Size() else f + 1;
      var i := 0;
      var cur := startIP;
      while true
        invariant 0 <= i < n
        invariant valid ==> cur == Probed(ring, from, i)
        invariant valid ==>
          Search(ring, store.View(), id, from, i, env.reserve) == Search(ring, old(store.View()), id, from, 0, env.reserve)
        invariant |probed| == i && forall j :: 0 <= j < i ==> probed[j] == if valid then Probed(ring, from, j) else Upward(start, j)
        invariant !valid ==> cur == Upward(start, i) && store.View() == old(store.View())
        invariant !valid ==> forall j: nat :: j < i ==> FaultAt(env.reserve, j) != CheckFails
        decreases n - i
      {
        probed := probed + [cur];
        if valid {
          ProbeListHasNoRepeats(ring, from, probed);
          ProbeIsLastOrNext(ring, from, i, endIP);
        } else {
          WalkHasNoRepeats(ring, f, probed);
          if i < f { WalkableBefore(ring, i + 1, f); UpwardStep(ring, i); NextOnWalk(cur); }
        }
        var reserved := store.Reserve(id, cur, FaultAt(env.reserve, i));
        if !valid { WalkEnds(ring, old(store.View()), id, f, i, env.reserve); }
        if reserved == Failed { return Err(StoreError), probed; }
        if reserved == Granted { return Ok(cur), probed; }
        if Equal(cur, endIP) { break; }
        cur := NextIPOf(cur);
        i := i + 1;
      }
      return Err(NoneFree), probed;
    }

    lemma StartOfWalk(f: nat)
      requires Built() && !Range().Valid()
      ensures start != [] && start[0] != 0 && Upward(start, 0) == start
      ensures forall k :: k > 0 && Walkable(Range(), k) ==> Value(start) > Value(end)
    {
      hide Value, NextIP, LastHost;
      NextStartsNonZero(subnet.ip);
      RefusedRangeIsEmpty(subnet, start, end, start);
    }

    lemma NextOnWalk(cur: IP)
      ensures !Equal(cur, end) ==> NextIn(Range(), cur) == NextIP(cur)
    {
    }

    /** Release: every address the id is found to hold first in the listing. */
    method Release(id: Text, env: ReleaseEnv) returns (ok: bool, ghost found: Option<Text>)
      requires store.View().Valid()
      modifies store
      ensures ValidFound(old(store.View()), id, found)
      ensures (store.View(), ok) == ReleaseStep(old(store.View()), found, env)
    {
      ok, found := store.ReleaseByID(id, env);
    }

    method GetExist(id: Text, fails: bool) returns (r: Result<Option<IP>>, ghost found: Option<Text>)
      ensures ValidFound(store.View(), id, found)
      ensures r == if fails then Err(StoreError) else Ok(if found.None? then None else ParseIP(found.value))
      ensures store.View().Valid() && !fails ==>
        r.Ok? && (r.value.None? <==> forall t :: t in store.held ==> store.held[t] != id)
      ensures store.View().Valid() && r.Ok? && r.value.Some? ==>
        Print(r.value.value) in store.held && store.held[Print(r.value.value)] == id
    {
      r, found := store.Exist(id, fails);
    }
  }

  lemma ContainsCanon(net: IPNet, ip: IP)
    ensures net.Contains(Canon(ip)) <==> net.Contains(ip)
  {
    CanonIdempotent(ip);
  }
}
