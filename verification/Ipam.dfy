/** RequireIP and ReleaseIP of pkg/ipam/ipam.go, one call at a time and over whole runs. */
module Ipam {
  import opened NetIP
  import opened Ranges
  import opened Allocator

  /** The subnet directory in etcd and the keys of the process's ipamCache. */
  datatype State = State(pool: Pool, cache: set<Text>)

  datatype RequireEnv = RequireEnv(existFails: bool, release: ReleaseEnv, get: GetEnv)

  const CALM_RELEASE := ReleaseEnv(false, DeleteOk)
  const CALM := RequireEnv(false, CALM_RELEASE, GetEnv(false, []))

  /** found is what the first scan meets for the id, again what the scan inside Release meets. */
  function RequireStep(ring: Ring, s: State, id: Text, req: Text, found: Option<Text>, again: Option<Text>,
                       env: RequireEnv): (State, Result<Text>)
    requires ring.Valid()
  {
    if env.existFails then (s, Err(StoreError))
    else if found.Some? && (req == EMPTY || req == found.value) then (s, Ok(found.value))
    else
      var pool := if found.Some? then ReleaseStep(s.pool, again, env.release).0 else s.pool;
      var (pool', r) := GetStep(ring, pool, id, ParseIP(req), env.get);
      match r
      case Ok(ip) => (State(pool', s.cache + {id}), Ok(Print(ip)))
      case Err(e) => (State(pool', s.cache), Err(e))
  }

  function ReleaseIPStep(s: State, id: Text, found: Option<Text>, env: ReleaseEnv): (State, bool) {
    var (pool, ok) := ReleaseStep(s.pool, found, env);
    (State(pool, if ok then s.cache - {id} else s.cache), ok)
  }

  class IPAM {
    const alc: IPAllocator
    var cache: set<Text>

    ghost predicate Valid() reads alc.store {
      alc.Valid() && alc.store.View().Valid()
    }

    ghost function View(): State reads this, alc.store { State(alc.store.View(), cache) }

    /** Init: the cache starts from what the store recovers. */
    constructor (alc: IPAllocator)
      requires '/' in alc.store.dir
      ensures this.alc == alc && (alc.Valid() && alc.store.View().Valid() ==> Valid())
      ensures View() == Recovered(alc.store.View())
    {
      this.alc := alc;
      new;
      var r := alc.store.Recover(false);
      cache := r.value;
    }

    method RequireIP(name: Text, reqIP: Text, env: RequireEnv)
      returns (r: Result<Text>, ghost found: Option<Text>, ghost again: Option<Text>)
      requires Valid()
      modifies this, alc.store
      ensures Valid()
      ensures ValidFound(old(View()).pool, name, found) && ValidFound(old(View()).pool, name, again)
      ensures (View(), r) == RequireStep(alc.Range(), old(View()), name, reqIP, found, again, env)
    {
      hide GetStep;
      var exist;
      exist, found := alc.GetExist(name, env.existFails);
      again := found;
      if exist.Err? { return Err(StoreError), found, again; }
      if exist.value.Some? {
        ParsePrint(found.value.ip);
        if reqIP != EMPTY && reqIP != Print(exist.value.value) {
          var ok;
          ok, again := alc.Release(name, env.release);
        } else {
          return Ok(Print(exist.value.value)), found, again;
        }
      }
      GetKeepsKeys(alc.Range(), alc.store.View(), name, ParseIP(reqIP), env.get);
      var ip;
      ghost var probed;
      ip, probed := alc.Get(name, ParseIP(reqIP), env.get);
      if ip.Err? { return Err(ip.failure), found, again; }
      cache := cache + {name};
      return Ok(Print(ip.value)), found, again;
    }

    method ReleaseIP(name: Text, env: ReleaseEnv) returns (ok: bool, ghost found: Option<Text>)
      requires alc.store.View().Valid()
      modifies this, alc.store
      ensures alc.store.View().Valid() && (old(Valid()) ==> Valid())
      ensures ValidFound(old(View()).pool, name, found)
      ensures (View(), ok) == ReleaseIPStep(old(View()), name, found, env)
    {
      ok, found := alc.Release(name, env);
      if !ok { return; }
      cache := cache - {name};
    }

    /** GetKeys lists the cached ids once each, in no particular order. */
    method GetKeys() returns (keys: seq<Text>)
      ensures forall k :: k in keys <==> k in cache
    {
      keys := [];
      var rest := cache;
      while rest != {}
        invariant rest <= cache
        invariant forall k :: k in keys <==> k in cache - rest
        decreases rest
      {
        var k :| k in rest;
        keys := keys + [k];
        rest := rest - {k};
      }
    }
  }

  function Recovered(p: Pool): State {
    State(p, p.held.Values + if p.cursor.Some? then {p.cursor.value} else {})
  }

  // What one allocation does to the directory

  /** The directory after an allocation: unchanged, or one free address of the range newly given to id. */
  ghost predicate Gives(ring: Ring, p: Pool, p': Pool, id: Text, a: IP) {
    && IsAddress(a) && ring.Has(Canon(a)) && Print(a) !in p.held && p'.held == p.held[Print(a) := id]
  }

  lemma {:induction false} SearchGives(ring: Ring, p: Pool, id: Text, from: nat, i: nat, faults: seq<ReserveFault>)
    requires ring.Valid() && from < ring.Size() && i < ring.Size()
    ensures var (p', r) := Search(ring, p, id, from, i, faults);
            && (p' == p || exists a :: Gives(ring, p, p', id, a))
            && (r.Ok? ==> Gives(ring, p, p', id, r.value) && p'.cursor == Some(Print(r.value)))
            && (r.Err? ==> p'.cursor == p.cursor || exists a :: Gives(ring, p, p', id, a) && p'.cursor == Some(Print(a)))
    decreases ring.Size() - i
  {
    hide At, Canon;
    var cur := Probed(ring, from, i);
    AtPos(ring, Wrap(ring, from + i));
    if FaultAt(faults, i) != CheckFails {
      if Print(cur) in p.held {
        if i + 1 < ring.Size() { SearchGives(ring, p, id, from, i + 1, faults); }
      } else if FaultAt(faults, i) != WriteFails {
        assert Gives(ring, p, Search(ring, p, id, from, i, faults).0, id, cur);
      }
    }
  }

  lemma GetGives(ring: Ring, p: Pool, id: Text, requested: Option<IP>, env: GetEnv)
    requires ring.Valid()
    ensures var (p', r) := GetStep(ring, p, id, requested, env);
            && (p' == p || exists a :: Gives(ring, p, p', id, a))
            && (r.Ok? ==> Gives(ring, p, p', id, r.value) && p'.cursor == Some(Print(r.value)))
            && (r.Err? ==> p'.cursor == p.cursor || exists a :: Gives(ring, p, p', id, a) && p'.cursor == Some(Print(a)))
  {
    hide Canon;
    match requested
    case None => SearchGives(ring, p, id, From(ring, p, env.cursorFails), 0, env.reserve);
    case Some(ip) =>
      if IsAddress(ip) && ring.Has(Canon(ip)) && Print(ip) !in p.held {
        var (p', r) := GetStep(ring, p, id, requested, env);
        assert p' == p || Gives(ring, p, p', id, ip);
      }
  }

  lemma GetKeepsKeys(ring: Ring, p: Pool, id: Text, requested: Option<IP>, env: GetEnv)
    requires ring.Valid() && p.Valid()
    ensures GetStep(ring, p, id, requested, env).0.Valid()
  {
    hide GetStep;
    GetGives(ring, p, id, requested, env);
    var p' := GetStep(ring, p, id, requested, env).0;
    if p' != p {
      var a :| Gives(ring, p, p', id, a);
    }
  }

  // When an allocation writes

  /** The search from probe i on first meets a free address at probe f, and no check fails up to there. */
  ghost predicate Stops(ring: Ring, p: Pool, from: nat, i: nat, f: nat, faults: seq<ReserveFault>)
    requires ring.Valid() && from < ring.Size()
  {
    && i <= f < ring.Size() && Print(Probed(ring, from, f)) !in p.held
    && (forall j: nat :: i <= j < f ==> Print(Probed(ring, from, j)) in p.held)
    && (forall j: nat :: i <= j <= f ==> FaultAt(faults, j) != CheckFails)
  }

  lemma {:induction false} SearchStops(ring: Ring, p: Pool, id: Text, from: nat, i: nat, f: nat, faults: seq<ReserveFault>)
    requires ring.Valid() && from < ring.Size() && Stops(ring, p, from, i, f, faults)
    ensures Search(ring, p, id, from, i, faults)
         == AsResult(ReserveStep(p, id, Probed(ring, from, f), FaultAt(faults, f)), Probed(ring, from, f))
    decreases f - i
  {
    hide Probed;
    if i < f { SearchStops(ring, p, id, from, i + 1, f, faults); }
  }

  lemma {:induction false} SearchNeverStops(ring: Ring, p: Pool, id: Text, from: nat, i: nat, faults: seq<ReserveFault>)
    requires ring.Valid() && from < ring.Size() && i < ring.Size()
    requires forall f: nat :: !Stops(ring, p, from, i, f, faults)
    ensures Search(ring, p, id, from, i, faults).0 == p && Search(ring, p, id, from, i, faults).1.Err?
    decreases ring.Size() - i
  {
    hide Probed;
    assert !Stops(ring, p, from, i, i, faults);
    if FaultAt(faults, i) != CheckFails && i + 1 < ring.Size() {
      var next := i + 1;
      forall f: nat ensures !Stops(ring, p, from, next, f, faults) {
        assert !Stops(ring, p, from, i, f, faults);
      }
      SearchNeverStops(ring, p, id, from, next, faults);
    }
  }

  /** The allocation comes to write at reservation i: the address asked for is in range and free, or the
      search meets the first free address there; and no check has failed. */
  ghost predicate Reaches(ring: Ring, p: Pool, requested: Option<IP>, env: GetEnv, i: nat)
    requires ring.Valid()
  {
    match requested
    case Some(ip) =>
      i == 0 && IsAddress(ip) && ring.Has(Canon(ip)) && Print(ip) !in p.held && FaultAt(env.reserve, 0) != CheckFails
    case None =>
      && FirstFree(ring, p, From(ring, p, env.cursorFails), i)
      && forall j: nat :: j <= i ==> FaultAt(env.reserve, j) != CheckFails
  }

  /** The address that reservation i is for. */
  function Target(ring: Ring, p: Pool, requested: Option<IP>, env: GetEnv, i: nat): IP
    requires ring.Valid() && i < ring.Size()
  {
    match requested
    case Some(ip) => ip
    case None => Probed(ring, From(ring, p, env.cursorFails), i)
  }

  /** The outcome of an allocation from what can be seen before it: the one reservation it reaches, or
      nothing at all. */
  lemma GetExactly(ring: Ring, p: Pool, id: Text, requested: Option<IP>, env: GetEnv)
    requires ring.Valid()
    ensures forall i: nat :: Reaches(ring, p, requested, env, i) ==>
              var a := Target(ring, p, requested, env, i);
              GetStep(ring, p, id, requested, env) == AsResult(ReserveStep(p, id, a, FaultAt(env.reserve, i)), a)
    ensures (forall i: nat :: !Reaches(ring, p, requested, env, i)) ==>
              GetStep(ring, p, id, requested, env).0 == p && GetStep(ring, p, id, requested, env).1.Err?
  {
    hide Canon, Print, Probed, From;
    if requested.None? {
      var from := From(ring, p, env.cursorFails);
      forall i: nat ensures Reaches(ring, p, None, env, i) <==> Stops(ring, p, from, 0, i, env.reserve) {}
      if i: nat :| Reaches(ring, p, None, env, i) {
        forall f: nat | Reaches(ring, p, None, env, f)
          ensures var a := Target(ring, p, requested, env, f);
                  GetStep(ring, p, id, requested, env) == AsResult(ReserveStep(p, id, a, FaultAt(env.reserve, f)), a)
        {
          SearchStops(ring, p, id, from, 0, f, env.reserve);
        }
      } else {
        SearchNeverStops(ring, p, id, from, 0, env.reserve);
      }
    } else {
      assert Reaches(ring, p, requested, env, 0) || (forall i: nat :: !Reaches(ring, p, requested, env, i));
    }
  }

  /** The allocation writes an entry, whatever it then reports. */
  ghost predicate WritesEntry(ring: Ring, p: Pool, requested: Option<IP>, env: GetEnv)
    requires ring.Valid()
  {
    exists i: nat :: Reaches(ring, p, requested, env, i) && FaultAt(env.reserve, i) != WriteFails
  }

  lemma WritesExactly(ring: Ring, p: Pool, id: Text, requested: Option<IP>, env: GetEnv)
    requires ring.Valid()
    ensures GetStep(ring, p, id, requested, env).0 != p <==> WritesEntry(ring, p, requested, env)
  {
    hide GetStep, Canon, Print, Probed;
    GetExactly(ring, p, id, requested, env);
  }
}
