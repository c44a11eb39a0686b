/** Properties of every run of RequireIP and ReleaseIP. */
module IpamRuns {
  import opened NetIP
  import opened Ranges
  import opened Allocator
  import opened Ipam

  datatype Op =
    | Require(id: Text, req: Text, found: Option<Text>, again: Option<Text>, env: RequireEnv)
    | Release(id: Text, found: Option<Text>, renv: ReleaseEnv)

  ghost predicate ValidOp(p: Pool, op: Op) {
    ValidFound(p, op.id, op.found) && (op.Require? ==> ValidFound(p, op.id, op.again))
  }

  function Step(ring: Ring, s: State, op: Op): State
    requires ring.Valid()
  {
    match op
    case Require(id, req, found, again, env) => RequireStep(ring, s, id, req, found, again, env).0
    case Release(id, found, renv) => ReleaseIPStep(s, id, found, renv).0
  }

  function Run(ring: Ring, s: State, ops: seq<Op>): State
    requires ring.Valid()
    decreases |ops|
  {
    if ops == [] then s else Run(ring, Step(ring, s, ops[0]), ops[1..])
  }

  ghost predicate ValidRun(ring: Ring, s: State, ops: seq<Op>)
    requires ring.Valid()
    decreases |ops|
  {
    ops != [] ==> ValidOp(s.pool, ops[0]) && ValidRun(ring, Step(ring, s, ops[0]), ops[1..])
  }

  /** Every holder other than id keeps exactly its entries. */
  ghost predicate OthersKept(p: Pool, p': Pool, id: Text) {
    && (forall t :: t in p.held && p.held[t] != id ==> t in p'.held && p'.held[t] == p.held[t])
    && (forall t :: t in p'.held && p'.held[t] != id ==> t in p.held && p.held[t] == p'.held[t])
  }

  /** Whatever fails, a call touches no entry of another id: Reserve never overwrites a holder. */
  lemma StepTouchesOwnEntries(ring: Ring, s: State, op: Op)
    requires ring.Valid() && ValidOp(s.pool, op)
    ensures OthersKept(s.pool, Step(ring, s, op).pool, op.id)
  {
    hide GetStep;
    if op.Require? {
      var pool := if op.found.Some? then ReleaseStep(s.pool, op.again, op.env.release).0 else s.pool;
      GetGives(ring, pool, op.id, ParseIP(op.req), op.env.get);
    }
  }

  // One address for each id

  ghost predicate Unique(p: Pool) {
    forall t, u :: t in p.held && u in p.held && p.held[t] == p.held[u] ==> t == u
  }

  ghost predicate Holds(p: Pool, id: Text, t: Text) { t in p.held && p.held[t] == id }

  ghost predicate HoldsNone(p: Pool, id: Text) { forall t :: t in p.held ==> p.held[t] != id }

  /** The release inside RequireIP is asked for and fails; RequireIP ignores that. */
  predicate LosesRelease(op: Op) {
    && op.Require? && !op.env.existFails && op.found.Some? && op.req != EMPTY && op.req != op.found.value
    && op.env.release.Keeps()
  }

  /** A call keeps one address for each id exactly when it does not come to write an entry after losing
      its release, which can be told from the store, the request and the faults before the call. */
  lemma UniqueExactly(ring: Ring, s: State, op: Op)
    requires ring.Valid() && ValidOp(s.pool, op) && Unique(s.pool)
    ensures Unique(Step(ring, s, op).pool) <==>
            !(LosesRelease(op) && WritesEntry(ring, s.pool, ParseIP(op.req), op.env.get))
  {
    hide GetStep, Reaches, WritesEntry, Canon;
    if op.Require? && !op.env.existFails && (op.found.None? || (op.req != EMPTY && op.req != op.found.value)) {
      var pool := if op.found.Some? then ReleaseStep(s.pool, op.again, op.env.release).0 else s.pool;
      var (pool', r) := GetStep(ring, pool, op.id, ParseIP(op.req), op.env.get);
      GetGives(ring, pool, op.id, ParseIP(op.req), op.env.get);
      WritesExactly(ring, pool, op.id, ParseIP(op.req), op.env.get);
      if pool' != pool {
        var a :| Gives(ring, pool, pool', op.id, a);
        if LosesRelease(op) {
          assert op.found.value in pool'.held && Print(a) in pool'.held;
        } else {
          assert HoldsNone(pool, op.id);
        }
      }
    }
  }

  ghost predicate DeletesWork(ops: seq<Op>) { forall op :: op in ops ==> !LosesRelease(op) }

  /** In every run where no delete inside RequireIP fails, each id holds at most one address, whatever
      else fails. */
  lemma {:induction false} RunKeepsUnique(ring: Ring, s: State, ops: seq<Op>)
    requires ring.Valid() && ValidRun(ring, s, ops) && DeletesWork(ops) && Unique(s.pool)
    ensures Unique(Run(ring, s, ops).pool)
    decreases |ops|
  {
    if ops != [] {
      hide Step;
      assert ops[0] in ops;
      UniqueExactly(ring, s, ops[0]);
      RunKeepsUnique(ring, Step(ring, s, ops[0]), ops[1..]);
    }
  }

  /** Two addresses for one id: the old one survives its failed release and the new one is granted. */
  lemma FailedReleaseLeavesTwo(ring: Ring, s: State, id: Text, prev: Text, a: IP)
    requires ring.Valid() && Unique(s.pool) && Holds(s.pool, id, prev)
    requires ring.Has(a) && Print(a) !in s.pool.held
    ensures var op := Require(id, Print(a), Some(prev), Some(prev), CALM.(release := ReleaseEnv(false, DeleteFails)));
            var p := Step(ring, s, op).pool;
            ValidOp(s.pool, op) && Holds(p, id, prev) && Holds(p, id, Print(a)) && prev != Print(a)
  {
    InRangeIsCanonical(ring, a);
    ParsePrint(a);
  }

  /** A granted address is held by the asker. */
  lemma GrantIsHeld(ring: Ring, s: State, op: Op)
    requires ring.Valid() && ValidOp(s.pool, op) && op.Require?
    ensures var (s', r) := RequireStep(ring, s, op.id, op.req, op.found, op.again, op.env);
            r.Ok? ==> Holds(s'.pool, op.id, r.value)
  {
    hide GetStep;
    var pool := if op.found.Some? then ReleaseStep(s.pool, op.again, op.env.release).0 else s.pool;
    GetGives(ring, pool, op.id, ParseIP(op.req), op.env.get);
  }

  /** op neither releases id nor asks for another address for it. */
  predicate LeavesAlone(op: Op, id: Text, t: Text) {
    op.id == id ==> op.Require? && (op.req == EMPTY || op.req == t)
  }

  lemma {:induction false} HoldIsSticky(ring: Ring, s: State, ops: seq<Op>, id: Text, t: Text)
    requires ring.Valid() && ValidRun(ring, s, ops) && DeletesWork(ops) && Unique(s.pool)
    requires Holds(s.pool, id, t) && forall op :: op in ops ==> LeavesAlone(op, id, t)
    ensures Holds(Run(ring, s, ops).pool, id, t)
    decreases |ops|
  {
    if ops != [] {
      var op := ops[0];
      assert op in ops;
      StepTouchesOwnEntries(ring, s, op);
      UniqueExactly(ring, s, op);
      assert op.id == id ==> op.found == Some(t);
      assert Holds(Step(ring, s, op).pool, id, t);
      hide Step;
      HoldIsSticky(ring, Step(ring, s, op), ops[1..], id, t);
    }
  }

  /** RequireIP(id, "") keeps returning the held address until the id is released or asks for another. */
  lemma RequireIsSticky(ring: Ring, s: State, ops: seq<Op>, id: Text, t: Text,
                        found: Option<Text>, again: Option<Text>, env: RequireEnv)
    requires ring.Valid() && ValidRun(ring, s, ops) && DeletesWork(ops) && Unique(s.pool)
    requires Holds(s.pool, id, t) && forall op :: op in ops ==> LeavesAlone(op, id, t)
    requires ValidFound(Run(ring, s, ops).pool, id, found) && !env.existFails
    ensures RequireStep(ring, Run(ring, s, ops), id, EMPTY, found, again, env) == (Run(ring, s, ops), Ok(t))
  {
    HoldIsSticky(ring, s, ops, id, t);
    RunKeepsUnique(ring, s, ops);
  }

  /** An address written just before its own answer was lost or the cursor write failed is reported as an
      error, and is what the next RequireIP(id, "") returns. */
  lemma StrandedIsReturnedNext(ring: Ring, s: State, op: Op, t: Text,
                               found: Option<Text>, again: Option<Text>, env: RequireEnv)
    requires ring.Valid() && ValidOp(s.pool, op) && Unique(s.pool) && op.Require? && !LosesRelease(op)
    requires RequireStep(ring, s, op.id, op.req, op.found, op.again, op.env).1.Err?
    requires Holds(Step(ring, s, op).pool, op.id, t) && !Holds(s.pool, op.id, t)
    requires ValidFound(Step(ring, s, op).pool, op.id, found) && !env.existFails
    ensures Step(ring, s, op).pool.cursor == s.pool.cursor || Step(ring, s, op).pool.cursor == Some(t)
    ensures RequireStep(ring, Step(ring, s, op), op.id, EMPTY, found, again, env)
         == (Step(ring, s, op), Ok(t))
  {
    UniqueExactly(ring, s, op);
    var pool := if op.found.Some? then ReleaseStep(s.pool, op.again, op.env.release).0 else s.pool;
    GetGives(ring, pool, op.id, ParseIP(op.req), op.env.get);
    hide GetStep;
    var g := GetStep(ring, pool, op.id, ParseIP(op.req), op.env.get);
    assert op.env.existFails || Step(ring, s, op).pool == g.0;
  }

  // The cache

  /** Every id holding an address is a key of ipamCache. */
  ghost predicate CacheCovers(s: State) {
    forall t :: t in s.pool.held ==> s.pool.held[t] in s.cache
  }

  lemma InitCovers(p: Pool)
    ensures CacheCovers(Recovered(p))
  {
    assert forall t :: t in p.held ==> p.held[t] in p.held.Values;
  }

  predicate CalmOp(op: Op) {
    match op
    case Require(_, _, _, _, env) => env == CALM
    case Release(_, _, renv) => renv == CALM_RELEASE
  }

  /** What can be seen before a call that strands an address: an id that holds nothing and is not cached
      comes to write its entry, and the call then reports an error. */
  ghost predicate Strands(ring: Ring, s: State, op: Op)
    requires ring.Valid()
  {
    && op.Require? && !op.env.existFails && op.found.None? && op.id !in s.cache
    && exists i: nat :: Reaches(ring, s.pool, ParseIP(op.req), op.env.get, i)
                        && FaultAt(op.env.get.reserve, i) in {WriteLost, CursorFails, CursorLost}
  }

  /** What an allocation leaves for its id when it reports an error. */
  lemma GetStrandsExactly(ring: Ring, p: Pool, id: Text, requested: Option<IP>, env: GetEnv)
    requires ring.Valid()
    ensures var (p', r) := GetStep(ring, p, id, requested, env);
            r.Err? && p' != p <==>
            exists i: nat :: Reaches(ring, p, requested, env, i)
                             && FaultAt(env.reserve, i) in {WriteLost, CursorFails, CursorLost}
  {
    hide GetStep, Canon, Print, Probed;
    GetExactly(ring, p, id, requested, env);
  }

  /** What can be seen before a call that drops the cache key of an id which still holds an address: a
      successful release of one address, while an earlier inner release that failed has left a second. */
  ghost predicate DropsOneOfTwo(p: Pool, op: Op) {
    && op.Release? && op.found.Some? && !op.renv.listFails && op.renv.delete == DeleteOk
    && exists t :: t != op.found.value && Holds(p, op.id, t)
  }

  ghost predicate Uncovers(ring: Ring, s: State, op: Op)
    requires ring.Valid()
  {
    Strands(ring, s, op) || DropsOneOfTwo(s.pool, op)
  }

  /** A call keeps the cache a cover exactly when it does not strand an address and does not release one of
      two, whatever fails and however many addresses an id holds. */
  lemma CoversExactly(ring: Ring, s: State, op: Op)
    requires ring.Valid() && ValidOp(s.pool, op) && CacheCovers(s)
    ensures CacheCovers(Step(ring, s, op)) <==> !Uncovers(ring, s, op)
  {
    hide GetStep, Reaches, Canon;
    StepTouchesOwnEntries(ring, s, op);
    var s' := Step(ring, s, op);
    if op.Require? {
      var pool := if op.found.Some? then ReleaseStep(s.pool, op.again, op.env.release).0 else s.pool;
      var (pool', r) := GetStep(ring, pool, op.id, ParseIP(op.req), op.env.get);
      GetStrandsExactly(ring, pool, op.id, ParseIP(op.req), op.env.get);
      GetGives(ring, pool, op.id, ParseIP(op.req), op.env.get);
      if Strands(ring, s, op) {
        var a :| Gives(ring, pool, pool', op.id, a);
        assert Print(a) in s'.pool.held && s'.pool.held[Print(a)] == op.id;
      } else if pool' != pool && r.Err? && !op.env.existFails {
        assert op.id in s.cache;
      }
    } else if DropsOneOfTwo(s.pool, op) {
      var t :| t != op.found.value && Holds(s.pool, op.id, t);
      assert t in s'.pool.held && s'.pool.held[t] == op.id && op.id !in s'.cache;
    } else if op.found.Some? && op.renv == CALM_RELEASE {
      var f := op.found.value;
      forall t | t in s'.pool.held ensures s'.pool.held[t] != op.id {
        assert t != f && !Holds(s.pool, op.id, t);
      }
    }
    if !Uncovers(ring, s, op) {
      forall t | t in s'.pool.held ensures s'.pool.held[t] in s'.cache {
        if s'.pool.held[t] != op.id { assert s.pool.held[t] == s'.pool.held[t]; }
      }
    }
  }

  ghost predicate CoversThroughout(ring: Ring, s: State, ops: seq<Op>)
    requires ring.Valid()
    decreases |ops|
  {
    CacheCovers(s) && (ops != [] ==> CoversThroughout(ring, Step(ring, s, ops[0]), ops[1..]))
  }

  ghost predicate NeverUncovers(ring: Ring, s: State, ops: seq<Op>)
    requires ring.Valid()
    decreases |ops|
  {
    ops != [] ==> !Uncovers(ring, s, ops[0]) && NeverUncovers(ring, Step(ring, s, ops[0]), ops[1..])
  }

  /** Over every run, whatever fails, the cache covers the store after each call exactly when no call
      strands an address or releases one of two. */
  lemma {:induction false} RunCoversExactly(ring: Ring, s: State, ops: seq<Op>)
    requires ring.Valid() && ValidRun(ring, s, ops) && CacheCovers(s)
    ensures CoversThroughout(ring, s, ops) <==> NeverUncovers(ring, s, ops)
    ensures NeverUncovers(ring, s, ops) ==> CacheCovers(Run(ring, s, ops))
    decreases |ops|
  {
    if ops != [] {
      hide Step, Uncovers, CacheCovers;
      CoversExactly(ring, s, ops[0]);
      if !Uncovers(ring, s, ops[0]) { RunCoversExactly(ring, Step(ring, s, ops[0]), ops[1..]); }
      else { FirstOfThroughout(ring, Step(ring, s, ops[0]), ops[1..]); }
    }
  }

  lemma FirstOfThroughout(ring: Ring, s: State, ops: seq<Op>)
    requires ring.Valid()
    ensures CoversThroughout(ring, s, ops) ==> CacheCovers(s)
  {
  }

  lemma InitThenRunCovers(ring: Ring, p: Pool, ops: seq<Op>)
    requires ring.Valid() && ValidRun(ring, Recovered(p), ops)
    ensures CoversThroughout(ring, Recovered(p), ops) <==> NeverUncovers(ring, Recovered(p), ops)
    ensures NeverUncovers(ring, Recovered(p), ops) ==> CacheCovers(Run(ring, Recovered(p), ops))
  {
    InitCovers(p);
    RunCoversExactly(ring, Recovered(p), ops);
  }

  /** Without errors nothing uncovers, failed explicit requests included. */
  lemma {:induction false} CalmNeverUncovers(ring: Ring, s: State, ops: seq<Op>)
    requires ring.Valid() && ValidRun(ring, s, ops) && Unique(s.pool) && forall op :: op in ops ==> CalmOp(op)
    ensures NeverUncovers(ring, s, ops)
    decreases |ops|
  {
    if ops != [] {
      hide Step, Reaches, WritesEntry;
      assert ops[0] in ops;
      UniqueExactly(ring, s, ops[0]);
      CalmNeverUncovers(ring, Step(ring, s, ops[0]), ops[1..]);
    }
  }

  /** An id left with two addresses by a failed inner release loses its cache key with the first release. */
  lemma ReleaseOfOneUncovers(ring: Ring, s: State, id: Text, t: Text, u: Text)
    requires ring.Valid() && Holds(s.pool, id, t) && Holds(s.pool, id, u) && t != u
    ensures var op := Release(id, Some(t), CALM_RELEASE);
            ValidOp(s.pool, op) && Holds(Step(ring, s, op).pool, id, u) && !CacheCovers(Step(ring, s, op))
  {
    var s' := Step(ring, s, Release(id, Some(t), CALM_RELEASE));
    assert u in s'.pool.held && s'.pool.held[u] == id;
  }

  /** A cursor write that fails for an id without an address strands one that the cache does not know. */
  lemma StrandedEscapesCache(ring: Ring, s: State, id: Text, a: IP)
    requires ring.Valid() && HoldsNone(s.pool, id) && id !in s.cache
    requires ring.Has(a) && Print(a) !in s.pool.held
    ensures var env := CALM.(get := GetEnv(false, [CursorFails]));
            var (s', r) := RequireStep(ring, s, id, Print(a), None, None, env);
            r.Err? && Holds(s'.pool, id, Print(a)) && !CacheCovers(s')
  {
    InRangeIsCanonical(ring, a);
    ParsePrint(a);
    var env := CALM.(get := GetEnv(false, [CursorFails]));
    var (s', r) := RequireStep(ring, s, id, Print(a), None, None, env);
    assert Print(a) in s'.pool.held && s'.pool.held[Print(a)] == id;
  }

  // Fairness of the ring

  /** Releases, and requests that leave the choice of address to the search, without store errors. */
  predicate SearchOp(op: Op) {
    CalmOp(op) && (op.Require? ==> op.req == EMPTY)
  }

  /** The address the search grants in this call, if it does. */
  function Granted(ring: Ring, s: State, op: Op): Option<IP>
    requires ring.Valid()
  {
    if op.Require? && op.found.None? && !op.env.existFails then
      var (_, r) := GetStep(ring, s.pool, op.id, ParseIP(op.req), op.env.get);
      if r.Ok? then Some(r.value) else None
    else None
  }

  /** Ring distance from x forward to a. */
  function Dist(ring: Ring, x: IP, a: IP): nat
    requires ring.Valid() && ring.Has(x) && ring.Has(a)
  {
    if Pos(ring, a) >= Pos(ring, x) then Pos(ring, a) - Pos(ring, x)
    else Pos(ring, a) + ring.Size() - Pos(ring, x)
  }

  ghost predicate Free(s: State, y: IP) { Print(y) !in s.pool.held }

  lemma DistOfProbe(ring: Ring, x: IP, c: IP, f: nat)
    requires ring.Valid() && ring.Has(x) && ring.Has(c) && f < ring.Size()
    requires Dist(ring, x, c) + f + 1 < ring.Size()
    ensures var from := Wrap(ring, Pos(ring, c) + 1);
            && ring.Has(Probed(ring, from, f))
            && Dist(ring, x, Probed(ring, from, f)) == Dist(ring, x, c) + f + 1
  {
    hide At;
    var from := Wrap(ring, Pos(ring, c) + 1);
    AtPos(ring, Wrap(ring, from + f));
  }

  lemma DistInjective(ring: Ring, x: IP, a: IP, b: IP)
    requires ring.Valid() && ring.Has(x) && ring.Has(a) && ring.Has(b)
    requires Dist(ring, x, a) == Dist(ring, x, b)
    ensures a == b
  {
    PosAt(ring, a);
    PosAt(ring, b);
    PosAt(ring, x);
  }

  /** While y stays free, the cursor moves from c towards y and never past it. */
  lemma GrantStaysBefore(ring: Ring, s: State, op: Op, x: IP, c: IP, y: IP)
    requires ring.Valid() && SearchOp(op) && ring.Has(x) && ring.Has(c) && ring.Has(y)
    requires s.pool.cursor == Some(Print(c)) && Dist(ring, x, c) < Dist(ring, x, y) && Free(s, y)
    ensures Granted(ring, s, op).Some? ==>
      var z := Granted(ring, s, op).value;
      && ring.Has(z) && Step(ring, s, op).pool.cursor == Some(Print(z))
      && Dist(ring, x, c) < Dist(ring, x, z) <= Dist(ring, x, y)
      && (z == y ==> !Free(Step(ring, s, op), y))
    ensures Granted(ring, s, op).None? ==> Step(ring, s, op).pool.cursor == s.pool.cursor
  {
    hide At, Probed, Dist;
    if op.Require? && op.found.None? {
      InRangeIsCanonical(ring, c);
      ParsePrint(c);
      SearchIsNextFit(ring, s.pool, op.id);
      var from := From(ring, s.pool, false);
      assert from == Wrap(ring, Pos(ring, c) + 1);
      DistRange(ring, x, y);
      var e := Dist(ring, x, y) - Dist(ring, x, c) - 1;
      DistOfProbe(ring, x, c, e);
      DistInjective(ring, x, Probed(ring, from, e), y);
      if Granted(ring, s, op).Some? {
        var z := Granted(ring, s, op).value;
        var f: nat :| FirstFree(ring, s.pool, from, f) && z == Probed(ring, from, f);
        assert f <= e;
        DistOfProbe(ring, x, c, f);
      }
      var g := GetStep(ring, s.pool, op.id, None, GetEnv(false, []));
      assert Step(ring, s, op).pool == g.0;
    }
  }

  lemma DistRange(ring: Ring, x: IP, y: IP)
    requires ring.Valid() && ring.Has(x) && ring.Has(y)
    ensures Dist(ring, x, y) < ring.Size()
  {
  }

  ghost predicate FreeBefore(ring: Ring, s: State, ops: seq<Op>, y: IP)
    requires ring.Valid()
    decreases |ops|
  {
    ops != [] ==> Free(s, y) && FreeBefore(ring, Step(ring, s, ops[0]), ops[1..], y)
  }

  /** While y stays free, a search that starts between x and y does not come round to x. */
  lemma {:induction false} NoReturnBefore(ring: Ring, s: State, ops: seq<Op>, x: IP, c: IP, y: IP)
    requires ring.Valid() && ops != [] && forall op :: op in ops ==> SearchOp(op)
    requires ring.Has(x) && ring.Has(c) && ring.Has(y)
    requires s.pool.cursor == Some(Print(c)) && Dist(ring, x, c) < Dist(ring, x, y)
    requires FreeBefore(ring, s, ops, y)
    ensures Granted(ring, Run(ring, s, ops[..|ops| - 1]), ops[|ops| - 1]) != Some(x)
    decreases |ops|
  {
    hide Step, Granted, Dist;
    var op := ops[0];
    assert op in ops;
    GrantStaysBefore(ring, s, op, x, c, y);
    DistSelf(ring, x);
    if |ops| > 1 {
      var g := Granted(ring, s, op);
      var c' := if g.Some? then g.value else c;
      if g == Some(y) { assert Free(Step(ring, s, op), y); }
      if Dist(ring, x, c') == Dist(ring, x, y) { DistInjective(ring, x, c', y); }
      NoReturnBefore(ring, Step(ring, s, op), ops[1..], x, c', y);
      assert ops[..|ops| - 1][1..] == ops[1..][..|ops| - 2];
    } else {
      assert ops[..0] == [];
    }
  }

  lemma DistSelf(ring: Ring, x: IP)
    requires ring.Valid() && ring.Has(x)
    ensures Dist(ring, x, x) == 0
    ensures forall y :: ring.Has(y) && y != x ==> Dist(ring, x, y) > 0
  {
    forall y | ring.Has(y) && y != x ensures Dist(ring, x, y) > 0 {
      if Dist(ring, x, y) == 0 { DistInjective(ring, x, y, x); }
    }
  }

  lemma {:induction false} HeldAtSomeState(ring: Ring, s: State, ops: seq<Op>, y: IP)
    requires ring.Valid() && !FreeBefore(ring, s, ops, y)
    ensures exists k :: 0 <= k < |ops| && !Free(Run(ring, s, ops[..k]), y)
    decreases |ops|
  {
    hide Step;
    if !Free(s, y) {
      assert Run(ring, s, ops[..0]) == s;
    } else {
      var s' := Step(ring, s, ops[0]);
      HeldAtSomeState(ring, s', ops[1..], y);
      var k :| 0 <= k < |ops| - 1 && !Free(Run(ring, s', ops[1..][..k]), y);
      assert ops[..k + 1][1..] == ops[1..][..k];
      assert !Free(Run(ring, s, ops[..k + 1]), y);
    }
  }

  /** No starvation: when the search grants x, and after further calls grants x again, every other
      address of the range was held at some moment between the two grants. */
  lemma RingIsFair(ring: Ring, s: State, op: Op, ops: seq<Op>, x: IP, y: IP)
    requires ring.Valid() && ops != [] && SearchOp(op) && forall o :: o in ops ==> SearchOp(o)
    requires Granted(ring, s, op) == Some(x)
    requires Granted(ring, Run(ring, Step(ring, s, op), ops[..|ops| - 1]), ops[|ops| - 1]) == Some(x)
    requires ring.Has(y) && y != x
    ensures exists k :: 0 <= k < |ops| && !Free(Run(ring, Step(ring, s, op), ops[..k]), y)
  {
    SearchIsNextFit(ring, s.pool, op.id);
    hide Dist, GetStep;
    DistSelf(ring, x);
    if FreeBefore(ring, Step(ring, s, op), ops, y) {
      NoReturnBefore(ring, Step(ring, s, op), ops, x, x, y);
    } else {
      HeldAtSomeState(ring, Step(ring, s, op), ops, y);
    }
  }
}
