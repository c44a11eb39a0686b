/** The election record of pkg/leader/etcdlock.go: clients that compare-and-swap one etcd key. */
module Election {
  import opened NetIP

  /** The stored bytes: an election record, or bytes that json.Unmarshal rejects. */
  datatype Bytes = Record(holder: string) | Garbage

  datatype Pair = Pair(value: Bytes, version: nat)

  /** The key and the modified index of the store so far. */
  datatype Cell = Cell(current: Option<Pair>, index: nat) {
    predicate Valid() { current.Some? ==> current.value.version <= index }
  }

  datatype ReadFault = ReadOk | ReadFails

  /** A put that fails before it reaches the store, or whose answer is lost after it was applied. */
  datatype PutFault = PutOk | PutFails | AnswerLost

  /** AtomicPut with a previous pair writes only over that version, without one only where nothing is;
      a pair comes back only on success. other counts the writes to other keys meanwhile. */
  function Put(c: Cell, value: Bytes, previous: Option<Pair>, other: nat, fault: PutFault): (Cell, Option<Pair>, bool) {
    if fault == PutFails then (c, None, false)
    else if c.current != previous then (c, None, false)
    else
      var pair := Pair(value, c.index + other + 1);
      (Cell(Some(pair), pair.version), if fault == AnswerLost then None else Some(pair), true)
  }

  /** The pair a client keeps after Get: what it read, even when the bytes are no record. */
  function GetPair(c: Cell, fault: ReadFault): Option<Pair> {
    if fault == ReadFails then None else c.current
  }

  datatype Outcome<+T> = Success(value: T) | NotFound | Error

  /** What Get reports. */
  function GetOutcome(c: Cell, fault: ReadFault): Outcome<string> {
    if fault == ReadFails then Error
    else if c.current.None? then NotFound
    else match c.current.value.value
      case Garbage => Error
      case Record(holder) => Success(holder)
  }

  class Register {
    var cell: Cell

    constructor () ensures cell == Cell(None, 0) { cell := Cell(None, 0); }

    method AtomicPut(value: Bytes, previous: Option<Pair>, other: nat, fault: PutFault) returns (pair: Option<Pair>)
      modifies this
      ensures cell == Put(old(cell), value, previous, other, fault).0
      ensures pair == Put(old(cell), value, previous, other, fault).1
      ensures pair.Some? ==> cell.current == pair && pair.value.value == value && old(cell.index) < pair.value.version
      ensures cell == old(cell) || (old(cell.current) == previous && cell.current.Some? && cell.current.value.value == value)
    {
      if fault == PutFails || cell.current != previous { return None; }
      var written := Pair(value, cell.index + other + 1);
      cell := Cell(Some(written), written.version);
      if fault == AnswerLost { return None; }
      return Some(written);
    }
  }

  class ETCDLock {
    const register: Register
    var pair: Option<Pair>

    constructor (register: Register)
      ensures this.register == register && pair == None
    {
      this.register, pair := register, None;
    }

    method Get(fault: ReadFault) returns (r: Outcome<string>)
      modifies this
      ensures pair == GetPair(register.cell, fault)
      ensures r == GetOutcome(register.cell, fault)
      ensures r == NotFound <==> fault == ReadOk && register.cell.current.None?
      ensures forall h :: r == Success(h) <==>
        fault == ReadOk && register.cell.current.Some? && register.cell.current.value.value == Record(h)
    {
      pair := if fault == ReadFails then None else register.cell.current;
      if fault == ReadFails { return Error; }
      if pair.None? { return NotFound; }
      if pair.value.value.Garbage? { return Error; }
      return Success(pair.value.value.holder);
    }

    method Create(holder: string, other: nat, fault: PutFault) returns (ok: bool)
      modifies this, register
      ensures (register.cell, pair) ==
        var (cell, p, _) := Put(old(register.cell), Record(holder), None, other, fault); (cell, p)
      ensures ok <==> pair.Some?
      ensures ok ==> old(register.cell).current.None? && register.cell.current == pair && pair.value.value == Record(holder)
    {
      pair := register.AtomicPut(Record(holder), None, other, fault);
      return pair.Some?;
    }

    method Update(holder: string, other: nat, fault: PutFault) returns (ok: bool)
      modifies this, register
      ensures old(pair).None? ==> !ok && pair == None && register.cell == old(register.cell)
      ensures old(pair).Some? ==>
        (register.cell, pair) == (var (cell, p, _) := Put(old(register.cell), Record(holder), old(pair), other, fault); (cell, p))
        && (ok <==> pair.Some?)
      ensures ok ==> old(register.cell).current == old(pair) && register.cell.current == pair && pair.value.value == Record(holder)
    {
      if pair.None? { return false; }
      pair := register.AtomicPut(Record(holder), pair, other, fault);
      return pair.Some?;
    }
  }

  // Any number of clients in any interleaving

  type Client = nat

  /** One applied write: who wrote what, over which version, and the version it made. */
  datatype Applied = Applied(client: Client, value: Bytes, base: Option<nat>, version: nat)

  datatype System = System(cell: Cell, pairs: map<Client, Pair>, log: seq<Applied>)

  datatype Action =
    | Get(client: Client, rfault: ReadFault)
    | Create(client: Client, value: Bytes, other: nat, fault: PutFault)
    | Update(client: Client, value: Bytes, other: nat, fault: PutFault)

  function PairOf(s: System, c: Client): Option<Pair> { if c in s.pairs then Some(s.pairs[c]) else None }

  function Keep(pairs: map<Client, Pair>, c: Client, p: Option<Pair>): map<Client, Pair> {
    if p.Some? then pairs[c := p.value] else pairs - {c}
  }

  function VersionOf(p: Option<Pair>): Option<nat> { if p.Some? then Some(p.value.version) else None }

  function PutBy(s: System, c: Client, value: Bytes, previous: Option<Pair>, other: nat, fault: PutFault): System {
    var (cell, p, applied) := Put(s.cell, value, previous, other, fault);
    System(cell, Keep(s.pairs, c, p),
           if applied then s.log + [Applied(c, value, VersionOf(previous), cell.index)] else s.log)
  }

  function Step(s: System, a: Action): System {
    match a
    case Get(c, rfault) => s.(pairs := Keep(s.pairs, c, GetPair(s.cell, rfault)))
    case Create(c, value, other, fault) => PutBy(s, c, value, None, other, fault)
    case Update(c, value, other, fault) =>
      if PairOf(s, c).None? then s else PutBy(s, c, value, PairOf(s, c), other, fault)
  }

  function Run(s: System, actions: seq<Action>): System {
    if actions == [] then s else Step(Run(s, actions[..|actions| - 1]), actions[|actions| - 1])
  }

  /** The version the i-th write must stand on: that of the write before, or what was there at the start. */
  function Base(start: Option<nat>, log: seq<Applied>, i: nat): Option<nat>
    requires i <= |log|
  {
    if i == 0 then start else Some(log[i - 1].version)
  }

  /** The i-th write stands on the one before it and makes a later version. */
  predicate Link(start: Option<nat>, log: seq<Applied>, i: nat)
    requires i < |log|
  {
    log[i].base == Base(start, log, i) && (log[i].base.Some? ==> log[i].base.value < log[i].version)
  }

  ghost predicate Linked(start: Option<nat>, log: seq<Applied>) {
    forall i: nat :: i < |log| ==> Link(start, log, i)
  }

  /** The applied writes form one chain that ends in the stored version. */
  ghost predicate Chain(start: Option<nat>, s: System) {
    s.cell.Valid() && VersionOf(s.cell.current) == Base(start, s.log, |s.log|) && Linked(start, s.log)
  }

  lemma OneMoreLink(start: Option<nat>, log: seq<Applied>, e: Applied)
    requires Linked(start, log) && e.base == Base(start, log, |log|)
    requires e.base.Some? ==> e.base.value < e.version
    ensures Linked(start, log + [e])
  {
    var log' := log + [e];
    forall i: nat | i < |log'| ensures Link(start, log', i) {
      if i < |log| { assert Link(start, log, i); }
    }
  }

  lemma {:induction false} VersionsGrow(start: Option<nat>, log: seq<Applied>, i: nat, j: nat)
    requires Linked(start, log) && i < j < |log|
    ensures log[i].version < log[j].version
  {
    if i < j - 1 { VersionsGrow(start, log, i, j - 1); }
    assert Link(start, log, j);
  }

  lemma PutKeepsChain(start: Option<nat>, s: System, c: Client, value: Bytes, previous: Option<Pair>,
                      other: nat, fault: PutFault)
    requires Chain(start, s)
    ensures Chain(start, PutBy(s, c, value, previous, other, fault))
  {
    hide Linked;
    if fault != PutFails && s.cell.current == previous {
      OneMoreLink(start, s.log, Applied(c, value, VersionOf(previous), s.cell.index + other + 1));
    }
  }

  lemma StepKeepsChain(start: Option<nat>, s: System, a: Action)
    requires Chain(start, s)
    ensures Chain(start, Step(s, a))
  {
    hide Chain, Put;
    match a
    case Get(c, rfault) => ChainIgnoresPairs(start, s, Keep(s.pairs, c, GetPair(s.cell, rfault)));
    case Create(c, value, other, fault) => PutKeepsChain(start, s, c, value, None, other, fault);
    case Update(c, value, other, fault) => PutKeepsChain(start, s, c, value, PairOf(s, c), other, fault);
  }

  lemma ChainIgnoresPairs(start: Option<nat>, s: System, pairs: map<Client, Pair>)
    requires Chain(start, s)
    ensures Chain(start, s.(pairs := pairs))
  {
  }

  /** For any number of clients and any interleaving, applied writes form one chain, each over exactly
      the version its client last read or wrote. */
  lemma {:induction false} WritesFormOneChain(s: System, actions: seq<Action>)
    requires s.cell.Valid() && s.log == []
    ensures Chain(VersionOf(s.cell.current), Run(s, actions))
  {
    if actions != [] {
      WritesFormOneChain(s, actions[..|actions| - 1]);
      StepKeepsChain(VersionOf(s.cell.current), Run(s, actions[..|actions| - 1]), actions[|actions| - 1]);
    }
  }

  /** No two writes, by whatever clients, succeed from the same version. */
  lemma NoTwoWritesFromOneVersion(s: System, actions: seq<Action>, i: nat, j: nat)
    requires s.cell.Valid() && s.log == [] && i < j < |Run(s, actions).log|
    ensures Run(s, actions).log[i].base != Run(s, actions).log[j].base
  {
    hide Run;
    WritesFormOneChain(s, actions);
    var start, log := VersionOf(s.cell.current), Run(s, actions).log;
    assert Link(start, log, i) && Link(start, log, j);
    if i < j - 1 { VersionsGrow(start, log, i, j - 1); }
  }

  /** A create is applied exactly when the key is absent and the store takes it; an update exactly when its
      client's pair is the stored one. An applied write leaves the written bytes, under a new version. */
  lemma AppliedWriteStores(s: System, a: Action)
    requires s.cell.Valid() && !a.Get?
    ensures var s' := Step(s, a);
            var applies := a.fault != PutFails && s.cell.current == (if a.Create? then None else PairOf(s, a.client))
                           && (a.Update? ==> PairOf(s, a.client).Some?);
            && (applies ==> s'.cell.current == Some(Pair(a.value, s'.cell.index)) && s'.cell.index > s.cell.index)
            && (applies ==> s'.log == s.log + [Applied(a.client, a.value, VersionOf(s.cell.current), s'.cell.index)])
            && (!applies ==> s'.cell == s.cell && s'.log == s.log)
  {
  }

  /** The register holds the bytes of the last applied write, or what it held at the start. */
  lemma {:induction false} LastWriteIsStored(s: System, actions: seq<Action>)
    requires s.cell.Valid() && s.log == []
    ensures var s' := Run(s, actions);
            && s'.cell.Valid()
            && (s'.log == [] ==> s'.cell.current == s.cell.current)
            && (s'.log != [] ==> s'.cell.current.Some? && s'.cell.current.value.value == s'.log[|s'.log| - 1].value)
  {
    if actions != [] {
      var n := |actions| - 1;
      LastWriteIsStored(s, actions[..n]);
      if !actions[n].Get? { AppliedWriteStores(Run(s, actions[..n]), actions[n]); }
    }
  }

  /** Over every run a Get that goes through reports the holder of the last applied write, that nothing can
      be decoded, or, before any write, what was there at the start. */
  lemma GetReportsLastWrite(s: System, actions: seq<Action>, holder: string)
    requires s.cell.Valid() && s.log == []
    ensures var s' := Run(s, actions);
            var r := GetOutcome(s'.cell, ReadOk);
            && (s'.log != [] ==>
                 && (r == Success(holder) <==> s'.log[|s'.log| - 1].value == Record(holder))
                 && (r == Error <==> s'.log[|s'.log| - 1].value == Garbage) && r != NotFound)
            && (s'.log == [] ==>
                 && (r == Success(holder) <==> s.cell.current.Some? && s.cell.current.value.value == Record(holder))
                 && (r == NotFound <==> s.cell.current.None?))
            && GetOutcome(s'.cell, ReadFails) == Error
  {
    hide Run;
    LastWriteIsStored(s, actions);
  }

  /** Between two moments of a run the register is as it was, or a write was applied and its version is new. */
  lemma {:induction false} LogDecidesCell(s: System, actions: seq<Action>, k: nat)
    requires k <= |actions| && Run(s, actions[..k]).cell.Valid()
    ensures var a, b := Run(s, actions[..k]), Run(s, actions);
            && b.cell.Valid() && a.cell.index <= b.cell.index && a.log <= b.log
            && (b.log == a.log ==> b.cell == a.cell)
            && (b.log != a.log ==> b.cell.current.Some? && b.cell.current.value.version > a.cell.index)
  {
    if k == |actions| {
      assert actions[..k] == actions;
    } else {
      var n := |actions| - 1;
      assert actions[..n][..k] == actions[..k];
      LogDecidesCell(s, actions[..n], k);
    }
  }

  lemma {:induction false} OthersKeepPair(s: System, actions: seq<Action>, k: nat, c: Client)
    requires k <= |actions| && forall j :: k <= j < |actions| ==> actions[j].client != c
    ensures PairOf(Run(s, actions), c) == PairOf(Run(s, actions[..k]), c)
  {
    if k == |actions| {
      assert actions[..k] == actions;
    } else {
      var n := |actions| - 1;
      assert actions[..n][..k] == actions[..k];
      OthersKeepPair(s, actions[..n], k, c);
    }
  }

  /** What a client keeps after a call of its own is what the register holds then. */
  lemma OwnCallIsCurrent(s: System, a: Action)
    ensures PairOf(Step(s, a), a.client).Some? ==> PairOf(Step(s, a), a.client) == Step(s, a).cell.current
  {
  }

  /** The update of a client whose last call left it a pair is applied exactly when no write of anyone has
      been applied since that call and the store takes it; it then stands on that client's version. */
  lemma UpdateSucceedsExactly(s: System, actions: seq<Action>, i: nat, c: Client, value: Bytes, other: nat, fault: PutFault)
    requires s.cell.Valid() && i < |actions| && actions[i].client == c
    requires forall j :: i < j < |actions| ==> actions[j].client != c
    requires PairOf(Run(s, actions[..i + 1]), c).Some?
    ensures var call, now := Run(s, actions[..i + 1]), Run(s, actions);
            var s' := Step(now, Update(c, value, other, fault));
            && (s'.log != now.log <==> fault != PutFails && now.log == call.log)
            && (s'.log != now.log ==> s'.log == now.log + [Applied(c, value, VersionOf(PairOf(call, c)), s'.cell.index)])
            && (s'.log == now.log ==> s'.cell == now.cell)
  {
    hide Run;
    var k := i + 1;
    FirstOfRun(s);
    assert actions[..k][..0] == [] && actions[..0] == [];
    LogDecidesCell(s, actions[..k], 0);
    LogDecidesCell(s, actions, k);
    OthersKeepPair(s, actions, k, c);
    assert Run(s, actions[..k]) == Step(Run(s, actions[..i]), actions[i]) by { RunLast(s, actions, i); }
    OwnCallIsCurrent(Run(s, actions[..i]), actions[i]);
  }

  lemma FirstOfRun(s: System)
    ensures Run(s, []) == s
  {
  }

  lemma RunLast(s: System, actions: seq<Action>, i: nat)
    requires i < |actions|
    ensures Run(s, actions[..i + 1]) == Step(Run(s, actions[..i]), actions[i])
  {
    assert actions[..i + 1][..i] == actions[..i];
  }

  /** The version a client may still build on: what its last call read or wrote. */
  function LastSeen(s: System, actions: seq<Action>, c: Client): Option<Pair> {
    if actions == [] then PairOf(s, c)
    else
      var before, a := actions[..|actions| - 1], actions[|actions| - 1];
      if a.client != c then LastSeen(s, before, c)
      else match a
        case Get(_, rfault) => GetPair(Run(s, before).cell, rfault)
        case Create(_, value, other, fault) => Put(Run(s, before).cell, value, None, other, fault).1
        case Update(_, value, other, fault) =>
          var p := LastSeen(s, before, c);
          if p.None? then None else Put(Run(s, before).cell, value, p, other, fault).1
  }

  /** Other clients never touch what a client keeps. */
  lemma {:induction false} KeptIsLastSeen(s: System, actions: seq<Action>, c: Client)
    ensures PairOf(Run(s, actions), c) == LastSeen(s, actions, c)
  {
    if actions != [] { KeptIsLastSeen(s, actions[..|actions| - 1], c); }
  }

  /** The calls of c that give it a pair again: a Get that finds the key, or a Create that succeeds. */
  predicate Refreshes(s: System, a: Action, c: Client) {
    a.client == c && match a
      case Get(_, rfault) => rfault == ReadOk && s.cell.current.Some?
      case Create(_, value, other, fault) => fault == PutOk && s.cell.current.None?
      case Update(_, _, _, _) => false
  }

  ghost predicate NeverRefreshes(s: System, actions: seq<Action>, c: Client) {
    actions != [] ==>
      var n := |actions| - 1;
      NeverRefreshes(s, actions[..n], c) && !Refreshes(Run(s, actions[..n]), actions[n], c)
  }

  /** A client without a pair stays without one, and its updates change nothing, until it refreshes. */
  lemma {:induction false} LoserCannotUpdate(s: System, actions: seq<Action>, c: Client,
                                             value: Bytes, other: nat, fault: PutFault)
    requires PairOf(s, c).None? && NeverRefreshes(s, actions, c)
    ensures PairOf(Run(s, actions), c).None?
    ensures Step(Run(s, actions), Update(c, value, other, fault)) == Run(s, actions)
  {
    if actions != [] { LoserCannotUpdate(s, actions[..|actions| - 1], c, value, other, fault); }
  }

  lemma FailedWriteDropsPair(s: System, a: Action)
    requires !a.Get?
    requires s.cell.current != (if a.Create? then None else PairOf(s, a.client)) || a.fault != PutOk
    ensures PairOf(Step(s, a), a.client).None?
  {
  }

  /** After a write that its client saw fail, whether or not it was applied, no update of that client
      changes anything until the client has read the key or created it. */
  lemma FailedWriteBarsUpdates(s: System, a: Action, actions: seq<Action>, value: Bytes, other: nat, fault: PutFault)
    requires !a.Get?
    requires s.cell.current != (if a.Create? then None else PairOf(s, a.client)) || a.fault != PutOk
    requires NeverRefreshes(Step(s, a), actions, a.client)
    ensures var s' := Run(Step(s, a), actions); Step(s', Update(a.client, value, other, fault)) == s'
  {
    FailedWriteDropsPair(s, a);
    LoserCannotUpdate(Step(s, a), actions, a.client, value, other, fault);
  }

  /** A Get leaves its client free to update exactly when the read itself goes through and finds the key,
      whatever it reports; of the Gets that report an error those are the ones that cannot decode the record. */
  lemma GetStillUpdatesExactly(s: System, c: Client, rfault: ReadFault, value: Bytes, other: nat)
    ensures var g := Step(s, Get(c, rfault));
            var s' := Step(g, Update(c, value, other, PutOk));
            && (s'.log != g.log <==> rfault == ReadOk && s.cell.current.Some?)
            && (GetOutcome(s.cell, rfault).Error? ==> (s'.log != g.log <==> rfault == ReadOk))
            && (s'.log != g.log ==> s'.log == s.log + [Applied(c, value, VersionOf(s.cell.current), s'.cell.index)])
  {
  }
}
