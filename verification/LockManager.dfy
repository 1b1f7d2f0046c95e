/** Point locks with a FIFO queue per key, deadlock refusal and deadlock detection. */
module Locks {
  import opened Types
  import opened WaitGraph

  datatype LockType = Shared | Exclusive

  datatype Request = Request(txn: TxnId, kind: LockType)

  datatype Entry = Entry(holders: seq<Request>, waiters: seq<Request>)

  // A thread parked inside Acquire, with the arguments of that call.
  datatype Waiting = Waiting(key: Key, kind: LockType)

  datatype LockState = LockState(
    table: map<Key, Entry>,
    graph: Graph,
    aborted: set<TxnId>,
    blocked: map<TxnId, Waiting>)

  datatype Outcome = Granted | Refused | TimedOut | MustWait

  const EMPTY: LockState := LockState(map[], map[], {}, map[])

  // ---- the pure parts of the lock table ----

  predicate Compatible(held: LockType, requested: LockType) {
    held == Shared && requested == Shared
  }

  predicate CanGrant(e: Entry, requester: TxnId, kind: LockType) {
    && (forall i | 0 <= i < |e.holders| ::
          e.holders[i].txn == requester || Compatible(e.holders[i].kind, kind))
    && (e.waiters == [] || e.waiters[0] == Request(requester, kind))
  }

  function EntryOf(s: LockState, k: Key): Entry {
    if k in s.table then s.table[k] else Entry([], [])
  }

  function Owners(rs: seq<Request>): set<TxnId> {
    set i | 0 <= i < |rs| :: rs[i].txn
  }

  function DropFirst(rs: seq<Request>, t: TxnId): seq<Request> {
    if rs == [] then []
    else if rs[0].txn == t then rs[1..]
    else [rs[0]] + DropFirst(rs[1..], t)
  }

  function DropAll(rs: seq<Request>, t: TxnId): seq<Request> {
    if rs == [] then []
    else (if rs[0].txn == t then [] else [rs[0]]) + DropAll(rs[1..], t)
  }

  predicate Holds(s: LockState, k: Key, t: TxnId, kind: LockType) {
    Request(t, kind) in EntryOf(s, k).holders
  }

  // ---- what each operation does to the whole state ----

  // Acquire up to the point where it returns or parks.
  ghost function AcquireStart(s: LockState, k: Key, t: TxnId, kind: LockType): (LockState, Outcome) {
    var e := EntryOf(s, k);
    var me := Request(t, kind);
    if t in s.aborted then
      (s.(table := s.table[k := e], aborted := s.aborted - {t}), Refused)
    else if CanGrant(e, t, kind) then
      (s.(table := s.table[k := e.(holders := e.holders + [me])]), Granted)
    else
      var g := AddEdges(s.graph, t, Owners(e.holders));
      var queued := e.waiters + [me];
      if e.holders != [] && CycleFrom(g, t) then
        (s.(table := s.table[k := e.(waiters := DropFirst(queued, t))], graph := Without(g, t)), Refused)
      else
        (s.(table := s.table[k := e.(waiters := queued)], graph := g,
            blocked := s.blocked[t := Waiting(k, kind)]), MustWait)
  }

  // A parked Acquire wakes up: by notification, by being a victim, or by its timeout.
  function AcquireWake(s: LockState, t: TxnId, timedOut: bool): (LockState, Outcome)
    requires t in s.blocked
  {
    var k, kind := s.blocked[t].key, s.blocked[t].kind;
    var e := EntryOf(s, k);
    var gone := s.(graph := Without(s.graph, t), blocked := s.blocked - {t});
    if t in s.aborted then
      (gone.(table := s.table[k := e.(waiters := DropFirst(e.waiters, t))]), Refused)
    else if CanGrant(e, t, kind) then
      var ws := if e.waiters != [] && e.waiters[0].txn == t then e.waiters[1..] else e.waiters;
      (gone.(table := s.table[k := Entry(e.holders + [Request(t, kind)], ws)]), Granted)
    else if timedOut then
      (gone.(table := s.table[k := e.(waiters := DropFirst(e.waiters, t))]), TimedOut)
    else
      (s, MustWait)
  }

  function TryAcquire(s: LockState, k: Key, t: TxnId, kind: LockType): (LockState, Outcome) {
    var e := EntryOf(s, k);
    if t in s.aborted then
      (s.(table := s.table[k := e], aborted := s.aborted - {t}), Refused)
    else if !CanGrant(e, t, kind) then
      (s.(table := s.table[k := e]), TimedOut)
    else
      (s.(table := s.table[k := e.(holders := e.holders + [Request(t, kind)])]), Granted)
  }

  function Release(s: LockState, k: Key, t: TxnId): LockState {
    var e := EntryOf(s, k);
    s.(table := s.table[k := e.(holders := DropAll(e.holders, t))])
  }

  function ReleaseAll(s: LockState, t: TxnId): LockState {
    s.(table := map k | k in s.table :: s.table[k].(holders := DropAll(s.table[k].holders, t)),
       graph := Without(s.graph, t))
  }

  // The deadlock detector's treatment of a victim: it loses its locks and its queue places.
  function Strip(s: LockState, v: TxnId): LockState {
    var r := ReleaseAll(s.(aborted := s.aborted + {v}), v);
    r.(table := map k | k in r.table :: r.table[k].(waiters := DropAll(r.table[k].waiters, v)))
  }

  // ---- runs ----

  // One atomic section of one thread.
  datatype Step =
    | Start(key: Key, txn: TxnId, kind: LockType)
    | Wake(txn: TxnId, timedOut: bool)
    | Try(key: Key, txn: TxnId, kind: LockType)
    | ReleaseOne(key: Key, txn: TxnId)
    | ReleaseEvery(txn: TxnId)
    | Detect(victim: TxnId)

  // A transaction is used by one thread: while that thread is parked it does nothing else.
  ghost predicate Enabled(s: LockState, step: Step) {
    match step
    case Wake(t, _) => t in s.blocked
    case Detect(v) => !Acyclic(s.graph) ==> CycleFrom(s.graph, v)
    case _ => step.txn !in s.blocked
  }

  ghost function Apply(s: LockState, step: Step): LockState
    requires Enabled(s, step)
  {
    match step
    case Start(k, t, kind) => AcquireStart(s, k, t, kind).0
    case Wake(t, timedOut) => AcquireWake(s, t, timedOut).0
    case Try(k, t, kind) => TryAcquire(s, k, t, kind).0
    case ReleaseOne(k, t) => Release(s, k, t)
    case ReleaseEvery(t) => ReleaseAll(s, t)
    case Detect(v) => if Acyclic(s.graph) || v == 0 then s else Strip(s, v)
  }

  // s' is reached from s by the given steps.
  ghost predicate Run(s: LockState, steps: seq<Step>, s': LockState)
    decreases |steps|
  {
    if steps == [] then s == s'
    else Enabled(s, steps[0]) && Run(Apply(s, steps[0]), steps[1..], s')
  }

  // ---- the invariant ----

  // No exclusive holder next to another transaction.
  predicate HoldersAgree(e: Entry) {
    forall i, j | 0 <= i < |e.holders| && 0 <= j < |e.holders| ::
      e.holders[i].txn == e.holders[j].txn || Compatible(e.holders[i].kind, e.holders[j].kind)
  }

  // The queue of a key holds only parked requests for it, each once.
  predicate QueueMatches(ws: seq<Request>, k: Key, blocked: map<TxnId, Waiting>) {
    && (forall r | r in ws :: r.txn in blocked && blocked[r.txn] == Waiting(k, r.kind))
    && Distinct(ws)
  }

  predicate Distinct(rs: seq<Request>) {
    forall i, j | 0 <= i < j < |rs| :: rs[i].txn != rs[j].txn
  }

  predicate Queued(table: map<Key, Entry>, t: TxnId, w: Waiting) {
    w.key in table && Request(t, w.kind) in table[w.key].waiters
  }

  predicate HoldersInv(table: map<Key, Entry>) {
    forall k | k in table :: HoldersAgree(table[k])
  }

  // The queues hold exactly the parked requests.
  predicate QueuesInv(table: map<Key, Entry>, blocked: map<TxnId, Waiting>) {
    && (forall k | k in table :: QueueMatches(table[k].waiters, k, blocked))
    && (forall t | t in blocked :: Queued(table, t, blocked[t]))
  }

  ghost predicate Inv(s: LockState) {
    && HoldersInv(s.table)
    && QueuesInv(s.table, s.blocked)
    && Acyclic(s.graph)
    && s.graph.Keys <= s.blocked.Keys
    && s.aborted == {}
  }

  lemma EmptyInv()
    ensures Inv(EMPTY)
  {
    forall n | Reaches(EMPTY.graph, n, n)
      ensures false
    {
      CyclesAreOnNodes(EMPTY.graph, n);
    }
  }

  // ---- facts about filtering queues ----

  lemma {:induction false} DropFirstOfAbsent(rs: seq<Request>, r: Request)
    requires r.txn !in Owners(rs)
    ensures DropFirst(rs + [r], r.txn) == rs
  {
    if rs != [] {
      assert (rs + [r])[1..] == rs[1..] + [r];
      assert rs[0].txn in Owners(rs);
      assert forall i | 0 <= i < |rs[1..]| :: rs[1..][i].txn == rs[i + 1].txn && rs[i + 1].txn in Owners(rs);
      DropFirstOfAbsent(rs[1..], r);
    }
  }

  // Removing t from a queue of distinct transactions leaves the others, in order.
  lemma {:induction false} DropFirstOfDistinct(rs: seq<Request>, t: TxnId)
    requires Distinct(rs)
    ensures DropFirst(rs, t) == DropAll(rs, t)
    ensures forall r :: r in DropFirst(rs, t) <==> r in rs && r.txn != t
    ensures Distinct(DropFirst(rs, t))
  {
    DropAllIs(rs, t);
    if rs != [] {
      DropFirstOfDistinct(rs[1..], t);
      if rs[0].txn == t {
        assert forall r | r in rs[1..] :: r.txn != t;
        DropAllOfAbsent(rs[1..], t);
      }
    }
  }

  lemma {:induction false} DropAllOfAbsent(rs: seq<Request>, t: TxnId)
    requires forall r | r in rs :: r.txn != t
    ensures DropAll(rs, t) == rs
  {
    if rs != [] {
      DropAllOfAbsent(rs[1..], t);
    }
  }

  lemma {:induction false} DropAllIs(rs: seq<Request>, t: TxnId)
    ensures forall r :: r in DropAll(rs, t) <==> r in rs && r.txn != t
  {
    if rs != [] {
      DropAllIs(rs[1..], t);
      assert rs == [rs[0]] + rs[1..];
    }
  }

  // ---- every step keeps the invariant ----

  lemma UnparkedIsNotQueued(s: LockState, k: Key, t: TxnId)
    requires QueuesInv(s.table, s.blocked) && t !in s.blocked
    ensures t !in Owners(EntryOf(s, k).waiters)
  {
    var ws := EntryOf(s, k).waiters;
    forall i | 0 <= i < |ws|
      ensures ws[i].txn != t
    {
      assert QueueMatches(ws, k, s.blocked) && ws[i] in ws;
    }
  }

  lemma GrantKeepsAgreement(e: Entry, t: TxnId, kind: LockType)
    requires HoldersAgree(e) && CanGrant(e, t, kind)
    ensures HoldersAgree(Entry(e.holders + [Request(t, kind)], []))
  {
  }

  // Changing the holders of one key concerns only that key.
  lemma SetHolders(s: LockState, k: Key, hs: seq<Request>)
    requires HoldersInv(s.table) && QueuesInv(s.table, s.blocked)
    requires HoldersAgree(Entry(hs, []))
    ensures HoldersInv(s.table[k := EntryOf(s, k).(holders := hs)])
    ensures QueuesInv(s.table[k := EntryOf(s, k).(holders := hs)], s.blocked)
  {
    var table := s.table[k := EntryOf(s, k).(holders := hs)];
    assert HoldersAgree(Entry(hs, [])) ==> HoldersAgree(table[k]);
    assert QueueMatches(table[k].waiters, k, s.blocked);
    forall t | t in s.blocked
      ensures Queued(table, t, s.blocked[t])
    {
      assert Queued(s.table, t, s.blocked[t]);
    }
  }

  lemma Enqueue(s: LockState, k: Key, t: TxnId, kind: LockType)
    requires HoldersInv(s.table) && QueuesInv(s.table, s.blocked) && t !in s.blocked
    ensures var e := EntryOf(s, k);
            var table := s.table[k := e.(waiters := e.waiters + [Request(t, kind)])];
            HoldersInv(table) && QueuesInv(table, s.blocked[t := Waiting(k, kind)])
  {
    var e := EntryOf(s, k);
    var table := s.table[k := e.(waiters := e.waiters + [Request(t, kind)])];
    var blocked := s.blocked[t := Waiting(k, kind)];
    assert HoldersAgree(e) ==> HoldersAgree(table[k]);
    forall k' | k' in table
      ensures QueueMatches(table[k'].waiters, k', blocked)
    {
      UnparkedIsNotQueued(s, k', t);
      assert QueueMatches(EntryOf(s, k').waiters, k', s.blocked);
      assert forall i | 0 <= i < |e.waiters| :: e.waiters[i].txn in Owners(e.waiters);
    }
    forall u | u in blocked
      ensures Queued(table, u, blocked[u])
    {
      if u == t {
        assert table[k].waiters[|e.waiters|] == Request(t, kind);
      } else {
        assert Queued(s.table, u, s.blocked[u]);
      }
    }
  }

  // A parked request leaves its queue; the holders of its key may change with it.
  lemma Dequeue(s: LockState, t: TxnId, hs: seq<Request>)
    requires HoldersInv(s.table) && QueuesInv(s.table, s.blocked) && t in s.blocked
    requires HoldersAgree(Entry(hs, []))
    ensures var k := s.blocked[t].key;
            var table := s.table[k := Entry(hs, DropFirst(EntryOf(s, k).waiters, t))];
            HoldersInv(table) && QueuesInv(table, s.blocked - {t})
  {
    hide QueueMatches, DropFirst;
    var k0 := s.blocked[t].key;
    var table := s.table[k0 := Entry(hs, DropFirst(EntryOf(s, k0).waiters, t))];
    var blocked := s.blocked - {t};
    assert HoldersAgree(Entry(hs, [])) ==> HoldersAgree(table[k0]);
    assert Queued(s.table, t, s.blocked[t]);
    forall k | k in table
      ensures QueueMatches(table[k].waiters, k, blocked)
    {
      QueueWithout(s.table[k].waiters, k, s.blocked, t);
    }
    forall u | u in blocked
      ensures Queued(table, u, blocked[u])
    {
      assert Queued(s.table, u, s.blocked[u]);
      QueueWithout(s.table[k0].waiters, k0, s.blocked, t);
    }
  }

  lemma QueueWithout(ws: seq<Request>, k: Key, blocked: map<TxnId, Waiting>, t: TxnId)
    requires QueueMatches(ws, k, blocked) && t in blocked
    ensures blocked[t].key != k ==> QueueMatches(ws, k, blocked - {t})
    ensures QueueMatches(DropFirst(ws, t), k, blocked - {t})
    ensures forall r :: r in DropFirst(ws, t) <==> r in ws && r.txn != t
  {
    DropFirstOfDistinct(ws, t);
  }

  lemma RefusedWaiterLeavesNoTrace(g: Graph, t: TxnId, holders: set<TxnId>)
    ensures Without(AddEdges(g, t, holders), t) == Without(g, t)
  {
  }

  lemma StartKeepsInv(s: LockState, k: Key, t: TxnId, kind: LockType)
    requires Inv(s) && t !in s.blocked
    ensures Inv(AcquireStart(s, k, t, kind).0)
  {
    var e := EntryOf(s, k);
    if CanGrant(e, t, kind) {
      GrantKeepsAgreement(e, t, kind);
      SetHolders(s, k, e.holders + [Request(t, kind)]);
    } else if AcquireStart(s, k, t, kind).1 == Refused {
      UnparkedIsNotQueued(s, k, t);
      DropFirstOfAbsent(e.waiters, Request(t, kind));
      RefusedWaiterLeavesNoTrace(s.graph, t, Owners(e.holders));
      WithoutKeepsAcyclic(s.graph, t);
      SetHolders(s, k, e.holders);
    } else {
      Enqueue(s, k, t, kind);
      if e.holders == [] {
        assert AddEdges(s.graph, t, Owners(e.holders)) == s.graph;
      } else {
        SearchFromWaiterSuffices(s.graph, t, Owners(e.holders));
      }
    }
  }

  lemma WakeKeepsInv(s: LockState, t: TxnId, timedOut: bool)
    requires Inv(s) && t in s.blocked
    ensures Inv(AcquireWake(s, t, timedOut).0)
  {
    var k, kind := s.blocked[t].key, s.blocked[t].kind;
    var e := EntryOf(s, k);
    assert Queued(s.table, t, s.blocked[t]);
    WithoutKeepsAcyclic(s.graph, t);
    if CanGrant(e, t, kind) {
      GrantKeepsAgreement(e, t, kind);
      Dequeue(s, t, e.holders + [Request(t, kind)]);
    } else if timedOut {
      Dequeue(s, t, e.holders);
    }
  }

  lemma TryKeepsInv(s: LockState, k: Key, t: TxnId, kind: LockType)
    requires Inv(s) && t !in s.blocked
    ensures Inv(TryAcquire(s, k, t, kind).0)
  {
    var e := EntryOf(s, k);
    if CanGrant(e, t, kind) {
      GrantKeepsAgreement(e, t, kind);
      SetHolders(s, k, e.holders + [Request(t, kind)]);
    } else {
      SetHolders(s, k, e.holders);
    }
  }

  lemma DropAllKeepsAgreement(e: Entry, t: TxnId)
    requires HoldersAgree(e)
    ensures HoldersAgree(Entry(DropAll(e.holders, t), []))
  {
    DropAllIs(e.holders, t);
    var hs := DropAll(e.holders, t);
    forall i, j | 0 <= i < |hs| && 0 <= j < |hs|
      ensures hs[i].txn == hs[j].txn || Compatible(hs[i].kind, hs[j].kind)
    {
      assert hs[i] in e.holders && hs[j] in e.holders;
    }
  }

  lemma ReleaseKeepsInv(s: LockState, k: Key, t: TxnId)
    requires Inv(s)
    ensures Inv(Release(s, k, t))
  {
    DropAllKeepsAgreement(EntryOf(s, k), t);
    SetHolders(s, k, DropAll(EntryOf(s, k).holders, t));
  }

  lemma ReleaseAllKeepsInv(s: LockState, t: TxnId)
    requires Inv(s) && t !in s.blocked
    ensures Inv(ReleaseAll(s, t))
  {
    WithoutKeepsAcyclic(s.graph, t);
    var s' := ReleaseAll(s, t);
    forall k | k in s'.table
      ensures HoldersAgree(s'.table[k]) && QueueMatches(s'.table[k].waiters, k, s.blocked)
    {
      DropAllKeepsAgreement(s.table[k], t);
    }
    forall u | u in s.blocked
      ensures Queued(s'.table, u, s.blocked[u])
    {
      assert Queued(s.table, u, s.blocked[u]);
    }
  }

  lemma StepKeepsInv(s: LockState, step: Step)
    requires Inv(s) && Enabled(s, step)
    ensures Inv(Apply(s, step))
  {
    match step
    case Start(k, t, kind) => StartKeepsInv(s, k, t, kind);
    case Wake(t, timedOut) => WakeKeepsInv(s, t, timedOut);
    case Try(k, t, kind) => TryKeepsInv(s, k, t, kind);
    case ReleaseOne(k, t) => ReleaseKeepsInv(s, k, t);
    case ReleaseEvery(t) => ReleaseAllKeepsInv(s, t);
    case Detect(v) => NothingToResolve(s, v);
  }

  lemma CallTakesFreely(s: LockState, k': Key, t: TxnId, kind: LockType, k: Key, r: Request)
    requires Inv(s) && t !in s.blocked && r !in EntryOf(s, k).holders
    requires r in EntryOf(AcquireStart(s, k', t, kind).0, k).holders || r in EntryOf(TryAcquire(s, k', t, kind).0, k).holders
    ensures r.txn == t && EntryOf(s, k).waiters == []
  {
    hide HoldersInv, Acyclic, CycleFrom, AddEdges, Without;
    UnparkedIsNotQueued(s, k, t);
  }

  lemma WakeServesTheFirst(s: LockState, t: TxnId, timedOut: bool, k: Key, r: Request)
    requires Inv(s) && t in s.blocked
    requires r !in EntryOf(s, k).holders && r in EntryOf(AcquireWake(s, t, timedOut).0, k).holders
    ensures EntryOf(s, k).waiters != [] && EntryOf(s, k).waiters[0] == r
  {
    hide HoldersInv, Acyclic, Without;
    assert Queued(s.table, t, s.blocked[t]);
  }

  lemma NothingToResolve(s: LockState, v: TxnId)
    requires Inv(s) && Enabled(s, Detect(v))
    ensures Apply(s, Detect(v)) == s
  {
  }

  // ---- what holds in every reachable state ----

  lemma {:induction false} RunKeepsInv(s: LockState, steps: seq<Step>, s': LockState)
    requires Inv(s) && Run(s, steps, s')
    ensures Inv(s')
    decreases |steps|
  {
    if steps != [] {
      StepKeepsInv(s, steps[0]);
      RunKeepsInv(Apply(s, steps[0]), steps[1..], s');
    }
  }

  // The graph never has a cycle, so the detector never finds a victim to strip.
  lemma GraphStaysAcyclic(steps: seq<Step>, s: LockState, v: TxnId)
    requires Run(EMPTY, steps, s)
    ensures Acyclic(s.graph)
    ensures s.aborted == {}
    ensures Apply(s, Detect(v)) == s
  {
    EmptyInv();
    RunKeepsInv(EMPTY, steps, s);
  }

  lemma ExclusiveLeavesNoRoom(s: LockState, k: Key, t: TxnId, u: TxnId, kind: LockType)
    requires HoldersInv(s.table) && Holds(s, k, t, Exclusive) && Holds(s, k, u, kind)
    ensures t == u
  {
    var hs := EntryOf(s, k).holders;
    var i :| 0 <= i < |hs| && hs[i] == Request(t, Exclusive);
    var j :| 0 <= j < |hs| && hs[j] == Request(u, kind);
    assert HoldersAgree(s.table[k]);
  }

  // No transaction holds a key beside an exclusive holder.
  lemma ExclusiveIsExclusive(steps: seq<Step>, s: LockState, k: Key, t: TxnId, u: TxnId, kind: LockType)
    requires Run(EMPTY, steps, s)
    requires Holds(s, k, t, Exclusive) && Holds(s, k, u, kind)
    ensures t == u
  {
    EmptyInv();
    RunKeepsInv(EMPTY, steps, s);
    ExclusiveLeavesNoRoom(s, k, t, u, kind);
  }

  // A transaction that is not parked has no entry of its own left in any queue.
  lemma ReturnedAcquireLeavesNoEntry(steps: seq<Step>, s: LockState, k: Key, t: TxnId)
    requires Run(EMPTY, steps, s) && t !in s.blocked
    ensures t !in Owners(EntryOf(s, k).waiters)
  {
    EmptyInv();
    RunKeepsInv(EMPTY, steps, s);
    UnparkedIsNotQueued(s, k, t);
  }

  // Whoever gets a lock while others queue for it was first in the queue; a request that
  // has not queued gets it only when nobody does.
  lemma NoOvertaking(steps: seq<Step>, s: LockState, step: Step, k: Key, r: Request)
    requires Run(EMPTY, steps, s) && Enabled(s, step)
    requires r !in EntryOf(s, k).holders && r in EntryOf(Apply(s, step), k).holders
    ensures (step.Wake? && EntryOf(s, k).waiters != [] && EntryOf(s, k).waiters[0] == r)
         || (r.txn !in s.blocked && EntryOf(s, k).waiters == [])
  {
    hide Inv, AcquireStart, TryAcquire, AcquireWake, Without;
    EmptyInv();
    RunKeepsInv(EMPTY, steps, s);
    match step
    case Start(k', t, kind) => CallTakesFreely(s, k', t, kind, k, r);
    case Try(k', t, kind) => CallTakesFreely(s, k', t, kind, k, r);
    case Wake(t, timedOut) => WakeServesTheFirst(s, t, timedOut, k, r);
    case ReleaseOne(k', t) => DropAllIs(EntryOf(s, k').holders, t);
    case ReleaseEvery(t) => DropAllIs(EntryOf(s, k).holders, t);
    case Detect(v) => NothingToResolve(s, v);
  }

  // Only a transaction's own release takes a lock away from it.
  lemma LocksPersist(s: LockState, step: Step, k: Key, t: TxnId, kind: LockType)
    requires Inv(s) && Enabled(s, step) && Holds(s, k, t, kind)
    requires !(step.ReleaseOne? && step.txn == t) && !(step.ReleaseEvery? && step.txn == t)
    ensures Holds(Apply(s, step), k, t, kind)
  {
    match step
    case Start(k', u, kind') =>
    case Try(k', u, kind') =>
    case Wake(u, timedOut) =>
    case ReleaseOne(k', u) => DropAllIs(EntryOf(s, k').holders, u);
    case ReleaseEvery(u) => DropAllIs(EntryOf(s, k).holders, u);
    case Detect(v) => NothingToResolve(s, v);
  }

  // ---- what a request gets ----

  // Every lock another transaction has on the key is shared, and so is the request.
  predicate SharedWithOthers(e: Entry, t: TxnId, kind: LockType) {
    forall r | r in e.holders :: r.txn == t || (r.kind == Shared && kind == Shared)
  }

  // Who has a lock on the key is t, or waits for t, if over others.
  ghost predicate WaitsBack(s: LockState, k: Key, t: TxnId) {
    exists r | r in EntryOf(s, k).holders :: r.txn == t || Reaches(s.graph, r.txn, t)
  }

  // Granted with nobody ahead and nobody in the way; refused if waiting would close a circle;
  // otherwise queued last, behind an edge to everyone who has a lock, and parked.
  ghost predicate StartResult(s: LockState, k: Key, t: TxnId, kind: LockType, s': LockState, out: Outcome) {
    var e := EntryOf(s, k);
    var free := SharedWithOthers(e, t, kind) && e.waiters == [];
    && out == (if free then Granted else if WaitsBack(s, k, t) then Refused else MustWait)
    && EntryOf(s', k) == (if out == Granted then Entry(e.holders + [Request(t, kind)], [])
                          else if out == MustWait then Entry(e.holders, e.waiters + [Request(t, kind)])
                          else e)
    && OtherKeysKept(s, k, s') && s'.aborted == s.aborted
    && s'.blocked == (if out == MustWait then s.blocked[t := Waiting(k, kind)] else s.blocked)
    && forall a, b :: Edge(s'.graph, a, b) <==>
         if out == Granted then Edge(s.graph, a, b)
         else if out == MustWait then Edge(s.graph, a, b) || (a == t && exists r :: r in e.holders && r.txn == b)
         else Edge(s.graph, a, b) && a != t && b != t
  }

  ghost predicate OtherKeysKept(s: LockState, k: Key, s': LockState) {
    forall k' | k' != k :: EntryOf(s', k') == EntryOf(s, k')
  }

  // Granted at the head of the queue with nobody in the way; else timed out, or parked on. Who
  // returns leaves the queue, the others in order, and the graph.
  ghost predicate WakeResult(s: LockState, k: Key, t: TxnId, kind: LockType, timedOut: bool, s': LockState, out: Outcome) {
    var e := EntryOf(s, k);
    var free := SharedWithOthers(e, t, kind) && e.waiters != [] && e.waiters[0] == Request(t, kind);
    && out == (if free then Granted else if timedOut then TimedOut else MustWait)
    && (out == MustWait ==> s' == s)
    && (out != MustWait ==>
          && EntryOf(s', k).holders == (if out == Granted then e.holders + [Request(t, kind)] else e.holders)
          && LeavesQueue(e.waiters, t, EntryOf(s', k).waiters)
          && OtherKeysKept(s, k, s') && s'.aborted == s.aborted && s'.blocked == s.blocked - {t}
          && forall a, b :: Edge(s'.graph, a, b) <==> Edge(s.graph, a, b) && a != t && b != t)
  }

  ghost predicate LeavesQueue(ws: seq<Request>, t: TxnId, ws': seq<Request>) {
    exists i :: 0 <= i < |ws| && ws[i].txn == t && ws' == ws[..i] + ws[i + 1..]
  }

  // Granted like a request that need not wait, and never queued.
  ghost predicate TryResult(s: LockState, k: Key, t: TxnId, kind: LockType, s': LockState, out: Outcome) {
    var e := EntryOf(s, k);
    var free := SharedWithOthers(e, t, kind) && e.waiters == [];
    && out == (if free then Granted else TimedOut)
    && EntryOf(s', k) == (if free then Entry(e.holders + [Request(t, kind)], []) else e)
    && OtherKeysKept(s, k, s') && s'.aborted == s.aborted && s'.blocked == s.blocked && s'.graph == s.graph
  }

  lemma GrantMeans(e: Entry, t: TxnId, kind: LockType)
    requires t !in Owners(e.waiters)
    ensures CanGrant(e, t, kind) <==> SharedWithOthers(e, t, kind) && e.waiters == []
  {
    if SharedWithOthers(e, t, kind) {
      forall i | 0 <= i < |e.holders|
        ensures e.holders[i].txn == t || Compatible(e.holders[i].kind, kind)
      {
        assert e.holders[i] in e.holders;
      }
    }
    assert e.waiters != [] ==> e.waiters[0].txn in Owners(e.waiters);
  }

  lemma HeadGrantMeans(e: Entry, t: TxnId, kind: LockType)
    requires e.waiters != []
    ensures CanGrant(e, t, kind) <==> SharedWithOthers(e, t, kind) && e.waiters[0] == Request(t, kind)
  {
    if SharedWithOthers(e, t, kind) {
      forall i | 0 <= i < |e.holders|
        ensures e.holders[i].txn == t || Compatible(e.holders[i].kind, kind)
      {
        assert e.holders[i] in e.holders;
      }
    }
  }

  // The search after adding the edges finds a cycle exactly if some owner is t or waits for it.
  lemma SearchMeans(s: LockState, k: Key, t: TxnId)
    requires Acyclic(s.graph)
    ensures var hs := EntryOf(s, k).holders;
            hs != [] && CycleFrom(AddEdges(s.graph, t, Owners(hs)), t) <==> WaitsBack(s, k, t)
  {
    var hs := EntryOf(s, k).holders;
    CycleThroughNewEdges(s.graph, t, Owners(hs));
    if h :| h in Owners(hs) && LeadsToCycle(s.graph, t, h) {
      var i :| 0 <= i < |hs| && hs[i].txn == h;
      assert hs[i] in hs;
    }
    if r :| r in hs && (r.txn == t || Reaches(s.graph, r.txn, t)) {
      var i :| 0 <= i < |hs| && hs[i] == r;
      assert r.txn in Owners(hs) && LeadsToCycle(s.graph, t, r.txn);
    }
  }

  lemma OwnersAre(hs: seq<Request>, b: TxnId)
    ensures b in Owners(hs) <==> exists r :: r in hs && r.txn == b
  {
    if b in Owners(hs) {
      var i :| 0 <= i < |hs| && hs[i].txn == b;
      assert hs[i] in hs;
    }
  }

  lemma StartDecides(s: LockState, k: Key, t: TxnId, kind: LockType)
    requires Inv(s) && t !in s.blocked
    ensures var r := AcquireStart(s, k, t, kind); StartResult(s, k, t, kind, r.0, r.1)
  {
    hide HoldersInv, QueuesInv, Acyclic, CycleFrom, CanGrant, SharedWithOthers, WaitsBack, Owners;
    var e := EntryOf(s, k);
    UnparkedIsNotQueued(s, k, t);
    GrantMeans(e, t, kind);
    SearchMeans(s, k, t);
    DropFirstOfAbsent(e.waiters, Request(t, kind));
    RefusedWaiterLeavesNoTrace(s.graph, t, Owners(e.holders));
    forall b
      ensures b in Owners(e.holders) <==> exists r :: r in e.holders && r.txn == b
    {
      OwnersAre(e.holders, b);
    }
  }

  lemma {:induction false} DropFirstAt(rs: seq<Request>, t: TxnId)
    requires t in Owners(rs)
    ensures LeavesQueue(rs, t, DropFirst(rs, t))
  {
    if rs[0].txn == t {
      assert DropFirst(rs, t) == rs[..0] + rs[0 + 1..];
    } else {
      var j :| 0 <= j < |rs| && rs[j].txn == t;
      assert rs[1..][j - 1].txn == t;
      DropFirstAt(rs[1..], t);
      OneAhead(rs[0], rs[1..], t, DropFirst(rs[1..], t));
      assert [rs[0]] + rs[1..] == rs;
    }
  }

  lemma OneAhead(r: Request, ws: seq<Request>, t: TxnId, ws': seq<Request>)
    requires LeavesQueue(ws, t, ws')
    ensures LeavesQueue([r] + ws, t, [r] + ws')
  {
    var i :| 0 <= i < |ws| && ws[i].txn == t && ws' == ws[..i] + ws[i + 1..];
    var rs := [r] + ws;
    assert rs[i + 1] == ws[i] && rs[..i + 1] == [r] + ws[..i] && rs[i + 1 + 1..] == ws[i + 1..];
    assert [r] + ws' == rs[..i + 1] + rs[i + 1 + 1..];
  }

  lemma WakeDecides(s: LockState, t: TxnId, timedOut: bool)
    requires Inv(s) && t in s.blocked
    ensures var r := AcquireWake(s, t, timedOut);
            WakeResult(s, s.blocked[t].key, t, s.blocked[t].kind, timedOut, r.0, r.1)
  {
    hide HoldersInv, Acyclic, CanGrant, SharedWithOthers, LeavesQueue;
    var e := EntryOf(s, s.blocked[t].key);
    assert Queued(s.table, t, s.blocked[t]);
    HeadGrantMeans(e, t, s.blocked[t].kind);
    assert Request(t, s.blocked[t].kind) in e.waiters;
    DropFirstAt(e.waiters, t);
    assert e.waiters[0].txn == t ==> DropFirst(e.waiters, t) == e.waiters[1..];
  }

  lemma TryDecides(s: LockState, k: Key, t: TxnId, kind: LockType)
    requires Inv(s) && t !in s.blocked
    ensures var r := TryAcquire(s, k, t, kind); TryResult(s, k, t, kind, r.0, r.1)
  {
    hide HoldersInv, QueuesInv, Acyclic, CanGrant, SharedWithOthers;
    UnparkedIsNotQueued(s, k, t);
    GrantMeans(EntryOf(s, k), t, kind);
  }

  // In every reachable state: what each request gets.
  lemma EveryRequest(steps: seq<Step>, s: LockState, step: Step)
    requires Run(EMPTY, steps, s) && Enabled(s, step)
    ensures step.Start? ==>
              var r := AcquireStart(s, step.key, step.txn, step.kind);
              Apply(s, step) == r.0 && StartResult(s, step.key, step.txn, step.kind, r.0, r.1)
    ensures step.Try? ==>
              var r := TryAcquire(s, step.key, step.txn, step.kind);
              Apply(s, step) == r.0 && TryResult(s, step.key, step.txn, step.kind, r.0, r.1)
    ensures step.Wake? ==>
              var r, w := AcquireWake(s, step.txn, step.timedOut), s.blocked[step.txn];
              Apply(s, step) == r.0 && WakeResult(s, w.key, step.txn, w.kind, step.timedOut, r.0, r.1)
  {
    hide Inv, AcquireStart, TryAcquire, AcquireWake, StartResult, TryResult, WakeResult;
    EmptyInv();
    RunKeepsInv(EMPTY, steps, s);
    match step
    case Start(k, t, kind) => StartDecides(s, k, t, kind);
    case Try(k, t, kind) => TryDecides(s, k, t, kind);
    case Wake(t, timedOut) => WakeDecides(s, t, timedOut);
    case _ =>
  }

  // Ending takes away all locks of the transaction and its edges, and leaves the locks, queues and
  // edges of the others.
  lemma EndReleasesItsOwn(s: LockState, t: TxnId, k: Key, u: TxnId, kind: LockType)
    ensures Holds(ReleaseAll(s, t), k, u, kind) <==> Holds(s, k, u, kind) && u != t
    ensures EntryOf(ReleaseAll(s, t), k).waiters == EntryOf(s, k).waiters
    ensures forall a, b :: Edge(ReleaseAll(s, t).graph, a, b) <==> Edge(s.graph, a, b) && a != t && b != t
    ensures ReleaseAll(s, t).blocked == s.blocked && ReleaseAll(s, t).aborted == s.aborted
  {
    DropAllIs(EntryOf(s, k).holders, t);
  }

  // Giving one key back takes the transaction's locks on it and nothing else.
  lemma ReleaseTakesOneKey(s: LockState, k: Key, t: TxnId, k': Key, u: TxnId, kind: LockType)
    ensures Holds(Release(s, k, t), k', u, kind) <==> Holds(s, k', u, kind) && !(u == t && k' == k)
    ensures EntryOf(Release(s, k, t), k').waiters == EntryOf(s, k').waiters
    ensures Release(s, k, t).graph == s.graph && Release(s, k, t).blocked == s.blocked && Release(s, k, t).aborted == s.aborted
  {
    DropAllIs(EntryOf(s, k).holders, t);
  }

  // A victim is marked, and has no lock, no place in a queue and no edge left; the others keep theirs.
  lemma VictimLosesAll(s: LockState, v: TxnId, k: Key, r: Request)
    ensures Strip(s, v).aborted == s.aborted + {v} && Strip(s, v).blocked == s.blocked
    ensures r in EntryOf(Strip(s, v), k).holders <==> r in EntryOf(s, k).holders && r.txn != v
    ensures r in EntryOf(Strip(s, v), k).waiters <==> r in EntryOf(s, k).waiters && r.txn != v
    ensures forall a, b :: Edge(Strip(s, v).graph, a, b) <==> Edge(s.graph, a, b) && a != v && b != v
  {
    DropAllIs(EntryOf(s, k).holders, v);
    DropAllIs(EntryOf(s, k).waiters, v);
  }

  // ---- refusals and deadlocks ----

  // a is parked on a key that b has a lock on.
  ghost predicate WaitsFor(s: LockState, a: TxnId, b: TxnId) {
    a in s.blocked && exists r :: r in EntryOf(s, s.blocked[a].key).holders && r.txn == b
  }

  ghost predicate EdgesAreWaits(s: LockState) {
    forall a, b | Edge(s.graph, a, b) :: WaitsFor(s, a, b)
  }

  // Locks of a transaction are given back all at once, as transactions do.
  ghost predicate ReleasesAll(steps: seq<Step>) {
    forall i | 0 <= i < |steps| :: !steps[i].ReleaseOne?
  }

  lemma WaitSurvives(s: LockState, step: Step, a: TxnId, b: TxnId)
    requires Inv(s) && Enabled(s, step) && !step.ReleaseOne? && !(step.ReleaseEvery? && step.txn == b)
    requires WaitsFor(s, a, b) && a in Apply(s, step).blocked
    ensures WaitsFor(Apply(s, step), a, b)
  {
    hide Inv, Apply;
    var r :| r in EntryOf(s, s.blocked[a].key).holders && r.txn == b;
    LocksPersist(s, step, s.blocked[a].key, b, r.kind);
    ParkedStays(s, step, a);
  }

  lemma ParkedStays(s: LockState, step: Step, a: TxnId)
    requires Inv(s) && Enabled(s, step) && a in s.blocked && a in Apply(s, step).blocked
    ensures Apply(s, step).blocked[a] == s.blocked[a]
  {
    hide HoldersInv, QueuesInv, CanGrant, CycleFrom;
  }

  // An edge of the next state was there before, or is new and of the transaction that parks.
  lemma EdgesOfStep(s: LockState, step: Step, a: TxnId, b: TxnId)
    requires Inv(s) && Enabled(s, step) && Edge(Apply(s, step).graph, a, b)
    ensures (Edge(s.graph, a, b) && !(step.ReleaseEvery? && step.txn == b))
         || (step.Start? && step.txn == a && a in Apply(s, step).blocked
             && Apply(s, step).blocked[a].key == step.key
             && EntryOf(Apply(s, step), step.key).holders == EntryOf(s, step.key).holders
             && exists r :: r in EntryOf(s, step.key).holders && r.txn == b)
  {
    hide Inv, AcquireStart, AcquireWake, TryAcquire;
    match step
    case Start(k, t, kind) => StartDecides(s, k, t, kind);
    case Try(k, t, kind) => TryDecides(s, k, t, kind);
    case Wake(t, timedOut) => WakeDecides(s, t, timedOut);
    case ReleaseEvery(t) =>
    case Detect(v) => NothingToResolve(s, v);
    case ReleaseOne(k, t) =>
  }

  lemma StepKeepsWaits(s: LockState, step: Step)
    requires Inv(s) && Enabled(s, step) && !step.ReleaseOne? && EdgesAreWaits(s)
    ensures EdgesAreWaits(Apply(s, step))
  {
    hide Inv, Apply;
    var s' := Apply(s, step);
    StepKeepsInv(s, step);
    forall a, b | Edge(s'.graph, a, b)
      ensures WaitsFor(s', a, b)
    {
      EdgesOfStep(s, step, a, b);
      EdgesOfParked(s', a, b);
      if Edge(s.graph, a, b) && !(step.ReleaseEvery? && step.txn == b) {
        WaitSurvives(s, step, a, b);
      }
    }
  }

  lemma EdgesOfParked(s: LockState, a: TxnId, b: TxnId)
    requires Inv(s) && Edge(s.graph, a, b)
    ensures a in s.blocked
  {
  }

  lemma {:induction false} RunKeepsWaits(s: LockState, steps: seq<Step>, s': LockState)
    requires Inv(s) && EdgesAreWaits(s) && Run(s, steps, s') && ReleasesAll(steps)
    ensures Inv(s') && EdgesAreWaits(s')
    decreases |steps|
  {
    hide Inv, EdgesAreWaits;
    if steps != [] {
      StepKeepsInv(s, steps[0]);
      StepKeepsWaits(s, steps[0]);
      RunKeepsWaits(Apply(s, steps[0]), steps[1..], s');
    }
  }

  // From one transaction to another, each parked on a key the next has a lock on.
  ghost predicate WaitChain(s: LockState, p: seq<TxnId>, a: TxnId, b: TxnId) {
    && |p| >= 1 && p[0] == a && p[|p| - 1] == b
    && forall i | 0 <= i < |p| - 1 :: WaitsFor(s, p[i], p[i + 1])
  }

  // A refused request would have closed a circle of transactions that wait for each other.
  lemma RefusalIsDeadlock(steps: seq<Step>, s: LockState, k: Key, t: TxnId, kind: LockType)
    requires Run(EMPTY, steps, s) && ReleasesAll(steps) && t !in s.blocked
    requires AcquireStart(s, k, t, kind).1 == Refused
    ensures exists r, p :: r in EntryOf(s, k).holders && WaitChain(s, p, r.txn, t)
  {
    hide Inv, AcquireStart;
    EmptyInv();
    RunKeepsWaits(EMPTY, steps, s);
    StartDecides(s, k, t, kind);
    var r :| r in EntryOf(s, k).holders && (r.txn == t || Reaches(s.graph, r.txn, t));
    if r.txn == t {
      assert WaitChain(s, [t], r.txn, t);
    } else {
      var p :| Connects(s.graph, p, r.txn, t);
      forall i | 0 <= i < |p| - 1
        ensures WaitsFor(s, p[i], p[i + 1])
      {
        assert Edge(s.graph, p[i], p[i + 1]);
      }
      assert WaitChain(s, p, r.txn, t);
    }
  }

  lemma NoWayOut(g: Graph, a: TxnId, b: TxnId)
    requires a !in g || g[a] == {}
    ensures !Reaches(g, a, b)
  {
    forall p | |p| >= 2 && p[0] == a
      ensures !IsPath(g, p)
    {
      assert !Edge(g, p[0], p[1]);
    }
  }

  lemma OneOwner(r: Request)
    ensures Owners([r]) == {r.txn}
  {
    assert [r][0].txn in Owners([r]);
  }

  // A request for a key that one other transaction has, which waits for nobody.
  lemma Parks(s: LockState, k: Key, t: TxnId, holder: Request, ws: seq<Request>, s': LockState)
    requires Inv(s) && t !in s.blocked && EntryOf(s, k) == Entry([holder], ws)
    requires holder.txn != t && holder.kind == Exclusive
    requires (holder.txn !in s.graph || s.graph[holder.txn] == {}) && t !in s.graph
    requires s' == s.(table := s.table[k := Entry([holder], ws + [Request(t, Exclusive)])],
                      graph := s.graph[t := {holder.txn}], blocked := s.blocked[t := Waiting(k, Exclusive)])
    ensures AcquireStart(s, k, t, Exclusive).0 == s' && Inv(s')
  {
    hide HoldersInv, QueuesInv, Acyclic;
    NoWayOut(s.graph, holder.txn, t);
    SearchMeans(s, k, t);
    OneOwner(holder);
    assert EntryOf(s, k).holders[0] == holder;
    assert {} + {holder.txn} == {holder.txn};
    StepKeepsInv(s, Start(k, t, Exclusive));
  }

  // The converse does not hold. Edges are drawn once, to whoever has the key when a request is
  // queued. Two transactions queue for a key; when the first of them gets it, the second still
  // has no edge to it, and the circle that the first closes by waiting for the second is found
  // neither then nor by any later deadlock check: both wait until their time is out.
  lemma MissedDeadlock(a: Key, b: Key) returns (steps: seq<Step>, s: LockState)
    requires a != b
    ensures Run(EMPTY, steps, s) && ReleasesAll(steps)
    ensures WaitsFor(s, 2, 3) && WaitsFor(s, 3, 2)
    ensures Acyclic(s.graph) && forall v :: Apply(s, Detect(v)) == s
  {
    hide Inv, Run, WaitsFor, Queueing;
    var first, queued := TwoQueueUp(a, b, 1, 2, 3);
    var rest;
    rest, s := CircleCloses(queued, a, b, 1, 2, 3);
    RunConcat(EMPTY, first, queued, rest, s);
    steps := first + rest;
    NothingIsFound(steps, s);
  }

  lemma NothingIsFound(steps: seq<Step>, s: LockState)
    requires Run(EMPTY, steps, s)
    ensures Acyclic(s.graph) && forall v :: Apply(s, Detect(v)) == s
  {
    GraphStaysAcyclic(steps, s, 0);
    forall v
      ensures Apply(s, Detect(v)) == s
    {
      GraphStaysAcyclic(steps, s, v);
    }
  }

  // t1 ends, t3 gets a, ahead of t2, and then waits for what t2 has.
  lemma CircleCloses(s4: LockState, a: Key, b: Key, t1: TxnId, t2: TxnId, t3: TxnId) returns (steps: seq<Step>, s: LockState)
    requires a != b && t1 != t2 && t2 != t3 && t1 != t3 && Inv(s4) && Queueing(s4, a, b, t1, t2, t3)
    ensures Run(s4, steps, s) && ReleasesAll(steps) && WaitsFor(s, t2, t3) && WaitsFor(s, t3, t2)
  {
    hide Inv, Run, AcquireStart, AcquireWake, ReleaseAll, Acyclic;
    var s5 := ReleaseAll(s4, t1);
    TheOwnerEnds(s4, a, b, t1, t2, t3, s5);
    StepKeepsInv(s4, ReleaseEvery(t1));
    var s6 := AcquireWake(s5, t3, false).0;
    StepKeepsInv(s5, Wake(t3, false));
    TheFirstGoesOn(s5, a, b, t2, t3);
    s := s6.(table := s6.table[b := Entry([Request(t2, Exclusive)], [] + [Request(t3, Exclusive)])],
             graph := s6.graph[t3 := {t2}], blocked := s6.blocked[t3 := Waiting(b, Exclusive)]);
    Parks(s6, b, t3, Request(t2, Exclusive), [], s);
    steps := [ReleaseEvery(t1), Wake(t3, false), Start(b, t3, Exclusive)];
    StepByStep(s4, steps, [s4, s5, s6, s]);
    assert EntryOf(s, a).holders[0].txn == t3 && EntryOf(s, b).holders[0].txn == t2;
    assert EntryOf(s, a).holders[0] in EntryOf(s, a).holders && EntryOf(s, b).holders[0] in EntryOf(s, b).holders;
  }

  // t1 has a, t2 has b; first t3, then t2 queue for a.
  lemma TwoQueueUp(a: Key, b: Key, t1: TxnId, t2: TxnId, t3: TxnId) returns (steps: seq<Step>, s: LockState)
    requires a != b && t1 != t2 && t2 != t3 && t1 != t3
    ensures Run(EMPTY, steps, s) && ReleasesAll(steps) && Inv(s)
    ensures Queueing(s, a, b, t1, t2, t3)
  {
    hide Inv, AcquireStart;
    var x1, x2, x3 := Request(t1, Exclusive), Request(t2, Exclusive), Request(t3, Exclusive);
    EmptyInv();
    var s1 := EMPTY.(table := EMPTY.table[a := Entry([x1], [])]);
    Taken(EMPTY, a, t1, s1);
    var s2 := s1.(table := s1.table[b := Entry([x2], [])]);
    Taken(s1, b, t2, s2);
    var s3 := s2.(table := s2.table[a := Entry([x1], [] + [x3])], graph := s2.graph[t3 := {t1}],
                  blocked := s2.blocked[t3 := Waiting(a, Exclusive)]);
    Parks(s2, a, t3, x1, [], s3);
    s := s3.(table := s3.table[a := Entry([x1], [x3] + [x2])], graph := s3.graph[t2 := {t1}],
             blocked := s3.blocked[t2 := Waiting(a, Exclusive)]);
    Parks(s3, a, t2, x1, [x3], s);
    steps := [Start(a, t1, Exclusive), Start(b, t2, Exclusive), Start(a, t3, Exclusive), Start(a, t2, Exclusive)];
    StepByStep(EMPTY, steps, [EMPTY, s1, s2, s3, s]);
  }

  ghost predicate Queueing(s: LockState, a: Key, b: Key, t1: TxnId, t2: TxnId, t3: TxnId) {
    && EntryOf(s, a) == Entry([Request(t1, Exclusive)], [Request(t3, Exclusive), Request(t2, Exclusive)])
    && EntryOf(s, b) == Entry([Request(t2, Exclusive)], [])
    && s.table.Keys == {a, b} && s.graph == map[t3 := {t1}, t2 := {t1}]
    && s.blocked == map[t3 := Waiting(a, Exclusive), t2 := Waiting(a, Exclusive)] && s.aborted == {}
  }

  // When t1 ends, a is free, and its waiters have no edge left ...
  lemma TheOwnerEnds(s: LockState, a: Key, b: Key, t1: TxnId, t2: TxnId, t3: TxnId, s': LockState)
    requires a != b && t1 != t2 && t2 != t3 && t1 != t3 && Queueing(s, a, b, t1, t2, t3) && s' == ReleaseAll(s, t1)
    ensures EntryOf(s', a) == Entry([], [Request(t3, Exclusive), Request(t2, Exclusive)])
    ensures EntryOf(s', b) == Entry([Request(t2, Exclusive)], [])
    ensures s'.graph == map[t3 := {}, t2 := {}] && s'.blocked == s.blocked && s'.aborted == {}
  {
    OneHolder(Request(t1, Exclusive), t1);
    OneHolder(Request(t2, Exclusive), t1);
    assert Without(s.graph, t1) == map[t3 := {}, t2 := {}] by {
      assert {t1} - {t1} == {};
      assert s.graph.Keys == {t3, t2} && s.graph[t3] == {t1} && s.graph[t2] == {t1};
    }
  }

  // ... and t3 gets it, ahead of t2.
  lemma TheFirstGoesOn(s: LockState, a: Key, b: Key, t2: TxnId, t3: TxnId)
    requires a != b && t2 != t3
    requires EntryOf(s, a) == Entry([], [Request(t3, Exclusive), Request(t2, Exclusive)])
    requires EntryOf(s, b) == Entry([Request(t2, Exclusive)], [])
    requires s.graph == map[t3 := {}, t2 := {}] && s.aborted == {}
    requires s.blocked == map[t3 := Waiting(a, Exclusive), t2 := Waiting(a, Exclusive)]
    ensures var s' := AcquireWake(s, t3, false).0;
            && EntryOf(s', a) == Entry([Request(t3, Exclusive)], [Request(t2, Exclusive)])
            && EntryOf(s', b) == Entry([Request(t2, Exclusive)], [])
            && t3 !in s'.graph && t2 in s'.graph && s'.graph[t2] == {}
            && s'.blocked == map[t2 := Waiting(a, Exclusive)]
  {
    assert [] + [Request(t3, Exclusive)] == [Request(t3, Exclusive)];
    assert [Request(t3, Exclusive), Request(t2, Exclusive)][1..] == [Request(t2, Exclusive)];
    assert s.blocked - {t3} == map[t2 := Waiting(a, Exclusive)];
  }

  lemma Taken(s: LockState, k: Key, t: TxnId, s': LockState)
    requires Inv(s) && t !in s.blocked && k !in s.table
    requires s' == s.(table := s.table[k := Entry([Request(t, Exclusive)], [])])
    ensures Inv(s') && AcquireStart(s, k, t, Exclusive).0 == s'
  {
    hide Inv;
    StepKeepsInv(s, Start(k, t, Exclusive));
    NoneMarked(s);
    assert [] + [Request(t, Exclusive)] == [Request(t, Exclusive)];
  }

  lemma NoneMarked(s: LockState)
    requires Inv(s)
    ensures s.aborted == {}
  {
  }

  lemma OneHolder(r: Request, t: TxnId)
    ensures DropAll([r], t) == if r.txn == t then [] else [r]
  {
    assert [r][1..] == [];
  }

  lemma {:induction false} RunConcat(s: LockState, first: seq<Step>, m: LockState, second: seq<Step>, s': LockState)
    requires Run(s, first, m) && Run(m, second, s')
    ensures Run(s, first + second, s')
    decreases |first|
  {
    if first == [] {
      assert first + second == second;
    } else {
      RunConcat(Apply(s, first[0]), first[1..], m, second, s');
      assert (first + second)[1..] == first[1..] + second;
    }
  }

  ghost predicate Leads(states: seq<LockState>, steps: seq<Step>, i: nat)
    requires |states| == |steps| + 1 && i < |steps|
  {
    Enabled(states[i], steps[i]) && Apply(states[i], steps[i]) == states[i + 1]
  }

  // States that follow from one another step by step are a run.
  lemma {:induction false} StepByStep(s: LockState, steps: seq<Step>, states: seq<LockState>)
    requires |states| == |steps| + 1 && states[0] == s
    requires forall i | 0 <= i < |steps| :: Leads(states, steps, i)
    ensures Run(s, steps, states[|steps|])
    decreases |steps|
  {
    if steps != [] {
      assert Leads(states, steps, 0);
      forall i | 0 <= i < |steps[1..]|
        ensures Leads(states[1..], steps[1..], i)
      {
        assert Leads(states, steps, i + 1);
      }
      StepByStep(states[1], steps[1..], states[1..]);
    }
  }

  // ---- the lock manager itself ----

  // Erases the first request of a transaction from a queue.
  method RemoveWaiter(ws: seq<Request>, t: TxnId) returns (r: seq<Request>)
    ensures r == DropFirst(ws, t)
  {
    for i := 0 to |ws|
      invariant DropFirst(ws, t) == ws[..i] + DropFirst(ws[i..], t)
    {
      if ws[i].txn == t {
        return ws[..i] + ws[i + 1..];
      }
    }
    return ws;
  }

  // Erases every request of a transaction.
  method RemoveAllOf(rs: seq<Request>, t: TxnId) returns (r: seq<Request>)
    ensures r == DropAll(rs, t)
  {
    r := [];
    for i := 0 to |rs|
      invariant DropAll(rs, t) == r + DropAll(rs[i..], t)
    {
      if rs[i].txn != t {
        r := r + [rs[i]];
      }
    }
  }

  lemma AddEdgesOneByOne(g: Graph, t: TxnId, hs: seq<Request>, i: nat)
    requires i < |hs|
    ensures AddEdges(AddEdges(g, t, Owners(hs[..i])), t, {hs[i].txn}) == AddEdges(g, t, Owners(hs[..i + 1]))
  {
    var before, after := Owners(hs[..i]), Owners(hs[..i + 1]);
    assert after == before + {hs[i].txn} by {
      forall u | u in after
        ensures u in before + {hs[i].txn}
      {
        var j :| 0 <= j < i + 1 && hs[..i + 1][j].txn == u;
        assert j < i ==> hs[..i][j].txn == u;
      }
      forall u | u in before
        ensures u in after
      {
        var j :| 0 <= j < i && hs[..i][j].txn == u;
        assert hs[..i + 1][j].txn == u;
      }
      assert hs[..i + 1][i].txn in after;
    }
    if i == 0 {
      assert before == {};
    } else {
      assert hs[..i][0].txn in before;
      assert before != {};
    }
    var own := if t in g then g[t] else {};
    var g1 := AddEdges(g, t, before);
    assert own + after == (own + before) + {hs[i].txn};
    assert (if t in g1 then g1[t] else {}) == own + before;
    assert AddEdges(g1, t, {hs[i].txn}) == g1[t := own + after] == g[t := own + after];
  }

  class LockManager {
    var table: map<Key, Entry>
    const graph: WaitForGraph
    var aborted: set<TxnId>
    // The threads parked inside Acquire, on condition variables.
    ghost var blocked: map<TxnId, Waiting>

    constructor ()
      ensures fresh(graph) && State() == EMPTY
    {
      table, aborted, blocked := map[], {}, map[];
      graph := new WaitForGraph();
    }

    ghost function State(): LockState
      reads this, graph
    {
      LockState(table, graph.g, aborted, blocked)
    }

    method GetOrCreate(key: Key) returns (e: Entry)
      modifies this`table
      ensures e == EntryOf(old(State()), key)
      ensures table == old(table)[key := e]
    {
      if key !in table {
        table := table[key := Entry([], [])];
      }
      e := table[key];
    }

    method Acquire(key: Key, txn: TxnId, kind: LockType) returns (out: Outcome)
      requires txn !in blocked
      modifies this, graph
      ensures (State(), out) == AcquireStart(old(State()), key, txn, kind)
      ensures Inv(old(State())) ==> StartResult(old(State()), key, txn, kind, State(), out)
    {
      hide Inv, StartResult;
      if Inv(State()) {
        StartDecides(State(), key, txn, kind);
      }
      var e := GetOrCreate(key);
      if txn in aborted {
        aborted := aborted - {txn};
        return Refused;
      }
      if CanGrant(e, txn, kind) {
        table := table[key := e.(holders := e.holders + [Request(txn, kind)])];
        assert table == old(table)[key := e.(holders := e.holders + [Request(txn, kind)])];
        return Granted;
      }
      e := e.(waiters := e.waiters + [Request(txn, kind)]);
      for i := 0 to |e.holders|
        invariant table == old(table)[key := EntryOf(old(State()), key)]
        invariant aborted == old(aborted) && blocked == old(blocked)
        invariant graph.g == AddEdges(old(graph.g), txn, Owners(e.holders[..i]))
      {
        AddEdgesOneByOne(old(graph.g), txn, e.holders, i);
        graph.AddEdge(txn, e.holders[i].txn);
      }
      assert e.holders[..|e.holders|] == e.holders;
      for i := 0 to |e.holders|
        invariant table == old(table)[key := EntryOf(old(State()), key)]
        invariant aborted == old(aborted) && blocked == old(blocked)
        invariant graph.g == AddEdges(old(graph.g), txn, Owners(e.holders))
        invariant i > 0 ==> !CycleFrom(graph.g, txn)
      {
        var cyclic := graph.WouldCreateCycle(txn, e.holders[i].txn);
        if cyclic {
          var ws := RemoveWaiter(e.waiters, txn);
          table := table[key := e.(waiters := ws)];
          assert table == old(table)[key := e.(waiters := ws)];
          graph.RemoveEdgesFor(txn);
          return Refused;
        }
      }
      table := table[key := e];
      assert table == old(table)[key := e];
      blocked := blocked[txn := Waiting(key, kind)];
      return MustWait;
    }

    // The part of Acquire that runs when the parked thread is woken.
    method ResumeAcquire(key: Key, txn: TxnId, kind: LockType, timedOut: bool) returns (out: Outcome)
      requires txn in blocked && blocked[txn] == Waiting(key, kind) && key in table
      modifies this, graph
      ensures (State(), out) == AcquireWake(old(State()), txn, timedOut)
      ensures Inv(old(State())) ==> WakeResult(old(State()), key, txn, kind, timedOut, State(), out)
    {
      hide Inv, WakeResult;
      if Inv(State()) {
        WakeDecides(State(), txn, timedOut);
      }
      var e := table[key];
      if txn !in aborted && !CanGrant(e, txn, kind) && !timedOut {
        return MustWait;
      }
      blocked := blocked - {txn};
      if txn in aborted {
        var ws := RemoveWaiter(e.waiters, txn);
        table := table[key := e.(waiters := ws)];
        graph.RemoveEdgesFor(txn);
        return Refused;
      }
      if !CanGrant(e, txn, kind) {
        var ws := RemoveWaiter(e.waiters, txn);
        table := table[key := e.(waiters := ws)];
        graph.RemoveEdgesFor(txn);
        return TimedOut;
      }
      if e.waiters != [] && e.waiters[0].txn == txn {
        e := e.(waiters := e.waiters[1..]);
      }
      table := table[key := e.(holders := e.holders + [Request(txn, kind)])];
      graph.RemoveEdgesFor(txn);
      return Granted;
    }

    method Try(key: Key, txn: TxnId, kind: LockType) returns (out: Outcome)
      requires txn !in blocked
      modifies this
      ensures (State(), out) == TryAcquire(old(State()), key, txn, kind)
      ensures Inv(old(State())) ==> TryResult(old(State()), key, txn, kind, State(), out)
    {
      hide Inv, TryResult;
      if Inv(State()) {
        TryDecides(State(), key, txn, kind);
      }
      var e := GetOrCreate(key);
      if txn in aborted {
        aborted := aborted - {txn};
        return Refused;
      }
      if !CanGrant(e, txn, kind) {
        return TimedOut;
      }
      table := table[key := e.(holders := e.holders + [Request(txn, kind)])];
      assert table == old(table)[key := e.(holders := e.holders + [Request(txn, kind)])];
      return Granted;
    }

    method ReleaseKey(key: Key, txn: TxnId)
      modifies this
      ensures State() == Release(old(State()), key, txn)
    {
      var e := GetOrCreate(key);
      var hs := RemoveAllOf(e.holders, txn);
      table := table[key := e.(holders := hs)];
    }

    method ReleaseEvery(txn: TxnId)
      modifies this, graph
      ensures State() == ReleaseAll(old(State()), txn)
    {
      var todo := table.Keys;
      while todo != {}
        invariant todo <= table.Keys == old(table).Keys
        invariant forall k | k in table ::
          table[k] == if k in todo then old(table)[k]
                      else old(table)[k].(holders := DropAll(old(table)[k].holders, txn))
        invariant graph.g == old(graph.g) && aborted == old(aborted) && blocked == old(blocked)
      {
        var k :| k in todo;
        var hs := RemoveAllOf(table[k].holders, txn);
        table := table[k := table[k].(holders := hs)];
        todo := todo - {k};
      }
      graph.RemoveEdgesFor(txn);
    }

    // Takes a transaction out of every queue.
    method LeaveQueues(txn: TxnId)
      modifies this`table
      ensures table == map k | k in old(table) :: old(table)[k].(waiters := DropAll(old(table)[k].waiters, txn))
    {
      var todo := table.Keys;
      while todo != {}
        invariant todo <= table.Keys == old(table).Keys
        invariant forall k | k in table ::
          table[k] == if k in todo then old(table)[k]
                      else old(table)[k].(waiters := DropAll(old(table)[k].waiters, txn))
      {
        var k :| k in todo;
        var ws := RemoveAllOf(table[k].waiters, txn);
        table := table[k := table[k].(waiters := ws)];
        todo := todo - {k};
      }
    }

    // The periodic deadlock check: strips a victim if the graph has a cycle.
    method DetectAndResolveDeadlocks() returns (victim: TxnId)
      modifies this, graph
      ensures Enabled(old(State()), Detect(victim))
      ensures State() == Apply(old(State()), Detect(victim))
    {
      var cyclic;
      cyclic, victim := graph.DetectCycle();
      if cyclic && victim != 0 {
        aborted := aborted + {victim};
        ReleaseEvery(victim);
        LeaveQueues(victim);
      }
    }
  }
}
