/**
 * The transaction engine as a state machine: version chains, LSM tree, lock table, the two
 * number generators, open transactions and one background flush. A commit is two steps:
 * Prepare takes its number, and Publish joins marking its versions, leaving the active set
 * and releasing its locks. Begin joins taking an identifier, the active set and the read
 * sequence; a flush is a step per pick, per write and per marking.
 */
module Engine {
  import opened Types
  import opened VersionChain
  import opened Lsm
  import opened History
  import Locks

  // An open transaction. `inflight` records, for the proofs, which transactions stood
  // between PrepareCommit and OnCommitted when it began.
  datatype Handle = Handle(view: ReadView, readSeq: SeqNo, inflight: set<TxnId>)

  // A running FlushCommittedToLSM: what it picked, how much it has written, and up to where
  // each picked key will be in the LSM tree once it is done.
  datatype Flight =
    | NoFlight
    | Flight(items: seq<(Key, Record)>, written: nat, keys: seq<Key>, goals: map<Key, nat>, before: Lsm)

  datatype State = State(
    chains: Chains,
    lsm: Lsm,
    nextTxn: TxnId,
    nextSeq: SeqNo,
    txns: map<TxnId, Handle>,
    prepared: map<TxnId, SeqNo>,
    locks: Locks.LockState,
    flight: Flight,
    hist: map<Key, KeyHistory>)

  datatype Step =
    | LockStep(lock: Locks.Step)
    | Begin(policy: Policy)
    | DoWrite(txn: TxnId, key: Key, payload: Payload)
    | Prepare(txn: TxnId)
    | Publish(txn: TxnId)
    | Abandon(txn: TxnId)
    | FlushPick(keys: seq<Key>)
    | FlushWrite
    | FlushDone
    | FlushFail
    | Gc

  function HistIn(hist: map<Key, KeyHistory>, k: Key): KeyHistory {
    if k in hist then hist[k] else NO_HISTORY
  }

  function HistOf(s: State, k: Key): KeyHistory {
    HistIn(s.hist, k)
  }

  // ---- steps ----

  // The versions a commit adds to a key: the transaction's active records, oldest first.
  function NewVersions(chain: Chain, t: TxnId, c: SeqNo): seq<Version> {
    if chain == [] then []
    else
      var r := chain[|chain| - 1];
      NewVersions(chain[..|chain| - 1], t, c)
        + if r.txn == t && r.state == Active then [Version(r.payload, c, t)] else []
  }

  // An interface call is made by the one thread that owns an open transaction, and not
  // while that thread is parked in Acquire or inside Commit.
  predicate Usable(s: State, t: TxnId) {
    t in s.txns && t !in s.prepared && t !in s.locks.blocked
  }

  ghost predicate Enabled(s: State, step: Step) {
    match step
    case LockStep(l) =>
      && Locks.Enabled(s.locks, l)
      && (l.Start? || l.Try? ==> Usable(s, l.txn))
      && !l.ReleaseOne? && !l.ReleaseEvery?
    case Begin(_) => true
    case DoWrite(t, k, _) => Usable(s, t) && Locks.Holds(s.locks, k, t, Locks.Exclusive)
    case Prepare(t) => Usable(s, t)
    case Publish(t) => t in s.prepared && t in s.txns
    case Abandon(t) => t in s.txns && t !in s.locks.blocked
    case FlushPick(ks) => s.flight == NoFlight && forall i, j | 0 <= i < j < |ks| :: ks[i] != ks[j]
    case FlushWrite => s.flight.Flight? && s.flight.written < |s.flight.items|
    case FlushDone => s.flight.Flight? && s.flight.written == |s.flight.items|
    case FlushFail => s.flight.Flight?
    case Gc => true
  }

  function BuildView(s: State, t: TxnId, policy: Policy): ReadView {
    ReadView(policy, t, s.nextTxn + 1, if policy == ReadCommitted then {} else s.txns.Keys + {t})
  }

  // The sequence of the last commit, as the generator reports it.
  function Current(s: State): SeqNo {
    if s.nextSeq > 0 then s.nextSeq - 1 else 0
  }

  function DoBegin(s: State, policy: Policy): State {
    var t := s.nextTxn;
    s.(nextTxn := t + 1,
       txns := s.txns[t := Handle(BuildView(s, t, policy), Current(s), s.prepared.Keys)])
  }

  function Finish(s: State, t: TxnId): State {
    s.(txns := s.txns - {t}, prepared := s.prepared - {t}, locks := Locks.ReleaseAll(s.locks, t))
  }

  function DoPublish(s: State, t: TxnId): State
    requires t in s.prepared
  {
    var c := s.prepared[t];
    Finish(s, t).(
      chains := CommitAll(s.chains, t, c),
      hist := map k | k in s.hist.Keys + s.chains.Keys ::
        var h := HistOf(s, k);
        h.(versions := h.versions + NewVersions(ChainOf(s.chains, k), t, c)))
  }

  function DoPick(s: State, ks: seq<Key>): State {
    s.(flight := Flight(PickFrom(s.chains, ks), 0, ks,
                        map k | k in ks :: |HistOf(s, k).versions|, s.lsm))
  }

  function WriteItem(l: Lsm, item: (Key, Record)): Lsm {
    Write(l, item.0, item.1.commit, item.1.payload)
  }

  function DoFlushWrite(s: State): State
    requires s.flight.Flight? && s.flight.written < |s.flight.items|
  {
    s.(lsm := WriteItem(s.lsm, s.flight.items[s.flight.written]),
       flight := s.flight.(written := s.flight.written + 1))
  }

  function Marks(items: seq<(Key, Record)>): seq<(Key, SeqNo)> {
    seq(|items|, i requires 0 <= i < |items| => (items[i].0, items[i].1.commit))
  }

  function DoFlushDone(s: State): State
    requires s.flight.Flight?
  {
    s.(chains := FlushMarks(s.chains, Marks(s.flight.items)),
       flight := NoFlight,
       hist := map k | k in s.hist ::
         if k in s.flight.goals then s.hist[k].(flushed := s.flight.goals[k]) else s.hist[k])
  }

  // How far the collector moves: to the first unflushed version, or to the newest one.
  function CollectedTo(h: KeyHistory): nat {
    if h.dropped >= |h.versions| then h.dropped
    else if h.flushed < |h.versions| then h.flushed
    else |h.versions| - 1
  }

  function DoGc(s: State): State {
    s.(chains := CollectAll(s.chains),
       hist := map k | k in s.hist :: s.hist[k].(dropped := CollectedTo(s.hist[k])))
  }

  ghost function Apply(s: State, step: Step): State
    requires Enabled(s, step)
  {
    match step
    case LockStep(l) => s.(locks := Locks.Apply(s.locks, l))
    case Begin(policy) => DoBegin(s, policy)
    case DoWrite(t, k, p) => s.(chains := Append(s.chains, k, NewActive(p, t)))
    case Prepare(t) => s.(prepared := s.prepared[t := s.nextSeq], nextSeq := s.nextSeq + 1)
    case Publish(t) => DoPublish(s, t)
    case Abandon(t) => Finish(s, t).(chains := AbortAll(s.chains, t))
    case FlushPick(ks) => DoPick(s, ks)
    case FlushWrite => DoFlushWrite(s)
    case FlushDone => DoFlushDone(s)
    case FlushFail => s.(flight := NoFlight)
    case Gc => DoGc(s)
  }

  ghost predicate Run(s: State, steps: seq<Step>, s': State)
    decreases |steps|
  {
    if steps == [] then s == s'
    else Enabled(s, steps[0]) && Run(Apply(s, steps[0]), steps[1..], s')
  }

  // Some run leads from one state to the other.
  ghost predicate Leads(s: State, s': State) {
    exists steps :: Run(s, steps, s')
  }

  lemma RunNowhere(s: State)
    ensures Leads(s, s)
  {
    assert Run(s, [], s);
  }

  lemma OneStep(s: State, step: Step)
    requires Enabled(s, step)
    ensures Leads(s, Apply(s, step))
  {
    assert [step][1..] == [];
    assert Run(Apply(s, step), [step][1..], Apply(s, step));
    assert Run(s, [step], Apply(s, step));
  }

  lemma RunJoins(a: State, b: State, c: State)
    requires Leads(a, b)
    requires Leads(b, c)
    ensures Leads(a, c)
  {
    var first :| Run(a, first, b);
    var second :| Run(b, second, c);
    RunConcat(a, first, b, second, c);
  }

  lemma {:induction false} RunConcat(a: State, first: seq<Step>, b: State, second: seq<Step>, c: State)
    requires Run(a, first, b) && Run(b, second, c)
    ensures Run(a, first + second, c)
    decreases |first|
  {
    if first == [] {
      assert first + second == second;
    } else {
      RunConcat(Apply(a, first[0]), first[1..], b, second, c);
      assert (first + second)[1..] == first[1..] + second;
    }
  }

  // ---- reads ----

  function PayloadOf(r: Option<Record>): Option<Payload> {
    match r
    case Some(rec) => Some(rec.payload)
    case None => None
  }

  // A column family read at a snapshot: the chain first, then the LSM tree.
  function SnapshotRead(s: State, k: Key, seqno: SeqNo, tie: Tie): Option<Payload> {
    var r := PayloadOf(VisibleAt(ChainOf(s.chains, k), seqno));
    if r.Some? then r else Read(s.lsm, k, seqno, tie)
  }

  function LsmReadSeq(s: State, h: Handle): SeqNo {
    if h.view.policy == ReadCommitted then Current(s) else h.readSeq
  }

  // A transaction's read.
  function TxnRead(s: State, k: Key, t: TxnId, tie: Tie): Option<Payload>
    requires t in s.txns
  {
    var h := s.txns[t];
    var r := PayloadOf(Visible(ChainOf(s.chains, k), h.view));
    if r.Some? then r else Read(s.lsm, k, LsmReadSeq(s, h), tie)
  }

  // ---- the invariant ----

  // The retained versions, then active records only.
  predicate LiveInv(live: Chain, h: KeyHistory) {
    var n := |h.versions| - h.dropped;
    && h.dropped <= h.flushed <= |h.versions|
    && n <= |live|
    && (forall i | 0 <= i < n ::
          live[i] == RecordOf(h.versions[h.dropped + i], h.dropped + i < h.flushed))
    && (forall i | n <= i < |live| :: live[i] == NewActive(live[i].payload, live[i].txn))
  }

  // Aborted records may lie anywhere.
  predicate ChainInv(chain: Chain, h: KeyHistory) {
    LiveInv(Live(chain), h)
  }

  // An active record belongs to an open transaction that holds the key exclusively; if that
  // one is committing, its number is newer than everything the key has.
  predicate Owned(s: State, k: Key, r: Record) {
    && r.txn in s.txns
    && Locks.Holds(s.locks, k, r.txn, Locks.Exclusive)
    && (r.txn in s.prepared ==> NewerThan(HistOf(s, k).versions, s.prepared[r.txn]))
  }

  predicate NewerThan(vs: seq<Version>, c: SeqNo) {
    forall j | 0 <= j < |vs| :: vs[j].commit < c
  }

  predicate OwnerInv(s: State, k: Key) {
    forall r | r in Live(ChainOf(s.chains, k)) && r.state == Active :: Owned(s, k, r)
  }

  predicate HistInv(s: State, h: KeyHistory) {
    && Sorted(h.versions)
    && h.flushed <= |h.versions| && Boundary(h.versions, h.flushed)
    && (forall i | 0 <= i < |h.versions| ::
          && 1 <= h.versions[i].commit < s.nextSeq
          && h.versions[i].txn < s.nextTxn && h.versions[i].txn !in s.txns)
  }

  // The key's records come from its history, and every flushed commit has its final ones.
  ghost predicate CellInv(l: Lsm, k: Key, h: KeyHistory) {
    && h.flushed <= |h.versions|
    && (forall c | (k, c) in l.cells :: l.cells[(k, c)] in Group(h.versions, c))
    && (forall c | (k, c) in l.tombs :: Delete in Group(h.versions, c))
    && (forall i | 0 <= i < h.flushed :: CommitFlushed(l, k, h.versions, i))
  }

  predicate CommitFlushed(l: Lsm, k: Key, vs: seq<Version>, i: nat)
    requires i < |vs|
  {
    var c := vs[i].commit;
    CellAt(l.cells, k, c) == FlushedCell(vs, i) && ((k, c) in l.tombs <==> Delete in Group(vs, c))
  }

  function FlushedCell(vs: seq<Version>, i: nat): Option<Payload>
    requires i < |vs|
  {
    var g := Group(vs, vs[i].commit);
    if g == [] then None else Some(FlushResult(g))
  }

  ghost predicate KeyInv(s: State, k: Key) {
    && ChainInv(ChainOf(s.chains, k), HistOf(s, k))
    && OwnerInv(s, k)
    && HistInv(s, HistOf(s, k))
    && CellInv(s.lsm, k, HistOf(s, k))
  }

  // Identifier order and sequence order agree, except for commits in flight at Begin.
  predicate ViewInv(s: State, t: TxnId)
    requires t in s.txns
  {
    var h := s.txns[t];
    && h.view.me == t && h.view.upLimit <= s.nextTxn && h.readSeq < s.nextSeq
    && (h.view.policy == RepeatableRead ==>
          && (forall u | u in s.txns :: u in h.view.active || u >= h.view.upLimit)
          && (forall u | u in s.prepared :: s.prepared[u] > h.readSeq || u in h.inflight))
  }

  predicate AgreeAt(h: Handle, v: Version) {
    (v.txn < h.view.upLimit && v.txn !in h.view.active) <==> (v.commit <= h.readSeq && v.txn !in h.inflight)
  }

  predicate Agrees(h: Handle, vs: seq<Version>) {
    h.view.policy == RepeatableRead ==> forall i | 0 <= i < |vs| :: AgreeAt(h, vs[i])
  }

  predicate ViewsAgree(s: State, k: Key) {
    forall t | t in s.txns :: Agrees(s.txns[t], HistOf(s, k).versions)
  }

  function FlightItems(hist: map<Key, KeyHistory>, ks: seq<Key>, goals: map<Key, nat>): seq<(Key, Record)> {
    if ks == [] then []
    else
      var k := ks[|ks| - 1];
      FlightItems(hist, ks[..|ks| - 1], goals)
        + if k in goals && goals[k] <= |HistIn(hist, k).versions|
          then Tag(k, NewestFirst(HistIn(hist, k).versions, HistIn(hist, k).flushed, goals[k]))
          else []
  }

  function WriteItems(l: Lsm, items: seq<(Key, Record)>): Lsm {
    if items == [] then l
    else WriteItem(WriteItems(l, items[..|items| - 1]), items[|items| - 1])
  }

  ghost predicate FlightInv(s: State) {
    s.flight.Flight? ==>
      var f := s.flight;
      && f.written <= |f.items|
      && (forall i, j | 0 <= i < j < |f.keys| :: f.keys[i] != f.keys[j])
      && (forall k :: k in f.keys <==> k in f.goals)
      && (forall k | k in f.goals ::
            && HistOf(s, k).flushed <= f.goals[k] <= |HistOf(s, k).versions|
            && Boundary(HistOf(s, k).versions, f.goals[k])
            && CellInv(f.before, k, HistOf(s, k)))
      && f.items == FlightItems(s.hist, f.keys, f.goals)
      && s.lsm == WriteItems(f.before, f.items[..f.written])
  }

  ghost predicate Inv(s: State) {
    && 1 <= s.nextTxn && 1 <= s.nextSeq && s.lsm.top < s.nextSeq && Orderly(s.lsm)
    && Locks.Inv(s.locks)
    && s.prepared.Keys <= s.txns.Keys
    && (forall t | t in s.txns :: 1 <= t < s.nextTxn)
    && (forall t | t in s.prepared :: t !in s.locks.blocked && 1 <= s.prepared[t] < s.nextSeq)
    && (forall t | t in s.txns :: ViewInv(s, t))
    && (forall k :: KeyInv(s, k) && ViewsAgree(s, k))
    && FlightInv(s)
  }

  // A freshly opened engine: no chains; whatever was recovered is in the LSM tree, was
  // committed by nobody of this session, and has numbers below the next one.
  ghost predicate Init(s: State) {
    && s.chains == map[] && s.txns == map[] && s.prepared == map[]
    && s.locks == Locks.EMPTY && s.flight == NoFlight
    && 1 <= s.nextTxn && 1 <= s.nextSeq && s.lsm.top < s.nextSeq && Orderly(s.lsm)
    && (forall k :: RecoveredKey(s, k))
  }

  ghost predicate RecoveredKey(s: State, k: Key) {
    var h := HistOf(s, k);
    && h.dropped == h.flushed == |h.versions|
    && (forall i, j | 0 <= i < j < |h.versions| :: h.versions[i].commit < h.versions[j].commit)
    && (forall i | 0 <= i < |h.versions| ::
          && h.versions[i].txn == 0 && 1 <= h.versions[i].commit < s.nextSeq
          && CellAt(s.lsm.cells, k, h.versions[i].commit) == Some(h.versions[i].payload)
          && ((k, h.versions[i].commit) in s.lsm.tombs <==> h.versions[i].payload == Delete))
    && (forall c | (k, c) in s.lsm.cells :: exists i :: 0 <= i < |h.versions| && h.versions[i].commit == c)
  }
}
