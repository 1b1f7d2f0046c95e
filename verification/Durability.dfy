/** What the write-ahead log of completed commits rebuilds. */
module Durability {
  import opened Types
  import opened VersionChain
  import opened Lsm
  import opened History
  import opened Engine
  import opened EngineInvariant
  import opened EngineTheorems
  import opened Stability
  import opened FlushLemmas

  // One record of the write-ahead log.
  datatype LogEntry = LogEntry(key: Key, payload: Payload, seqno: SeqNo)

  // What a commit puts into the log: per key it wrote, its latest write, once.
  ghost predicate CommitLog(cs: Chains, t: TxnId, c: SeqNo, log: seq<LogEntry>) {
    && (forall e | e in log :: e.seqno == c && PayloadOf(LatestActive(ChainOf(cs, e.key), t)) == Some(e.payload))
    && (forall k | LatestActive(ChainOf(cs, k), t).Some? :: Logged(log, k))
  }

  ghost predicate Logged(log: seq<LogEntry>, k: Key) {
    exists e :: e in log && e.key == k
  }

  // Replaying a log into the LSM tree, in order.
  function Recover(base: Lsm, log: seq<LogEntry>): Lsm {
    if log == [] then base
    else
      var e := log[|log| - 1];
      Write(Recover(base, log[..|log| - 1]), e.key, e.seqno, e.payload)
  }

  function LastOf(vs: seq<Version>, c: SeqNo): Option<Payload> {
    var g := Group(vs, c);
    if g == [] then None else Some(g[|g| - 1])
  }

  ghost predicate HasEntry(log: seq<LogEntry>, k: Key, c: SeqNo) {
    exists e :: e in log && e.key == k && e.seqno == c
  }

  // The log and the tree the session started from hold, for every commit of every key, the
  // last write of that commit, and nothing else.
  ghost predicate Durable(base: Lsm, log: seq<LogEntry>, hist: map<Key, KeyHistory>) {
    && (forall e | e in log :: LastOf(HistIn(hist, e.key).versions, e.seqno) == Some(e.payload)
                            && (e.key, e.seqno) !in base.cells)
    && (forall k, c | (k, c) in base.cells :: LastOf(HistIn(hist, k).versions, c) == Some(base.cells[(k, c)]))
    && (forall k, c: SeqNo | LastOf(HistIn(hist, k).versions, c).Some? :: (k, c) in base.cells || HasEntry(log, k, c))
  }

  // ---- what replay yields ----

  // Replay adds the log's record to what is there; a value and a tombstone stay side by side.
  lemma {:induction false} RecoverCell(left: Lsm, log: seq<LogEntry>, k: Key, c: SeqNo, p: Payload)
    requires forall e | e in log && e.key == k && e.seqno == c :: e.payload == p
    ensures CellAt(Recover(left, log).cells, k, c)
         == if HasEntry(log, k, c) then Some(WriteCell(CellAt(left.cells, k, c), p)) else CellAt(left.cells, k, c)
    ensures (k, c) in Recover(left, log).tombs <==> (k, c) in left.tombs || (HasEntry(log, k, c) && p.Delete?)
  {
    if log != [] {
      var init, e := log[..|log| - 1], log[|log| - 1];
      assert log == init + [e];
      RecoverCell(left, init, k, c, p);
      if e.key == k && e.seqno == c {
        assert e in log;
      } else if HasEntry(log, k, c) {
        var x :| x in log && x.key == k && x.seqno == c;
        assert x in init;
      }
    }
  }

  lemma {:induction false} RecoverKeepsOrderly(left: Lsm, log: seq<LogEntry>)
    requires Orderly(left)
    ensures Orderly(Recover(left, log))
  {
    hide Orderly;
    if log != [] {
      var e := log[|log| - 1];
      RecoverKeepsOrderly(left, log[..|log| - 1]);
      WriteKeepsOrderly(Recover(left, log[..|log| - 1]), e.key, e.seqno, e.payload);
    }
  }

  // What a crash leaves of the tree: all of what the session started from, and of what was
  // flushed since any part.
  ghost predicate Remains(base: Lsm, left: Lsm, hist: map<Key, KeyHistory>) {
    && Orderly(left)
    && (forall x | x in base.cells :: x in left.cells && left.cells[x] == base.cells[x] && (x in left.tombs <==> base.cells[x].Delete?))
    && (forall k, c | (k, c) in left.cells :: left.cells[(k, c)] in Group(HistIn(hist, k).versions, c))
    && (forall k, c | (k, c) in left.tombs :: Delete in Group(HistIn(hist, k).versions, c))
  }

  // The tree holds, at this place, a record of the other kind than p.
  predicate Clashes(left: Lsm, k: Key, c: SeqNo, p: Payload) {
    match p
    case Put(_) => (k, c) in left.tombs
    case Delete => (k, c) in left.cells && left.cells[(k, c)].Put?
  }

  // After replay each cell answers with the last write of its commit, exactly if the tree held
  // nothing of the other kind there.
  lemma RecoveredCell(base: Lsm, left: Lsm, log: seq<LogEntry>, hist: map<Key, KeyHistory>, k: Key, c: SeqNo)
    requires Durable(base, log, hist) && Remains(base, left, hist)
    ensures var last := LastOf(HistIn(hist, k).versions, c);
            && ((k, c) in Recover(left, log).cells <==> last.Some?)
            && (last.Some? ==> ((forall tie :: AnswerAt(Recover(left, log), k, c, tie) == last) <==> !Clashes(left, k, c, last.value)))
  {
    hide Group;
    var last := LastOf(HistIn(hist, k).versions, c);
    if last.None? {
      NothingThere(base, left, log, hist, k, c);
    } else {
      OneEntryPayload(base, log, hist, k, c);
      RecoverCell(left, log, k, c, last.value);
      assert (k, c) in base.cells || HasEntry(log, k, c);
      AnswersOfCell(Recover(left, log), k, c);
    }
  }

  lemma AnswersOfCell(l: Lsm, k: Key, c: SeqNo)
    requires (k, c) in l.cells
    ensures forall p :: (forall tie :: AnswerAt(l, k, c, tie) == Some(p)) <==> l.cells[(k, c)] == p && ((k, c) in l.tombs ==> p.Delete?)
  {
    assert AnswerAt(l, k, c, ValueWins) == Some(l.cells[(k, c)]);
    assert (k, c) in l.tombs ==> AnswerAt(l, k, c, TombstoneWins) == Some(Delete);
  }

  lemma OneEntryPayload(base: Lsm, log: seq<LogEntry>, hist: map<Key, KeyHistory>, k: Key, c: SeqNo)
    requires Durable(base, log, hist)
    ensures forall e | e in log && e.key == k && e.seqno == c :: Some(e.payload) == LastOf(HistIn(hist, k).versions, c)
    ensures HasEntry(log, k, c) ==> (k, c) !in base.cells
  {
  }

  lemma NothingThere(base: Lsm, left: Lsm, log: seq<LogEntry>, hist: map<Key, KeyHistory>, k: Key, c: SeqNo)
    requires Durable(base, log, hist) && Remains(base, left, hist) && LastOf(HistIn(hist, k).versions, c).None?
    ensures (k, c) !in Recover(left, log).cells
  {
    RecoverCell(left, log, k, c, Delete);
  }

  // The answer at q is of a commit the tree holds nothing of, or nothing of the other kind.
  ghost predicate CleanAt(left: Lsm, k: Key, vs: seq<Version>, q: SeqNo) {
    var i := NewestIndex(vs, q);
    i < 0 || !Clashes(left, k, vs[i].commit, vs[i].payload)
  }

  ghost predicate RecoversHistory(left: Lsm, log: seq<LogEntry>, k: Key, vs: seq<Version>, q: SeqNo) {
    forall tie :: Read(Recover(left, log), k, q, tie) == HistRead(vs, q)
  }

  // Replay rebuilds the history: for every key and every sequence, exactly where it is clean.
  lemma RecoveryReadsHistory(base: Lsm, left: Lsm, log: seq<LogEntry>, s: State, k: Key, q: SeqNo)
    requires Inv(s) && Durable(base, log, s.hist) && Remains(base, left, s.hist) && 1 <= q
    ensures RecoversHistory(left, log, k, HistOf(s, k).versions, q) <==> CleanAt(left, k, HistOf(s, k).versions, q)
  {
    hide Inv, Durable, Remains, Clashes, Recover, Group, AnswerAt;
    InvKey(s, k);
    var vs, l := HistOf(s, k).versions, Recover(left, log);
    var i := NewestIndex(vs, q);
    NewestRecovered(base, left, log, s, k, q);
    if i >= 0 {
      RecoveredCell(base, left, log, s.hist, k, vs[i].commit);
      NewestEndsGroup(vs, q);
      assert forall tie :: Read(l, k, q, tie) == AnswerAt(l, k, vs[i].commit, tie);
    } else {
      assert forall tie :: Read(l, k, q, tie) == None;
    }
  }

  lemma NewestRecovered(base: Lsm, left: Lsm, log: seq<LogEntry>, s: State, k: Key, q: SeqNo)
    requires KeyInv(s, k) && Durable(base, log, s.hist) && Remains(base, left, s.hist)
    ensures var i := NewestIndex(HistOf(s, k).versions, q);
            Newest(Recover(left, log).cells, k, q) == if i < 0 then None else Some(HistOf(s, k).versions[i].commit)
  {
    hide Durable, Remains, Recover, Clashes, AnswerAt;
    var vs, cells := HistOf(s, k).versions, Recover(left, log).cells;
    var i := NewestIndex(vs, q);
    forall c: SeqNo | c <= q && (k, c) in cells
      ensures i >= 0 && c <= vs[i].commit
    {
      RecoveredCell(base, left, log, s.hist, k, c);
      var g := Group(vs, c);
      GroupHolds(vs, c, g[|g| - 1]);
      var j :| 0 <= j < |vs| && vs[j].commit == c && vs[j].payload == g[|g| - 1];
    }
    if i < 0 {
      NewestIsNone(cells, k, q);
    } else {
      NewestEndsGroup(vs, q);
      RecoveredCell(base, left, log, s.hist, k, vs[i].commit);
      NewestIs(cells, k, q, vs[i].commit);
    }
  }

  // Log files may be replayed in any order and any number of times.
  lemma SameEntriesSameDurability(base: Lsm, log: seq<LogEntry>, again: seq<LogEntry>, hist: map<Key, KeyHistory>)
    requires Durable(base, log, hist) && forall e :: e in again <==> e in log
    ensures Durable(base, again, hist)
  {
    forall k, c | HasEntry(log, k, c)
      ensures HasEntry(again, k, c)
    {
      var e :| e in log && e.key == k && e.seqno == c;
      assert e in again;
    }
  }

  lemma {:induction false} RecoveredTop(left: Lsm, log: seq<LogEntry>)
    ensures Recover(left, log).top == if MaxSeq(log) > left.top then MaxSeq(log) else left.top
  {
    if log != [] {
      RecoveredTop(left, log[..|log| - 1]);
    }
  }

  // The largest sequence replayed, 0 for an empty log.
  function MaxSeq(log: seq<LogEntry>): (m: SeqNo)
    ensures forall e | e in log :: e.seqno <= m
  {
    if log == [] then 0
    else
      var rest, e := MaxSeq(log[..|log| - 1]), log[|log| - 1];
      assert forall x | x in log :: x in log[..|log| - 1] || x == e;
      if e.seqno > rest then e.seqno else rest
  }

  // ---- the log a run leaves ----

  // One step with what it adds to the log: only a commit writes there.
  datatype LoggedStep = LoggedStep(step: Step, log: seq<LogEntry>)

  ghost predicate LogsRight(s: State, ls: LoggedStep)
    requires Enabled(s, ls.step)
  {
    match ls.step
    case Publish(t) => CommitLog(s.chains, t, s.prepared[t], ls.log)
    case _ => ls.log == []
  }

  ghost predicate LoggedRun(s: State, steps: seq<LoggedStep>, s': State)
    decreases |steps|
  {
    if steps == [] then s == s'
    else
      && Enabled(s, steps[0].step) && LogsRight(s, steps[0])
      && LoggedRun(Apply(s, steps[0].step), steps[1..], s')
  }

  function LogOf(steps: seq<LoggedStep>): seq<LogEntry> {
    if steps == [] then [] else steps[0].log + LogOf(steps[1..])
  }

  lemma {:induction false} GroupOfNew(chain: Chain, t: TxnId, c: SeqNo)
    ensures |Group(NewVersions(chain, t, c), c)| == |NewVersions(chain, t, c)|
    ensures forall i | 0 <= i < |NewVersions(chain, t, c)| ::
      Group(NewVersions(chain, t, c), c)[i] == NewVersions(chain, t, c)[i].payload
    ensures forall i | 0 <= i < |NewVersions(chain, t, c)| :: NewVersions(chain, t, c)[i].commit == c
  {
    if chain != [] {
      var init, r := chain[..|chain| - 1], chain[|chain| - 1];
      GroupOfNew(init, t, c);
      if r.txn == t && r.state == Active {
        GroupOfOne(NewVersions(init, t, c), Version(r.payload, c, t), c);
      } else {
        assert NewVersions(chain, t, c) == NewVersions(init, t, c);
      }
    }
  }

  lemma LastOfAppended(vs: seq<Version>, nv: seq<Version>, p: SeqNo, c: SeqNo)
    requires NewerThan(vs, p) && nv != []
    requires |Group(nv, p)| == |nv| && Group(nv, p)[|nv| - 1] == nv[|nv| - 1].payload
    requires forall i | 0 <= i < |nv| :: nv[i].commit == p
    ensures LastOf(vs + nv, c) == if c == p then Some(nv[|nv| - 1].payload) else LastOf(vs, c)
    ensures LastOf(vs, p) == None
  {
    GroupOfConcat(vs, nv, c);
    if c == p {
      GroupOfOthers(vs, p);
      assert [] + Group(nv, p) == Group(nv, p);
    } else {
      GroupOfOthers(nv, c);
      assert Group(vs, c) + [] == Group(vs, c);
      GroupOfOthers(vs, p);
    }
  }

  // What a commit changes in the last-write table of a key.
  lemma PublishedLast(s: State, t: TxnId, k: Key, c: SeqNo)
    requires Inv(s) && Enabled(s, Publish(t))
    ensures var latest := PayloadOf(LatestActive(ChainOf(s.chains, k), t));
            LastOf(HistOf(Apply(s, Publish(t)), k).versions, c)
              == if c == s.prepared[t] && latest.Some? then latest else LastOf(HistOf(s, k).versions, c)
    ensures LatestActive(ChainOf(s.chains, k), t).Some? ==> LastOf(HistOf(s, k).versions, s.prepared[t]) == None
  {
    var p := s.prepared[t];
    var vs, nv := HistOf(s, k).versions, NewVersions(ChainOf(s.chains, k), t, p);
    assert KeyInv(s, k);
    HistOfPublish(s, t, k);
    LatestIsLastNew(ChainOf(s.chains, k), t, p);
    if nv == [] {
      assert vs + nv == vs;
    } else {
      if !Owns(s, k, t) {
        UnownedChainUntouched(s, t, p, k);
      }
      NewestCommitIsLast(s, t, k);
      GroupOfNew(ChainOf(s.chains, k), t, p);
      LastOfAppended(vs, nv, p, c);
    }
  }

  lemma PublishKeepsDurable(base: Lsm, log: seq<LogEntry>, s: State, t: TxnId, es: seq<LogEntry>)
    requires Inv(s) && Enabled(s, Publish(t)) && Durable(base, log, s.hist)
    requires CommitLog(s.chains, t, s.prepared[t], es)
    ensures Durable(base, log + es, Apply(s, Publish(t)).hist)
  {
    var s' := Apply(s, Publish(t));
    forall e | e in log + es
      ensures LastOf(HistIn(s'.hist, e.key).versions, e.seqno) == Some(e.payload)
      ensures (e.key, e.seqno) !in base.cells
    {
      PublishedLast(s, t, e.key, e.seqno);
    }
    forall k, c | (k, c) in base.cells
      ensures LastOf(HistIn(s'.hist, k).versions, c) == Some(base.cells[(k, c)])
    {
      PublishedLast(s, t, k, c);
    }
    forall k, c: SeqNo | LastOf(HistIn(s'.hist, k).versions, c).Some?
      ensures (k, c) in base.cells || HasEntry(log + es, k, c)
    {
      PublishedLast(s, t, k, c);
      if LatestActive(ChainOf(s.chains, k), t).Some? && c == s.prepared[t] {
        assert Logged(es, k);
        var e :| e in es && e.key == k;
        assert e in log + es;
      } else if HasEntry(log, k, c) {
        var e :| e in log && e.key == k && e.seqno == c;
        assert e in log + es;
      }
    }
  }

  lemma OtherStepsKeepDurable(base: Lsm, log: seq<LogEntry>, s: State, step: Step)
    requires Enabled(s, step) && !step.Publish? && Durable(base, log, s.hist)
    ensures Durable(base, log, Apply(s, step).hist)
  {
    var s' := Apply(s, step);
    forall k
      ensures HistIn(s'.hist, k).versions == HistIn(s.hist, k).versions
    {
    }
    SameVersionsSameDurability(base, log, s.hist, s'.hist);
  }

  lemma SameVersionsSameDurability(base: Lsm, log: seq<LogEntry>, hist: map<Key, KeyHistory>, hist': map<Key, KeyHistory>)
    requires Durable(base, log, hist)
    requires forall k :: HistIn(hist', k).versions == HistIn(hist, k).versions
    ensures Durable(base, log, hist')
  {
  }

  lemma LoggedStepKeepsDurable(base: Lsm, log: seq<LogEntry>, s: State, ls: LoggedStep)
    requires Inv(s) && Durable(base, log, s.hist) && Enabled(s, ls.step) && LogsRight(s, ls)
    ensures Durable(base, log + ls.log, Apply(s, ls.step).hist)
  {
    hide Inv, Durable, Apply, Enabled, CommitLog;
    if ls.step.Publish? {
      PublishKeepsDurable(base, log, s, ls.step.txn, ls.log);
    } else {
      OtherStepsKeepDurable(base, log, s, ls.step);
      assert log + ls.log == log;
    }
  }

  lemma {:induction false} LoggedRunIsDurable(base: Lsm, log: seq<LogEntry>, s: State, steps: seq<LoggedStep>, s': State)
    requires Inv(s) && Durable(base, log, s.hist) && LoggedRun(s, steps, s')
    ensures Inv(s') && Durable(base, log + LogOf(steps), s'.hist)
    decreases |steps|
  {
    hide Inv, Durable, Apply, LogsRight, Enabled;
    if steps == [] {
      assert log + LogOf(steps) == log;
    } else {
      var es := steps[0].log;
      StepKeepsInv(s, steps[0].step);
      LoggedStepKeepsDurable(base, log, s, steps[0]);
      LoggedRunIsDurable(base, log + es, Apply(s, steps[0].step), steps[1..], s');
      assert (log + es) + LogOf(steps[1..]) == log + LogOf(steps);
    }
  }

  lemma InitIsDurable(s: State)
    requires Init(s)
    ensures Durable(s.lsm, [], s.hist)
  {
    forall k, c | (k, c) in s.lsm.cells
      ensures LastOf(HistIn(s.hist, k).versions, c) == Some(s.lsm.cells[(k, c)])
    {
      assert RecoveredKey(s, k);
      var vs := HistOf(s, k).versions;
      var i :| 0 <= i < |vs| && vs[i].commit == c;
      GroupOfStrict(vs, i);
    }
    forall k, c: SeqNo | LastOf(HistIn(s.hist, k).versions, c).Some?
      ensures (k, c) in s.lsm.cells
    {
      assert RecoveredKey(s, k);
      var vs, g := HistOf(s, k).versions, Group(HistOf(s, k).versions, c);
      GroupHolds(vs, c, g[|g| - 1]);
      var i :| 0 <= i < |vs| && vs[i].commit == c && vs[i].payload == g[|g| - 1];
    }
  }

  lemma SessionIsDurable(s0: State, steps: seq<LoggedStep>, s: State)
    requires Init(s0) && LoggedRun(s0, steps, s)
    ensures Inv(s) && Durable(s0.lsm, LogOf(steps), s.hist)
  {
    hide Inv, Durable;
    InitInv(s0);
    InitIsDurable(s0);
    LoggedRunIsDurable(s0.lsm, [], s0, steps, s);
    assert [] + LogOf(steps) == LogOf(steps);
  }

  // The log of all commits of a session, replayed in any order and any number of times over
  // what the crash left of the tree, answers every read like the history of the session,
  // exactly where the tree held no record of the other kind for the answering commit.
  lemma DurableHistory(s0: State, steps: seq<LoggedStep>, s: State, left: Lsm, replayed: seq<LogEntry>, k: Key, q: SeqNo)
    requires Init(s0) && LoggedRun(s0, steps, s) && Remains(s0.lsm, left, s.hist) && 1 <= q
    requires forall e :: e in replayed <==> e in LogOf(steps)
    ensures RecoversHistory(left, replayed, k, HistOf(s, k).versions, q) <==> CleanAt(left, k, HistOf(s, k).versions, q)
  {
    hide Inv, Durable, Remains, RecoversHistory, CleanAt;
    SessionIsDurable(s0, steps, s);
    SameEntriesSameDurability(s0.lsm, LogOf(steps), replayed, s.hist);
    RecoveryReadsHistory(s0.lsm, left, replayed, s, k, q);
  }

  // ---- what the crash leaves ----

  function Plain(steps: seq<LoggedStep>): seq<Step> {
    if steps == [] then [] else [steps[0].step] + Plain(steps[1..])
  }

  lemma {:induction false} LoggedRunIsRun(s: State, steps: seq<LoggedStep>, s': State)
    requires LoggedRun(s, steps, s')
    ensures Run(s, Plain(steps), s')
    decreases |steps|
  {
    hide Apply;
    if steps != [] {
      LoggedRunIsRun(Apply(s, steps[0].step), steps[1..], s');
      assert Plain(steps)[1..] == Plain(steps[1..]);
    }
  }

  // The tree in memory at the crash is such a rest: what was there at the start still is.
  lemma CrashTreeRemains(s0: State, steps: seq<LoggedStep>, s: State)
    requires Init(s0) && LoggedRun(s0, steps, s)
    ensures Remains(s0.lsm, s.lsm, s.hist)
  {
    hide LoggedRun, Durable;
    hide RecoveredKey, Group;
    SessionIsDurable(s0, steps, s);
    LoggedRunIsRun(s0, steps, s);
    forall k, c | (k, c) in s0.lsm.cells
      ensures (k, c) in s.lsm.cells && s.lsm.cells[(k, c)] == s0.lsm.cells[(k, c)]
      ensures (k, c) in s.lsm.tombs <==> s0.lsm.cells[(k, c)].Delete?
    {
      InitInv(s0);
      StartIsKept(s0, Plain(steps), s, k, c);
    }
    forall k
      ensures forall c | (k, c) in s.lsm.cells :: s.lsm.cells[(k, c)] in Group(HistIn(s.hist, k).versions, c)
      ensures forall c | (k, c) in s.lsm.tombs :: Delete in Group(HistIn(s.hist, k).versions, c)
    {
      assert KeyInv(s, k);
    }
  }

  lemma StartIsKept(s0: State, steps: seq<Step>, s: State, k: Key, c: SeqNo)
    requires Init(s0) && Inv(s0) && Run(s0, steps, s) && (k, c) in s0.lsm.cells
    ensures CellAt(s.lsm.cells, k, c) == Some(s0.lsm.cells[(k, c)])
    ensures (k, c) in s.lsm.tombs <==> s0.lsm.cells[(k, c)].Delete?
  {
    hide Inv, KeySettled, GrowsAbove, Group;
    assert RecoveredKey(s0, k);
    var q := Current(s0);
    SettledAtStart(s0, k);
    RunKeepsSettled(s0, steps, s, k, q);
    InvKey(s, k);
    var vs0, vs := HistOf(s0, k).versions, HistOf(s, k).versions;
    var i :| 0 <= i < |vs0| && vs0[i].commit == c;
    GroupOfStrict(vs0, i);
    GroupStays(vs0, vs, q, i);
    assert CommitFlushed(s.lsm, k, vs, i);
  }

  lemma SettledAtStart(s0: State, k: Key)
    requires Init(s0)
    ensures KeySettled(s0, k, Current(s0))
  {
  }

  lemma GroupStays(vs: seq<Version>, vs': seq<Version>, q: SeqNo, i: nat)
    requires GrowsAbove(vs, vs', q) && i < |vs| && vs[i].commit <= q
    ensures vs'[i] == vs[i] && Group(vs', vs[i].commit) == Group(vs, vs[i].commit)
  {
    var ws := vs'[|vs|..];
    assert vs' == vs + ws;
    GroupOfConcat(vs, ws, vs[i].commit);
    GroupOfOthers(ws, vs[i].commit);
    assert Group(vs, vs[i].commit) + [] == Group(vs, vs[i].commit);
  }

  // For a commit that is flushed, clean means: its writes of the key are all of one kind.
  lemma FlushedIsCleanIfOneKind(s: State, k: Key, q: SeqNo)
    requires Inv(s) && 0 <= NewestIndex(HistOf(s, k).versions, q) < HistOf(s, k).flushed
    ensures var vs := HistOf(s, k).versions;
            var g := Group(vs, vs[NewestIndex(vs, q)].commit);
            CleanAt(s.lsm, k, vs, q) <==> (forall i | 0 <= i < |g| :: g[i].Put?) || (forall i | 0 <= i < |g| :: g[i].Delete?)
  {
    hide Inv, Group, FlushResult;
    InvKey(s, k);
    var vs := HistOf(s, k).versions;
    var i := NewestIndex(vs, q);
    var g := Group(vs, vs[i].commit);
    assert CommitFlushed(s.lsm, k, vs, i);
    NewestEndsGroup(vs, q);
    FlushResultIsFirstPut(g);
    assert forall j | 0 <= j < |g| && g[j].Delete? :: g[j] == Delete && Delete in g;
  }

  // If no transaction writes a key twice, replay over whatever the crash left rebuilds the
  // history: every key, every sequence from 1 on.
  lemma DurableHistoryOnce(s0: State, steps: seq<LoggedStep>, s: State, left: Lsm, replayed: seq<LogEntry>, k: Key, q: SeqNo)
    requires Init(s0) && LoggedRun(s0, steps, s) && RunOnce(s0, Plain(steps), s)
    requires Remains(s0.lsm, left, s.hist) && 1 <= q
    requires forall e :: e in replayed <==> e in LogOf(steps)
    ensures RecoversHistory(left, replayed, k, HistOf(s, k).versions, q)
  {
    hide Inv, RecoversHistory, Init, LoggedRun, RunOnce;
    OnceRunIsStrict(s0, Plain(steps), s, k);
    StrictIsClean(s0.lsm, left, s, k, q);
    DurableHistory(s0, steps, s, left, replayed, k, q);
  }

  lemma StrictIsClean(base: Lsm, left: Lsm, s: State, k: Key, q: SeqNo)
    requires Strict(HistOf(s, k).versions) && Remains(base, left, s.hist)
    ensures CleanAt(left, k, HistOf(s, k).versions, q)
  {
    var vs := HistOf(s, k).versions;
    var i := NewestIndex(vs, q);
    if i >= 0 {
      GroupOfStrict(vs, i);
    }
  }

  // In particular over the tree as it was in memory, flushed as far as it was.
  lemma DurableOverCrashTree(s0: State, steps: seq<LoggedStep>, s: State, replayed: seq<LogEntry>, k: Key, q: SeqNo)
    requires Init(s0) && LoggedRun(s0, steps, s) && RunOnce(s0, Plain(steps), s) && 1 <= q
    requires forall e :: e in replayed <==> e in LogOf(steps)
    ensures RecoversHistory(s.lsm, replayed, k, HistOf(s, k).versions, q)
  {
    hide Init, LoggedRun, RunOnce, Remains, RecoversHistory;
    CrashTreeRemains(s0, steps, s);
    DurableHistoryOnce(s0, steps, s, s.lsm, replayed, k, q);
  }
}
