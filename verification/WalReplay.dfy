/** Replaying the log: which records reach the LSM tree, when, and in what order. */
module WalReplay {
  import opened Types
  import opened WalCodec
  import opened Lsm
  import Durability

  const PUT: Byte := 1
  const DELETE: Byte := 2
  const MERGE: Byte := 3
  const BEGIN: Byte := 4
  const COMMIT: Byte := 5
  const ABORT: Byte := 6
  const LAST_KIND: Byte := 11

  type Log = seq<WalRecord>

  predicate Ends(r: WalRecord, t: int) {
    r.txn == t && (r.kind == COMMIT || r.kind == ABORT)
  }

  // A record that waits for the end of its transaction.
  predicate Waits(r: WalRecord) {
    r.txn != 0 && r.kind != BEGIN && r.kind != COMMIT && r.kind != ABORT
  }

  // ---- what replay does, by position ----

  // The positions that transaction t has waiting at the end of the log.
  function Pending(log: Log, t: int): (ps: seq<nat>)
    ensures forall i | 0 <= i < |ps| :: ps[i] < |log| && log[ps[i]].txn == t && Waits(log[ps[i]])
  {
    if log == [] then []
    else
      var init, r, n := log[..|log| - 1], log[|log| - 1], |log| - 1;
      if Ends(r, t) then []
      else if r.txn == t && Waits(r) then Pending(init, t) + [n]
      else Pending(init, t)
  }

  // The positions applied when the last record of the log is replayed.
  function AppliedLast(log: Log): (ps: seq<nat>)
    requires log != []
    ensures forall i | 0 <= i < |ps| :: ps[i] < |log|
  {
    var r := log[|log| - 1];
    if r.txn == 0 then [|log| - 1]
    else if r.kind == COMMIT then Pending(log[..|log| - 1], r.txn)
    else []
  }

  // All positions applied, in order.
  function Applied(log: Log): (ps: seq<nat>)
    ensures forall i | 0 <= i < |ps| :: ps[i] < |log|
  {
    if log == [] then [] else Applied(log[..|log| - 1]) + AppliedLast(log)
  }

  function At(log: Log, ps: seq<nat>): (rs: Log)
    requires forall i | 0 <= i < |ps| :: ps[i] < |log|
    ensures |rs| == |ps| && forall i | 0 <= i < |ps| :: rs[i] == log[ps[i]]
  {
    seq(|ps|, i requires 0 <= i < |ps| => log[ps[i]])
  }

  // ---- what that means ----

  // The first Commit or Abort of the record's transaction after position i.
  function EndOf(log: Log, i: nat): (j: nat)
    requires i < |log|
    ensures i < j <= |log|
    ensures forall m | i < m < j :: !Ends(log[m], log[i].txn)
    ensures j < |log| ==> Ends(log[j], log[i].txn)
  {
    EndFrom(log, log[i].txn, i + 1)
  }

  function EndFrom(log: Log, t: int, i: nat): (j: nat)
    requires i <= |log|
    ensures i <= j <= |log|
    ensures forall m | i <= m < j :: !Ends(log[m], t)
    ensures j < |log| ==> Ends(log[j], t)
    decreases |log| - i
  {
    if i == |log| || Ends(log[i], t) then i else EndFrom(log, t, i + 1)
  }

  // When a record is applied, if ever.
  function AppliedWhen(log: Log, i: nat): Option<nat>
    requires i < |log|
  {
    if log[i].txn == 0 then Some(i)
    else if Waits(log[i]) && EndOf(log, i) < |log| && log[EndOf(log, i)].kind == COMMIT then Some(EndOf(log, i))
    else None
  }

  lemma {:induction false} PendingIs(log: Log, t: int, p: nat)
    requires p < |log| && t != 0
    ensures p in Pending(log, t) <==> Waits(log[p]) && log[p].txn == t && EndOf(log, p) == |log|
  {
    var init, n := log[..|log| - 1], |log| - 1;
    if p < n {
      PendingIs(init, t, p);
      EndOfPrefix(log, p);
    }
  }

  lemma {:induction false} PendingAscends(log: Log, t: int)
    ensures forall a, b | 0 <= a < b < |Pending(log, t)| :: Pending(log, t)[a] < Pending(log, t)[b]
  {
    if log != [] {
      var init, n := log[..|log| - 1], |log| - 1;
      PendingAscends(init, t);
      forall a | 0 <= a < |Pending(init, t)|
        ensures Pending(init, t)[a] < n
      {
        assert Pending(init, t)[a] in Pending(init, t);
      }
    }
  }

  // Adding a record decides those that waited for it and no other.
  lemma EndOfPrefix(log: Log, p: nat)
    requires p < |log| - 1
    ensures var n := |log| - 1;
            EndOf(log, p) == if EndOf(log[..n], p) < n then EndOf(log[..n], p)
                             else if Ends(log[n], log[p].txn) then n else n + 1
  {
  }

  // log[j] is a Commit (5) of the transaction of log[p], with no Commit or Abort (6) of it between.
  ghost predicate CommittedAt(log: Log, p: nat, j: nat)
    requires p < |log| && j < |log|
  {
    && p < j && log[j].txn == log[p].txn && log[j].kind == 5
    && forall m | p < m < j && log[m].txn == log[p].txn :: log[m].kind != 5 && log[m].kind != 6
  }

  // A record is applied exactly if it belongs to no transaction (0), or is no Begin (4), Commit or
  // Abort and what ends its transaction behind it is a Commit.
  lemma AppliedIff(log: Log, p: nat)
    requires p < |log|
    ensures p in Applied(log) <==>
              log[p].txn == 0
              || (log[p].kind !in {4, 5, 6} && exists j | p < j < |log| :: CommittedAt(log, p, j))
  {
    AppliedIffWhen(log, p);
    var e := EndOf(log, p);
    if e < |log| && log[e].kind == COMMIT {
      assert CommittedAt(log, p, e);
    }
    if j :| p < j < |log| && CommittedAt(log, p, j) {
      assert e == j;
    }
  }

  lemma {:induction false} AppliedIffWhen(log: Log, p: nat)
    requires p < |log|
    ensures p in Applied(log) <==> AppliedWhen(log, p).Some?
  {
    var init, n := log[..|log| - 1], |log| - 1;
    LastApplies(log, p);
    if p < n {
      AppliedIffWhen(init, p);
      EndOfPrefix(log, p);
    } else {
      assert p in Applied(init) ==> p < n;
    }
  }

  // What the last record applies: the records it is the moment of.
  lemma LastApplies(log: Log, p: nat)
    requires p < |log|
    ensures p in AppliedLast(log) <==> AppliedWhen(log, p) == Some(|log| - 1)
  {
    var init, n := log[..|log| - 1], |log| - 1;
    if p < n && log[n].txn != 0 {
      PendingIs(init, log[n].txn, p);
      EndOfPrefix(log, p);
    }
  }

  // Both positions are applied, p at an earlier moment, or at the same one and before q.
  predicate InTurn(log: Log, p: nat, q: nat) {
    && p < |log| && q < |log| && AppliedWhen(log, p).Some? && AppliedWhen(log, q).Some?
    && var a, b := AppliedWhen(log, p).value, AppliedWhen(log, q).value;
       a < b || (a == b && p < q)
  }

  predicate AllInTurn(log: Log, ps: seq<nat>) {
    forall x, y | 0 <= x < y < |ps| :: InTurn(log, ps[x], ps[y])
  }

  // Records are applied at their moment, and those of one commit in log order; so none twice.
  lemma {:induction false} AppliedInOrder(log: Log)
    ensures AllInTurn(log, Applied(log))
  {
    if log != [] {
      var init := log[..|log| - 1];
      AppliedInOrder(init);
      EarlierInTurn(log, Applied(init));
      LastInTurn(log);
      forall x, y | 0 <= x < |Applied(init)| && 0 <= y < |AppliedLast(log)|
        ensures InTurn(log, Applied(init)[x], AppliedLast(log)[y])
      {
        OrderAcross(log, Applied(init)[x], AppliedLast(log)[y]);
      }
      ConcatInTurn(log, Applied(init), AppliedLast(log));
    }
  }

  lemma EarlierInTurn(log: Log, ps: seq<nat>)
    requires log != [] && ps == Applied(log[..|log| - 1]) && AllInTurn(log[..|log| - 1], ps)
    ensures AllInTurn(log, ps)
  {
    forall x, y | 0 <= x < y < |ps|
      ensures InTurn(log, ps[x], ps[y])
    {
      OrderStays(log, ps[x], ps[y]);
    }
  }

  lemma LastInTurn(log: Log)
    requires log != []
    ensures AllInTurn(log, AppliedLast(log))
  {
    forall x, y | 0 <= x < y < |AppliedLast(log)|
      ensures InTurn(log, AppliedLast(log)[x], AppliedLast(log)[y])
    {
      OrderLast(log, x, y);
    }
  }

  lemma ConcatInTurn(log: Log, a: seq<nat>, b: seq<nat>)
    requires AllInTurn(log, a) && AllInTurn(log, b)
    requires forall x, y | 0 <= x < |a| && 0 <= y < |b| :: InTurn(log, a[x], b[y])
    ensures AllInTurn(log, a + b)
  {
    forall x, y | 0 <= x < y < |a + b|
      ensures InTurn(log, (a + b)[x], (a + b)[y])
    {
      if y < |a| {
        assert InTurn(log, a[x], a[y]);
      } else if x < |a| {
        assert InTurn(log, a[x], b[y - |a|]);
      } else {
        assert InTurn(log, b[x - |a|], b[y - |a|]);
      }
    }
  }

  lemma OrderStays(log: Log, p: nat, q: nat)
    requires log != [] && p in Applied(log[..|log| - 1]) && q in Applied(log[..|log| - 1])
    requires InTurn(log[..|log| - 1], p, q)
    ensures InTurn(log, p, q)
  {
    WhenInPrefix(log, p);
    WhenInPrefix(log, q);
  }

  lemma OrderAcross(log: Log, p: nat, q: nat)
    requires log != [] && p in Applied(log[..|log| - 1]) && q in AppliedLast(log)
    ensures InTurn(log, p, q)
  {
    AppliedIffWhen(log[..|log| - 1], p);
    WhenInPrefix(log, p);
    LastApplies(log, q);
  }

  lemma OrderLast(log: Log, x: nat, y: nat)
    requires log != [] && x < y < |AppliedLast(log)|
    ensures InTurn(log, AppliedLast(log)[x], AppliedLast(log)[y])
  {
    assert AppliedLast(log)[x] in AppliedLast(log) && AppliedLast(log)[y] in AppliedLast(log);
    LastApplies(log, AppliedLast(log)[x]);
    LastApplies(log, AppliedLast(log)[y]);
    PendingAscends(log[..|log| - 1], log[|log| - 1].txn);
  }

  // What is applied within a prefix was decided there.
  lemma WhenInPrefix(log: Log, p: nat)
    requires log != [] && p in Applied(log[..|log| - 1])
    ensures p < |log| - 1 && AppliedWhen(log, p) == AppliedWhen(log[..|log| - 1], p)
  {
    AppliedIffWhen(log[..|log| - 1], p);
    EndOfPrefix(log, p);
  }

  // ---- applying records ----

  // Only Put and Delete change the tree.
  function Apply(l: Lsm, r: WalRecord): Lsm {
    if r.kind == PUT then Write(l, Key(r.key), r.seqno, Payload.Put(Value(r.value)))
    else if r.kind == DELETE then Write(l, Key(r.key), r.seqno, Payload.Delete)
    else l
  }

  function ApplyAll(l: Lsm, rs: Log): Lsm {
    if rs == [] then l else Apply(ApplyAll(l, rs[..|rs| - 1]), rs[|rs| - 1])
  }

  // Merge and unknown kinds stop the replay.
  predicate Supported(r: WalRecord) {
    r.kind != MERGE && 1 <= r.kind <= LAST_KIND
  }

  function MaxSeq(log: Log): nat {
    if log == [] then 0
    else
      var m := MaxSeq(log[..|log| - 1]);
      if log[|log| - 1].seqno > m then log[|log| - 1].seqno else m
  }

  lemma MaxSeqGrows(log: Log, r: WalRecord)
    ensures MaxSeq(log + [r]) == if r.seqno > MaxSeq(log) then r.seqno else MaxSeq(log)
  {
    assert (log + [r])[..|log|] == log;
  }

  // m is the largest sequence in the log, 0 if there is none.
  ghost predicate IsLargest(log: Log, m: nat) {
    && (forall r | r in log :: r.seqno <= m)
    && (m == 0 || exists r :: r in log && r.seqno == m)
  }

  lemma {:induction false} MaxSeqIsLargest(log: Log)
    ensures IsLargest(log, MaxSeq(log))
  {
    if log != [] {
      var init, r := log[..|log| - 1], log[|log| - 1];
      assert log == init + [r];
      MaxSeqIsLargest(init);
      if r.seqno <= MaxSeq(init) && MaxSeq(init) != 0 {
        var x :| x in init && x.seqno == MaxSeq(init);
        assert x in log;
      }
    }
  }

  lemma {:induction false} ApplyAllConcat(l: Lsm, a: Log, b: Log)
    ensures ApplyAll(l, a + b) == ApplyAll(ApplyAll(l, a), b)
  {
    if b == [] {
      assert a + b == a;
    } else {
      ApplyAllConcat(l, a, b[..|b| - 1]);
      assert (a + b)[..|a + b| - 1] == a + b[..|b| - 1];
    }
  }

  // The same in terms of records: what waits, and what has been applied.
  function Waiting(log: Log, t: int): Log {
    if log == [] then []
    else
      var init, r := log[..|log| - 1], log[|log| - 1];
      if Ends(r, t) then [] else Waiting(init, t) + if r.txn == t && Waits(r) then [r] else []
  }

  // What the next record applies.
  function Effect(log: Log, r: WalRecord): Log {
    if r.txn == 0 then [r] else if r.kind == COMMIT then Waiting(log, r.txn) else []
  }

  function Effects(log: Log): Log {
    if log == [] then [] else Effects(log[..|log| - 1]) + Effect(log[..|log| - 1], log[|log| - 1])
  }

  lemma {:induction false} WaitingIsPending(log: Log, t: int)
    ensures Waiting(log, t) == At(log, Pending(log, t))
  {
    if log != [] {
      WaitingIsPending(log[..|log| - 1], t);
    }
  }

  // The records applied are those at the positions applied, in that order.
  lemma {:induction false} EffectsAreApplied(log: Log)
    ensures Effects(log) == At(log, Applied(log))
  {
    if log != [] {
      var init, r := log[..|log| - 1], log[|log| - 1];
      EffectsAreApplied(init);
      EffectIsLast(log);
      AtSplits(log, Applied(init), AppliedLast(log));
      AtOfPrefix(log, Applied(init));
    }
  }

  lemma EffectIsLast(log: Log)
    requires log != []
    ensures Effect(log[..|log| - 1], log[|log| - 1]) == At(log, AppliedLast(log))
  {
    WaitingIsPending(log[..|log| - 1], log[|log| - 1].txn);
  }

  lemma AtSplits(log: Log, ps: seq<nat>, qs: seq<nat>)
    requires (forall i | 0 <= i < |ps| :: ps[i] < |log|) && forall i | 0 <= i < |qs| :: qs[i] < |log|
    ensures At(log, ps + qs) == At(log, ps) + At(log, qs)
  {
  }

  lemma AtOfPrefix(log: Log, ps: seq<nat>)
    requires log != [] && forall i | 0 <= i < |ps| :: ps[i] < |log| - 1
    ensures At(log, ps) == At(log[..|log| - 1], ps)
  {
  }

  lemma EffectsGrow(l: Lsm, log: Log, r: WalRecord)
    ensures Effects(log + [r]) == Effects(log) + Effect(log, r)
    ensures ApplyAll(l, Effects(log + [r])) == ApplyAll(ApplyAll(l, Effects(log)), Effect(log, r))
  {
    assert (log + [r])[..|log|] == log;
    ApplyAllConcat(l, Effects(log), Effect(log, r));
  }

  lemma WaitingGrows(log: Log, r: WalRecord, t: int)
    ensures Waiting(log + [r], t)
         == if Ends(r, t) then [] else Waiting(log, t) + if r.txn == t && Waits(r) then [r] else []
  {
    assert (log + [r])[..|log|] == log;
  }

  type Buffers = map<int, Log>

  function Buffered(buffers: Buffers, t: int): Log {
    if t in buffers then buffers[t] else []
  }

  // Every transaction's buffer holds what it has waiting.
  ghost predicate BuffersHold(buffers: Buffers, log: Log) {
    forall t | t != 0 :: Buffered(buffers, t) == Waiting(log, t)
  }

  function NextBuffers(buffers: Buffers, r: WalRecord): Buffers {
    if r.txn == 0 || r.kind == BEGIN then buffers
    else if r.kind == COMMIT || r.kind == ABORT then buffers - {r.txn}
    else buffers[r.txn := Buffered(buffers, r.txn) + [r]]
  }

  lemma BuffersGrow(buffers: Buffers, log: Log, r: WalRecord)
    requires BuffersHold(buffers, log)
    ensures BuffersHold(NextBuffers(buffers, r), log + [r])
  {
    forall t | t != 0
      ensures Buffered(NextBuffers(buffers, r), t) == Waiting(log + [r], t)
    {
      WaitingGrows(log, r, t);
      assert Buffered(buffers, t) == Waiting(log, t);
    }
  }

  class Replayer {
    var lsm: Lsm
    var buffers: Buffers
    var maxSequence: nat
    // For the proofs: what has been replayed.
    ghost var log: Log
    ghost var base: Lsm

    constructor (lsm: Lsm)
      ensures Valid() && log == [] && base == this.lsm == lsm
    {
      this.lsm, buffers, maxSequence := lsm, map[], 0;
      log, base := [], lsm;
    }

    ghost predicate Valid()
      reads this
    {
      && lsm == ApplyAll(base, Effects(log))
      && BuffersHold(buffers, log) && maxSequence == MaxSeq(log)
    }

    method ApplyRecord(r: WalRecord) returns (ok: bool)
      modifies this`lsm
      ensures ok <==> Supported(r)
      ensures ok <==> 1 <= r.kind <= 11 && r.kind != 3
      ensures lsm == if ok then Apply(old(lsm), r) else old(lsm)
      ensures lsm == if r.kind == 1 then Write(old(lsm), Key(r.key), r.seqno, Payload.Put(Value(r.value)))
                     else if r.kind == 2 then Write(old(lsm), Key(r.key), r.seqno, Payload.Delete)
                     else old(lsm)
    {
      if r.kind == PUT {
        lsm := Write(lsm, Key(r.key), r.seqno, Payload.Put(Value(r.value)));
      } else if r.kind == DELETE {
        lsm := Write(lsm, Key(r.key), r.seqno, Payload.Delete);
      } else if r.kind == MERGE {
        return false;
      } else if r.kind == 0 || r.kind > LAST_KIND {
        return false;
      }
      return true;
    }

    method ApplyBuffer(rs: Log) returns (ok: bool)
      modifies this`lsm
      ensures ok <==> forall r | r in rs :: Supported(r)
      ensures ok ==> lsm == ApplyAll(old(lsm), rs)
    {
      assert rs[..0] == [];
      for i := 0 to |rs|
        invariant lsm == ApplyAll(old(lsm), rs[..i]) && forall j | 0 <= j < i :: Supported(rs[j])
      {
        assert rs[..i + 1][..i] == rs[..i];
        ok := ApplyRecord(rs[i]);
        if !ok {
          return false;
        }
      }
      assert rs[..|rs|] == rs;
      return true;
    }

    // What was buffered for a committed transaction.
    method ApplyCommitted(t: nat) returns (ok: bool)
      modifies this`lsm, this`buffers
      ensures ok <==> AllSupported(Buffered(old(buffers), t))
      ensures ok ==> lsm == ApplyAll(old(lsm), Buffered(old(buffers), t)) && buffers == old(buffers) - {t}
    {
      ok := true;
      if t in buffers {
        ok := ApplyBuffer(buffers[t]);
        buffers := buffers - {t};
      } else {
        assert buffers - {t} == buffers;
      }
    }

    // One record, in the order of the log.
    method ApplyRecovered(r: WalRecord) returns (ok: bool)
      requires Valid()
      modifies this
      ensures base == old(base)
      ensures ok <==> AllSupported(Effect(old(log), r))
      ensures ok ==> Valid() && log == old(log) + [r]
      ensures ok ==> maxSequence == if r.seqno > old(maxSequence) then r.seqno else old(maxSequence)
    {
      hide Effects, ApplyAll, Waiting, MaxSeq, Supported;
      EffectsGrow(base, log, r);
      BuffersGrow(buffers, log, r);
      MaxSeqGrows(log, r);
      ApplyOne(lsm, r);
      if r.txn == 0 {
        ok := ApplyRecord(r);
      } else if r.kind == BEGIN {
        ok := true;
      } else if r.kind == COMMIT {
        assert Buffered(buffers, r.txn) == Waiting(log, r.txn);
        ok := ApplyCommitted(r.txn);
      } else if r.kind == ABORT {
        buffers := buffers - {r.txn};
        ok := true;
      } else {
        buffers := buffers[r.txn := (if r.txn in buffers then buffers[r.txn] else []) + [r]];
        ok := true;
      }
      if ok {
        log := log + [r];
        if r.seqno > maxSequence {
          maxSequence := r.seqno;
        }
      }
    }

    // One file, from where the last one left off.
    method RecoverFile(file: Log) returns (ok: bool)
      requires Valid()
      modifies this
      ensures base == old(base)
      ensures ok <==> AllSupported(NewEffects(old(log), file))
      ensures ok ==> Valid() && log == old(log) + file
    {
      ok := true;
      assert old(log) + [] == old(log);
      for i := 0 to |file|
        invariant Valid() && log == old(log) + file[..i] && base == old(base)
        invariant AllSupported(NewEffects(old(log), file[..i]))
      {
        FileStep(old(log), file, i);
        ok := ApplyRecovered(file[i]);
        if !ok {
          StepUnsupported(old(log), file, i);
          return false;
        }
      }
      assert file[..|file|] == file;
      ok := true;
    }

    // All files in order; buffers live on from file to file, and what never ended is dropped.
    method RecoverFromWAL(files: seq<Log>) returns (ok: bool)
      requires Valid() && log == []
      modifies this
      ensures ok <==> AllSupported(Effects(Concat(files)))
      ensures ok ==> lsm == ApplyAll(old(lsm), Effects(Concat(files)))
      ensures ok ==> IsLargest(Concat(files), maxSequence) && maxSequence == MaxSeq(Concat(files))
      ensures ok ==> buffers == map[]
    {
      assert files[..0] == [];
      for i := 0 to |files|
        invariant Valid() && log == Concat(files[..i]) && base == old(base)
        invariant AllSupported(Effects(log))
      {
        assert files[..i + 1][..i] == files[..i];
        EffectsOfConcat(log, files[i]);
        ok := RecoverFile(files[i]);
        if !ok {
          SupportedPrefix(NewEffects(Concat(files[..i]), files[i]), Effects(Concat(files[..i])));
          LaterFilesKeepEffects(files, i + 1);
          return false;
        }
      }
      assert files[..|files|] == files;
      MaxSeqIsLargest(log);
      buffers := map[];
      ok := true;
    }
  }

  ghost predicate AllSupported(rs: Log) {
    forall x | x in rs :: Supported(x)
  }

  function Concat(files: seq<Log>): Log {
    if files == [] then [] else Concat(files[..|files| - 1]) + files[|files| - 1]
  }

  // What a further file applies.
  function NewEffects(log: Log, file: Log): Log {
    if file == [] then []
    else
      var init := file[..|file| - 1];
      NewEffects(log, init) + Effect(log + init, file[|file| - 1])
  }

  lemma {:induction false} EffectsOfConcat(log: Log, file: Log)
    ensures Effects(log + file) == Effects(log) + NewEffects(log, file)
  {
    hide Effects, Effect, ApplyAll;
    if file == [] {
      assert log + file == log;
    } else {
      var init := file[..|file| - 1];
      EffectsOfConcat(log, init);
      assert log + file == (log + init) + [file[|file| - 1]];
      EffectsGrow(EMPTY_LSM, log + init, file[|file| - 1]);
      Regroup(Effects(log), NewEffects(log, init), Effect(log + init, file[|file| - 1]));
    }
  }

  lemma Regroup(a: Log, b: Log, c: Log)
    ensures (a + b) + c == a + (b + c)
  {
  }

  lemma SupportedPrefix(a: Log, before: Log)
    ensures AllSupported(before + a) ==> AllSupported(a)
  {
    if AllSupported(before + a) {
      forall x | x in a
        ensures Supported(x)
      {
        assert x in before + a;
      }
    }
  }

  lemma FileStep(log: Log, file: Log, i: nat)
    requires i < |file|
    ensures log + file[..i + 1] == (log + file[..i]) + [file[i]]
    ensures AllSupported(NewEffects(log, file[..i])) && AllSupported(Effect(log + file[..i], file[i]))
        ==> AllSupported(NewEffects(log, file[..i + 1]))
  {
    assert file[..i + 1][..i] == file[..i];
  }

  // A record that cannot be applied shows in the effects of the whole file.
  lemma StepUnsupported(log: Log, file: Log, i: nat)
    requires i < |file| && !AllSupported(Effect(log + file[..i], file[i]))
    ensures !AllSupported(NewEffects(log, file))
  {
    assert file[..i + 1][..i] == file[..i];
    SupportedPrefix(Effect(log + file[..i], file[i]), NewEffects(log, file[..i]));
    NewEffectsOfPrefix(log, file, i + 1);
    var a, b := NewEffects(log, file[..i + 1]), NewEffects(log, file);
    assert a <= b && !AllSupported(a);
    var x :| x in a && !Supported(x);
    assert x in b;
  }

  lemma {:induction false} NewEffectsOfPrefix(log: Log, file: Log, n: nat)
    requires n <= |file|
    ensures NewEffects(log, file[..n]) <= NewEffects(log, file)
  {
    if n == |file| {
      assert file[..n] == file;
    } else {
      NewEffectsOfPrefix(log, file[..|file| - 1], n);
      assert file[..|file| - 1][..n] == file[..n];
    }
  }

  lemma {:induction false} LaterFilesKeepEffects(files: seq<Log>, n: nat)
    requires n <= |files|
    ensures AllSupported(Effects(Concat(files))) ==> AllSupported(Effects(Concat(files[..n])))
  {
    if n == |files| {
      assert files[..n] == files;
    } else {
      var init := files[..|files| - 1];
      LaterFilesKeepEffects(init, n);
      assert init[..n] == files[..n];
      EffectsOfConcat(Concat(init), files[|files| - 1]);
    }
  }

  lemma ApplyOne(l: Lsm, r: WalRecord)
    ensures ApplyAll(l, [r]) == Apply(l, r) && ApplyAll(l, []) == l
  {
    assert [r][..0] == [];
  }

  // ---- the log of the engine ----

  // A commit logs its writes under transaction 0, with no end marks.
  function RecordFor(e: Durability.LogEntry, family: Word32): WalRecord
    requires e.seqno < 0x1_0000_0000_0000_0000
  {
    WalRecord(if e.payload.Put? then PUT else DELETE, e.seqno, family, 0, e.key.bytes,
              if e.payload.Put? then e.payload.value.data else [])
  }

  function RecordsFor(es: seq<Durability.LogEntry>, family: Word32): (rs: Log)
    requires forall i | 0 <= i < |es| :: es[i].seqno < 0x1_0000_0000_0000_0000
    ensures |rs| == |es|
  {
    seq(|es|, i requires 0 <= i < |es| => RecordFor(es[i], family))
  }

  // Replaying what commits logged always succeeds, writes every entry, in order, and reports the
  // sequence the reopened engine starts behind.
  lemma {:induction false} EngineLogReplays(base: Lsm, es: seq<Durability.LogEntry>, family: Word32)
    requires forall i | 0 <= i < |es| :: es[i].seqno < 0x1_0000_0000_0000_0000
    ensures Effects(RecordsFor(es, family)) == RecordsFor(es, family) && AllSupported(RecordsFor(es, family))
    ensures ApplyAll(base, RecordsFor(es, family)) == Durability.Recover(base, es)
    ensures MaxSeq(RecordsFor(es, family)) == Durability.MaxSeq(es)
  {
    if es != [] {
      EngineLogReplays(base, es[..|es| - 1], family);
      OneMoreEntry(base, es, family);
      assert RecordsFor(es, family)[..|es| - 1] == RecordsFor(es[..|es| - 1], family);
    }
  }

  lemma OneMoreEntry(base: Lsm, es: seq<Durability.LogEntry>, family: Word32)
    requires es != [] && forall i | 0 <= i < |es| :: es[i].seqno < 0x1_0000_0000_0000_0000
    requires var init := RecordsFor(es[..|es| - 1], family);
             Effects(init) == init && AllSupported(init) && ApplyAll(base, init) == Durability.Recover(base, es[..|es| - 1])
    ensures Effects(RecordsFor(es, family)) == RecordsFor(es, family) && AllSupported(RecordsFor(es, family))
    ensures ApplyAll(base, RecordsFor(es, family)) == Durability.Recover(base, es)
  {
    hide ApplyAll, Durability.Recover;
    var init, r := RecordsFor(es[..|es| - 1], family), RecordFor(es[|es| - 1], family);
    assert RecordsFor(es, family) == init + [r];
    EffectsGrow(base, init, r);
    assert Effect(init, r) == [r] && Supported(r);
    OneMoreWrite(base, init, es, family);
  }

  lemma OneMoreWrite(base: Lsm, init: Log, es: seq<Durability.LogEntry>, family: Word32)
    requires es != [] && es[|es| - 1].seqno < 0x1_0000_0000_0000_0000
    requires ApplyAll(base, init) == Durability.Recover(base, es[..|es| - 1])
    ensures ApplyAll(base, init + [RecordFor(es[|es| - 1], family)]) == Durability.Recover(base, es)
  {
    var r := RecordFor(es[|es| - 1], family);
    assert (init + [r])[..|init|] == init;
  }
}
