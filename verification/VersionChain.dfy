/** Read views and the in-memory version chains, one chain per key, newest version last. */
module VersionChain {
  import opened Types

  datatype VersionState = Active | Committed | Aborted

  datatype Record = Record(
    payload: Payload,
    txn: TxnId,
    state: VersionState,
    commit: SeqNo,
    flushed: bool)

  type Chain = seq<Record>
  type Chains = map<Key, Chain>

  // ---- read views ----

  datatype Policy = ReadCommitted | RepeatableRead

  // `active` is the sorted, duplicate-free list of ids frozen with the view.
  datatype ReadView = ReadView(policy: Policy, me: TxnId, upLimit: TxnId, active: set<TxnId>)

  predicate IsVisible(v: ReadView, creator: TxnId, committed: bool, aborted: bool) {
    if creator == v.me then !aborted
    else if aborted then false
    else if v.policy == ReadCommitted then committed
    else if !committed then false
    else if creator >= v.upLimit then false
    else creator !in v.active
  }

  predicate Sees(v: ReadView, r: Record) {
    IsVisible(v, r.txn, r.state == Committed, r.state == Aborted)
  }

  // ---- what the operations mean, on one chain ----

  function NewActive(payload: Payload, t: TxnId): Record {
    Record(payload, t, Active, 0, false)
  }

  function CommitRecord(r: Record, t: TxnId, c: SeqNo): Record {
    if r.txn == t && r.state == Active then r.(state := Committed, commit := c) else r
  }

  function AbortRecord(r: Record, t: TxnId): Record {
    if r.txn == t && r.state == Active then r.(state := Aborted) else r
  }

  function FlushRecord(r: Record, c: SeqNo): Record {
    if r.state == Committed && r.commit == c then r.(flushed := true) else r
  }

  function CommitChain(chain: Chain, t: TxnId, c: SeqNo): Chain {
    seq(|chain|, i requires 0 <= i < |chain| => CommitRecord(chain[i], t, c))
  }

  function AbortChain(chain: Chain, t: TxnId): Chain {
    seq(|chain|, i requires 0 <= i < |chain| => AbortRecord(chain[i], t))
  }

  function FlushChain(chain: Chain, c: SeqNo): Chain {
    seq(|chain|, i requires 0 <= i < |chain| => FlushRecord(chain[i], c))
  }

  // The newest version a view sees.
  function Visible(chain: Chain, v: ReadView): Option<Record> {
    if chain == [] then None
    else
      var r := chain[|chain| - 1];
      if Sees(v, r) then Some(r) else Visible(chain[..|chain| - 1], v)
  }

  // The newest version committed at or before s.
  function VisibleAt(chain: Chain, s: SeqNo): Option<Record> {
    if chain == [] then None
    else
      var r := chain[|chain| - 1];
      if r.state == Committed && r.commit <= s then Some(r) else VisibleAt(chain[..|chain| - 1], s)
  }

  function LatestActive(chain: Chain, t: TxnId): Option<Record> {
    if chain == [] then None
    else
      var r := chain[|chain| - 1];
      if r.txn == t && r.state == Active then Some(r) else LatestActive(chain[..|chain| - 1], t)
  }

  predicate NeedsFlush(r: Record) {
    r.state == Committed && !r.flushed
  }

  // The committed versions not yet in the LSM tree, newest first.
  function Unflushed(chain: Chain): seq<Record> {
    if chain == [] then []
    else
      var r := chain[|chain| - 1];
      (if NeedsFlush(r) then [r] else []) + Unflushed(chain[..|chain| - 1])
  }

  function Live(chain: Chain): Chain {
    if chain == [] then []
    else
      var r := chain[|chain| - 1];
      Live(chain[..|chain| - 1]) + if r.state == Aborted then [] else [r]
  }

  // The survivors of a scan from the newest version: every active one, every unflushed
  // committed one, and the newest committed one if none was met before.
  function Kept(chain: Chain, latestMet: bool): Chain {
    if chain == [] then []
    else
      var r := chain[|chain| - 1];
      var rest := chain[..|chain| - 1];
      match r.state
      case Active => Kept(rest, latestMet) + [r]
      case Aborted => Kept(rest, latestMet)
      case Committed => if !latestMet || !r.flushed then Kept(rest, true) + [r] else Kept(rest, latestMet)
  }

  function Collected(chain: Chain): Chain {
    Kept(Live(chain), false)
  }

  // ---- on all chains ----

  function ChainOf(cs: Chains, k: Key): Chain {
    if k in cs then cs[k] else []
  }

  function Append(cs: Chains, k: Key, r: Record): Chains {
    cs[k := ChainOf(cs, k) + [r]]
  }

  function CommitAll(cs: Chains, t: TxnId, c: SeqNo): Chains {
    map k | k in cs :: CommitChain(cs[k], t, c)
  }

  function AbortAll(cs: Chains, t: TxnId): Chains {
    map k | k in cs :: AbortChain(cs[k], t)
  }

  function FlushMark(cs: Chains, k: Key, c: SeqNo): Chains {
    if k in cs then cs[k := FlushChain(cs[k], c)] else cs
  }

  function FlushMarks(cs: Chains, marks: seq<(Key, SeqNo)>): Chains {
    if marks == [] then cs
    else
      var m := marks[|marks| - 1];
      FlushMark(FlushMarks(cs, marks[..|marks| - 1]), m.0, m.1)
  }

  function CollectAll(cs: Chains): Chains {
    map k | k in cs :: Collected(cs[k])
  }

  // What picking the given keys one after another yields.
  function PickFrom(cs: Chains, ks: seq<Key>): seq<(Key, Record)> {
    if ks == [] then []
    else
      var k := ks[|ks| - 1];
      PickFrom(cs, ks[..|ks| - 1]) + Tag(k, Unflushed(ChainOf(cs, k)))
  }

  predicate NoRepeats(ks: seq<Key>) {
    forall i, j | 0 <= i < j < |ks| :: ks[i] != ks[j]
  }

  // Picking stops with the first key that brings the total to `max`, or after all keys.
  predicate PicksEnough(cs: Chains, ks: seq<Key>, max: nat) {
    && NoRepeats(ks)
    && (forall k | k in ks :: k in cs)
    && (|PickFrom(cs, ks)| >= max || forall k | k in cs :: k in ks)
    && (|ks| > 1 ==> |PickFrom(cs, ks[..|ks| - 1])| < max)
  }

  lemma PickOneMore(cs: Chains, ks: seq<Key>, k: Key)
    ensures PickFrom(cs, ks + [k]) == PickFrom(cs, ks) + Tag(k, Unflushed(ChainOf(cs, k)))
    ensures NoRepeats(ks) && k !in ks ==> NoRepeats(ks + [k])
  {
    assert (ks + [k])[..|ks|] == ks;
  }

  lemma PickNoFewer(cs: Chains, ks: seq<Key>)
    requires ks != []
    ensures |PickFrom(cs, ks[..|ks| - 1])| <= |PickFrom(cs, ks)|
  {
  }

  function Tag(k: Key, rs: seq<Record>): (out: seq<(Key, Record)>)
    ensures |out| == |rs| && forall i | 0 <= i < |rs| :: out[i] == (k, rs[i])
  {
    seq(|rs|, i requires 0 <= i < |rs| => (k, rs[i]))
  }

  function Reversed<T>(s: seq<T>): (r: seq<T>)
    ensures |r| == |s|
  {
    if s == [] then [] else Reversed(s[1..]) + [s[0]]
  }

  class VersionChainManager {
    // Iteration over the keys follows a hash table's order: any order.
    var chains: Chains

    constructor ()
      ensures chains == map[]
    {
      chains := map[];
    }

    method PutActive(key: Key, value: Value, t: TxnId)
      modifies this
      ensures chains == Append(old(chains), key, NewActive(Put(value), t))
    {
      var chain := if key in chains then chains[key] else [];
      chains := chains[key := chain + [NewActive(Put(value), t)]];
    }

    method DeleteActive(key: Key, t: TxnId)
      modifies this
      ensures chains == Append(old(chains), key, NewActive(Delete, t))
    {
      var chain := if key in chains then chains[key] else [];
      chains := chains[key := chain + [NewActive(Delete, t)]];
    }

    method MarkTransactionCommitted(t: TxnId, c: SeqNo)
      modifies this
      ensures chains == CommitAll(old(chains), t, c)
    {
      var todo := chains.Keys;
      while todo != {}
        invariant todo <= chains.Keys == old(chains).Keys
        invariant forall k | k in chains ::
          chains[k] == if k in todo then old(chains)[k] else CommitChain(old(chains)[k], t, c)
      {
        var k :| k in todo;
        var chain := chains[k];
        for i := 0 to |chain|
          invariant |chain| == |chains[k]|
          invariant forall j | 0 <= j < |chain| ::
            chain[j] == if j < i then CommitRecord(chains[k][j], t, c) else chains[k][j]
        {
          if chain[i].txn == t && chain[i].state == Active {
            chain := chain[i := chain[i].(state := Committed, commit := c)];
          }
        }
        assert chain == CommitChain(chains[k], t, c);
        chains, todo := chains[k := chain], todo - {k};
      }
    }

    method MarkTransactionAborted(t: TxnId)
      modifies this
      ensures chains == AbortAll(old(chains), t)
    {
      var todo := chains.Keys;
      while todo != {}
        invariant todo <= chains.Keys == old(chains).Keys
        invariant forall k | k in chains ::
          chains[k] == if k in todo then old(chains)[k] else AbortChain(old(chains)[k], t)
      {
        var k :| k in todo;
        var chain := chains[k];
        for i := 0 to |chain|
          invariant |chain| == |chains[k]|
          invariant forall j | 0 <= j < |chain| ::
            chain[j] == if j < i then AbortRecord(chains[k][j], t) else chains[k][j]
        {
          if chain[i].txn == t && chain[i].state == Active {
            chain := chain[i := chain[i].(state := Aborted)];
          }
        }
        assert chain == AbortChain(chains[k], t);
        chains, todo := chains[k := chain], todo - {k};
      }
    }

    method GetVisible(key: Key, view: ReadView) returns (r: Option<Payload>)
      ensures r == match Visible(ChainOf(chains, key), view) case Some(rec) => Some(rec.payload) case None => None
    {
      if key !in chains {
        return None;
      }
      var chain := chains[key];
      var i := |chain|;
      assert chain[..i] == chain;
      while i > 0
        invariant 0 <= i <= |chain|
        invariant Visible(chain, view) == Visible(chain[..i], view)
      {
        assert chain[..i][..i - 1] == chain[..i - 1];
        if Sees(view, chain[i - 1]) {
          return Some(chain[i - 1].payload);
        }
        i := i - 1;
      }
      return None;
    }

    method GetVisibleBySnapshot(key: Key, s: SeqNo) returns (r: Option<Payload>)
      ensures r == match VisibleAt(ChainOf(chains, key), s) case Some(rec) => Some(rec.payload) case None => None
    {
      if key !in chains {
        return None;
      }
      var chain := chains[key];
      var i := |chain|;
      assert chain[..i] == chain;
      while i > 0
        invariant 0 <= i <= |chain|
        invariant VisibleAt(chain, s) == VisibleAt(chain[..i], s)
      {
        assert chain[..i][..i - 1] == chain[..i - 1];
        var rec := chain[i - 1];
        if rec.state == Committed && rec.commit <= s {
          return Some(rec.payload);
        }
        i := i - 1;
      }
      return None;
    }

    method GetLatestActiveForTxn(key: Key, t: TxnId) returns (r: Option<Record>)
      ensures r == LatestActive(ChainOf(chains, key), t)
    {
      if key !in chains {
        return None;
      }
      var chain := chains[key];
      var i := |chain|;
      assert chain[..i] == chain;
      while i > 0
        invariant 0 <= i <= |chain|
        invariant LatestActive(chain, t) == LatestActive(chain[..i], t)
      {
        assert chain[..i][..i - 1] == chain[..i - 1];
        if chain[i - 1].txn == t && chain[i - 1].state == Active {
          return Some(chain[i - 1]);
        }
        i := i - 1;
      }
      return None;
    }

    // Whole keys are picked until at least `max` versions are out; `ks` is the order met.
    method PickCommittedNotFlushed(max: nat) returns (out: seq<(Key, Record)>, ghost ks: seq<Key>)
      ensures out == PickFrom(chains, ks) && PicksEnough(chains, ks, max)
    {
      out, ks := [], [];
      var todo := chains.Keys;
      while todo != {}
        invariant todo <= chains.Keys && out == PickFrom(chains, ks)
        invariant forall k :: k in ks <==> k in chains && k !in todo
        invariant NoRepeats(ks)
        invariant ks != [] ==> |out| < max && |PickFrom(chains, ks[..|ks| - 1])| < max
      {
        var k :| k in todo;
        var rs := PickChain(chains[k]);
        PickOneMore(chains, ks, k);
        out, ks, todo := out + Tag(k, rs), ks + [k], todo - {k};
        if |out| >= max {
          return;
        }
        PickNoFewer(chains, ks);
      }
    }

    method MarkFlushed(marks: seq<(Key, SeqNo)>)
      modifies this
      ensures chains == FlushMarks(old(chains), marks)
    {
      for n := 0 to |marks|
        invariant chains == FlushMarks(old(chains), marks[..n])
      {
        var k, c := marks[n].0, marks[n].1;
        assert marks[..n + 1][..n] == marks[..n];
        if k in chains {
          var chain := chains[k];
          for i := 0 to |chain|
            invariant |chain| == |chains[k]|
            invariant forall j | 0 <= j < |chain| ::
              chain[j] == if j < i then FlushRecord(chains[k][j], c) else chains[k][j]
          {
            if chain[i].state == Committed && chain[i].commit == c {
              chain := chain[i := chain[i].(flushed := true)];
            }
          }
          assert chain == FlushChain(chains[k], c);
          chains := chains[k := chain];
        }
      }
      assert marks[..|marks|] == marks;
    }

    method GarbageCollect()
      modifies this
      ensures chains == CollectAll(old(chains))
    {
      var todo := chains.Keys;
      while todo != {}
        invariant todo <= chains.Keys == old(chains).Keys
        invariant forall k | k in chains ::
          chains[k] == if k in todo then old(chains)[k] else Collected(old(chains)[k])
      {
        var k :| k in todo;
        var kept := CollectChain(chains[k]);
        chains, todo := chains[k := kept], todo - {k};
      }
    }

    // The view's newest visible version of every key, tombstones included.
    method CollectVisible(view: ReadView) returns (out: map<Key, Record>)
      ensures forall k :: k in out <==> Visible(ChainOf(chains, k), view).Some?
      ensures forall k | k in out :: Visible(ChainOf(chains, k), view) == Some(out[k])
    {
      out := map[];
      var todo := chains.Keys;
      while todo != {}
        invariant todo <= chains.Keys
        invariant forall k :: k in out <==> k in chains && k !in todo && Visible(chains[k], view).Some?
        invariant forall k | k in out :: Visible(chains[k], view) == Some(out[k])
      {
        var k :| k in todo;
        var chain := chains[k];
        todo := todo - {k};
        var i := |chain|;
        assert chain[..i] == chain;
        while i > 0 && !Sees(view, chain[i - 1])
          invariant 0 <= i <= |chain|
          invariant Visible(chain, view) == Visible(chain[..i], view)
        {
          assert chain[..i][..i - 1] == chain[..i - 1];
          i := i - 1;
        }
        if i > 0 {
          out := out[k := chain[i - 1]];
        }
      }
    }
  }

  method PickChain(chain: Chain) returns (rs: seq<Record>)
    ensures rs == Unflushed(chain)
  {
    rs := [];
    var i := |chain|;
    assert chain[..i] == chain;
    while i > 0
      invariant 0 <= i <= |chain|
      invariant Unflushed(chain) == rs + Unflushed(chain[..i])
    {
      assert chain[..i][..i - 1] == chain[..i - 1];
      if NeedsFlush(chain[i - 1]) {
        rs := rs + [chain[i - 1]];
      }
      i := i - 1;
    }
  }

  method CollectChain(old_chain: Chain) returns (out: Chain)
    ensures out == Collected(old_chain)
  {
    var chain := DropAborted(old_chain);
    var latestMet, kept := false, [];
    var i := |chain|;
    assert chain[..i] == chain;
    while i > 0
      invariant 0 <= i <= |chain|
      invariant Kept(chain, false) == Kept(chain[..i], latestMet) + Reversed(kept)
    {
      i := i - 1;
      var r := chain[i];
      assert chain[..i + 1][..i] == chain[..i];
      if r.state == Active {
        ReversedAppend(kept, r);
        kept := kept + [r];
      } else if r.state == Committed {
        if !latestMet || !r.flushed {
          ReversedAppend(kept, r);
          kept := kept + [r];
          latestMet := true;
        }
      }
    }
    out := Reversed(kept);
  }

  method DropAborted(chain: Chain) returns (out: Chain)
    ensures out == Live(chain)
  {
    out := [];
    for i := 0 to |chain|
      invariant out == Live(chain[..i])
    {
      assert chain[..i + 1][..i] == chain[..i];
      if chain[i].state != Aborted {
        out := out + [chain[i]];
      }
    }
    assert chain[..|chain|] == chain;
  }

  lemma {:induction false} ReversedAppend<T>(s: seq<T>, x: T)
    ensures Reversed(s + [x]) == [x] + Reversed(s)
  {
    if s != [] {
      assert (s + [x])[1..] == s[1..] + [x];
      ReversedAppend(s[1..], x);
    }
  }
}
