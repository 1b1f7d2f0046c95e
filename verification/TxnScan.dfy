/** A transaction's scan: the versions its view sees in the chains laid over a scan of the LSM tree. */
module TxnScan {
  import opened Types
  import opened SkipLists
  import opened Coding
  import opened MergeScan
  import opened VersionChain
  import Lsm
  import Engine

  // The view's newest version per key.
  type Seen = map<Key, Record>

  predicate Ascending(user: UserOrder, keys: seq<Key>) {
    forall i, j | 0 <= i < j < |keys| :: user(keys[i].bytes, keys[j].bytes) < 0
  }

  predicate AscendingOut(user: UserOrder, out: Output) {
    forall i, j | 0 <= i < j < |out| :: user(out[i].0, out[j].0) < 0
  }

  // ---- what is still to come ----

  function Entry(k: Bytes, p: Payload): Output {
    if p.Put? then [(k, p.value.data)] else []
  }

  // From the idx-th key the view sees and the rest of the LSM scan.
  function Remaining(user: UserOrder, keys: seq<Key>, seen: Seen, idx: nat, ahead: Output): Output
    requires idx <= |keys| && forall k | k in keys :: k in seen
    decreases |keys| - idx + |ahead|
  {
    if idx == |keys| && ahead == [] then []
    else if idx < |keys| && (ahead == [] || user(keys[idx].bytes, ahead[0].0) <= 0) then
      var rest := if ahead != [] && user(keys[idx].bytes, ahead[0].0) == 0 then ahead[1..] else ahead;
      Entry(keys[idx].bytes, seen[keys[idx]].payload) + Remaining(user, keys, seen, idx + 1, rest)
    else
      (if Key(ahead[0].0) in seen then Entry(ahead[0].0, seen[Key(ahead[0].0)].payload) else [ahead[0]])
        + Remaining(user, keys, seen, idx, ahead[1..])
  }

  predicate Before(user: UserOrder, b: Bytes, keys: seq<Key>, idx: nat, ahead: Output) {
    && (forall i | idx <= i < |keys| :: user(b, keys[i].bytes) < 0)
    && (forall e | e in ahead :: user(b, e.0) < 0)
  }

  lemma {:induction false} RemainingIsBehind(user: UserOrder, keys: seq<Key>, seen: Seen, idx: nat, ahead: Output, b: Bytes)
    requires idx <= |keys| && (forall k | k in keys :: k in seen) && Before(user, b, keys, idx, ahead)
    ensures forall e | e in Remaining(user, keys, seen, idx, ahead) :: user(b, e.0) < 0
    decreases |keys| - idx + |ahead|
  {
    if idx == |keys| && ahead == [] {
    } else if idx < |keys| && (ahead == [] || user(keys[idx].bytes, ahead[0].0) <= 0) {
      var rest := if ahead != [] && user(keys[idx].bytes, ahead[0].0) == 0 then ahead[1..] else ahead;
      RemainingIsBehind(user, keys, seen, idx + 1, rest, b);
    } else {
      RemainingIsBehind(user, keys, seen, idx, ahead[1..], b);
    }
  }

  lemma {:induction false} RemainingAscends(user: UserOrder, keys: seq<Key>, seen: Seen, idx: nat, ahead: Output)
    requires idx <= |keys| && forall k | k in keys :: k in seen
    requires TotalOrder(user) && Ascending(user, keys) && AscendingOut(user, ahead)
    ensures AscendingOut(user, Remaining(user, keys, seen, idx, ahead))
    decreases |keys| - idx + |ahead|
  {
    hide Ascending, AscendingOut, Before, TotalOrder;
    if idx == |keys| && ahead == [] {
      NothingAscends(user);
    } else if idx < |keys| && (ahead == [] || user(keys[idx].bytes, ahead[0].0) <= 0) {
      var rest := if ahead != [] && user(keys[idx].bytes, ahead[0].0) == 0 then ahead[1..] else ahead;
      var head, tail := Entry(keys[idx].bytes, seen[keys[idx]].payload), Remaining(user, keys, seen, idx + 1, rest);
      KeyIsBefore(user, keys, idx, ahead, rest);
      RemainingIsBehind(user, keys, seen, idx + 1, rest, keys[idx].bytes);
      RemainingAscends(user, keys, seen, idx + 1, rest);
      PrependAscends(user, head, tail);
      assert Remaining(user, keys, seen, idx, ahead) == head + tail;
    } else {
      var head := if Key(ahead[0].0) in seen then Entry(ahead[0].0, seen[Key(ahead[0].0)].payload) else [ahead[0]];
      var tail := Remaining(user, keys, seen, idx, ahead[1..]);
      HeadIsBefore(user, keys, idx, ahead);
      RemainingIsBehind(user, keys, seen, idx, ahead[1..], ahead[0].0);
      RemainingAscends(user, keys, seen, idx, ahead[1..]);
      PrependAscends(user, head, tail);
      assert Remaining(user, keys, seen, idx, ahead) == head + tail;
    }
  }

  lemma NothingAscends(user: UserOrder)
    ensures AscendingOut(user, [])
  {
  }

  lemma KeyIsBefore(user: UserOrder, keys: seq<Key>, idx: nat, ahead: Output, rest: Output)
    requires TotalOrder(user) && Ascending(user, keys) && AscendingOut(user, ahead) && idx < |keys|
    requires ahead == [] || user(keys[idx].bytes, ahead[0].0) <= 0
    requires rest == if ahead != [] && user(keys[idx].bytes, ahead[0].0) == 0 then ahead[1..] else ahead
    ensures Before(user, keys[idx].bytes, keys, idx + 1, rest) && AscendingOut(user, rest)
  {
    hide TotalOrder;
    RestIsBehind(user, keys, idx, ahead, rest);
  }

  lemma HeadIsBefore(user: UserOrder, keys: seq<Key>, idx: nat, ahead: Output)
    requires TotalOrder(user) && Ascending(user, keys) && AscendingOut(user, ahead) && ahead != []
    requires idx <= |keys| && (idx < |keys| ==> user(keys[idx].bytes, ahead[0].0) > 0)
    ensures Before(user, ahead[0].0, keys, idx, ahead[1..]) && AscendingOut(user, ahead[1..])
  {
    hide TotalOrder, Ascending;
    HeadIsFirst(user, keys, idx, ahead);
  }

  lemma PrependAscends(user: UserOrder, head: Output, tail: Output)
    requires |head| <= 1 && AscendingOut(user, tail)
    requires head != [] ==> forall e | e in tail :: user(head[0].0, e.0) < 0
    ensures AscendingOut(user, head + tail)
  {
    if head == [] {
      assert head + tail == tail;
    }
  }

  // What the overlay answers under k.
  ghost predicate Answers(keys: seq<Key>, seen: Seen, idx: nat, ahead: Output, k: Bytes, v: Bytes)
    requires idx <= |keys|
  {
    if Key(k) in seen then seen[Key(k)].payload == Put(Value(v)) && Key(k) in keys[idx..]
    else (k, v) in ahead
  }

  // No key already passed in the chains comes again in the LSM scan.
  predicate Aligned(keys: seq<Key>, idx: nat, ahead: Output)
    requires idx <= |keys|
  {
    forall e | e in ahead :: Key(e.0) !in keys[..idx]
  }

  lemma ChainStep(user: UserOrder, keys: seq<Key>, idx: nat, ahead: Output, rest: Output)
    requires TotalOrder(user) && Ascending(user, keys) && AscendingOut(user, ahead)
    requires idx < |keys| && Aligned(keys, idx, ahead) && (ahead == [] || user(keys[idx].bytes, ahead[0].0) <= 0)
    requires rest == if ahead != [] && user(keys[idx].bytes, ahead[0].0) == 0 then ahead[1..] else ahead
    ensures AscendingOut(user, rest) && Aligned(keys, idx + 1, rest)
    ensures keys[idx] !in keys[idx + 1..] && keys[idx..] == [keys[idx]] + keys[idx + 1..]
    ensures forall e: (Bytes, Bytes) | Key(e.0) != keys[idx] :: e in ahead <==> e in rest
  {
    hide TotalOrder, Ascending, AscendingOut, Before;
    KeyIsBefore(user, keys, idx, ahead, rest);
    RestIsBehind(user, keys, idx, ahead, rest);
    KeyComesOnce(user, keys, idx);
    EqualMeansSame(user, keys[idx].bytes, keys[idx].bytes);
    if ahead != [] {
      EqualMeansSame(user, keys[idx].bytes, ahead[0].0);
    }
    forall e | e in rest
      ensures Key(e.0) !in keys[..idx + 1]
    {
      assert keys[..idx + 1] == keys[..idx] + [keys[idx]];
    }
    if rest != ahead {
      assert ahead == [ahead[0]] + rest;
    }
  }

  lemma EqualMeansSame(user: UserOrder, a: Bytes, b: Bytes)
    requires TotalOrder(user)
    ensures user(a, b) == 0 <==> a == b
  {
  }

  lemma KeyComesOnce(user: UserOrder, keys: seq<Key>, idx: nat)
    requires TotalOrder(user) && Ascending(user, keys) && idx < |keys|
    ensures keys[idx] !in keys[idx + 1..] && keys[idx..] == [keys[idx]] + keys[idx + 1..]
  {
    assert user(keys[idx].bytes, keys[idx].bytes) == 0;
    forall i | idx < i < |keys|
      ensures keys[i] != keys[idx]
    {
      assert user(keys[idx].bytes, keys[i].bytes) < 0;
    }
  }

  lemma RestIsBehind(user: UserOrder, keys: seq<Key>, idx: nat, ahead: Output, rest: Output)
    requires TotalOrder(user) && AscendingOut(user, ahead) && idx < |keys|
    requires ahead == [] || user(keys[idx].bytes, ahead[0].0) <= 0
    requires rest == if ahead != [] && user(keys[idx].bytes, ahead[0].0) == 0 then ahead[1..] else ahead
    ensures forall e | e in rest :: user(keys[idx].bytes, e.0) < 0
    ensures forall e | e in rest :: e in ahead
  {
    forall e | e in rest
      ensures user(keys[idx].bytes, e.0) < 0
    {
      var i :| 0 <= i < |rest| && rest[i] == e;
      var j := if rest == ahead then i else i + 1;
      assert ahead[j] == e;
      if j > 0 {
        StrictStep(user, keys[idx].bytes, ahead[0].0, ahead[j].0);
      }
    }
  }

  lemma HeadIsFirst(user: UserOrder, keys: seq<Key>, idx: nat, ahead: Output)
    requires TotalOrder(user) && Ascending(user, keys) && ahead != []
    requires idx <= |keys| && (idx < |keys| ==> user(keys[idx].bytes, ahead[0].0) > 0)
    ensures forall i | idx <= i < |keys| :: user(ahead[0].0, keys[i].bytes) < 0
  {
    forall i | idx <= i < |keys|
      ensures user(ahead[0].0, keys[i].bytes) < 0
    {
      assert user(ahead[0].0, keys[idx].bytes) < 0;
      if idx < i {
        StrictStep(user, ahead[0].0, keys[idx].bytes, keys[i].bytes);
      }
    }
  }

  lemma LsmStep(user: UserOrder, keys: seq<Key>, idx: nat, ahead: Output)
    requires TotalOrder(user) && Ascending(user, keys) && AscendingOut(user, ahead) && ahead != []
    requires idx <= |keys| && Aligned(keys, idx, ahead) && (idx < |keys| ==> user(keys[idx].bytes, ahead[0].0) > 0)
    ensures Key(ahead[0].0) !in keys
    ensures AscendingOut(user, ahead[1..]) && Aligned(keys, idx, ahead[1..])
    ensures ahead == [ahead[0]] + ahead[1..] && forall e | e in ahead[1..] :: e.0 != ahead[0].0
    ensures forall i | idx <= i < |keys| :: user(ahead[0].0, keys[i].bytes) < 0
  {
    var k := ahead[0].0;
    HeadIsFirst(user, keys, idx, ahead);
    assert user(k, k) == 0 && keys == keys[..idx] + keys[idx..];
    assert ahead[0] in ahead;
    forall e | e in ahead[1..]
      ensures e.0 != k
    {
      var i :| 0 <= i < |ahead| - 1 && ahead[1..][i] == e;
      assert user(ahead[0].0, ahead[i + 1].0) < 0;
    }
  }

  lemma AnswersAfterChain(user: UserOrder, keys: seq<Key>, seen: Seen, idx: nat, ahead: Output, rest: Output, k: Bytes, v: Bytes)
    requires TotalOrder(user) && Ascending(user, keys) && AscendingOut(user, ahead) && forall x :: x in keys <==> x in seen
    requires idx < |keys| && Aligned(keys, idx, ahead) && (ahead == [] || user(keys[idx].bytes, ahead[0].0) <= 0)
    requires rest == if ahead != [] && user(keys[idx].bytes, ahead[0].0) == 0 then ahead[1..] else ahead
    ensures Answers(keys, seen, idx, ahead, k, v)
       <==> (k, v) in Entry(keys[idx].bytes, seen[keys[idx]].payload) || Answers(keys, seen, idx + 1, rest, k, v)
  {
    hide TotalOrder, Ascending, AscendingOut, Aligned;
    ChainStep(user, keys, idx, ahead, rest);
    assert keys[idx] in keys;
    if Key(k) == keys[idx] {
      assert (k, v) in Entry(keys[idx].bytes, seen[keys[idx]].payload) <==> seen[keys[idx]].payload == Put(Value(v));
    } else {
      assert Key(k) in keys[idx..] <==> Key(k) in keys[idx + 1..];
    }
  }

  lemma AnswersAfterLsm(user: UserOrder, keys: seq<Key>, seen: Seen, idx: nat, ahead: Output, k: Bytes, v: Bytes)
    requires TotalOrder(user) && Ascending(user, keys) && AscendingOut(user, ahead) && forall x :: x in keys <==> x in seen
    requires ahead != [] && idx <= |keys| && Aligned(keys, idx, ahead)
    requires idx < |keys| ==> user(keys[idx].bytes, ahead[0].0) > 0
    ensures Key(ahead[0].0) !in seen
    ensures Answers(keys, seen, idx, ahead, k, v) <==> (k, v) == ahead[0] || Answers(keys, seen, idx, ahead[1..], k, v)
  {
    LsmStep(user, keys, idx, ahead);
  }

  // The scan to come: exactly what the overlay answers.
  lemma {:induction false} RemainingIsExact(user: UserOrder, keys: seq<Key>, seen: Seen, idx: nat, ahead: Output, k: Bytes, v: Bytes)
    requires idx <= |keys| && forall x :: x in keys <==> x in seen
    requires TotalOrder(user) && Ascending(user, keys) && AscendingOut(user, ahead) && Aligned(keys, idx, ahead)
    ensures (k, v) in Remaining(user, keys, seen, idx, ahead) <==> Answers(keys, seen, idx, ahead, k, v)
    decreases |keys| - idx + |ahead|
  {
    if idx == |keys| && ahead == [] {
    } else if idx < |keys| && (ahead == [] || user(keys[idx].bytes, ahead[0].0) <= 0) {
      var rest := if ahead != [] && user(keys[idx].bytes, ahead[0].0) == 0 then ahead[1..] else ahead;
      ChainStep(user, keys, idx, ahead, rest);
      RemainingIsExact(user, keys, seen, idx + 1, rest, k, v);
      AnswersAfterChain(user, keys, seen, idx, ahead, rest, k, v);
    } else {
      LsmStep(user, keys, idx, ahead);
      RemainingIsExact(user, keys, seen, idx, ahead[1..], k, v);
      AnswersAfterLsm(user, keys, seen, idx, ahead, k, v);
    }
  }

  // ---- the iterator ----

  method SortKeys(user: UserOrder, ks: set<Key>) returns (out: seq<Key>)
    requires TotalOrder(user)
    ensures Ascending(user, out) && forall k :: k in out <==> k in ks
  {
    out := [];
    var todo := ks;
    while todo != {}
      invariant todo <= ks && Ascending(user, out)
      invariant forall k :: k in out <==> k in ks && k !in todo
    {
      var k :| k in todo;
      var i := 0;
      while i < |out| && user(out[i].bytes, k.bytes) < 0
        invariant 0 <= i <= |out| && (i > 0 ==> user(out[i - 1].bytes, k.bytes) < 0)
      {
        i := i + 1;
      }
      InsertKeepsAscending(user, out, i, k);
      out, todo := out[..i] + [k] + out[i..], todo - {k};
    }
  }

  lemma InsertKeepsAscending(user: UserOrder, keys: seq<Key>, i: nat, k: Key)
    requires TotalOrder(user) && Ascending(user, keys) && i <= |keys| && k !in keys
    requires i > 0 ==> user(keys[i - 1].bytes, k.bytes) < 0
    requires i < |keys| ==> user(keys[i].bytes, k.bytes) >= 0
    ensures Ascending(user, keys[..i] + [k] + keys[i..])
    ensures forall x :: x in keys[..i] + [k] + keys[i..] <==> x in keys || x == k
  {
    assert keys == keys[..i] + keys[i..];
    PlaceOfKey(user, keys, i, k);
    InsertedAscends(user, keys, i, k);
  }

  lemma InsertedAscends(user: UserOrder, keys: seq<Key>, i: nat, k: Key)
    requires Ascending(user, keys) && i <= |keys|
    requires forall j | 0 <= j < i :: user(keys[j].bytes, k.bytes) < 0
    requires forall j | i <= j < |keys| :: user(k.bytes, keys[j].bytes) < 0
    ensures Ascending(user, keys[..i] + [k] + keys[i..])
  {
  }

  lemma PlaceOfKey(user: UserOrder, keys: seq<Key>, i: nat, k: Key)
    requires TotalOrder(user) && Ascending(user, keys) && i <= |keys| && k !in keys
    requires i > 0 ==> user(keys[i - 1].bytes, k.bytes) < 0
    requires i < |keys| ==> user(keys[i].bytes, k.bytes) >= 0
    ensures forall j | 0 <= j < i :: user(keys[j].bytes, k.bytes) < 0
    ensures forall j | i <= j < |keys| :: user(k.bytes, keys[j].bytes) < 0
  {
    forall j | 0 <= j < i
      ensures user(keys[j].bytes, k.bytes) < 0
    {
      if j < i - 1 {
        StrictStep(user, keys[j].bytes, keys[i - 1].bytes, k.bytes);
      }
    }
    forall j | i <= j < |keys|
      ensures user(k.bytes, keys[j].bytes) < 0
    {
      assert keys[i] in keys && user(k.bytes, keys[i].bytes) < 0;
      if i < j {
        StrictStep(user, k.bytes, keys[i].bytes, keys[j].bytes);
      }
    }
  }

  // Where an LSM iterator stands after seeking a key.
  function FromKey(user: UserOrder, out: Output, target: Bytes): Output {
    if out != [] && user(out[0].0, target) < 0 then FromKey(user, out[1..], target) else out
  }

  class TxnIterator {
    const user: UserOrder
    const seen: Seen
    const keys: seq<Key>
    // The scan the LSM iterator delivers, and what it has still to deliver.
    const lsm: Output
    var ahead: Output
    var idx: nat
    var valid: bool
    var curKey: Bytes
    var curValue: Bytes

    constructor (vcm: VersionChainManager, view: ReadView, user: UserOrder, lsm: Output)
      requires TotalOrder(user)
      ensures Valid() && !valid && this.user == user && this.lsm == lsm && Ascending(user, keys)
      ensures SeenIn(vcm.chains, view, seen)
    {
      var visible := vcm.CollectVisible(view);
      var sorted := SortKeys(user, visible.Keys);
      this.user, this.lsm, seen, keys := user, lsm, visible, sorted;
      ahead, idx, valid, curKey, curValue := lsm, 0, false, [], [];
    }

    ghost predicate Valid()
      reads this
    {
      idx <= |keys| && forall k :: k in keys <==> k in seen
    }

    ghost function ToCome(): Output
      requires Valid()
      reads this
    {
      Remaining(user, keys, seen, idx, ahead)
    }

    // Delivers the next entry, if there is one.
    method Advance()
      requires Valid()
      modifies this
      ensures Valid()
      ensures old(ToCome()) == if valid then [(curKey, curValue)] + ToCome() else []
      ensures |keys| - idx + |ahead| <= old(|keys| - idx + |ahead|)
      ensures valid ==> |keys| - idx + |ahead| < old(|keys| - idx + |ahead|)
    {
      while true
        invariant Valid() && ToCome() == old(ToCome())
        invariant |keys| - idx + |ahead| <= old(|keys| - idx + |ahead|)
        decreases |keys| - idx + |ahead|
      {
        var hasMv, hasLsm := idx < |keys|, ahead != [];
        if !hasMv && !hasLsm {
          valid := false;
          return;
        }
        if hasMv && (!hasLsm || user(keys[idx].bytes, ahead[0].0) <= 0) {
          var mvKey := keys[idx];
          assert mvKey in keys;
          var payload := seen[mvKey].payload;
          if hasLsm && user(mvKey.bytes, ahead[0].0) == 0 {
            ahead := ahead[1..];
          }
          idx := idx + 1;
          if payload.Put? {
            curKey, curValue, valid := mvKey.bytes, payload.value.data, true;
            return;
          }
        } else {
          var (lk, lv) := ahead[0];
          ahead := ahead[1..];
          if Key(lk) !in seen {
            curKey, curValue, valid := lk, lv, true;
            return;
          }
          // Covered by the chains.
          if seen[Key(lk)].payload.Put? {
            curKey, curValue, valid := lk, seen[Key(lk)].payload.value.data, true;
            return;
          }
        }
      }
    }

    method SeekToFirst()
      requires Valid()
      modifies this
      ensures Valid()
      ensures Remaining(user, keys, seen, 0, lsm) == if valid then [(curKey, curValue)] + ToCome() else []
    {
      ahead, idx := lsm, 0;
      Advance();
    }

    method Seek(target: Bytes)
      requires Valid() && TotalOrder(user) && Ascending(user, keys)
      modifies this
      ensures Valid()
      ensures exists i :: IsLowerBound(user, keys, target, i)
                 && Remaining(user, keys, seen, i, FromKey(user, lsm, target))
                    == if valid then [(curKey, curValue)] + ToCome() else []
    {
      ahead := FromKey(user, lsm, target);
      idx := LowerBoundMVCC(target);
      ghost var i := idx;
      Advance();
      assert IsLowerBound(user, keys, target, i);
    }

    method LowerBoundMVCC(target: Bytes) returns (l: nat)
      requires TotalOrder(user) && Ascending(user, keys)
      ensures IsLowerBound(user, keys, target, l)
    {
      var r: nat;
      l, r := 0, |keys|;
      while l < r
        invariant l <= r <= |keys|
        invariant forall i | 0 <= i < l :: user(keys[i].bytes, target) < 0
        invariant forall i | r <= i < |keys| :: user(keys[i].bytes, target) >= 0
      {
        var m := (l + r) / 2;
        if user(keys[m].bytes, target) < 0 {
          forall i | 0 <= i < m
            ensures user(keys[i].bytes, target) < 0
          {
            StrictStep(user, keys[i].bytes, keys[m].bytes, target);
          }
          l := m + 1;
        } else {
          forall i | m < i < |keys|
            ensures user(keys[i].bytes, target) >= 0
          {
            StrictStep(user, target, keys[m].bytes, keys[i].bytes);
          }
          r := m;
        }
      }
    }

    method Next()
      requires Valid()
      modifies this
      ensures Valid()
      ensures old(valid) ==> old(ToCome()) == if valid then [(curKey, curValue)] + ToCome() else []
      ensures old(valid) && valid ==> |keys| - idx + |ahead| < old(|keys| - idx + |ahead|)
      ensures !old(valid) ==> !valid
    {
      if valid {
        Advance();
      }
    }

    // A whole scan.
    method ScanAll() returns (out: Output)
      requires Valid()
      modifies this
      ensures out == Remaining(user, keys, seen, 0, lsm)
    {
      SeekToFirst();
      out := [];
      while valid
        invariant Valid()
        invariant Remaining(user, keys, seen, 0, lsm) == out + if valid then [(curKey, curValue)] + ToCome() else []
        decreases valid, |keys| - idx + |ahead|
      {
        out := out + [(curKey, curValue)];
        Next();
      }
    }
  }

  predicate IsLowerBound(user: UserOrder, keys: seq<Key>, target: Bytes, l: nat) {
    && l <= |keys|
    && (forall i | 0 <= i < l :: user(keys[i].bytes, target) < 0)
    && (forall i | l <= i < |keys| :: user(keys[i].bytes, target) >= 0)
  }

  ghost predicate SeenIn(chains: Chains, view: ReadView, seen: Seen) {
    && (forall k :: k in seen <==> VersionChain.Visible(ChainOf(chains, k), view).Some?)
    && (forall k | k in seen :: VersionChain.Visible(ChainOf(chains, k), view) == Some(seen[k]))
  }

  // ---- a scan agrees with point reads ----

  // In ascending key order, each key once, exactly the pairs for which the transaction's Get
  // returns a value: its own writes and its view in the chains, else the LSM tree.
  lemma ScanAgreesWithGet(user: UserOrder, s: Engine.State, t: TxnId, runs: seq<Run>, scan: Output, keys: seq<Key>, seen: Seen,
                          k: Bytes)
    requires TotalOrder(user) && t in s.txns && SeenIn(s.chains, s.txns[t].view, seen)
    requires Ascending(user, keys) && forall x :: x in keys <==> x in seen
    requires Represents(runs, s.lsm) && IsScan(user, runs, Engine.LsmReadSeq(s, s.txns[t]), scan)
    ensures AscendingOut(user, Remaining(user, keys, seen, 0, scan))
    ensures exists tie :: ListsAsGet(s, t, Remaining(user, keys, seen, 0, scan), k, tie)
  {
    hide Remaining;
    RemainingAscends(user, keys, seen, 0, scan);
    ScanIsExact(user, runs, s.lsm, Engine.LsmReadSeq(s, s.txns[t]), scan, k);
    var tie :| ListsAsRead(s.lsm, Engine.LsmReadSeq(s, s.txns[t]), scan, k, tie);
    forall v
      ensures (k, v) in Remaining(user, keys, seen, 0, scan) <==> Engine.TxnRead(s, Key(k), t, tie) == Some(Put(Value(v)))
    {
      RemainingIsExact(user, keys, seen, 0, scan, k, v);
    }
    assert keys[0..] == keys;
    assert ListsAsGet(s, t, Remaining(user, keys, seen, 0, scan), k, tie);
  }

  // The scan lists under k exactly what Get returns, the tree's ties going one way.
  ghost predicate ListsAsGet(s: Engine.State, t: TxnId, out: Output, k: Bytes, tie: Lsm.Tie)
    requires t in s.txns
  {
    forall v :: (k, v) in out <==> Engine.TxnRead(s, Key(k), t, tie) == Some(Put(Value(v)))
  }

  // After a Seek the scan is the full one from the target on.
  lemma SeekIsSuffix(user: UserOrder, keys: seq<Key>, seen: Seen, scan: Output, target: Bytes, i: nat, k: Bytes, v: Bytes)
    requires TotalOrder(user) && Ascending(user, keys) && AscendingOut(user, scan) && forall x :: x in keys <==> x in seen
    requires IsLowerBound(user, keys, target, i)
    ensures (k, v) in Remaining(user, keys, seen, i, FromKey(user, scan, target))
       <==> (k, v) in Remaining(user, keys, seen, 0, scan) && user(k, target) >= 0
  {
    var ahead := FromKey(user, scan, target);
    FromKeyIsSuffix(user, scan, target, (k, v));
    forall e | e in ahead
      ensures Key(e.0) !in keys[..i]
    {
      FromKeyIsSuffix(user, scan, target, e);
    }
    RemainingIsExact(user, keys, seen, i, ahead, k, v);
    RemainingIsExact(user, keys, seen, 0, scan, k, v);
    assert keys[0..] == keys && keys == keys[..i] + keys[i..];
  }

  lemma {:induction false} FromKeyIsSuffix(user: UserOrder, out: Output, target: Bytes, e: (Bytes, Bytes))
    requires TotalOrder(user) && AscendingOut(user, out)
    ensures AscendingOut(user, FromKey(user, out, target))
    ensures e in FromKey(user, out, target) <==> e in out && user(e.0, target) >= 0
  {
    if out != [] && user(out[0].0, target) < 0 {
      FromKeyIsSuffix(user, out[1..], target, e);
      assert out == [out[0]] + out[1..];
    } else if e in out {
      var i :| 0 <= i < |out| && out[i] == e;
      if i > 0 {
        StrictStep(user, target, out[0].0, out[i].0);
      }
    }
  }
}
