/** The forward merge over MemTables and SSTables: a scan of the newest visible versions. */
module MergeScan {
  import opened Types
  import opened SkipLists
  import opened Coding
  import opened Lsm

  datatype Item = Item(key: Bytes, seqno: nat, kind: Byte, value: Bytes)

  // A child iterator is what it has still to deliver.
  type Run = seq<Item>
  type UserOrder = (Bytes, Bytes) -> int

  // Versions of one key may come in any order.
  predicate KeyOrdered(user: UserOrder, run: Run) {
    forall i, j | 0 <= i < j < |run| :: user(run[i].key, run[j].key) <= 0
  }

  ghost predicate AllOrdered(user: UserOrder, runs: seq<Run>) {
    forall i | 0 <= i < |runs| :: KeyOrdered(user, runs[i])
  }

  predicate InRuns(runs: seq<Run>, x: Item) {
    exists i :: 0 <= i < |runs| && x in runs[i]
  }

  // ---- the newest visible version ----

  predicate Visible(x: Item, snapshot: nat) {
    snapshot == 0 || x.seqno <= snapshot
  }

  ghost predicate IsNewest(runs: seq<Run>, snapshot: nat, x: Item) {
    && InRuns(runs, x) && Visible(x, snapshot)
    && forall y | InRuns(runs, y) && y.key == x.key && Visible(y, snapshot) :: y.seqno <= x.seqno
  }

  // A snapshot reads v under k.
  ghost predicate Shows(runs: seq<Run>, snapshot: nat, k: Bytes, v: Bytes) {
    exists x :: IsNewest(runs, snapshot, x) && x.key == k && x.kind != DELETION && x.value == v
  }

  // A snapshot reads nothing under k: no visible version, or a tombstone.
  ghost predicate Silent(runs: seq<Run>, snapshot: nat, k: Bytes) {
    || (forall x | InRuns(runs, x) && x.key == k :: !Visible(x, snapshot))
    || (exists x :: IsNewest(runs, snapshot, x) && x.key == k && x.kind == DELETION)
  }

  function Better(snapshot: nat, best: Option<Item>, x: Item): Option<Item> {
    if !Visible(x, snapshot) then best
    else if best.None? || x.seqno > best.value.seqno then Some(x)
    else best
  }

  function Best(snapshot: nat, best: Option<Item>, items: Run): Option<Item> {
    if items == [] then best
    else Better(snapshot, Best(snapshot, best, items[..|items| - 1]), items[|items| - 1])
  }

  // The best of all items considered, and an item of them if any is visible.
  ghost predicate IsBest(snapshot: nat, seen: set<Item>, best: Option<Item>) {
    match best
    case None => forall x | x in seen :: !Visible(x, snapshot)
    case Some(b) => b in seen && Visible(b, snapshot) && forall x | x in seen && Visible(x, snapshot) :: x.seqno <= b.seqno
  }

  // ---- leaving one key behind ----

  // How many leading items have this key.
  function Leading(run: Run, k: Bytes): (n: nat)
    ensures n <= |run| && (forall i | 0 <= i < n :: run[i].key == k) && (n < |run| ==> run[n].key != k)
  {
    if run == [] || run[0].key != k then 0 else 1 + Leading(run[1..], k)
  }

  function Drop(runs: seq<Run>, k: Bytes): seq<Run> {
    seq(|runs|, i requires 0 <= i < |runs| => runs[i][Leading(runs[i], k)..])
  }

  // If k is least, dropping the leading items of each run drops every item of the key.
  lemma DropIsFilter(user: UserOrder, runs: seq<Run>, k: Bytes, x: Item)
    requires TotalOrder(user) && AllOrdered(user, runs)
    requires forall y | InRuns(runs, y) :: user(k, y.key) <= 0
    ensures InRuns(Drop(runs, k), x) <==> InRuns(runs, x) && x.key != k
    ensures AllOrdered(user, Drop(runs, k))
  {
    forall i | 0 <= i < |runs|
      ensures x in Drop(runs, k)[i] <==> x in runs[i] && x.key != k
      ensures KeyOrdered(user, Drop(runs, k)[i])
    {
      forall y | y in runs[i]
        ensures user(k, y.key) <= 0
      {
        assert InRuns(runs, y);
      }
      DropOne(user, runs[i], k, x);
    }
    if InRuns(Drop(runs, k), x) {
      var i :| 0 <= i < |runs| && x in Drop(runs, k)[i];
      assert x in runs[i];
    }
    if InRuns(runs, x) && x.key != k {
      var i :| 0 <= i < |runs| && x in runs[i];
      assert x in Drop(runs, k)[i];
    }
  }

  lemma DropOne(user: UserOrder, run: Run, k: Bytes, x: Item)
    requires TotalOrder(user) && KeyOrdered(user, run) && forall y | y in run :: user(k, y.key) <= 0
    ensures x in run[Leading(run, k)..] <==> x in run && x.key != k
    ensures KeyOrdered(user, run[Leading(run, k)..])
  {
    hide Leading;
    var n := Leading(run, k);
    assert run == run[..n] + run[n..];
    forall j | n <= j < |run|
      ensures run[j].key != k
    {
      BehindLeading(user, run, k, j);
    }
  }

  lemma BehindLeading(user: UserOrder, run: Run, k: Bytes, j: nat)
    requires TotalOrder(user) && KeyOrdered(user, run) && forall y | y in run :: user(k, y.key) <= 0
    requires Leading(run, k) <= j < |run|
    ensures run[j].key != k
  {
    var n := Leading(run, k);
    assert run[n] in run && user(k, run[n].key) < 0;
    if n < j {
      StrictStep(user, k, run[n].key, run[j].key);
    }
  }

  lemma BetterIsBest(snapshot: nat, seen: set<Item>, best: Option<Item>, x: Item)
    requires IsBest(snapshot, seen, best)
    ensures IsBest(snapshot, seen + {x}, Better(snapshot, best, x))
  {
  }

  lemma {:induction false} BestIsBest(snapshot: nat, seen: set<Item>, best: Option<Item>, items: Run)
    requires IsBest(snapshot, seen, best)
    ensures IsBest(snapshot, seen + (set x | x in items), Best(snapshot, best, items))
  {
    hide IsBest, Better;
    if items == [] {
      assert seen + (set x | x in items) == seen;
    } else {
      var init, last := items[..|items| - 1], items[|items| - 1];
      assert items == init + [last];
      BestIsBest(snapshot, seen, best, init);
      BetterIsBest(snapshot, seen + (set x | x in init), Best(snapshot, best, init), last);
      assert seen + (set x | x in items) == seen + (set x | x in init) + {last};
    }
  }

  // ---- the iterator ----

  class MergeIterator {
    const user: UserOrder
    const snapshot: nat
    // The MemTable runs, newest first, then the SSTable runs.
    const runs: seq<Run>
    var children: seq<Run>
    var valid: bool
    var currentKey: Bytes
    var currentValue: Bytes

    constructor (user: UserOrder, snapshot: nat, runs: seq<Run>)
      ensures this.user == user && this.snapshot == snapshot && this.runs == runs && !valid
    {
      this.user, this.snapshot, this.runs := user, snapshot, runs;
      children, valid, currentKey, currentValue := runs, false, [], [];
    }

    ghost predicate Ordered()
      reads this
    {
      TotalOrder(user) && AllOrdered(user, runs) && AllOrdered(user, children)
    }

    // Entries still ahead.
    function Ahead(): nat
      reads this
    {
      Total(children)
    }

    // A child whose head is least in internal key order; of equal heads the first.
    method PickChild() returns (best: int)
      requires TotalOrder(user)
      ensures -1 <= best < |children|
      ensures best < 0 ==> forall i | 0 <= i < |children| :: children[i] == []
      ensures best >= 0 ==> children[best] != []
      ensures best >= 0 ==> forall i | 0 <= i < |children| && children[i] != [] ::
        user(children[best][0].key, children[i][0].key) <= 0
    {
      best := -1;
      for i := 0 to |children|
        invariant -1 <= best < i
        invariant best < 0 ==> forall j | 0 <= j < i :: children[j] == []
        invariant best >= 0 ==> children[best] != []
        invariant best >= 0 ==> forall j | 0 <= j < i && children[j] != [] ::
          user(children[best][0].key, children[j][0].key) <= 0
      {
        if children[i] != [] {
          if best < 0 {
            best := i;
          } else if CompareItems(user, children[i][0], children[best][0]) < 0 {
            forall j | 0 <= j < i && children[j] != []
              ensures user(children[i][0].key, children[j][0].key) <= 0
            {
              assert Chained(children[i][0].key, children[best][0].key, children[j][0].key);
            }
            best := i;
          }
        }
      }
    }

    // Takes every leading item of the key off child i, keeping the best version seen.
    method ConsumeKey(i: nat, k: Bytes, soFar: Option<Item>) returns (best: Option<Item>)
      requires TotalOrder(user) && i < |children|
      modifies this`children
      ensures children == old(children)[i := old(children)[i][Leading(old(children)[i], k)..]]
      ensures best == Best(snapshot, soFar, old(children)[i][..Leading(old(children)[i], k)])
    {
      best := soFar;
      ghost var run, n: nat := children[i], 0;
      while children[i] != [] && user(children[i][0].key, k) == 0
        invariant n <= Leading(run, k) && children == old(children)[i := run[n..]]
        invariant best == Best(snapshot, soFar, run[..n])
        decreases |run| - n
      {
        assert run[..n + 1][..n] == run[..n];
        best := Better(snapshot, best, children[i][0]);
        children, n := children[i := children[i][1..]], n + 1;
      }
    }

    // Takes the key off every child, the picked one first, and returns its best version.
    method ConsumeEverywhere(first: nat, k: Bytes) returns (best: Option<Item>)
      requires TotalOrder(user) && first < |children|
      modifies this`children
      ensures children == Drop(old(children), k)
      ensures IsBest(snapshot, Taken(old(children), k, |old(children)|, first), best)
    {
      hide Taken, DropTo, Drop, Leading, Best;
      ghost var was := children;
      best := ConsumeKey(first, k, None);
      BestIsBest(snapshot, {}, None, was[first][..Leading(was[first], k)]);
      TakenFirst(was, k, first);
      DropNext(was, k, first, first);
      for i := 0 to |children|
        invariant children == DropTo(was, k, i, first)
        invariant IsBest(snapshot, Taken(was, k, i, first), best)
      {
        TakenNext(was, k, i, first);
        DropNext(was, k, i, first);
        if i != first {
          BestIsBest(snapshot, Taken(was, k, i, first), best, was[i][..Leading(was[i], k)]);
          best := ConsumeKey(i, k, best);
        }
      }
      DropAll(was, k, first);
    }

    // Consumes the least key ahead; `newest` is its best version. None if nothing is ahead.
    method TakeLeast(ghost was: seq<Run>, ghost passed: Option<Bytes>) returns (k: Option<Bytes>, newest: Option<Item>)
      requires Ordered() && RestAfter(user, was, children, passed) && SilentUpTo(user, was, snapshot, passed)
      modifies this`children
      ensures Ordered() && RestAfter(user, was, children, if k == None then passed else k)
      ensures k == None ==> (forall x :: !InRuns(children, x)) && forall k' :: Silent(was, snapshot, k')
      ensures k != None ==> Ahead() < old(Ahead()) && Decided(user, was, snapshot, k.value, newest)
    {
      var best := PickChild();
      if best < 0 {
        NothingLeft(user, was, children, snapshot, passed);
        return None, None;
      }
      k := Some(children[best][0].key);
      ghost var before := children;
      HeadIsLeast(user, children, best);
      newest := ConsumeEverywhere(best, k.value);
      TookEverything(user, before, k.value, best);
      DropShrinks(before, best);
      LeavesKeyBehind(user, was, before, children, passed, k.value);
      KeyDecided(user, was, before, snapshot, passed, k.value, newest);
    }

    // Moves to the least key ahead whose newest visible version is a value.
    method FindSmallest()
      requires Ordered()
      modifies this`children, this`valid, this`currentKey, this`currentValue
      ensures Ordered() && (valid ==> Ahead() < old(Ahead()))
      ensures StepFinds(user, old(children), snapshot, children, valid, currentKey, currentValue)
    {
      valid := false;
      ghost var was, passed := children, None;
      while true
        invariant Ordered() && !valid && Ahead() <= old(Ahead())
        invariant RestAfter(user, was, children, passed) && SilentUpTo(user, was, snapshot, passed)
        decreases Ahead()
      {
        var k, newest := TakeLeast(was, passed);
        if k == None {
          return;
        }
        passed := k;
        if newest.Some? && newest.value.kind != DELETION {
          currentKey, currentValue, valid := k.value, newest.value.value, true;
          return;
        }
      }
    }

    method SeekToFirst()
      requires Ordered()
      modifies this`children, this`valid, this`currentKey, this`currentValue
      ensures Ordered() && StepFinds(user, runs, snapshot, children, valid, currentKey, currentValue)
    {
      children := runs;
      FindSmallest();
    }

    method Next()
      requires Ordered() && (valid ==> AllBehind(user, children, currentKey))
      modifies this`children, this`valid, this`currentKey, this`currentValue
      ensures Ordered() && (valid ==> Ahead() < old(Ahead()))
      ensures old(valid) ==> StepFinds(user, old(children), snapshot, children, valid, currentKey, currentValue)
      ensures !old(valid) ==> !valid && children == old(children)
    {
      if valid {
        FindAfter(currentKey);
      }
    }

    // Steps on until the key found is behind lastKey; once is enough if everything ahead is.
    method FindAfter(lastKey: Bytes)
      requires Ordered()
      modifies this`children, this`valid, this`currentKey, this`currentValue
      ensures Ordered() && (valid ==> Ahead() < old(Ahead()) && user(currentKey, lastKey) > 0)
      ensures AllBehind(user, old(children), lastKey) ==>
        StepFinds(user, old(children), snapshot, children, valid, currentKey, currentValue)
    {
      ghost var moved := false;
      while true
        invariant Ordered() && Ahead() <= old(Ahead())
        invariant !moved ==> children == old(children)
        invariant moved ==> !AllBehind(user, old(children), lastKey)
        decreases Ahead()
      {
        ghost var before := children;
        FindSmallest();
        if !valid {
          return;
        }
        if user(currentKey, lastKey) > 0 {
          return;
        }
        ShownIsAhead(user, before, snapshot, currentKey, currentValue, lastKey);
        moved := true;
      }
    }

    // A whole forward scan.
    method ScanAll() returns (out: Output)
      requires Ordered()
      modifies this`children, this`valid, this`currentKey, this`currentValue
      ensures IsScan(user, runs, snapshot, out)
    {
      SeekToFirst();
      ghost var last: Option<Bytes>, was := None, runs;
      out := [];
      while valid
        invariant Ordered() && StepFinds(user, was, snapshot, children, valid, currentKey, currentValue)
        invariant RestAfter(user, runs, was, last) && IsScanUpTo(user, runs, snapshot, out, last)
        decreases valid, Ahead()
      {
        Emit(user, runs, was, children, snapshot, last, out, currentKey, currentValue);
        out := out + [(currentKey, currentValue)];
        last, was := Some(currentKey), children;
        Next();
      }
      ScanEnds(user, runs, was, children, snapshot, last, out, currentKey, currentValue);
    }
  }

  type Output = seq<(Bytes, Bytes)>

  // In ascending key order, exactly the keys a snapshot reads a value under, each once.
  ghost predicate IsScan(user: UserOrder, runs: seq<Run>, snapshot: nat, out: Output) {
    && (forall i, j | 0 <= i < j < |out| :: user(out[i].0, out[j].0) < 0)
    && (forall e | e in out :: Shows(runs, snapshot, e.0, e.1))
    && (forall k | (forall e | e in out :: e.0 != k) :: Silent(runs, snapshot, k))
  }

  // The scan so far: as a whole scan, for the keys up to the last one.
  ghost predicate IsScanUpTo(user: UserOrder, runs: seq<Run>, snapshot: nat, out: Output, last: Option<Bytes>) {
    && (forall i, j | 0 <= i < j < |out| :: user(out[i].0, out[j].0) < 0)
    && (forall e | e in out :: Shows(runs, snapshot, e.0, e.1) && last.Some? && user(e.0, last.value) <= 0)
    && (last.Some? ==> forall k | user(k, last.value) <= 0 && (forall e | e in out :: e.0 != k) :: Silent(runs, snapshot, k))
  }

  // Behind the last key nothing was consumed yet, so both see the same there.
  lemma SameBehind(user: UserOrder, runs: seq<Run>, was: seq<Run>, snapshot: nat, last: Option<Bytes>, k: Bytes)
    requires RestAfter(user, runs, was, last) && (last.None? || user(last.value, k) < 0)
    ensures Silent(was, snapshot, k) ==> Silent(runs, snapshot, k)
    ensures forall v :: Shows(was, snapshot, k, v) ==> Shows(runs, snapshot, k, v)
  {
    forall x: Item | x.key == k
      ensures InRuns(runs, x) <==> InRuns(was, x)
      ensures IsNewest(was, snapshot, x) ==> IsNewest(runs, snapshot, x)
    {
    }
  }

  lemma Emit(user: UserOrder, runs: seq<Run>, was: seq<Run>, left: seq<Run>, snapshot: nat, last: Option<Bytes>,
             out: Output, k: Bytes, v: Bytes)
    requires TotalOrder(user) && IsScanUpTo(user, runs, snapshot, out, last) && RestAfter(user, runs, was, last)
    requires StepFinds(user, was, snapshot, left, true, k, v)
    ensures IsScanUpTo(user, runs, snapshot, out + [(k, v)], Some(k))
    ensures RestAfter(user, runs, left, Some(k)) && AllBehind(user, left, k)
  {
    ShownIsBehind(user, runs, was, snapshot, last, k, v);
    SameBehind(user, runs, was, snapshot, last, k);
    OrderGrows(user, out, last, k, v);
    RestSteps(user, runs, was, left, last, k);
    SilentGrows(user, runs, was, snapshot, last, out, k, v);
    forall e | e in out + [(k, v)]
      ensures Shows(runs, snapshot, e.0, e.1) && user(e.0, k) <= 0
    {
      if e in out {
        StrictStep(user, e.0, last.value, k);
      }
    }
  }

  lemma ShownIsBehind(user: UserOrder, runs: seq<Run>, was: seq<Run>, snapshot: nat, last: Option<Bytes>, k: Bytes, v: Bytes)
    requires RestAfter(user, runs, was, last) && Shows(was, snapshot, k, v)
    ensures last.None? || user(last.value, k) < 0
  {
    var x :| IsNewest(was, snapshot, x) && x.key == k && x.kind != DELETION && x.value == v;
    assert InRuns(was, x);
  }

  lemma OrderGrows(user: UserOrder, out: Output, last: Option<Bytes>, k: Bytes, v: Bytes)
    requires TotalOrder(user) && forall i, j | 0 <= i < j < |out| :: user(out[i].0, out[j].0) < 0
    requires forall e | e in out :: last.Some? && user(e.0, last.value) <= 0
    requires last.None? || user(last.value, k) < 0
    ensures forall i, j | 0 <= i < j < |out + [(k, v)]| :: user((out + [(k, v)])[i].0, (out + [(k, v)])[j].0) < 0
  {
    forall i | 0 <= i < |out|
      ensures user(out[i].0, k) < 0
    {
      assert out[i] in out;
      StrictStep(user, out[i].0, last.value, k);
    }
  }

  lemma RestSteps(user: UserOrder, runs: seq<Run>, was: seq<Run>, left: seq<Run>, last: Option<Bytes>, k: Bytes)
    requires TotalOrder(user) && RestAfter(user, runs, was, last) && RestAfter(user, was, left, Some(k))
    requires last.None? || user(last.value, k) < 0
    ensures RestAfter(user, runs, left, Some(k)) && AllBehind(user, left, k)
  {
    forall x
      ensures InRuns(left, x) <==> InRuns(runs, x) && user(k, x.key) < 0
    {
      if user(k, x.key) < 0 && last.Some? {
        StrictStep(user, last.value, k, x.key);
      }
    }
  }

  lemma SilentGrows(user: UserOrder, runs: seq<Run>, was: seq<Run>, snapshot: nat, last: Option<Bytes>, out: Output, k: Bytes, v: Bytes)
    requires TotalOrder(user) && IsScanUpTo(user, runs, snapshot, out, last) && RestAfter(user, runs, was, last)
    requires forall k' | user(k', k) < 0 :: Silent(was, snapshot, k')
    ensures forall k' | user(k', k) <= 0 && (forall e | e in out + [(k, v)] :: e.0 != k') :: Silent(runs, snapshot, k')
  {
    forall k' | user(k', k) <= 0 && (forall e | e in out + [(k, v)] :: e.0 != k')
      ensures Silent(runs, snapshot, k')
    {
      assert (k, v) in out + [(k, v)] && k' != k;
      forall e | e in out
        ensures e.0 != k'
      {
        assert e in out + [(k, v)];
      }
      if last.None? || user(last.value, k') < 0 {
        SameBehind(user, runs, was, snapshot, last, k');
      }
    }
  }

  lemma ScanEnds(user: UserOrder, runs: seq<Run>, was: seq<Run>, left: seq<Run>, snapshot: nat, last: Option<Bytes>,
                 out: Output, k: Bytes, v: Bytes)
    requires TotalOrder(user) && IsScanUpTo(user, runs, snapshot, out, last) && RestAfter(user, runs, was, last)
    requires StepFinds(user, was, snapshot, left, false, k, v)
    ensures IsScan(user, runs, snapshot, out)
  {
    forall k' | forall e | e in out :: e.0 != k'
      ensures Silent(runs, snapshot, k')
    {
      if last.None? || user(last.value, k') < 0 {
        SameBehind(user, runs, was, snapshot, last, k');
      }
    }
  }

  // What one step of the scan finds among the items that were ahead.
  ghost predicate StepFinds(user: UserOrder, was: seq<Run>, snapshot: nat, left: seq<Run>, valid: bool, k: Bytes, v: Bytes) {
    if valid then
      && Shows(was, snapshot, k, v)
      && (forall k' | user(k', k) < 0 :: Silent(was, snapshot, k'))
      && RestAfter(user, was, left, Some(k))
    else
      (forall x :: !InRuns(left, x)) && forall k' :: Silent(was, snapshot, k')
  }

  // The best version of key k is known, and no key before k shows anything.
  ghost predicate Decided(user: UserOrder, was: seq<Run>, snapshot: nat, k: Bytes, newest: Option<Item>) {
    && (forall k' | user(k', k) < 0 :: Silent(was, snapshot, k'))
    && (if newest.Some? && newest.value.kind != DELETION then Shows(was, snapshot, k, newest.value.value)
        else SilentUpTo(user, was, snapshot, Some(k)))
  }

  ghost predicate AllBehind(user: UserOrder, runs: seq<Run>, k: Bytes) {
    forall x | InRuns(runs, x) :: user(k, x.key) < 0
  }

  lemma ShownIsAhead(user: UserOrder, runs: seq<Run>, snapshot: nat, k: Bytes, v: Bytes, lastKey: Bytes)
    requires TotalOrder(user) && Shows(runs, snapshot, k, v) && user(k, lastKey) <= 0
    ensures !AllBehind(user, runs, lastKey)
  {
    var x :| IsNewest(runs, snapshot, x) && x.key == k && x.kind != DELETION && x.value == v;
    assert InRuns(runs, x) && user(lastKey, x.key) >= 0;
  }

  // What is left are the items behind the passed key.
  ghost predicate RestAfter(user: UserOrder, was: seq<Run>, runs: seq<Run>, passed: Option<Bytes>) {
    forall x :: InRuns(runs, x) <==> InRuns(was, x) && (passed.None? || user(passed.value, x.key) < 0)
  }

  ghost predicate SilentUpTo(user: UserOrder, was: seq<Run>, snapshot: nat, passed: Option<Bytes>) {
    passed.Some? ==> forall k | user(k, passed.value) <= 0 :: Silent(was, snapshot, k)
  }

  lemma NothingLeft(user: UserOrder, was: seq<Run>, runs: seq<Run>, snapshot: nat, passed: Option<Bytes>)
    requires TotalOrder(user) && RestAfter(user, was, runs, passed) && SilentUpTo(user, was, snapshot, passed)
    requires forall i | 0 <= i < |runs| :: runs[i] == []
    ensures (forall x :: !InRuns(runs, x)) && forall k :: Silent(was, snapshot, k)
  {
    forall x
      ensures !InRuns(runs, x)
    {
    }
    forall k
      ensures Silent(was, snapshot, k)
    {
      if passed.None? || user(k, passed.value) > 0 {
        forall x | InRuns(was, x)
          ensures x.key != k
        {
          assert !InRuns(runs, x);
        }
      }
    }
  }

  lemma HeadIsLeast(user: UserOrder, runs: seq<Run>, best: nat)
    requires TotalOrder(user) && AllOrdered(user, runs) && best < |runs| && runs[best] != []
    requires forall i | 0 <= i < |runs| && runs[i] != [] :: user(runs[best][0].key, runs[i][0].key) <= 0
    ensures forall x | InRuns(runs, x) :: user(runs[best][0].key, x.key) <= 0
  {
    forall x | InRuns(runs, x)
      ensures user(runs[best][0].key, x.key) <= 0
    {
      var i :| 0 <= i < |runs| && x in runs[i];
      var j :| 0 <= j < |runs[i]| && runs[i][j] == x;
      assert user(runs[i][0].key, x.key) <= 0;
      assert Chained(runs[best][0].key, runs[i][0].key, x.key);
    }
  }

  lemma {:induction false} TotalOfDrop(runs: seq<Run>, k: Bytes)
    ensures Total(Drop(runs, k)) <= Total(runs)
    ensures (exists i :: 0 <= i < |runs| && Leading(runs[i], k) > 0) ==> Total(Drop(runs, k)) < Total(runs)
  {
    if runs != [] {
      TotalOfDrop(runs[1..], k);
      assert Drop(runs, k)[1..] == Drop(runs[1..], k);
      if i :| 0 <= i < |runs| && Leading(runs[i], k) > 0 && i > 0 {
        assert runs[1..][i - 1] == runs[i];
      }
    }
  }

  lemma DropShrinks(runs: seq<Run>, best: nat)
    requires best < |runs| && runs[best] != []
    ensures Total(Drop(runs, runs[best][0].key)) < Total(runs)
  {
    assert Leading(runs[best], runs[best][0].key) > 0;
    TotalOfDrop(runs, runs[best][0].key);
  }

  lemma LeavesKeyBehind(user: UserOrder, was: seq<Run>, before: seq<Run>, after: seq<Run>, passed: Option<Bytes>, k: Bytes)
    requires TotalOrder(user) && AllOrdered(user, before) && after == Drop(before, k)
    requires RestAfter(user, was, before, passed)
    requires (exists x :: InRuns(before, x) && x.key == k) && forall x | InRuns(before, x) :: user(k, x.key) <= 0
    ensures RestAfter(user, was, after, Some(k)) && AllOrdered(user, after)
  {
    forall x
      ensures InRuns(after, x) <==> InRuns(was, x) && user(k, x.key) < 0
      ensures AllOrdered(user, after)
    {
      DropIsFilter(user, before, k, x);
      if user(k, x.key) < 0 && passed.Some? {
        StrictStep(user, passed.value, k, x.key);
      }
    }
  }

  // The key's versions are all still there, so its best version decides what it shows.
  lemma KeyDecided(user: UserOrder, was: seq<Run>, before: seq<Run>, snapshot: nat, passed: Option<Bytes>, k: Bytes, newest: Option<Item>)
    requires TotalOrder(user) && RestAfter(user, was, before, passed) && SilentUpTo(user, was, snapshot, passed)
    requires (exists x :: InRuns(before, x) && x.key == k) && forall x | InRuns(before, x) :: user(k, x.key) <= 0
    requires IsBest(snapshot, KeyItems(before, k), newest)
    ensures Decided(user, was, snapshot, k, newest)
  {
    SameVersions(user, was, before, passed, k);
    forall k' | user(k', k) < 0
      ensures Silent(was, snapshot, k')
    {
      NothingBetween(user, was, before, snapshot, passed, k, k');
    }
    if newest.Some? {
      assert newest.value in KeyItems(before, k);
      assert IsNewest(was, snapshot, newest.value);
    } else {
      forall x | InRuns(was, x) && x.key == k
        ensures !Visible(x, snapshot)
      {
        assert x in KeyItems(before, k);
      }
    }
  }

  lemma SameVersions(user: UserOrder, was: seq<Run>, before: seq<Run>, passed: Option<Bytes>, k: Bytes)
    requires RestAfter(user, was, before, passed) && exists x :: InRuns(before, x) && x.key == k
    ensures forall x :: x in KeyItems(before, k) <==> InRuns(was, x) && x.key == k
  {
    forall x
      ensures x in KeyItems(before, k) <==> InRuns(was, x) && x.key == k
    {
      KeyItemsAre(before, k, x);
    }
  }

  lemma KeyItemsAre(runs: seq<Run>, k: Bytes, x: Item)
    ensures x in KeyItems(runs, k) <==> InRuns(runs, x) && x.key == k
  {
    if InRuns(runs, x) && x.key == k {
      var i :| 0 <= i < |runs| && x in runs[i];
      var j :| 0 <= j < |runs[i]| && runs[i][j] == x;
      assert runs[i][j] in KeyItems(runs, k);
    }
  }

  // No item lies between the passed key and the least one ahead.
  lemma NothingBetween(user: UserOrder, was: seq<Run>, before: seq<Run>, snapshot: nat, passed: Option<Bytes>, k: Bytes, k': Bytes)
    requires TotalOrder(user) && RestAfter(user, was, before, passed) && SilentUpTo(user, was, snapshot, passed)
    requires user(k', k) < 0 && forall x | InRuns(before, x) :: user(k, x.key) <= 0
    ensures Silent(was, snapshot, k')
  {
    if passed.None? || user(k', passed.value) > 0 {
      forall x | InRuns(was, x)
        ensures x.key != k'
      {
        assert InRuns(before, x) <==> passed.None? || user(passed.value, x.key) < 0;
      }
    }
  }

  ghost function KeyItems(runs: seq<Run>, k: Bytes): set<Item> {
    set i, j | 0 <= i < |runs| && 0 <= j < |runs[i]| && runs[i][j].key == k :: runs[i][j]
  }

  // Drop, with the runs below n and the one picked done.
  function DropTo(runs: seq<Run>, k: Bytes, n: nat, first: nat): (r: seq<Run>)
    ensures |r| == |runs|
  {
    seq(|runs|, i requires 0 <= i < |runs| =>
      if i < n || i == first then runs[i][Leading(runs[i], k)..] else runs[i])
  }

  lemma DropNext(runs: seq<Run>, k: Bytes, i: nat, first: nat)
    requires i < |runs| && first < |runs|
    ensures DropTo(runs, k, i + 1, first)
         == if i == first then DropTo(runs, k, i, first)
            else DropTo(runs, k, i, first)[i := runs[i][Leading(runs[i], k)..]]
    ensures i != first ==> DropTo(runs, k, i, first)[i] == runs[i]
    ensures DropTo(runs, k, 0, first) == runs[first := runs[first][Leading(runs[first], k)..]]
  {
  }

  lemma DropAll(runs: seq<Run>, k: Bytes, first: nat)
    ensures DropTo(runs, k, |runs|, first) == Drop(runs, k)
  {
  }

  // The leading items of the runs below n and of the one picked.
  ghost function Taken(runs: seq<Run>, k: Bytes, n: nat, first: nat): set<Item> {
    set i, j | 0 <= i < |runs| && (i < n || i == first) && 0 <= j < Leading(runs[i], k) :: runs[i][j]
  }

  lemma TakenFirst(runs: seq<Run>, k: Bytes, first: nat)
    requires first < |runs|
    ensures Taken(runs, k, 0, first) == {} + set x | x in runs[first][..Leading(runs[first], k)]
  {
    var items := runs[first][..Leading(runs[first], k)];
    forall x | x in items
      ensures x in Taken(runs, k, 0, first)
    {
      var j :| 0 <= j < |items| && items[j] == x;
      assert runs[first][j] == x;
    }
  }

  lemma TakenNext(runs: seq<Run>, k: Bytes, i: nat, first: nat)
    requires i < |runs|
    ensures Taken(runs, k, i + 1, first)
         == Taken(runs, k, i, first) + if i == first then {} else set x | x in runs[i][..Leading(runs[i], k)]
  {
    var items := runs[i][..Leading(runs[i], k)];
    forall x | x in items
      ensures x in Taken(runs, k, i + 1, first)
    {
      var j :| 0 <= j < |items| && items[j] == x;
      assert runs[i][j] == x;
    }
    forall x | x in Taken(runs, k, i + 1, first) && x !in Taken(runs, k, i, first)
      ensures i != first && x in items
    {
      var m, j :| 0 <= m < |runs| && (m < i + 1 || m == first) && 0 <= j < Leading(runs[m], k) && runs[m][j] == x;
      assert m == i && items[j] == x;
    }
  }

  lemma TookEverything(user: UserOrder, runs: seq<Run>, k: Bytes, first: nat)
    requires TotalOrder(user) && AllOrdered(user, runs)
    requires forall y | InRuns(runs, y) :: user(k, y.key) <= 0
    ensures Taken(runs, k, |runs|, first) == KeyItems(runs, k)
  {
    forall i, j | 0 <= i < |runs| && 0 <= j < |runs[i]| && runs[i][j].key == k
      ensures j < Leading(runs[i], k)
    {
      forall y | y in runs[i]
        ensures user(k, y.key) <= 0
      {
        assert InRuns(runs, y);
      }
      LeadingIsAll(user, runs[i], k, j);
    }
  }

  lemma LeadingIsAll(user: UserOrder, run: Run, k: Bytes, j: nat)
    requires TotalOrder(user) && KeyOrdered(user, run) && forall y | y in run :: user(k, y.key) <= 0
    requires j < |run| && run[j].key == k
    ensures j < Leading(run, k)
  {
    if Leading(run, k) <= j {
      BehindLeading(user, run, k, j);
    }
  }

  function CompareItems(user: UserOrder, a: Item, b: Item): int {
    CompareParsed(user, Parsed(a.key, a.seqno, a.kind), Parsed(b.key, b.seqno, b.kind))
  }

  function Total(runs: seq<Run>): nat {
    if runs == [] then 0 else |runs[0]| + Total(runs[1..])
  }

  // ---- the scan reads the versioned map ----

  // Together the runs hold exactly the versions of the map, any of them more than once; where a
  // value and a tombstone share a place, either or both.
  ghost predicate Represents(runs: seq<Run>, l: Lsm) {
    && (forall x | InRuns(runs, x) :: ItemIsRight(x, l))
    && (forall k, c | (k, c) in l.cells :: c <= l.top && exists x :: InRuns(runs, x) && x.key == k.bytes && x.seqno == c)
  }

  predicate ItemIsRight(x: Item, l: Lsm) {
    var place := (Key(x.key), x.seqno);
    && place in l.cells
    && if x.kind == DELETION then place in l.tombs else l.cells[place] == KindPayload(x.kind, x.value)
  }

  lemma ItemOfCell(runs: seq<Run>, l: Lsm, k: Bytes, c: SeqNo) returns (x: Item)
    requires Represents(runs, l) && (Key(k), c) in l.cells
    ensures InRuns(runs, x) && x.key == k && x.seqno == c
  {
    x :| InRuns(runs, x) && x.key == k && x.seqno == c;
  }

  lemma NewestIsRead(runs: seq<Run>, l: Lsm, snapshot: nat, x: Item)
    requires Represents(runs, l) && IsNewest(runs, snapshot, x)
    ensures Read(l, Key(x.key), snapshot, if x.kind == DELETION then TombstoneWins else ValueWins) == Some(KindPayload(x.kind, x.value))
  {
    var bound := if snapshot == 0 then l.top else snapshot;
    assert (Key(x.key), x.seqno) in l.cells;
    forall c: SeqNo | x.seqno < c <= bound
      ensures (Key(x.key), c) !in l.cells
    {
      if (Key(x.key), c) in l.cells {
        var y := ItemOfCell(runs, l, x.key, c);
      }
    }
    NewestIs(l.cells, Key(x.key), bound, x.seqno);
  }

  lemma HiddenIsUnread(runs: seq<Run>, l: Lsm, snapshot: nat, k: Bytes)
    requires Represents(runs, l) && forall x | InRuns(runs, x) && x.key == k :: !Visible(x, snapshot)
    ensures Read(l, Key(k), snapshot, ValueWins) == None
  {
    var bound := if snapshot == 0 then l.top else snapshot;
    forall c: SeqNo | c <= bound
      ensures (Key(k), c) !in l.cells
    {
      if (Key(k), c) in l.cells {
        var y := ItemOfCell(runs, l, k, c);
      }
    }
    NewestIsNone(l.cells, Key(k), bound);
  }

  // The scan lists k with v exactly if the map reads v under k.
  ghost predicate ListsAsRead(l: Lsm, snapshot: nat, out: Output, k: Bytes, tie: Tie) {
    forall v :: (k, v) in out <==> Read(l, Key(k), snapshot, tie) == Some(Put(Value(v)))
  }

  // For every key; where a value and a tombstone share the newest place, as one of the two wins.
  lemma ScanIsExact(user: UserOrder, runs: seq<Run>, l: Lsm, snapshot: nat, out: Output, k: Bytes)
    requires Represents(runs, l) && IsScan(user, runs, snapshot, out)
    ensures exists tie :: ListsAsRead(l, snapshot, out, k, tie)
  {
    if e :| e in out && e.0 == k {
      forall v | (k, v) in out
        ensures Read(l, Key(k), snapshot, ValueWins) == Some(Put(Value(v)))
      {
        var x :| IsNewest(runs, snapshot, x) && x.key == k && x.kind != DELETION && x.value == v;
        NewestIsRead(runs, l, snapshot, x);
      }
      assert (k, e.1) in out;
      assert ListsAsRead(l, snapshot, out, k, ValueWins);
    } else {
      assert Silent(runs, snapshot, k);
      if x :| IsNewest(runs, snapshot, x) && x.key == k && x.kind == DELETION {
        NewestIsRead(runs, l, snapshot, x);
        assert ListsAsRead(l, snapshot, out, k, TombstoneWins);
      } else {
        HiddenIsUnread(runs, l, snapshot, k);
        assert ListsAsRead(l, snapshot, out, k, ValueWins);
      }
    }
  }
}
