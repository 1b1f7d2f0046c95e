/** What a complete or partial flush leaves in the LSM tree. */
module FlushLemmas {
  import opened Types
  import opened VersionChain
  import opened Lsm
  import opened History
  import opened Engine

  // The payloads a list of items writes to one cell, in order.
  function PayloadsAt(items: seq<(Key, Record)>, k: Key, c: SeqNo): seq<Payload> {
    if items == [] then []
    else
      var it := items[|items| - 1];
      PayloadsAt(items[..|items| - 1], k, c) + if it.0 == k && it.1.commit == c then [it.1.payload] else []
  }

  lemma {:induction false} CellOfWriteItems(l: Lsm, items: seq<(Key, Record)>, k: Key, c: SeqNo)
    ensures CellAt(WriteItems(l, items).cells, k, c) == CellAfter(CellAt(l.cells, k, c), PayloadsAt(items, k, c))
  {
    if items != [] {
      var init, it := items[..|items| - 1], items[|items| - 1];
      CellOfWriteItems(l, init, k, c);
      var ps := PayloadsAt(items, k, c);
      if it.0 == k && it.1.commit == c {
        assert ps[..|ps| - 1] == PayloadsAt(init, k, c);
      } else {
        assert ps == PayloadsAt(init, k, c);
      }
    }
  }

  lemma {:induction false} TombsOfWriteItems(l: Lsm, items: seq<(Key, Record)>, k: Key, c: SeqNo)
    ensures (k, c) in WriteItems(l, items).tombs <==> (k, c) in l.tombs || Delete in PayloadsAt(items, k, c)
  {
    if items != [] {
      TombsOfWriteItems(l, items[..|items| - 1], k, c);
    }
  }

  lemma {:induction false} ReversedHolds(ps: seq<Payload>, p: Payload)
    ensures p in Reversed(ps) <==> p in ps
  {
    if ps != [] {
      ReversedHolds(ps[1..], p);
      assert ps == [ps[0]] + ps[1..];
    }
  }

  lemma {:induction false} PayloadsOfConcat(a: seq<(Key, Record)>, b: seq<(Key, Record)>, k: Key, c: SeqNo)
    ensures PayloadsAt(a + b, k, c) == PayloadsAt(a, k, c) + PayloadsAt(b, k, c)
  {
    if b == [] {
      assert a + b == a;
    } else {
      assert (a + b)[..|a + b| - 1] == a + b[..|b| - 1];
      PayloadsOfConcat(a, b[..|b| - 1], k, c);
    }
  }

  lemma {:induction false} PayloadsOfOtherKey(rs: seq<Record>, k': Key, k: Key, c: SeqNo)
    requires k != k'
    ensures PayloadsAt(Tag(k', rs), k, c) == []
  {
    if rs != [] {
      assert Tag(k', rs)[..|rs| - 1] == Tag(k', rs[..|rs| - 1]);
      PayloadsOfOtherKey(rs[..|rs| - 1], k', k, c);
    }
  }

  lemma PayloadsOfOne(k: Key, r: Record, c: SeqNo)
    ensures PayloadsAt(Tag(k, [r]), k, c) == if r.commit == c then [r.payload] else []
  {
    assert PayloadsAt(Tag(k, [r])[..0], k, c) == [];
  }

  lemma GroupOfOne(vs: seq<Version>, v: Version, c: SeqNo)
    ensures Group(vs + [v], c) == Group(vs, c) + if v.commit == c then [v.payload] else []
  {
    assert (vs + [v])[..|vs|] == vs;
  }

  lemma PrependItem(k: Key, r: Record, rs: seq<Record>, c: SeqNo)
    ensures PayloadsAt(Tag(k, [r] + rs), k, c)
         == (if r.commit == c then [r.payload] else []) + PayloadsAt(Tag(k, rs), k, c)
  {
    assert Tag(k, [r] + rs) == Tag(k, [r]) + Tag(k, rs);
    PayloadsOfConcat(Tag(k, [r]), Tag(k, rs), k, c);
    PayloadsOfOne(k, r, c);
  }

  lemma GroupOfLonger(vs: seq<Version>, lo: nat, hi: nat, c: SeqNo)
    requires lo < hi <= |vs|
    ensures Group(vs[lo..hi], c) == Group(vs[lo..hi - 1], c) + if vs[hi - 1].commit == c then [vs[hi - 1].payload] else []
  {
    assert vs[lo..hi] == vs[lo..hi - 1] + [vs[hi - 1]];
    GroupOfOne(vs[lo..hi - 1], vs[hi - 1], c);
  }

  // Newest first means: each commit's writes in reverse.
  lemma {:induction false} PayloadsOfNewestFirst(vs: seq<Version>, lo: nat, hi: nat, k: Key, c: SeqNo)
    requires lo <= hi <= |vs|
    ensures PayloadsAt(Tag(k, NewestFirst(vs, lo, hi)), k, c) == Reversed(Group(vs[lo..hi], c))
    decreases hi
  {
    if lo < hi {
      PayloadsOfNewestFirst(vs, lo, hi - 1, k, c);
      PrependItem(k, RecordOf(vs[hi - 1], false), NewestFirst(vs, lo, hi - 1), c);
      GroupOfLonger(vs, lo, hi, c);
      if vs[hi - 1].commit == c {
        ReversedAppend(Group(vs[lo..hi - 1], c), vs[hi - 1].payload);
      } else {
        assert Group(vs[lo..hi], c) == Group(vs[lo..hi - 1], c);
      }
    } else {
      assert vs[lo..hi] == [];
    }
  }

  // Positions on the two sides of a boundary belong to different commits.
  lemma BoundarySplits(vs: seq<Version>, n: nat, i: nat, j: nat)
    requires Sorted(vs) && Boundary(vs, n) && i < n <= j < |vs|
    ensures vs[i].commit < vs[j].commit
  {
    assert vs[i].commit <= vs[n - 1].commit && vs[n].commit <= vs[j].commit;
  }

  lemma GroupOfSlice(vs: seq<Version>, lo: nat, hi: nat, c: SeqNo)
    requires lo <= hi <= |vs|
    requires forall j | 0 <= j < lo :: vs[j].commit != c
    requires forall j | hi <= j < |vs| :: vs[j].commit != c
    ensures Group(vs, c) == Group(vs[lo..hi], c)
  {
    var a, b, d := vs[..lo], vs[lo..hi], vs[hi..];
    assert vs == a + (b + d);
    GroupOfConcat(a, b + d, c);
    GroupOfConcat(b, d, c);
    GroupOfOthers(a, c);
    GroupOfOthers(d, c);
  }

  lemma GroupHasMember(vs: seq<Version>, i: nat)
    requires i < |vs|
    ensures Group(vs, vs[i].commit) != []
  {
    GroupHolds(vs, vs[i].commit, vs[i].payload);
    assert vs[i].payload in Group(vs, vs[i].commit);
  }

  lemma OutsideBelongsElsewhere(vs: seq<Version>, lo: nat, hi: nat, i: nat)
    requires lo <= i < hi <= |vs| && Sorted(vs) && Boundary(vs, lo) && Boundary(vs, hi)
    ensures forall j | 0 <= j < lo :: vs[j].commit != vs[i].commit
    ensures forall j | hi <= j < |vs| :: vs[j].commit != vs[i].commit
  {
    forall j | 0 <= j < lo
      ensures vs[j].commit != vs[i].commit
    {
      BoundarySplits(vs, lo, j, i);
    }
    forall j | hi <= j < |vs|
      ensures vs[j].commit != vs[i].commit
    {
      BoundarySplits(vs, hi, i, j);
    }
  }

  // A commit lying wholly inside lo..hi has its whole group there.
  lemma GroupInside(vs: seq<Version>, lo: nat, hi: nat, i: nat)
    requires lo <= i < hi <= |vs| && Sorted(vs) && Boundary(vs, lo) && Boundary(vs, hi)
    ensures Group(vs, vs[i].commit) == Group(vs[lo..hi], vs[i].commit)
    ensures Group(vs, vs[i].commit) != []
  {
    OutsideBelongsElsewhere(vs, lo, hi, i);
    GroupOfSlice(vs, lo, hi, vs[i].commit);
    GroupHasMember(vs, i);
  }

  ghost predicate GoalsFit(hist: map<Key, KeyHistory>, ks: seq<Key>, goals: map<Key, nat>) {
    && (forall i, j | 0 <= i < j < |ks| :: ks[i] != ks[j])
    && (forall k | k in ks :: k in goals && HistIn(hist, k).flushed <= goals[k] <= |HistIn(hist, k).versions|)
  }

  // The items one key contributes.
  function KeyItems(hist: map<Key, KeyHistory>, k: Key, goals: map<Key, nat>): seq<(Key, Record)> {
    if k in goals && goals[k] <= |HistIn(hist, k).versions|
    then Tag(k, NewestFirst(HistIn(hist, k).versions, HistIn(hist, k).flushed, goals[k]))
    else []
  }

  lemma FitPrefix(hist: map<Key, KeyHistory>, ks: seq<Key>, goals: map<Key, nat>)
    requires ks != [] && GoalsFit(hist, ks, goals)
    ensures GoalsFit(hist, ks[..|ks| - 1], goals)
    ensures ks[|ks| - 1] in ks && forall x | x in ks[..|ks| - 1] :: x in ks && x != ks[|ks| - 1]
    ensures FlightItems(hist, ks, goals)
         == FlightItems(hist, ks[..|ks| - 1], goals) + KeyItems(hist, ks[|ks| - 1], goals)
  {
  }

  lemma {:induction false} PayloadsOfFlight(hist: map<Key, KeyHistory>, ks: seq<Key>, goals: map<Key, nat>, k: Key, c: SeqNo)
    requires GoalsFit(hist, ks, goals)
    ensures PayloadsAt(FlightItems(hist, ks, goals), k, c)
         == if k in ks then Reversed(Group(HistIn(hist, k).versions[HistIn(hist, k).flushed..goals[k]], c)) else []
  {
    if ks != [] {
      var init, k' := ks[..|ks| - 1], ks[|ks| - 1];
      FitPrefix(hist, ks, goals);
      PayloadsOfFlight(hist, init, goals, k, c);
      PayloadsOfConcat(FlightItems(hist, init, goals), KeyItems(hist, k', goals), k, c);
      var h := HistIn(hist, k');
      if k == k' {
        PayloadsOfNewestFirst(h.versions, h.flushed, goals[k'], k, c);
      } else {
        assert k in ks <==> k in init;
        PayloadsOfOtherKey(NewestFirst(h.versions, h.flushed, goals[k']), k', k, c);
      }
    }
  }

  // A finished flight has put the final cell of every commit it covers into the LSM tree.
  lemma FlightFillsCells(hist: map<Key, KeyHistory>, ks: seq<Key>, goals: map<Key, nat>, before: Lsm, k: Key, i: nat)
    requires GoalsFit(hist, ks, goals) && k in ks
    requires HistIn(hist, k).flushed <= i < goals[k]
    requires Sorted(HistIn(hist, k).versions) && Boundary(HistIn(hist, k).versions, HistIn(hist, k).flushed)
    requires Boundary(HistIn(hist, k).versions, goals[k])
    requires CellInv(before, k, HistIn(hist, k))
    ensures CommitFlushed(WriteItems(before, FlightItems(hist, ks, goals)), k, HistIn(hist, k).versions, i)
  {
    var h := HistIn(hist, k);
    var c := h.versions[i].commit;
    CellOfWriteItems(before, FlightItems(hist, ks, goals), k, c);
    TombsOfWriteItems(before, FlightItems(hist, ks, goals), k, c);
    PayloadsOfFlight(hist, ks, goals, k, c);
    GroupInside(h.versions, h.flushed, goals[k], i);
    FlushingGivesFlushResult(CellAt(before.cells, k, c), Group(h.versions, c));
    ReversedHolds(Group(h.versions, c), Delete);
  }

  // ---- single items ----

  lemma {:induction false} NewestFirstAt(vs: seq<Version>, lo: nat, hi: nat, j: nat)
    requires lo <= hi <= |vs|
    ensures |NewestFirst(vs, lo, hi)| == hi - lo
    ensures j < hi - lo ==> NewestFirst(vs, lo, hi)[j] == RecordOf(vs[hi - 1 - j], false)
    decreases hi
  {
    if lo < hi {
      NewestFirstAt(vs, lo, hi - 1, if j > 0 then j - 1 else 0);
    }
  }

  ghost predicate IsPicked(hist: map<Key, KeyHistory>, ks: seq<Key>, goals: map<Key, nat>, k: Key, r: Record, i: nat) {
    && k in ks && k in goals && goals[k] <= |HistIn(hist, k).versions|
    && HistIn(hist, k).flushed <= i < goals[k]
    && r == RecordOf(HistIn(hist, k).versions[i], false)
  }

  lemma KeyItemIsPicked(hist: map<Key, KeyHistory>, ks: seq<Key>, goals: map<Key, nat>, k: Key, item: (Key, Record))
    requires k in ks && item in KeyItems(hist, k, goals)
    requires k in goals && HistIn(hist, k).flushed <= goals[k]
    ensures exists i: nat :: IsPicked(hist, ks, goals, item.0, item.1, i)
  {
    hide NewestFirst;
    var h := HistIn(hist, k);
    var j :| 0 <= j < |KeyItems(hist, k, goals)| && KeyItems(hist, k, goals)[j] == item;
    NewestFirstAt(h.versions, h.flushed, goals[k], j);
    assert IsPicked(hist, ks, goals, item.0, item.1, goals[k] - 1 - j);
  }

  lemma {:induction false} FlightItemIsPicked(hist: map<Key, KeyHistory>, ks: seq<Key>, goals: map<Key, nat>, item: (Key, Record))
    requires GoalsFit(hist, ks, goals) && item in FlightItems(hist, ks, goals)
    ensures exists i: nat :: IsPicked(hist, ks, goals, item.0, item.1, i)
  {
    var init, k := ks[..|ks| - 1], ks[|ks| - 1];
    FitPrefix(hist, ks, goals);
    if item in FlightItems(hist, init, goals) {
      FlightItemIsPicked(hist, init, goals, item);
      var i: nat :| IsPicked(hist, init, goals, item.0, item.1, i);
      assert IsPicked(hist, ks, goals, item.0, item.1, i);
    } else {
      KeyItemIsPicked(hist, ks, goals, k, item);
    }
  }

  lemma KeyHasItem(hist: map<Key, KeyHistory>, goals: map<Key, nat>, k: Key, i: nat)
    requires k in goals && HistIn(hist, k).flushed <= i < goals[k] <= |HistIn(hist, k).versions|
    ensures (k, RecordOf(HistIn(hist, k).versions[i], false)) in KeyItems(hist, k, goals)
  {
    var h := HistIn(hist, k);
    NewestFirstAt(h.versions, h.flushed, goals[k], goals[k] - 1 - i);
    assert KeyItems(hist, k, goals)[goals[k] - 1 - i] == (k, RecordOf(h.versions[i], false));
  }

  // Every version a flight covers is one of its items.
  lemma {:induction false} FlightHasItem(hist: map<Key, KeyHistory>, ks: seq<Key>, goals: map<Key, nat>, k: Key, i: nat)
    requires GoalsFit(hist, ks, goals) && k in ks && HistIn(hist, k).flushed <= i < goals[k]
    ensures (k, RecordOf(HistIn(hist, k).versions[i], false)) in FlightItems(hist, ks, goals)
  {
    FitPrefix(hist, ks, goals);
    if k == ks[|ks| - 1] {
      KeyHasItem(hist, goals, k, i);
    } else {
      FlightHasItem(hist, ks[..|ks| - 1], goals, k, i);
    }
  }

  // A key's cells stay within its history when one of its unflushed versions is written.
  lemma WriteVersionKeepsCells(l: Lsm, k: Key, h: KeyHistory, i: nat)
    requires Sorted(h.versions) && h.flushed <= i < |h.versions| && Boundary(h.versions, h.flushed)
    requires CellInv(l, k, h)
    ensures CellInv(Write(l, k, h.versions[i].commit, h.versions[i].payload), k, h)
  {
    GroupHolds(h.versions, h.versions[i].commit, h.versions[i].payload);
    var l' := Write(l, k, h.versions[i].commit, h.versions[i].payload);
    forall j | 0 <= j < h.flushed
      ensures CommitFlushed(l', k, h.versions, j)
    {
      BoundarySplits(h.versions, h.flushed, j, i);
      assert CommitFlushed(l, k, h.versions, j);
    }
  }

  lemma WriteItemKeepsCells(hist: map<Key, KeyHistory>, ks: seq<Key>, goals: map<Key, nat>, l: Lsm, item: (Key, Record), k: Key)
    requires GoalsFit(hist, ks, goals) && item in FlightItems(hist, ks, goals)
    requires Sorted(HistIn(hist, k).versions) && Boundary(HistIn(hist, k).versions, HistIn(hist, k).flushed)
    requires CellInv(l, k, HistIn(hist, k))
    ensures CellInv(WriteItem(l, item), k, HistIn(hist, k))
  {
    hide FlightItems, Sorted, Boundary;
    if item.0 == k {
      FlightItemIsPicked(hist, ks, goals, item);
      var i: nat :| IsPicked(hist, ks, goals, item.0, item.1, i);
      WriteVersionKeepsCells(l, k, HistIn(hist, k), i);
    } else {
      OtherKeyKeepsCells(l, item, k, HistIn(hist, k));
    }
  }

  lemma OtherKeyKeepsCells(l: Lsm, item: (Key, Record), k: Key, h: KeyHistory)
    requires item.0 != k && CellInv(l, k, h)
    ensures CellInv(WriteItem(l, item), k, h)
  {
    forall j | 0 <= j < h.flushed
      ensures CommitFlushed(WriteItem(l, item), k, h.versions, j)
    {
      assert CommitFlushed(l, k, h.versions, j);
    }
  }

  // ---- growing histories leave a flight as it is ----

  lemma {:induction false} NewestFirstPrefix(vs: seq<Version>, ws: seq<Version>, lo: nat, hi: nat)
    requires hi <= |vs|
    ensures NewestFirst(vs + ws, lo, hi) == NewestFirst(vs, lo, hi)
    decreases hi
  {
    if lo < hi {
      NewestFirstPrefix(vs, ws, lo, hi - 1);
    }
  }

  ghost predicate Grows(h: KeyHistory, h': KeyHistory) {
    h'.flushed == h.flushed && |h.versions| <= |h'.versions| && h'.versions[..|h.versions|] == h.versions
  }

  predicate NewerOnTop(h: KeyHistory, h': KeyHistory) {
    forall i, j | 0 <= i < |h.versions| <= j < |h'.versions| :: h.versions[i].commit < h'.versions[j].commit
  }

  lemma {:induction false} FlightItemsFrame(hist: map<Key, KeyHistory>, hist': map<Key, KeyHistory>, ks: seq<Key>, goals: map<Key, nat>)
    requires forall k | k in ks :: k in goals && goals[k] <= |HistIn(hist, k).versions|
    requires forall k | k in ks :: Grows(HistIn(hist, k), HistIn(hist', k))
    ensures FlightItems(hist', ks, goals) == FlightItems(hist, ks, goals)
  {
    if ks != [] {
      var init, k := ks[..|ks| - 1], ks[|ks| - 1];
      assert ks == init + [k];
      assert forall x | x in init :: x in ks;
      FlightItemsFrame(hist, hist', init, goals);
      assert k in ks;
      var h, h' := HistIn(hist, k), HistIn(hist', k);
      assert h'.versions == h.versions + h'.versions[|h.versions|..];
      NewestFirstPrefix(h.versions, h'.versions[|h.versions|..], h.flushed, goals[k]);
    }
  }

  lemma CellsOfGrownHistory(l: Lsm, k: Key, h: KeyHistory, h': KeyHistory)
    requires CellInv(l, k, h) && Grows(h, h') && NewerOnTop(h, h')
    ensures CellInv(l, k, h')
  {
    var n := |h.versions|;
    assert h'.versions == h.versions + h'.versions[n..];
    forall c: SeqNo
      ensures (k, c) in l.cells ==> l.cells[(k, c)] in Group(h'.versions, c)
      ensures (k, c) in l.tombs ==> Delete in Group(h'.versions, c)
    {
      GroupOfConcat(h.versions, h'.versions[n..], c);
    }
    forall i | 0 <= i < h.flushed
      ensures CommitFlushed(l, k, h'.versions, i)
    {
      assert CommitFlushed(l, k, h.versions, i);
      var c := h.versions[i].commit;
      GroupOfConcat(h.versions, h'.versions[n..], c);
      GroupOfOthers(h'.versions[n..], c);
      assert Group(h'.versions, c) == Group(h.versions, c);
    }
  }
}
