/** The compactor's merge of sorted tables, and what it keeps of every read. */
module Compaction {
  import opened Types
  import opened SkipLists
  import opened Coding

  // An encoded internal key and its value.
  datatype Rec = Rec(key: Bytes, value: Bytes)
  type Table = seq<Rec>
  type KeyOrder = (Bytes, Bytes) -> int

  // A place in the inputs: which table, and which record of it.
  datatype Place = Place(table: nat, idx: nat)

  predicate Sorted(cmp: KeyOrder, t: Table) {
    forall i, j | 0 <= i < j < |t| :: cmp(t[i].key, t[j].key) < 0
  }

  predicate IsPlace(inputs: seq<Table>, p: Place) {
    p.table < |inputs| && p.idx < |inputs[p.table]|
  }

  function RecAt(inputs: seq<Table>, p: Place): Rec
    requires IsPlace(inputs, p)
  {
    inputs[p.table][p.idx]
  }

  // Versions older than the oldest snapshot are dropped, whatever they are.
  predicate ShouldKeep(key: Bytes, oldest: nat) {
    var p := ParseInternalKey(key);
    p.Some? && p.value.seqno >= oldest
  }

  // ---- the merged order ----

  class MultiWayMerge {
    const cmp: KeyOrder
    const inputs: seq<Table>
    var pos: seq<nat>
    var current: int

    constructor (cmp: KeyOrder, inputs: seq<Table>)
      requires TotalOrder(cmp) && forall i | 0 <= i < |inputs| :: Sorted(cmp, inputs[i])
      ensures Valid() && this.cmp == cmp && this.inputs == inputs && AtMin()
      ensures forall i | 0 <= i < |pos| :: pos[i] == 0
    {
      this.cmp, this.inputs := cmp, inputs;
      pos, current := seq(|inputs|, _ => 0), -1;
      new;
      FindMin();
    }

    ghost predicate Valid()
      reads this
    {
      && TotalOrder(cmp) && (forall i | 0 <= i < |inputs| :: Sorted(cmp, inputs[i]))
      && |pos| == |inputs| && forall i | 0 <= i < |inputs| :: pos[i] <= |inputs[i]|
    }

    // The record not yet delivered with the least key; of equal ones that of the first table.
    ghost predicate AtMin()
      reads this
      requires Valid()
    {
      && -1 <= current < |inputs|
      && (current < 0 ==> forall i | 0 <= i < |inputs| :: pos[i] == |inputs[i]|)
      && (current >= 0 ==>
            pos[current] < |inputs[current]| && NotBefore(cmp, inputs, pos, inputs[current][pos[current]].key))
    }

    method FindMin()
      requires Valid()
      modifies this`current
      ensures Valid() && AtMin()
    {
      current := -1;
      for i := 0 to |inputs|
        invariant Valid() && -1 <= current < i
        invariant current < 0 ==> forall j | 0 <= j < i :: pos[j] == |inputs[j]|
        invariant current >= 0 ==> pos[current] < |inputs[current]|
        invariant current >= 0 ==> forall j | 0 <= j < i && pos[j] < |inputs[j]| ::
          cmp(inputs[current][pos[current]].key, inputs[j][pos[j]].key) <= 0
      {
        if pos[i] < |inputs[i]| {
          if current == -1 {
            current := i;
          } else if cmp(inputs[i][pos[i]].key, inputs[current][pos[current]].key) < 0 {
            forall j | 0 <= j < i && pos[j] < |inputs[j]|
              ensures cmp(inputs[i][pos[i]].key, inputs[j][pos[j]].key) <= 0
            {
              assert Chained(inputs[i][pos[i]].key, inputs[current][pos[current]].key, inputs[j][pos[j]].key);
            }
            current := i;
          }
        }
      }
    }

    method Next()
      requires Valid() && AtMin() && current >= 0
      modifies this
      ensures Valid() && AtMin() && pos == old(pos)[old(current) := old(pos[current]) + 1]
    {
      pos := pos[current := pos[current] + 1];
      FindMin();
    }
  }

  // ---- the merge ----

  datatype Outcome = Done | BadKey | OutOfOrder

  // The records kept among those before the positions.
  ghost predicate Delivered(inputs: seq<Table>, pos: seq<nat>, oldest: nat, picks: seq<Place>, out: Table)
    requires |pos| == |inputs|
  {
    && |out| == |picks|
    && (forall m | 0 <= m < |picks| :: IsPlace(inputs, picks[m]) && out[m] == RecAt(inputs, picks[m]))
    && (forall m, n | 0 <= m < n < |picks| :: picks[m] != picks[n])
    && (forall p | IsPlace(inputs, p) ::
          p in picks <==> p.idx < pos[p.table] && ShouldKeep(RecAt(inputs, p).key, oldest))
  }

  function Ends(inputs: seq<Table>): (pos: seq<nat>)
    ensures |pos| == |inputs| && forall i | 0 <= i < |inputs| :: pos[i] == |inputs[i]|
  {
    seq(|inputs|, i requires 0 <= i < |inputs| => |inputs[i]|)
  }

  // Everything kept is delivered, each record once.
  ghost predicate IsMerge(inputs: seq<Table>, oldest: nat, out: Table) {
    exists picks :: Delivered(inputs, Ends(inputs), oldest, picks, out)
  }

  // Two records share a key.
  ghost predicate HasDuplicate(inputs: seq<Table>) {
    exists p, q :: p != q && IsPlace(inputs, p) && IsPlace(inputs, q) && RecAt(inputs, p).key == RecAt(inputs, q).key
  }

  ghost predicate HasBadKey(inputs: seq<Table>) {
    exists p :: IsPlace(inputs, p) && ParseInternalKey(RecAt(inputs, p).key).None?
  }

  // How many records are still to come.
  function Left(inputs: seq<Table>, pos: seq<nat>): nat
    requires |pos| == |inputs| && forall i | 0 <= i < |inputs| :: pos[i] <= |inputs[i]|
  {
    if inputs == [] then 0 else |inputs[0]| - pos[0] + Left(inputs[1..], pos[1..])
  }

  lemma {:induction false} LeftAfterStep(inputs: seq<Table>, pos: seq<nat>, c: nat)
    requires |pos| == |inputs| && forall i | 0 <= i < |inputs| :: pos[i] <= |inputs[i]|
    requires c < |inputs| && pos[c] < |inputs[c]|
    ensures Left(inputs, pos[c := pos[c] + 1]) == Left(inputs, pos) - 1
  {
    if c == 0 {
      assert pos[c := pos[c] + 1][1..] == pos[1..];
    } else {
      LeftAfterStep(inputs[1..], pos[1..], c - 1);
      assert pos[c := pos[c] + 1][1..] == pos[1..][c - 1 := pos[c] + 1];
    }
  }

  // Everything still to come is at or after this key.
  ghost predicate NotBefore(cmp: KeyOrder, inputs: seq<Table>, pos: seq<nat>, key: Bytes)
    requires |pos| == |inputs|
  {
    forall i | 0 <= i < |inputs| && pos[i] < |inputs[i]| :: cmp(key, inputs[i][pos[i]].key) <= 0
  }

  lemma StepKeepsBound(cmp: KeyOrder, inputs: seq<Table>, pos: seq<nat>, c: nat, key: Bytes)
    requires TotalOrder(cmp) && |pos| == |inputs| && c < |inputs| && pos[c] < |inputs[c]| && Sorted(cmp, inputs[c])
    requires NotBefore(cmp, inputs, pos, inputs[c][pos[c]].key) && cmp(key, inputs[c][pos[c]].key) <= 0
    ensures NotBefore(cmp, inputs, pos[c := pos[c] + 1], key)
  {
    var pos' := pos[c := pos[c] + 1];
    forall i | 0 <= i < |inputs| && pos'[i] < |inputs[i]|
      ensures cmp(key, inputs[i][pos'[i]].key) <= 0
    {
      assert Chained(key, inputs[c][pos[c]].key, inputs[i][pos'[i]].key);
    }
  }

  lemma DeliverOne(inputs: seq<Table>, pos: seq<nat>, oldest: nat, picks: seq<Place>, out: Table, c: nat)
    requires |pos| == |inputs| && Delivered(inputs, pos, oldest, picks, out)
    requires c < |inputs| && pos[c] < |inputs[c]|
    ensures var p, pos' := Place(c, pos[c]), pos[c := pos[c] + 1];
            if ShouldKeep(RecAt(inputs, p).key, oldest)
            then Delivered(inputs, pos', oldest, picks + [p], out + [RecAt(inputs, p)])
            else Delivered(inputs, pos', oldest, picks, out)
  {
    var p, pos' := Place(c, pos[c]), pos[c := pos[c] + 1];
    assert IsPlace(inputs, p) && p !in picks;
    forall q | IsPlace(inputs, q)
      ensures q.idx < pos'[q.table] <==> q.idx < pos[q.table] || q == p
    {
    }
  }

  // The output so far, and its last key.
  ghost predicate Merging(cmp: KeyOrder, inputs: seq<Table>, pos: seq<nat>, oldest: nat, picks: seq<Place>, out: Table, lastKey: Bytes)
    requires |pos| == |inputs|
  {
    && Delivered(inputs, pos, oldest, picks, out) && Sorted(cmp, out)
    && (if out == [] then lastKey == []
        else lastKey == out[|out| - 1].key != [] && NotBefore(cmp, inputs, pos, lastKey))
  }

  lemma MergeStep(cmp: KeyOrder, inputs: seq<Table>, pos: seq<nat>, c: nat, oldest: nat, picks: seq<Place>, out: Table, lastKey: Bytes)
    requires TotalOrder(cmp) && |pos| == |inputs| && c < |inputs| && pos[c] < |inputs[c]| && Sorted(cmp, inputs[c])
    requires Merging(cmp, inputs, pos, oldest, picks, out, lastKey) && NotBefore(cmp, inputs, pos, inputs[c][pos[c]].key)
    ensures var rec, here, pos' := inputs[c][pos[c]], Place(c, pos[c]), pos[c := pos[c] + 1];
            if !ShouldKeep(rec.key, oldest) then Merging(cmp, inputs, pos', oldest, picks, out, lastKey)
            else if lastKey != [] && cmp(lastKey, rec.key) >= 0 then HasDuplicate(inputs)
            else Merging(cmp, inputs, pos', oldest, picks + [here], out + [rec], rec.key)
  {
    var rec, here := inputs[c][pos[c]], Place(c, pos[c]);
    DeliverOne(inputs, pos, oldest, picks, out, c);
    if !ShouldKeep(rec.key, oldest) {
      if out != [] {
        StepKeepsBound(cmp, inputs, pos, c, lastKey);
      }
    } else if lastKey != [] && cmp(lastKey, rec.key) >= 0 {
      assert picks[|picks| - 1] in picks && IsPlace(inputs, picks[|picks| - 1]);
      SharedKey(cmp, inputs, picks[|picks| - 1], here);
    } else {
      AppendKeepsSorted(cmp, out, rec);
      StepKeepsBound(cmp, inputs, pos, c, rec.key);
    }
  }

  // Writes the record if it is kept; the writer takes only keys in ascending order.
  method TakeRecord(cmp: KeyOrder, inputs: seq<Table>, ghost pos: seq<nat>, c: nat, rec: Rec, oldest: nat,
                    out: Table, lastKey: Bytes, ghost picks: seq<Place>)
    returns (outcome: Outcome, out': Table, lastKey': Bytes, ghost picks': seq<Place>)
    requires TotalOrder(cmp) && |pos| == |inputs| && c < |inputs| && pos[c] < |inputs[c]| && Sorted(cmp, inputs[c])
    requires Merging(cmp, inputs, pos, oldest, picks, out, lastKey) && NotBefore(cmp, inputs, pos, inputs[c][pos[c]].key)
    requires rec == inputs[c][pos[c]]
    ensures outcome == Done ==> Merging(cmp, inputs, pos[c := pos[c] + 1], oldest, picks', out', lastKey')
    ensures outcome == OutOfOrder ==> HasDuplicate(inputs)
    ensures outcome == BadKey ==> HasBadKey(inputs)
  {
    out', lastKey', picks' := out, lastKey, picks;
    if ParseInternalKey(rec.key).None? {
      assert IsPlace(inputs, Place(c, pos[c]));
      return BadKey, [], [], [];
    }
    MergeStep(cmp, inputs, pos, c, oldest, picks, out, lastKey);
    if ShouldKeep(rec.key, oldest) {
      if lastKey != [] && cmp(lastKey, rec.key) >= 0 {
        return OutOfOrder, [], [], [];
      }
      out', lastKey', picks' := out + [rec], rec.key, picks + [Place(c, pos[c])];
    }
    outcome := Done;
  }

  method MergeInputFiles(cmp: KeyOrder, inputs: seq<Table>, oldest: nat) returns (outcome: Outcome, out: Table)
    requires TotalOrder(cmp) && forall i | 0 <= i < |inputs| :: Sorted(cmp, inputs[i])
    ensures outcome == Done ==> Sorted(cmp, out) && IsMerge(inputs, oldest, out)
    ensures outcome == OutOfOrder ==> HasDuplicate(inputs)
    ensures outcome == BadKey ==> HasBadKey(inputs)
  {
    hide Merging, NotBefore, Delivered, HasDuplicate, HasBadKey;
    var iter := new MultiWayMerge(cmp, inputs);
    var lastKey: Bytes := [];
    ghost var picks: seq<Place> := [];
    out := [];
    ghost var pos := iter.pos;
    StartMerging(cmp, inputs, pos, oldest);
    while iter.current >= 0
      invariant iter.Valid() && iter.AtMin() && iter.pos == pos && Merging(cmp, inputs, pos, oldest, picks, out, lastKey)
      decreases Left(inputs, pos)
    {
      var c := iter.current;
      LeftAfterStep(inputs, pos, c);
      outcome, out, lastKey, picks := TakeRecord(cmp, inputs, pos, c, inputs[c][iter.pos[c]], oldest, out, lastKey, picks);
      if outcome != Done {
        return outcome, [];
      }
      pos := pos[c := pos[c] + 1];
      iter.Next();
    }
    assert pos == Ends(inputs);
    EndMerging(cmp, inputs, oldest, picks, out, lastKey);
    outcome := Done;
  }

  lemma StartMerging(cmp: KeyOrder, inputs: seq<Table>, pos: seq<nat>, oldest: nat)
    requires |pos| == |inputs| && forall i | 0 <= i < |pos| :: pos[i] == 0
    ensures Merging(cmp, inputs, pos, oldest, [], [], [])
  {
  }

  lemma EndMerging(cmp: KeyOrder, inputs: seq<Table>, oldest: nat, picks: seq<Place>, out: Table, lastKey: Bytes)
    requires Merging(cmp, inputs, Ends(inputs), oldest, picks, out, lastKey)
    ensures Sorted(cmp, out) && IsMerge(inputs, oldest, out)
  {
  }

  lemma AppendKeepsSorted(cmp: KeyOrder, out: Table, rec: Rec)
    requires TotalOrder(cmp) && Sorted(cmp, out) && (out == [] || cmp(out[|out| - 1].key, rec.key) < 0)
    ensures Sorted(cmp, out + [rec])
  {
    forall i | 0 <= i < |out| - 1
      ensures cmp(out[i].key, rec.key) < 0
    {
      StrictStep(cmp, out[i].key, out[|out| - 1].key, rec.key);
    }
  }

  lemma SharedKey(cmp: KeyOrder, inputs: seq<Table>, p: Place, q: Place)
    requires TotalOrder(cmp) && p != q && IsPlace(inputs, p) && IsPlace(inputs, q)
    requires cmp(RecAt(inputs, p).key, RecAt(inputs, q).key) == 0
    ensures HasDuplicate(inputs)
  {
  }

  // ---- what compaction keeps ----

  ghost predicate InTables(inputs: seq<Table>, r: Rec) {
    exists p :: IsPlace(inputs, p) && RecAt(inputs, p) == r
  }

  // The output has the kept records of the inputs and no others.
  lemma MergeHolds(inputs: seq<Table>, oldest: nat, out: Table, r: Rec)
    requires IsMerge(inputs, oldest, out)
    ensures r in out <==> InTables(inputs, r) && ShouldKeep(r.key, oldest)
  {
    var picks :| Delivered(inputs, Ends(inputs), oldest, picks, out);
    if r in out {
      OutputIsKept(inputs, oldest, picks, out, r);
    }
    if InTables(inputs, r) && ShouldKeep(r.key, oldest) {
      KeptIsOutput(inputs, oldest, picks, out, r);
    }
  }

  lemma OutputIsKept(inputs: seq<Table>, oldest: nat, picks: seq<Place>, out: Table, r: Rec)
    requires Delivered(inputs, Ends(inputs), oldest, picks, out) && r in out
    ensures InTables(inputs, r) && ShouldKeep(r.key, oldest)
  {
    var m :| 0 <= m < |out| && out[m] == r;
    assert picks[m] in picks && RecAt(inputs, picks[m]) == r;
  }

  lemma KeptIsOutput(inputs: seq<Table>, oldest: nat, picks: seq<Place>, out: Table, r: Rec)
    requires Delivered(inputs, Ends(inputs), oldest, picks, out) && InTables(inputs, r) && ShouldKeep(r.key, oldest)
    ensures r in out
  {
    var p :| IsPlace(inputs, p) && RecAt(inputs, p) == r;
    assert p in picks;
    var m :| 0 <= m < |picks| && picks[m] == p;
    assert out[m] == r;
  }

  // A merge that is done met no key twice among the records it kept.
  lemma DoneMeansNoDuplicate(cmp: KeyOrder, inputs: seq<Table>, oldest: nat, out: Table, p: Place, q: Place)
    requires TotalOrder(cmp) && IsMerge(inputs, oldest, out) && Sorted(cmp, out)
    requires IsPlace(inputs, p) && IsPlace(inputs, q) && p != q
    requires ShouldKeep(RecAt(inputs, p).key, oldest) && ShouldKeep(RecAt(inputs, q).key, oldest)
    ensures RecAt(inputs, p).key != RecAt(inputs, q).key
  {
    var picks :| Delivered(inputs, Ends(inputs), oldest, picks, out);
    assert p in picks && q in picks;
    var m :| 0 <= m < |picks| && picks[m] == p;
    var n :| 0 <= n < |picks| && picks[n] == q;
    assert m != n && cmp(out[if m < n then m else n].key, out[if m < n then n else m].key) < 0;
    assert cmp(out[m].key, out[m].key) == 0;
  }

  // The newest version of a user key at or before s, among these records.
  ghost predicate IsNewest(inputs: seq<Table>, user: Bytes, s: nat, r: Rec) {
    && InTables(inputs, r) && VersionOf(r, user, s)
    && forall x | InTables(inputs, x) && VersionOf(x, user, s) :: SeqOf(x) <= SeqOf(r)
  }

  predicate VersionOf(r: Rec, user: Bytes, s: nat) {
    var p := ParseInternalKey(r.key);
    p.Some? && p.value.user == user && p.value.seqno <= s
  }

  function SeqOf(r: Rec): nat {
    match ParseInternalKey(r.key)
    case Some(p) => p.seqno
    case None => 0
  }

  // A read of the output finds what it finds in the inputs, unless that is older than the
  // oldest snapshot: then it finds nothing. So every read is kept exactly if its newest
  // version is not that old; with an oldest snapshot of 0, every read of every snapshot.
  lemma CompactionKeepsReads(inputs: seq<Table>, oldest: nat, out: Table, user: Bytes, s: nat, r: Rec)
    requires IsMerge(inputs, oldest, out)
    ensures IsNewest([out], user, s, r) <==> IsNewest(inputs, user, s, r) && SeqOf(r) >= oldest
  {
    forall x
      ensures InTables([out], x) <==> InTables(inputs, x) && ShouldKeep(x.key, oldest)
    {
      MergeHolds(inputs, oldest, out, x);
      InOneTable(out, x);
    }
  }

  lemma InOneTable(out: Table, x: Rec)
    ensures InTables([out], x) <==> x in out
  {
    if x in out {
      var m :| 0 <= m < |out| && out[m] == x;
      assert IsPlace([out], Place(0, m)) && RecAt([out], Place(0, m)) == x;
    }
  }

  // An old newest version is lost: the read that found it finds nothing any more.
  lemma OldReadIsLost(inputs: seq<Table>, oldest: nat, out: Table, user: Bytes, s: nat, r: Rec)
    requires IsMerge(inputs, oldest, out) && IsNewest(inputs, user, s, r) && SeqOf(r) < oldest
    ensures forall x :: !IsNewest([out], user, s, x)
  {
    forall x
      ensures !IsNewest([out], user, s, x)
    {
      CompactionKeepsReads(inputs, oldest, out, user, s, x);
    }
  }
}
