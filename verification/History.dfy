/** The abstract past of one key: every version ever committed, oldest first. */
module History {
  import opened Types
  import opened VersionChain
  import opened Lsm

  datatype Version = Version(payload: Payload, commit: SeqNo, txn: TxnId)

  // versions[dropped..] are still in the chain, versions[..flushed] are in the LSM tree.
  datatype KeyHistory = KeyHistory(versions: seq<Version>, dropped: nat, flushed: nat)

  const NO_HISTORY := KeyHistory([], 0, 0)

  // The position of the newest version committed at or before s, or -1.
  function NewestIndex(vs: seq<Version>, s: SeqNo): (i: int)
    ensures -1 <= i < |vs|
    ensures i >= 0 ==> vs[i].commit <= s
    ensures forall j | i < j < |vs| :: vs[j].commit > s
  {
    if vs == [] then -1
    else if vs[|vs| - 1].commit <= s then |vs| - 1
    else NewestIndex(vs[..|vs| - 1], s)
  }

  // What a multi-version store answers at s.
  function HistRead(vs: seq<Version>, s: SeqNo): Option<Payload> {
    var i := NewestIndex(vs, s);
    if i < 0 then None else Some(vs[i].payload)
  }

  // All writes of one commit to the key, in the order they were made.
  function Group(vs: seq<Version>, c: SeqNo): seq<Payload> {
    if vs == [] then []
    else
      var v := vs[|vs| - 1];
      Group(vs[..|vs| - 1], c) + if v.commit == c then [v.payload] else []
  }

  predicate Sorted(vs: seq<Version>) {
    forall i, j | 0 <= i < j < |vs| :: vs[i].commit <= vs[j].commit
  }

  // No commit has versions on both sides of position n.
  predicate Boundary(vs: seq<Version>, n: nat) {
    0 < n < |vs| ==> vs[n - 1].commit < vs[n].commit
  }

  // ---- what flushing makes of one commit's writes ----

  // The flush emits newest first, so the first value written ends up in the cell.
  function FlushResult(group: seq<Payload>): Payload
    requires group != []
  {
    if group[0].Put? || |group| == 1 then group[0] else FlushResult(group[1..])
  }

  function CellAfter(was: Option<Payload>, writes: seq<Payload>): Option<Payload> {
    if writes == [] then was
    else Some(WriteCell(CellAfter(was, writes[..|writes| - 1]), writes[|writes| - 1]))
  }

  // Whatever of the group an interrupted flush has left there before.
  lemma {:induction false} FlushingGivesFlushResult(was: Option<Payload>, group: seq<Payload>)
    requires group != []
    requires was.None? || was.value in group
    ensures CellAfter(was, Reversed(group)) == Some(FlushResult(group))
  {
    FlushingLemma(was, group);
  }

  lemma {:induction false} FlushingLemma(was: Option<Payload>, group: seq<Payload>)
    requires group != []
    requires (forall p | p in group :: p.Delete?) ==> was.None? || was == Some(Delete)
    ensures CellAfter(was, Reversed(group)) == Some(FlushResult(group))
  {
    var rest := group[1..];
    var ws := Reversed(group);
    assert ws[..|ws| - 1] == Reversed(rest);
    if rest != [] && group[0].Delete? {
      assert group == [group[0]] + rest;
      FlushingLemma(was, rest);
    }
  }

  // What a flushed commit is read as, where a value and a tombstone of it both lie in the tree.
  function Answered(group: seq<Payload>, tie: Tie): Payload
    requires group != []
  {
    if tie == TombstoneWins && Delete in group then Delete else FlushResult(group)
  }

  // The LSM tree answers like the history for this commit, wherever its records have got to.
  ghost predicate Faithful(group: seq<Payload>) {
    group != [] && forall tie :: Answered(group, tie) == group[|group| - 1]
  }

  // A transaction that writes a key several times is read back right from the LSM tree
  // exactly if it only deleted, or if it only put and its first and last values are the same.
  lemma {:induction false} FaithfulMeans(group: seq<Payload>)
    requires group != []
    ensures Faithful(group)
       <==> ((forall i | 0 <= i < |group| :: group[i].Delete?)
             || ((forall i | 0 <= i < |group| :: group[i].Put?) && group[0] == group[|group| - 1]))
  {
    FlushResultIsFirstPut(group);
    assert Answered(group, ValueWins) == FlushResult(group);
    assert Delete in group ==> Answered(group, TombstoneWins) == Delete;
    forall i | 0 <= i < |group|
      ensures group[i].Delete? ==> Delete in group
    {
    }
  }

  lemma {:induction false} FlushResultIsFirstPut(group: seq<Payload>)
    requires group != []
    ensures (FlushResult(group).Delete? && forall i | 0 <= i < |group| :: group[i].Delete?)
         || (exists i :: 0 <= i < |group| && group[i].Put? && group[i] == FlushResult(group)
                      && forall j | 0 <= j < i :: group[j].Delete?)
  {
    if |group| > 1 && group[0].Delete? {
      var rest := group[1..];
      FlushResultIsFirstPut(rest);
      if i :| 0 <= i < |rest| && rest[i].Put? && rest[i] == FlushResult(group) && forall j | 0 <= j < i :: rest[j].Delete? {
        assert group[i + 1] == rest[i];
        assert forall j | 0 < j < i + 1 :: group[j] == rest[j - 1];
      } else {
        assert forall i | 0 < i < |group| :: group[i] == rest[i - 1];
      }
    }
  }

  // ---- growing histories ----

  lemma {:induction false} GroupOfConcat(vs: seq<Version>, ws: seq<Version>, c: SeqNo)
    ensures Group(vs + ws, c) == Group(vs, c) + Group(ws, c)
  {
    if ws == [] {
      assert vs + ws == vs;
    } else {
      assert (vs + ws)[..|vs + ws| - 1] == vs + ws[..|ws| - 1];
      GroupOfConcat(vs, ws[..|ws| - 1], c);
    }
  }

  lemma {:induction false} GroupOfOthers(vs: seq<Version>, c: SeqNo)
    requires forall i | 0 <= i < |vs| :: vs[i].commit != c
    ensures Group(vs, c) == []
  {
    if vs != [] {
      GroupOfOthers(vs[..|vs| - 1], c);
    }
  }

  lemma {:induction false} GroupHolds(vs: seq<Version>, c: SeqNo, p: Payload)
    ensures p in Group(vs, c) <==> exists i :: 0 <= i < |vs| && vs[i].commit == c && vs[i].payload == p
  {
    if vs != [] {
      GroupHolds(vs[..|vs| - 1], c, p);
    }
  }

  // The newest version at or before s is the last write of its commit.
  lemma {:induction false} NewestEndsGroup(vs: seq<Version>, s: SeqNo)
    requires Sorted(vs) && NewestIndex(vs, s) >= 0
    ensures var i := NewestIndex(vs, s);
            var g := Group(vs, vs[i].commit);
            g != [] && g[|g| - 1] == vs[i].payload
  {
    var i := NewestIndex(vs, s);
    assert vs == vs[..i] + ([vs[i]] + vs[i + 1..]);
    GroupOfConcat(vs[..i], [vs[i]] + vs[i + 1..], vs[i].commit);
    GroupOfConcat([vs[i]], vs[i + 1..], vs[i].commit);
    GroupOfOthers(vs[i + 1..], vs[i].commit);
    assert Group([vs[i]], vs[i].commit) == [vs[i].payload];
  }

  lemma {:induction false} NewestOfConcat(vs: seq<Version>, ws: seq<Version>, s: SeqNo)
    requires forall i | 0 <= i < |ws| :: ws[i].commit > s
    ensures NewestIndex(vs + ws, s) == NewestIndex(vs, s)
    ensures HistRead(vs + ws, s) == HistRead(vs, s)
  {
    if ws == [] {
      assert vs + ws == vs;
    } else {
      assert (vs + ws)[..|vs + ws| - 1] == vs + ws[..|ws| - 1];
      NewestOfConcat(vs, ws[..|ws| - 1], s);
    }
  }

  // ---- the chain records a history stands for ----

  function RecordOf(v: Version, flushed: bool): Record {
    Record(v.payload, v.txn, Committed, v.commit, flushed)
  }

  // The versions in lo..hi as unflushed records, newest first.
  function NewestFirst(vs: seq<Version>, lo: nat, hi: nat): seq<Record>
    requires hi <= |vs|
    decreases hi
  {
    if lo >= hi then [] else [RecordOf(vs[hi - 1], false)] + NewestFirst(vs, lo, hi - 1)
  }
}
