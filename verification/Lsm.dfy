/** The LSM tree seen from the transaction layer: versions addressed by (key, sequence). */
module Lsm {
  import opened Types

  type Cell = (Key, SeqNo)
  type Cells = map<Cell, Payload>

  // A value and a tombstone at one (key, sequence) are two records, as their type is part of
  // the internal key. `cells` holds the value last put, or else the tombstone; `tombs` says
  // where a tombstone lies, alone or beside a value. `top` is the largest sequence ever written.
  datatype Lsm = Lsm(cells: Cells, tombs: set<Cell>, top: SeqNo)

  const EMPTY_LSM := Lsm(map[], {}, 0)

  // Which of the two a read finds: in a MemTable the value, which sorts first there; in a
  // sorted table the tombstone, which comes later and replaces it.
  datatype Tie = ValueWins | TombstoneWins

  function WriteCell(was: Option<Payload>, p: Payload): Payload {
    if was.Some? && was.value.Put? && p.Delete? then was.value else p
  }

  function CellAt(cells: Cells, k: Key, c: SeqNo): Option<Payload> {
    if (k, c) in cells then Some(cells[(k, c)]) else None
  }

  function Write(l: Lsm, k: Key, c: SeqNo, p: Payload): Lsm {
    Lsm(l.cells[(k, c) := WriteCell(CellAt(l.cells, k, c), p)],
        if p.Delete? then l.tombs + {(k, c)} else l.tombs,
        if c > l.top then c else l.top)
  }

  // Nothing lies above the top, and `cells` and `tombs` agree on what is there.
  ghost predicate Orderly(l: Lsm) {
    && (forall x | x in l.cells :: x.1 <= l.top && (l.cells[x].Delete? ==> x in l.tombs))
    && (forall x | x in l.tombs :: x in l.cells)
  }

  lemma WriteKeepsOrderly(l: Lsm, k: Key, c: SeqNo, p: Payload)
    requires Orderly(l)
    ensures Orderly(Write(l, k, c, p))
  {
    var l' := Write(l, k, c, p);
    forall x | x in l'.cells
      ensures x.1 <= l'.top && (l'.cells[x].Delete? ==> x in l'.tombs)
    {
      assert x == (k, c) || x in l.cells;
    }
  }

  // The newest sequence of a key up to s.
  function Newest(cells: Cells, k: Key, s: SeqNo): Option<SeqNo> {
    if (k, s) in cells then Some(s)
    else if s == 0 then None
    else Newest(cells, k, s - 1)
  }

  // What the records at (k, c) answer.
  function AnswerAt(l: Lsm, k: Key, c: SeqNo, tie: Tie): Option<Payload> {
    if tie == TombstoneWins && (k, c) in l.tombs then Some(Delete) else CellAt(l.cells, k, c)
  }

  // A snapshot of 0 asks for the latest version.
  function Read(l: Lsm, k: Key, snapshot: SeqNo, tie: Tie): Option<Payload> {
    match Newest(l.cells, k, if snapshot == 0 then l.top else snapshot)
    case Some(c) => AnswerAt(l, k, c, tie)
    case None => None
  }

  lemma {:induction false} NewestIs(cells: Cells, k: Key, s: SeqNo, c: SeqNo)
    requires c <= s && (k, c) in cells
    requires forall c' | c < c' <= s :: (k, c') !in cells
    ensures Newest(cells, k, s) == Some(c)
  {
    if c < s {
      NewestIs(cells, k, s - 1, c);
    }
  }

  lemma {:induction false} NewestIsNone(cells: Cells, k: Key, s: SeqNo)
    requires forall c: SeqNo | c <= s :: (k, c) !in cells
    ensures Newest(cells, k, s) == None
  {
    if s > 0 {
      NewestIsNone(cells, k, s - 1);
    }
  }
}
