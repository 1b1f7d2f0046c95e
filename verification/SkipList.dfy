/** The skip list under the MemTable: linked towers that must behave like one sorted map. */
module SkipLists {
  import opened Types

  const MAX_HEIGHT := 12

  // ---- the order ----

  // Says where transitivity is used; it holds of everything.
  predicate Chained<K>(a: K, b: K, c: K) {
    true
  }

  ghost predicate TotalPreorder<K(!new)>(cmp: (K, K) -> int) {
    && (forall a :: cmp(a, a) == 0)
    && (forall a, b :: cmp(a, b) < 0 <==> cmp(b, a) > 0)
    && (forall a, b, c {:trigger Chained(a, b, c)} :: cmp(a, b) <= 0 && cmp(b, c) <= 0 ==> cmp(a, c) <= 0)
  }

  lemma StrictStep<K(!new)>(cmp: (K, K) -> int, a: K, b: K, c: K)
    requires TotalPreorder(cmp) && cmp(a, b) <= 0 && cmp(b, c) <= 0
    requires cmp(a, b) < 0 || cmp(b, c) < 0
    ensures cmp(a, c) < 0
  {
    assert Chained(a, b, c) && Chained(c, a, b) && Chained(b, c, a);
  }

  lemma SameClass<K(!new)>(cmp: (K, K) -> int, a: K, b: K, c: K)
    requires TotalPreorder(cmp) && cmp(a, b) == 0 && (cmp(b, c) == 0 || cmp(c, b) == 0)
    ensures cmp(a, c) == 0 && cmp(c, a) == 0
  {
    assert Chained(a, b, c) && Chained(c, b, a);
  }

  // ---- a sorted map as the sequence of its entries ----

  predicate SortedBy<K, V>(s: seq<(K, V)>, cmp: (K, K) -> int) {
    forall i, j | 0 <= i < j < |s| :: cmp(s[i].0, s[j].0) < 0
  }

  // How many entries lie before k.
  function LowerBound<K, V>(s: seq<(K, V)>, cmp: (K, K) -> int, k: K): (n: nat)
    ensures n <= |s|
    ensures forall i | 0 <= i < n :: cmp(s[i].0, k) < 0
    ensures n < |s| ==> cmp(s[n].0, k) >= 0
  {
    if s == [] || cmp(s[0].0, k) >= 0 then 0 else 1 + LowerBound(s[1..], cmp, k)
  }

  predicate Has<K, V>(s: seq<(K, V)>, cmp: (K, K) -> int, k: K) {
    var n := LowerBound(s, cmp, k);
    n < |s| && cmp(s[n].0, k) == 0
  }

  function Lookup<K, V>(s: seq<(K, V)>, cmp: (K, K) -> int, k: K): Option<V> {
    if Has(s, cmp, k) then Some(s[LowerBound(s, cmp, k)].1) else None
  }

  // An equal key keeps its first spelling and gets the new value.
  function PutEntry<K, V>(s: seq<(K, V)>, cmp: (K, K) -> int, k: K, v: V): seq<(K, V)> {
    var n := LowerBound(s, cmp, k);
    if Has(s, cmp, k) then s[n := (s[n].0, v)] else s[..n] + [(k, v)] + s[n..]
  }

  function RemoveEntry<K, V>(s: seq<(K, V)>, cmp: (K, K) -> int, k: K): seq<(K, V)> {
    var n := LowerBound(s, cmp, k);
    if Has(s, cmp, k) then s[..n] + s[n + 1..] else s
  }

  lemma BoundIs<K, V>(s: seq<(K, V)>, cmp: (K, K) -> int, k: K, n: nat)
    requires n <= |s| && (forall i | 0 <= i < n :: cmp(s[i].0, k) < 0)
    requires n < |s| ==> cmp(s[n].0, k) >= 0
    ensures LowerBound(s, cmp, k) == n
  {
  }

  // Everything from the bound on is at or after k.
  lemma AfterBound<K(!new), V>(s: seq<(K, V)>, cmp: (K, K) -> int, k: K, i: nat)
    requires TotalPreorder(cmp) && SortedBy(s, cmp) && LowerBound(s, cmp, k) <= i < |s|
    ensures cmp(s[i].0, k) >= 0
    ensures cmp(s[i].0, k) == 0 ==> i == LowerBound(s, cmp, k)
  {
    var n := LowerBound(s, cmp, k);
    if n < i {
      StrictStep(cmp, k, s[n].0, s[i].0);
    }
  }

  lemma HasMeans<K(!new), V>(s: seq<(K, V)>, cmp: (K, K) -> int, k: K)
    requires TotalPreorder(cmp) && SortedBy(s, cmp)
    ensures Has(s, cmp, k) <==> exists i :: 0 <= i < |s| && cmp(s[i].0, k) == 0
    ensures forall i | 0 <= i < |s| && cmp(s[i].0, k) == 0 :: Lookup(s, cmp, k) == Some(s[i].1)
  {
    forall i | 0 <= i < |s| && cmp(s[i].0, k) == 0
      ensures i == LowerBound(s, cmp, k)
    {
      if LowerBound(s, cmp, k) <= i {
        AfterBound(s, cmp, k, i);
      }
    }
  }

  // Lookups depend only on which entries of the key's class there are.
  lemma SameEntriesSameLookup<K(!new), V>(s: seq<(K, V)>, s': seq<(K, V)>, cmp: (K, K) -> int, x: K)
    requires TotalPreorder(cmp) && SortedBy(s, cmp) && SortedBy(s', cmp)
    requires forall e: (K, V) | cmp(e.0, x) == 0 :: e in s <==> e in s'
    ensures Lookup(s', cmp, x) == Lookup(s, cmp, x)
  {
    if Has(s, cmp, x) {
      LookupCarriesOver(s, s', cmp, x);
    } else if Has(s', cmp, x) {
      LookupCarriesOver(s', s, cmp, x);
    }
  }

  lemma LookupCarriesOver<K(!new), V>(s: seq<(K, V)>, s': seq<(K, V)>, cmp: (K, K) -> int, x: K)
    requires TotalPreorder(cmp) && SortedBy(s', cmp) && Has(s, cmp, x)
    requires forall e: (K, V) | cmp(e.0, x) == 0 :: e in s ==> e in s'
    ensures Has(s', cmp, x) && Lookup(s', cmp, x) == Lookup(s, cmp, x)
  {
    HasMeans(s', cmp, x);
    assert s[LowerBound(s, cmp, x)] in s';
  }

  // PutEntry and RemoveEntry make a sorted map: sorted again, and every key reads as it should.
  lemma PutIsMapUpdate<K(!new), V>(s: seq<(K, V)>, cmp: (K, K) -> int, k: K, v: V, x: K)
    requires TotalPreorder(cmp) && SortedBy(s, cmp)
    ensures SortedBy(PutEntry(s, cmp, k, v), cmp)
    ensures Lookup(PutEntry(s, cmp, k, v), cmp, x) == if cmp(x, k) == 0 then Some(v) else Lookup(s, cmp, x)
  {
    PutSorted(s, cmp, k, v);
    var n, s' := LowerBound(s, cmp, k), PutEntry(s, cmp, k, v);
    assert cmp(s'[n].0, k) == 0 && s'[n].1 == v;
    if cmp(x, k) == 0 {
      SameClass(cmp, s'[n].0, k, x);
      HasMeans(s', cmp, x);
    } else {
      forall e: (K, V) | cmp(e.0, x) == 0
        ensures e in s <==> e in s'
      {
        PutKeepsEntry(s, cmp, k, v, x, e);
      }
      SameEntriesSameLookup(s, s', cmp, x);
    }
  }

  lemma PutKeepsEntry<K(!new), V>(s: seq<(K, V)>, cmp: (K, K) -> int, k: K, v: V, x: K, e: (K, V))
    requires TotalPreorder(cmp) && cmp(e.0, x) == 0 && cmp(x, k) != 0
    ensures e in s <==> e in PutEntry(s, cmp, k, v)
  {
    var n := LowerBound(s, cmp, k);
    NotSameClass(cmp, e.0, x, k);
    if Has(s, cmp, k) {
      UpdateKeeps(s, n, (s[n].0, v), e);
    } else {
      assert s == s[..n] + s[n..];
    }
  }

  lemma NotSameClass<K(!new)>(cmp: (K, K) -> int, a: K, b: K, c: K)
    requires TotalPreorder(cmp) && cmp(a, b) == 0 && cmp(b, c) != 0
    ensures cmp(a, c) != 0
  {
    assert Chained(b, a, c) && Chained(c, a, b);
  }

  lemma UpdateKeeps<T>(s: seq<T>, n: nat, t: T, e: T)
    requires n < |s| && e != t && e != s[n]
    ensures e in s <==> e in s[n := t]
  {
    assert s == s[..n] + [s[n]] + s[n + 1..];
    assert s[n := t] == s[..n] + [t] + s[n + 1..];
  }

  lemma PutSorted<K(!new), V>(s: seq<(K, V)>, cmp: (K, K) -> int, k: K, v: V)
    requires TotalPreorder(cmp) && SortedBy(s, cmp)
    ensures SortedBy(PutEntry(s, cmp, k, v), cmp)
  {
    var n, s' := LowerBound(s, cmp, k), PutEntry(s, cmp, k, v);
    if !Has(s, cmp, k) {
      forall i, j | 0 <= i < j < |s'|
        ensures cmp(s'[i].0, s'[j].0) < 0
      {
        if i == n {
          AfterBound(s, cmp, k, j - 1);
        }
      }
    }
  }

  lemma RemoveKeepsEntry<K(!new), V>(s: seq<(K, V)>, cmp: (K, K) -> int, k: K, x: K, e: (K, V))
    requires TotalPreorder(cmp) && cmp(e.0, x) == 0 && cmp(x, k) != 0
    ensures e in s <==> e in RemoveEntry(s, cmp, k)
  {
    var n := LowerBound(s, cmp, k);
    NotSameClass(cmp, e.0, x, k);
    if Has(s, cmp, k) {
      assert s == s[..n] + [s[n]] + s[n + 1..];
    }
  }

  lemma RemoveSorted<K, V>(s: seq<(K, V)>, cmp: (K, K) -> int, k: K)
    requires SortedBy(s, cmp)
    ensures SortedBy(RemoveEntry(s, cmp, k), cmp)
  {
  }

  lemma RemoveIsMapRemoval<K(!new), V>(s: seq<(K, V)>, cmp: (K, K) -> int, k: K, x: K)
    requires TotalPreorder(cmp) && SortedBy(s, cmp)
    ensures SortedBy(RemoveEntry(s, cmp, k), cmp)
    ensures Lookup(RemoveEntry(s, cmp, k), cmp, x) == if cmp(x, k) == 0 then None else Lookup(s, cmp, x)
  {
    RemoveSorted(s, cmp, k);
    var n, s' := LowerBound(s, cmp, k), RemoveEntry(s, cmp, k);
    if cmp(x, k) == 0 {
      forall i | 0 <= i < |s'|
        ensures cmp(s'[i].0, x) != 0
      {
        OthersElsewhere(s, cmp, k, if Has(s, cmp, k) && n <= i then i + 1 else i);
        NotSameClass(cmp, x, k, s'[i].0);
      }
      HasMeans(s', cmp, x);
    } else {
      forall e: (K, V) | cmp(e.0, x) == 0
        ensures e in s <==> e in s'
      {
        RemoveKeepsEntry(s, cmp, k, x, e);
      }
      SameEntriesSameLookup(s, s', cmp, x);
    }
  }

  // Only the entry at the bound can equal k.
  lemma OthersElsewhere<K(!new), V>(s: seq<(K, V)>, cmp: (K, K) -> int, k: K, i: nat)
    requires TotalPreorder(cmp) && SortedBy(s, cmp)
    requires i < |s| && !(Has(s, cmp, k) && i == LowerBound(s, cmp, k))
    ensures cmp(s[i].0, k) != 0 && cmp(k, s[i].0) != 0
  {
    if LowerBound(s, cmp, k) <= i {
      AfterBound(s, cmp, k, i);
    }
  }

  // ---- towers ----

  // The next place after i whose tower reaches above level l, or the end.
  function NextAt(h: seq<nat>, i: nat, l: nat): (j: nat)
    requires i < |h|
    ensures i < j <= |h| && (j < |h| ==> h[j] > l)
    ensures forall m | i < m < j :: h[m] <= l
    decreases |h| - i
  {
    if i + 1 == |h| || h[i + 1] > l then i + 1 else NextAt(h, i + 1, l)
  }

  // The last place before `pos` whose tower reaches above level l.
  predicate IsPrev(h: seq<nat>, pos: nat, l: nat, p: nat) {
    p < pos <= |h| && h[p] > l && forall m | p < m < pos :: h[m] <= l
  }

  lemma NextAtIs(h: seq<nat>, i: nat, l: nat, j: nat)
    requires i < j <= |h| && (j < |h| ==> h[j] > l) && forall m | i < m < j :: h[m] <= l
    ensures NextAt(h, i, l) == j
  {
  }

  // The last tower before pos is the only one whose next place is not before pos.
  lemma PrevIsLastBefore(h: seq<nat>, pos: nat, l: nat, p: nat, i: nat)
    requires IsPrev(h, pos, l, p) && i < |h| && h[i] > l
    ensures i < pos && NextAt(h, i, l) >= pos <==> i == p
  {
  }

  // Links after a tower is put in at pos ...
  lemma NextAfterInsert(h: seq<nat>, pos: nat, height: nat, i: nat, l: nat)
    requires i < |h| && pos <= |h|
    ensures var h' := InsertAt(h, pos, height);
            var n := NextAt(h, i, l);
            if i >= pos then NextAt(h', i + 1, l) == n + 1
            else NextAt(h', i, l) == if n < pos then n else if l < height then pos else n + 1
  {
    var h' := InsertAt(h, pos, height);
    var n := NextAt(h, i, l);
    if i >= pos {
      NextAtIs(h', i + 1, l, n + 1);
    } else if n < pos {
      NextAtIs(h', i, l, n);
    } else if l < height {
      NextAtIs(h', i, l, pos);
    } else {
      NextAtIs(h', i, l, n + 1);
    }
  }

  // ... and the links of the new tower itself.
  lemma NextOfInserted(h: seq<nat>, pos: nat, height: nat, l: nat, p: nat)
    requires IsPrev(h, pos, l, p)
    ensures NextAt(InsertAt(h, pos, height), pos, l) == NextAt(h, p, l) + 1
  {
    NextAtIs(InsertAt(h, pos, height), pos, l, NextAt(h, p, l) + 1);
  }

  // Links after the tower at pos is taken out.
  lemma NextAfterRemove(h: seq<nat>, pos: nat, i: nat, l: nat)
    requires i < |h| && pos < |h| && i != pos
    ensures var h' := RemoveAt(h, pos);
            var n := NextAt(h, i, l);
            if i > pos then NextAt(h', i - 1, l) == n - 1
            else NextAt(h', i, l) == if n < pos then n else if n == pos then NextAt(h, pos, l) - 1 else n - 1
  {
    var h' := RemoveAt(h, pos);
    assert InsertAt(h', pos, h[pos]) == h;
    NextAfterInsert(h', pos, h[pos], if i < pos then i else i - 1, l);
    if i < pos && NextAt(h, i, l) == pos {
      NextPastRemoved(h, pos, i, l);
    }
  }

  lemma NextPastRemoved(h: seq<nat>, pos: nat, i: nat, l: nat)
    requires i < pos < |h| && NextAt(h, i, l) == pos
    ensures NextAt(RemoveAt(h, pos), i, l) == NextAt(h, pos, l) - 1
  {
    NextAtIs(RemoveAt(h, pos), i, l, NextAt(h, pos, l) - 1);
  }

  // The places met by following level l from place i.
  function Level(h: seq<nat>, i: nat, l: nat): seq<nat>
    requires i < |h|
    decreases |h| - i
  {
    var n := NextAt(h, i, l);
    if n == |h| then [] else [n] + Level(h, n, l)
  }

  // A level is the ascending list of the towers that reach it, so a sublist of the level below.
  lemma {:induction false} LevelIsSublist(h: seq<nat>, i: nat, l: nat, j: nat)
    requires i < |h|
    ensures j in Level(h, i, l) <==> i < j < |h| && h[j] > l
    ensures forall a, b | 0 <= a < b < |Level(h, i, l)| :: Level(h, i, l)[a] < Level(h, i, l)[b]
    ensures forall a | 0 <= a < |Level(h, i, l)| :: Level(h, i, l)[a] > i
    decreases |h| - i
  {
    var n := NextAt(h, i, l);
    if n < |h| {
      LevelIsSublist(h, n, l, j);
      assert j in Level(h, i, l) <==> j == n || j in Level(h, n, l);
    }
  }

  // ---- the list ----

  class Node<K, V> {
    const key: K
    var value: V
    var next: seq<Node?<K, V>>

    constructor (key: K, value: V, height: nat)
      ensures this.key == key && this.value == value && next == seq(height, _ => null)
    {
      this.key, this.value, next := key, value, seq(height, _ => null);
    }
  }

  function NodeAt<K, V>(row: seq<Node<K, V>>, i: nat): Node?<K, V> {
    if i < |row| then row[i] else null
  }

  // What the tower at place i points to: on each level the next tower that reaches it.
  function Tower<K, V>(row: seq<Node<K, V>>, h: seq<nat>, i: nat): (t: seq<Node?<K, V>>)
    requires i < |h|
    ensures |t| == h[i] && forall l | 0 <= l < h[i] :: t[l] == NodeAt(row, NextAt(h, i, l))
  {
    seq(h[i], l requires l >= 0 => NodeAt(row, NextAt(h, i, l)))
  }

  // The same while x is being linked in behind the places `at`, with n levels done.
  function TowerWith<K, V>(row: seq<Node<K, V>>, h: seq<nat>, i: nat, x: Node<K, V>, at: seq<nat>, n: nat): (t: seq<Node?<K, V>>)
    requires i < |h| && n <= |at|
    ensures |t| == h[i]
    ensures forall l | 0 <= l < h[i] :: t[l] == if l < n && at[l] == i then x else NodeAt(row, NextAt(h, i, l))
  {
    seq(h[i], l requires l >= 0 => if l < n && at[l] == i then x else NodeAt(row, NextAt(h, i, l)))
  }

  // The tower of x itself, with n levels done.
  function NewTower<K, V>(row: seq<Node<K, V>>, h: seq<nat>, height: nat, at: seq<nat>, n: nat): (t: seq<Node?<K, V>>)
    requires n <= |at|
    ensures |t| == height
    ensures forall l | 0 <= l < height :: t[l] == if l < n && at[l] < |h| then NodeAt(row, NextAt(h, at[l], l)) else null
  {
    seq(height, l requires l >= 0 => if l < n && at[l] < |h| then NodeAt(row, NextAt(h, at[l], l)) else null)
  }

  lemma TowerStep<K, V>(row: seq<Node<K, V>>, h: seq<nat>, i: nat, x: Node<K, V>, at: seq<nat>, n: nat)
    requires i < |h| && n < |at| && (i == at[n] ==> n < h[i])
    ensures TowerWith(row, h, i, x, at, n + 1)
         == if i == at[n] then TowerWith(row, h, i, x, at, n)[n := x] else TowerWith(row, h, i, x, at, n)
  {
  }

  lemma NewTowerStep<K, V>(row: seq<Node<K, V>>, h: seq<nat>, height: nat, at: seq<nat>, n: nat)
    requires n < |at| && n < height && at[n] < |h|
    ensures NewTower(row, h, height, at, n + 1) == NewTower(row, h, height, at, n)[n := NodeAt(row, NextAt(h, at[n], n))]
  {
  }

  function InsertAt<T>(s: seq<T>, pos: nat, x: T): (r: seq<T>)
    requires pos <= |s|
    ensures |r| == |s| + 1
    ensures forall i {:trigger r[i]} | 0 <= i < |r| :: r[i] == if i < pos then s[i] else if i == pos then x else s[i - 1]
  {
    s[..pos] + [x] + s[pos..]
  }

  // The highest tower, but at least 1.
  predicate IsTop(h: seq<nat>, top: nat) {
    && 1 <= top <= MAX_HEIGHT
    && (forall i | 1 <= i < |h| :: h[i] <= top)
    && (top > 1 ==> exists i :: 1 <= i < |h| && h[i] == top)
  }

  lemma TopAfterInsert(h: seq<nat>, top: nat, pos: nat, height: nat)
    requires IsTop(h, top) && 1 <= pos <= |h| && 1 <= height <= MAX_HEIGHT
    ensures IsTop(InsertAt(h, pos, height), if height > top then height else top)
  {
    var h' := InsertAt(h, pos, height);
    if top > 1 && height < top {
      var i :| 1 <= i < |h| && h[i] == top;
      assert h'[if i < pos then i else i + 1] == top;
    } else {
      assert h'[pos] == height;
    }
    forall i | 1 <= i < |h'|
      ensures h'[i] <= if height > top then height else top
    {
      assert i == pos || h'[i] == h[if i < pos then i else i - 1];
    }
  }

  lemma MembersOfInsert<T>(s: seq<T>, pos: nat, x: T)
    requires pos <= |s|
    ensures forall y | y in InsertAt(s, pos, x) :: y == x || y in s
  {
  }

  function RemoveAt<T>(s: seq<T>, pos: nat): (r: seq<T>)
    requires pos < |s|
    ensures |r| == |s| - 1
    ensures forall i {:trigger r[i]} | 0 <= i < |r| :: r[i] == s[if i < pos then i else i + 1]
  {
    s[..pos] + s[pos + 1..]
  }

  lemma RemainsAt<T>(s: seq<T>, pos: nat, i: nat)
    requires pos < |s| && i < |s| - 1
    ensures RemoveAt(s, pos)[i] == s[if i < pos then i else i + 1]
  {
  }

  predicate Distinct<T(==)>(row: seq<T>) {
    forall i, j | 0 <= i < j < |row| :: row[i] != row[j]
  }

  // All but the head in key order.
  predicate InOrder<K, V>(row: seq<Node<K, V>>, cmp: (K, K) -> int) {
    forall i, j | 1 <= i < j < |row| :: cmp(row[i].key, row[j].key) < 0
  }

  // pos is the place of the first entry at or after key.
  predicate IsBound<K, V>(row: seq<Node<K, V>>, cmp: (K, K) -> int, key: K, pos: nat) {
    && 1 <= pos <= |row|
    && (forall i | 1 <= i < pos :: cmp(row[i].key, key) < 0)
    && (pos < |row| ==> cmp(row[pos].key, key) >= 0)
  }

  // Place p is before key, and what follows it on level l is not.
  predicate Passed<K, V>(row: seq<Node<K, V>>, h: seq<nat>, cmp: (K, K) -> int, key: K, l: nat, p: nat) {
    && p < |row| == |h| && h[p] > l
    && (p == 0 || cmp(row[p].key, key) < 0)
    && (NextAt(h, p, l) < |row| ==> cmp(row[NextAt(h, p, l)].key, key) >= 0)
  }

  lemma PassedIsPrev<K(!new), V>(row: seq<Node<K, V>>, h: seq<nat>, cmp: (K, K) -> int, key: K, pos: nat, l: nat, p: nat)
    requires TotalPreorder(cmp) && InOrder(row, cmp)
    requires IsBound(row, cmp, key, pos) && Passed(row, h, cmp, key, l, p)
    ensures IsPrev(h, pos, l, p)
  {
    if pos <= p {
      BeforeUpTo(row, cmp, key, p);
    }
  }

  lemma BeforeUpTo<K(!new), V>(row: seq<Node<K, V>>, cmp: (K, K) -> int, key: K, n: nat)
    requires TotalPreorder(cmp) && InOrder(row, cmp) && n < |row| && cmp(row[n].key, key) < 0
    ensures forall m | 1 <= m <= n :: cmp(row[m].key, key) < 0
  {
    forall m | 1 <= m < n
      ensures cmp(row[m].key, key) < 0
    {
      StrictStep(cmp, row[m].key, row[n].key, key);
    }
  }

  lemma BoundAfter<K(!new), V>(row: seq<Node<K, V>>, cmp: (K, K) -> int, key: K, i: nat)
    requires TotalPreorder(cmp) && InOrder(row, cmp) && i < |row|
    requires i == 0 || cmp(row[i].key, key) < 0
    requires i + 1 < |row| ==> cmp(row[i + 1].key, key) >= 0
    ensures IsBound(row, cmp, key, i + 1)
  {
    if i > 0 {
      BeforeUpTo(row, cmp, key, i);
    }
  }

  // What the search has recorded for the levels from `level` up.
  predicate Recorded<K, V>(row: seq<Node<K, V>>, h: seq<nat>, cmp: (K, K) -> int, key: K, level: nat,
                           prev: seq<Node<K, V>>, at: seq<nat>) {
    |prev| == |at| && forall t | 0 <= t < |at| :: Passed(row, h, cmp, key, level + t, at[t]) && prev[t] == row[at[t]]
  }

  lemma RecordOne<K, V>(row: seq<Node<K, V>>, h: seq<nat>, cmp: (K, K) -> int, key: K, level: nat,
                        prev: seq<Node<K, V>>, at: seq<nat>, p: nat)
    requires Recorded(row, h, cmp, key, level + 1, prev, at) && Passed(row, h, cmp, key, level, p)
    ensures Recorded(row, h, cmp, key, level, [row[p]] + prev, [p] + at)
  {
    forall t | 0 <= t < |[p] + at|
      ensures Passed(row, h, cmp, key, level + t, ([p] + at)[t]) && ([row[p]] + prev)[t] == row[([p] + at)[t]]
    {
      if t > 0 {
        assert Passed(row, h, cmp, key, level + 1 + (t - 1), at[t - 1]);
      }
    }
  }

  predicate Found<K, V>(row: seq<Node<K, V>>, h: seq<nat>, pos: nat, prev: seq<Node<K, V>>, at: seq<nat>) {
    |prev| == |at| && forall l | 0 <= l < |at| :: IsPrev(h, pos, l, at[l]) && |row| == |h| && prev[l] == row[at[l]]
  }

  lemma RecordedIsFound<K(!new), V>(row: seq<Node<K, V>>, h: seq<nat>, cmp: (K, K) -> int, key: K, pos: nat,
                              prev: seq<Node<K, V>>, at: seq<nat>)
    requires TotalPreorder(cmp) && InOrder(row, cmp)
    requires IsBound(row, cmp, key, pos) && Recorded(row, h, cmp, key, 0, prev, at) && |row| == |h|
    ensures Found(row, h, pos, prev, at)
  {
    forall l | 0 <= l < |at|
      ensures IsPrev(h, pos, l, at[l])
    {
      PassedIsPrev(row, h, cmp, key, pos, l, at[l]);
    }
  }

  // Once all levels are done, these are the towers of the row with x in it.
  lemma NewTowerLinked<K, V>(row: seq<Node<K, V>>, h: seq<nat>, pos: nat, x: Node<K, V>, height: nat, at: seq<nat>)
    requires |row| == |h| && pos <= |h| && height == |at|
    requires forall l | 0 <= l < height :: IsPrev(h, pos, l, at[l])
    ensures Tower(InsertAt(row, pos, x), InsertAt(h, pos, height), pos) == NewTower(row, h, height, at, height)
  {
    var row', h' := InsertAt(row, pos, x), InsertAt(h, pos, height);
    forall l | 0 <= l < height
      ensures NodeAt(row', NextAt(h', pos, l)) == NodeAt(row, NextAt(h, at[l], l))
    {
      NextOfInserted(h, pos, height, l, at[l]);
    }
  }

  lemma OldTowerLinked<K, V>(row: seq<Node<K, V>>, h: seq<nat>, pos: nat, x: Node<K, V>, height: nat, at: seq<nat>, i: nat)
    requires |row| == |h| && pos <= |h| && height == |at| && i < |h|
    requires forall l | 0 <= l < height :: IsPrev(h, pos, l, at[l])
    ensures Tower(InsertAt(row, pos, x), InsertAt(h, pos, height), if i < pos then i else i + 1)
         == TowerWith(row, h, i, x, at, height)
  {
    var row', h' := InsertAt(row, pos, x), InsertAt(h, pos, height);
    forall l | 0 <= l < h[i]
      ensures NodeAt(row', NextAt(h', if i < pos then i else i + 1, l)) == TowerWith(row, h, i, x, at, height)[l]
    {
      InsertedLink(row, h, pos, x, height, at, i, l);
    }
  }

  lemma InsertedLink<K, V>(row: seq<Node<K, V>>, h: seq<nat>, pos: nat, x: Node<K, V>, height: nat, at: seq<nat>, i: nat, l: nat)
    requires |row| == |h| && pos <= |h| && height == |at| && i < |h| && l < h[i]
    requires forall m | 0 <= m < height :: IsPrev(h, pos, m, at[m])
    ensures NodeAt(InsertAt(row, pos, x), NextAt(InsertAt(h, pos, height), if i < pos then i else i + 1, l))
         == if l < height && at[l] == i then x else NodeAt(row, NextAt(h, i, l))
  {
    NextAfterInsert(h, pos, height, i, l);
    var n := NextAt(h, i, l);
    if i < pos && n >= pos && l < height {
      PrevIsLastBefore(h, pos, l, at[l], i);
      assert NodeAt(InsertAt(row, pos, x), pos) == x;
    } else {
      if l < height {
        PrevIsLastBefore(h, pos, l, at[l], i);
      }
      ShiftedNode(row, pos, x, n);
    }
  }

  lemma ShiftedNode<K, V>(row: seq<Node<K, V>>, pos: nat, x: Node<K, V>, n: nat)
    requires pos <= |row|
    ensures NodeAt(InsertAt(row, pos, x), if n < pos then n else n + 1) == NodeAt(row, n)
  {
  }

  // The same while the tower at pos is being unlinked, with n levels done.
  function TowerWithout<K, V>(row: seq<Node<K, V>>, h: seq<nat>, i: nat, pos: nat, n: nat): (t: seq<Node?<K, V>>)
    requires i < |h| && pos < |h|
    ensures |t| == h[i]
    ensures forall l | 0 <= l < h[i] ::
      t[l] == NodeAt(row, if l < n && NextAt(h, i, l) == pos then NextAt(h, pos, l) else NextAt(h, i, l))
  {
    seq(h[i], l requires l >= 0 =>
      NodeAt(row, if l < n && NextAt(h, i, l) == pos then NextAt(h, pos, l) else NextAt(h, i, l)))
  }

  // On each level only the last tower before pos can point to it.
  lemma UnlinkStep<K, V>(row: seq<Node<K, V>>, h: seq<nat>, i: nat, pos: nat, p: nat, n: nat)
    requires i < |h| && pos < |h| && IsPrev(h, pos, n, p)
    ensures TowerWithout(row, h, i, pos, n + 1)
         == if i == p && NextAt(h, p, n) == pos then TowerWithout(row, h, i, pos, n)[n := NodeAt(row, NextAt(h, pos, n))]
            else TowerWithout(row, h, i, pos, n)
  {
    if n < h[i] {
      PrevIsLastBefore(h, pos, n, p, i);
    }
  }

  // Once all levels are done, these are the towers of the row without the one at pos.
  lemma UnlinkedTower<K, V>(row: seq<Node<K, V>>, h: seq<nat>, pos: nat, i: nat, n: nat)
    requires |row| == |h| && pos < |h| && i < |h| && i != pos && h[i] <= n
    ensures Tower(RemoveAt(row, pos), RemoveAt(h, pos), if i < pos then i else i - 1) == TowerWithout(row, h, i, pos, n)
  {
    forall l | 0 <= l < h[i]
      ensures NodeAt(RemoveAt(row, pos), NextAt(RemoveAt(h, pos), if i < pos then i else i - 1, l))
           == TowerWithout(row, h, i, pos, n)[l]
    {
      UnlinkedLink(row, h, pos, i, l);
    }
  }

  lemma UnlinkedLink<K, V>(row: seq<Node<K, V>>, h: seq<nat>, pos: nat, i: nat, l: nat)
    requires |row| == |h| && pos < |h| && i < |h| && i != pos
    ensures NodeAt(RemoveAt(row, pos), NextAt(RemoveAt(h, pos), if i < pos then i else i - 1, l))
         == NodeAt(row, if NextAt(h, i, l) == pos then NextAt(h, pos, l) else NextAt(h, i, l))
  {
    var to := if NextAt(h, i, l) == pos then NextAt(h, pos, l) else NextAt(h, i, l);
    NextAfterRemove(h, pos, i, l);
    assert NextAt(RemoveAt(h, pos), if i < pos then i else i - 1, l) == if to < pos then to else to - 1;
    RemainingNode(row, pos, to);
  }

  lemma RemainingNode<K, V>(row: seq<Node<K, V>>, pos: nat, n: nat)
    requires pos < |row| && n != pos
    ensures NodeAt(RemoveAt(row, pos), if n < pos then n else n - 1) == NodeAt(row, n)
  {
  }

  lemma RemoveKeepsOrder<K, V>(row: seq<Node<K, V>>, cmp: (K, K) -> int, pos: nat)
    requires InOrder(row, cmp) && 1 <= pos < |row|
    ensures InOrder(RemoveAt(row, pos), cmp)
  {
    var row' := RemoveAt(row, pos);
    forall i, j | 1 <= i < j < |row'|
      ensures cmp(row'[i].key, row'[j].key) < 0
    {
      assert row'[i] == row[if i < pos then i else i + 1] && row'[j] == row[if j < pos then j else j + 1];
    }
  }

  lemma RemoveKeepsDistinct<T>(row: seq<T>, pos: nat)
    requires Distinct(row) && pos < |row|
    ensures Distinct(RemoveAt(row, pos))
    ensures forall y | y in RemoveAt(row, pos) :: y in row
  {
  }

  lemma EntriesOfRemove<K, V>(row: seq<Node<K, V>>, values: seq<V>, pos: nat)
    requires |row| == |values| && 1 <= pos < |row|
    ensures Entries(RemoveAt(row, pos), RemoveAt(values, pos)) == RemoveAt(Entries(row, values), pos - 1)
  {
    var row', values', s := RemoveAt(row, pos), RemoveAt(values, pos), Entries(row, values);
    forall i | 0 <= i < |row| - 2
      ensures Entries(row', values')[i] == RemoveAt(s, pos - 1)[i]
    {
      var j := if i + 1 < pos then i + 1 else i + 2;
      assert row'[i + 1] == row[j] && values'[i + 1] == values[j] && s[j - 1] == (row[j].key, values[j]);
    }
  }

  lemma InsertKeepsOrder<K(!new), V>(row: seq<Node<K, V>>, cmp: (K, K) -> int, pos: nat, x: Node<K, V>)
    requires TotalPreorder(cmp) && InOrder(row, cmp) && IsBound(row, cmp, x.key, pos)
    requires pos < |row| ==> cmp(row[pos].key, x.key) > 0
    ensures InOrder(InsertAt(row, pos, x), cmp)
  {
    var row' := InsertAt(row, pos, x);
    forall i, j | 1 <= i < j < |row'|
      ensures cmp(row'[i].key, row'[j].key) < 0
    {
      if i == pos && pos < j - 1 {
        StrictStep(cmp, x.key, row[pos].key, row[j - 1].key);
      }
    }
  }

  lemma InsertKeepsBounds(h: seq<nat>, pos: nat, height: nat)
    requires pos <= |h| && 1 <= height <= MAX_HEIGHT && forall i | 0 <= i < |h| :: 1 <= h[i] <= MAX_HEIGHT
    ensures forall i | 0 <= i <= |h| :: 1 <= InsertAt(h, pos, height)[i] <= MAX_HEIGHT
  {
  }

  lemma InsertKeepsDistinct<T>(row: seq<T>, pos: nat, x: T)
    requires Distinct(row) && pos <= |row| && x !in row
    ensures Distinct(InsertAt(row, pos, x))
  {
  }

  // The entries of a row, without the head.
  function Entries<K, V>(row: seq<Node<K, V>>, values: seq<V>): (s: seq<(K, V)>)
    requires |row| == |values| >= 1
    ensures |s| == |row| - 1 && forall i | 1 <= i < |row| :: s[i - 1] == (row[i].key, values[i])
  {
    seq(|row| - 1, i requires 0 <= i < |row| - 1 => (row[i + 1].key, values[i + 1]))
  }

  lemma EntriesOfInsert<K, V>(row: seq<Node<K, V>>, values: seq<V>, pos: nat, x: Node<K, V>, v: V)
    requires |row| == |values| && 1 <= pos <= |row|
    ensures Entries(InsertAt(row, pos, x), InsertAt(values, pos, v)) == InsertAt(Entries(row, values), pos - 1, (x.key, v))
  {
    var row', values', s := InsertAt(row, pos, x), InsertAt(values, pos, v), Entries(row, values);
    forall i | 0 <= i < |row|
      ensures Entries(row', values')[i] == InsertAt(s, pos - 1, (x.key, v))[i]
    {
      if i + 1 > pos {
        assert row'[i + 1] == row[i] && values'[i + 1] == values[i];
      }
    }
  }

  class SkipList<K(!new), V> {
    const cmp: (K, K) -> int
    const head: Node<K, V>
    var maxHeight: nat
    var count: nat
    // For the proofs: the head and all nodes in key order, their values, and how high their
    // towers are.
    ghost var row: seq<Node<K, V>>
    ghost var values: seq<V>
    ghost var heights: seq<nat>

    constructor (cmp: (K, K) -> int, noKey: K, noValue: V)
      requires TotalPreorder(cmp)
      ensures Valid() && fresh(set n | n in row) && this.cmp == cmp && Contents() == []
    {
      this.cmp := cmp;
      var h := new Node(noKey, noValue, MAX_HEIGHT);
      head := h;
      maxHeight, count := 1, 0;
      row, values, heights := [h], [noValue], [MAX_HEIGHT];
    }

    ghost predicate Shape()
      reads this, row
    {
      && |row| == |heights| == |values| >= 1 && row[0] == head && heights[0] == MAX_HEIGHT
      && (forall i | 0 <= i < |row| :: row[i].value == values[i])
      && Distinct(row)
      && (forall i | 0 <= i < |row| :: 1 <= heights[i] <= MAX_HEIGHT)
    }

    // Every level is the list of the towers that reach it, in the order of the level below.
    ghost predicate Linked()
      requires Shape()
      reads this, row
    {
      forall i | 0 <= i < |row| :: row[i].next == Tower(row, heights, i)
    }

    ghost predicate Valid()
      reads this, row
    {
      TotalPreorder(cmp) && Shape() && Linked() && InOrder(row, cmp) && IsTop(heights, maxHeight) && count == |row| - 1
    }

    ghost function Contents(): (s: seq<(K, V)>)
      requires |row| == |values| >= 1
      reads this
    {
      Entries(row, values)
    }

    lemma BoundIsLower(key: K, pos: nat)
      requires |row| == |values| && IsBound(row, cmp, key, pos)
      ensures LowerBound(Contents(), cmp, key) == pos - 1
      ensures Has(Contents(), cmp, key) <==> pos < |row| && cmp(row[pos].key, key) == 0
    {
      BoundIs(Contents(), cmp, key, pos - 1);
    }

    lemma BoundIsHere(key: K, pos: nat, here: nat)
      requires Valid() && IsBound(row, cmp, key, pos) && 1 <= here < |row| && row[here].key == key
      ensures pos == here
    {
      if pos < here {
        BeforeUpTo(row, cmp, key, pos);
      }
    }

    // The search leaves, per level, the last node before key.
    method FindGreaterOrEqual(key: K) returns (x: Node?<K, V>, prev: seq<Node<K, V>>, ghost at: seq<nat>, ghost pos: nat)
      requires Valid()
      ensures IsBound(row, cmp, key, pos) && x == NodeAt(row, pos)
      ensures |prev| == maxHeight && Found(row, heights, pos, prev, at)
    {
      var cur: Node<K, V>, level: nat := head, maxHeight - 1;
      ghost var i: nat, above: nat := 0, maxHeight;
      prev, at := [], [];
      while true
        invariant level < maxHeight && i < |row| && cur == row[i] && heights[i] > level
        invariant i == 0 || cmp(row[i].key, key) < 0
        invariant above == level + 1 && |prev| == |at| == maxHeight - above
        invariant Recorded(row, heights, cmp, key, above, prev, at)
        decreases level, |row| - i
      {
        var next := cur.next[level];
        ghost var n := NextAt(heights, i, level);
        assert next == NodeAt(row, n);
        if next != null && cmp(next.key, key) < 0 {
          cur, i := next, n;
        } else {
          RecordOne(row, heights, cmp, key, level, prev, at, i);
          prev, at := [cur] + prev, [i] + at;
          if level == 0 {
            x, pos := next, n;
            break;
          }
          above := level;
          level := level - 1;
        }
      }
      BoundAfter(row, cmp, key, i);
      RecordedIsFound(row, heights, cmp, key, pos, prev, at);
    }

    // The last node before key, or the head.
    method FindLessThan(key: K) returns (x: Node<K, V>, ghost pos: nat)
      requires Valid()
      ensures IsBound(row, cmp, key, pos) && x == row[pos - 1]
    {
      var level: nat := maxHeight - 1;
      ghost var i: nat := 0;
      x := head;
      while true
        invariant level < maxHeight && i < |row| && x == row[i] && heights[i] > level
        invariant i == 0 || cmp(row[i].key, key) < 0
        decreases level, |row| - i
      {
        var next := x.next[level];
        ghost var n := NextAt(heights, i, level);
        if next != null && cmp(next.key, key) < 0 {
          x, i := next, n;
        } else if level == 0 {
          pos := n;
          BoundAfter(row, cmp, key, i);
          return;
        } else {
          level := level - 1;
        }
      }
    }

    method FindLast() returns (x: Node<K, V>)
      requires Valid()
      ensures x == row[|row| - 1]
    {
      var level: nat := maxHeight - 1;
      ghost var i: nat := 0;
      x := head;
      while true
        invariant level < maxHeight && i < |row| && x == row[i] && heights[i] > level
        decreases level, |row| - i
      {
        var next := x.next[level];
        if next != null {
          x, i := next, NextAt(heights, i, level);
        } else if level == 0 {
          return;
        } else {
          level := level - 1;
        }
      }
    }

    method Insert(key: K, value: V, height: nat)
      requires Valid() && 1 <= height <= MAX_HEIGHT
      modifies this, row
      ensures Valid() && (forall n | n in row :: n in old(row) || fresh(n))
      ensures Contents() == PutEntry(old(Contents()), cmp, key, value)
    {
      var x, prev, at, pos := FindGreaterOrEqual(key);
      BoundIsLower(key, pos);
      if x != null && cmp(x.key, key) == 0 {
        SetValue(x, value, pos);
      } else {
        LinkNew(key, value, height, prev, at, pos);
      }
    }

    method SetValue(x: Node<K, V>, value: V, ghost pos: nat)
      requires Valid() && 1 <= pos < |row| && row[pos] == x
      modifies x`value, this`values
      ensures Valid() && row == old(row) && Contents() == old(Contents())[pos - 1 := (x.key, value)]
    {
      x.value := value;
      values := values[pos := value];
      assert forall i | 0 <= i < |row| && i != pos :: row[i] != x;
    }

    // Takes the new node's tower into every level it reaches.
    method LinkNew(key: K, value: V, height: nat, found: seq<Node<K, V>>, ghost foundAt: seq<nat>, ghost pos: nat)
      requires Valid() && 1 <= height <= MAX_HEIGHT && IsBound(row, cmp, key, pos)
      requires pos < |row| ==> cmp(row[pos].key, key) > 0
      requires |found| == maxHeight && Found(row, heights, pos, found, foundAt)
      modifies this, row
      ensures Valid() && (forall n | n in row :: n in old(row) || fresh(n))
      ensures Contents() == InsertAt(old(Contents()), pos - 1, (key, value))
    {
      var prev, at := UpToHeight(height, found, foundAt, pos);
      ghost var top := maxHeight;
      if height > maxHeight {
        maxHeight := height;
      }
      var x := new Node(key, value, height);
      LinkIn(x, value, height, prev, at, pos, top);
    }

    method LinkIn(x: Node<K, V>, value: V, height: nat, prev: seq<Node<K, V>>, ghost at: seq<nat>, ghost pos: nat, ghost top: nat)
      requires TotalPreorder(cmp) && Shape() && Linked() && InOrder(row, cmp) && IsTop(heights, top) && x !in row
      requires 1 <= height <= MAX_HEIGHT && height == |at| <= |prev| && x.next == seq(height, _ => null)
      requires maxHeight == (if height > top then height else top) && count == |row| - 1 && x.value == value
      requires IsBound(row, cmp, x.key, pos) && (pos < |row| ==> cmp(row[pos].key, x.key) > 0)
      requires forall l | 0 <= l < height :: IsPrev(heights, pos, l, at[l]) && prev[l] == row[at[l]]
      modifies this, x`next, row`next
      ensures Valid() && forall n | n in row :: n == x || n in old(row)
      ensures Contents() == InsertAt(old(Contents()), pos - 1, (x.key, value))
    {
      Splice(x, height, prev, at);
      count := count + 1;
      Adopt(x, value, height, at, pos, top);
    }

    // With x linked in everywhere, the row includes it.
    ghost method Adopt(x: Node<K, V>, value: V, height: nat, at: seq<nat>, pos: nat, top: nat)
      requires TotalPreorder(cmp) && Shape() && InOrder(row, cmp) && IsTop(heights, top) && x !in row
      requires 1 <= height <= MAX_HEIGHT && height == |at| && Splicing(x, height, at, height)
      requires maxHeight == (if height > top then height else top) && count == |row| && x.value == value
      requires IsBound(row, cmp, x.key, pos) && (pos < |row| ==> cmp(row[pos].key, x.key) > 0)
      requires forall l | 0 <= l < height :: IsPrev(heights, pos, l, at[l])
      modifies this`row, this`values, this`heights
      ensures Valid() && forall n | n in row :: n == x || n in old(row)
      ensures Contents() == InsertAt(old(Contents()), pos - 1, (x.key, value))
    {
      InsertedRow(x, value, height, at, pos, top);
      MembersOfInsert(row, pos, x);
      EntriesOfInsert(row, values, pos, x, value);
      Install(InsertAt(row, pos, x), InsertAt(values, pos, value), InsertAt(heights, pos, height));
    }

    // A row, its values and its tower heights describe the linked nodes ...
    ghost predicate DescribesBelow(row': seq<Node<K, V>>, values': seq<V>, h': seq<nat>)
      reads this, row'
    {
      && |row'| == |h'| == |values'| >= 1 && (forall i | 0 <= i < |row'| :: row'[i].value == values'[i])
      && row'[0] == head && h'[0] == MAX_HEIGHT && Distinct(row')
      && (forall i | 0 <= i < |h'| :: 1 <= h'[i] <= MAX_HEIGHT)
      && (forall i | 0 <= i < |row'| :: row'[i].next == Tower(row', h', i))
      && InOrder(row', cmp) && count == |row'| - 1
      && 1 <= maxHeight <= MAX_HEIGHT && (forall i | 1 <= i < |h'| :: h'[i] <= maxHeight)
    }

    // ... with the right height.
    ghost predicate Describes(row': seq<Node<K, V>>, values': seq<V>, h': seq<nat>)
      reads this, row'
    {
      DescribesBelow(row', values', h') && IsTop(h', maxHeight)
    }

    // Gives up the levels no tower reaches any more.
    method LowerTop(ghost row': seq<Node<K, V>>, ghost values': seq<V>, ghost h': seq<nat>)
      requires DescribesBelow(row', values', h')
      modifies this`maxHeight
      ensures Describes(row', values', h')
    {
      while maxHeight > 1 && head.next[maxHeight - 1] == null
        invariant DescribesBelow(row', values', h')
        decreases maxHeight
      {
        assert head.next[maxHeight - 1] == NodeAt(row', NextAt(h', 0, maxHeight - 1));
        maxHeight := maxHeight - 1;
      }
      if maxHeight > 1 {
        assert head.next[maxHeight - 1] == NodeAt(row', NextAt(h', 0, maxHeight - 1));
        assert h'[NextAt(h', 0, maxHeight - 1)] == maxHeight;
      }
    }

    ghost method Install(row': seq<Node<K, V>>, values': seq<V>, h': seq<nat>)
      requires TotalPreorder(cmp) && Describes(row', values', h')
      modifies this`row, this`values, this`heights
      ensures Valid() && row == row' && values == values'
    {
      row, values, heights := row', values', h';
    }

    lemma InsertedRow(x: Node<K, V>, value: V, height: nat, at: seq<nat>, pos: nat, top: nat)
      requires TotalPreorder(cmp) && Shape() && InOrder(row, cmp) && IsTop(heights, top) && x !in row
      requires 1 <= height <= MAX_HEIGHT && height == |at| && Splicing(x, height, at, height)
      requires maxHeight == (if height > top then height else top) && count == |row|
      requires IsBound(row, cmp, x.key, pos) && (pos < |row| ==> cmp(row[pos].key, x.key) > 0)
      requires forall l | 0 <= l < height :: IsPrev(heights, pos, l, at[l])
      requires x.value == value
      ensures Describes(InsertAt(row, pos, x), InsertAt(values, pos, value), InsertAt(heights, pos, height))
    {
      LinkedEverywhere(x, height, at, pos);
      TopAfterInsert(heights, top, pos, height);
      InsertKeepsOrder(row, cmp, pos, x);
      InsertKeepsDistinct(row, pos, x);
      InsertKeepsBounds(heights, pos, height);
    }

    // Above the list's own height the head is the last node before any key.
    method UpToHeight(height: nat, found: seq<Node<K, V>>, ghost foundAt: seq<nat>, ghost pos: nat)
      returns (prev: seq<Node<K, V>>, ghost at: seq<nat>)
      requires Shape() && IsTop(heights, maxHeight) && height <= MAX_HEIGHT && 1 <= pos <= |row|
      requires |found| == maxHeight && Found(row, heights, pos, found, foundAt)
      ensures |at| == height <= |prev|
      ensures forall l | 0 <= l < height :: IsPrev(heights, pos, l, at[l]) && prev[l] == row[at[l]]
    {
      prev, at := found, foundAt;
      while |prev| < height
        invariant maxHeight <= |prev| && (|prev| <= height || |prev| == maxHeight)
        invariant Found(row, heights, pos, prev, at)
      {
        prev, at := prev + [head], at + [0];
      }
      at := at[..height];
    }

    lemma LinkedAgain(x: Node<K, V>, height: nat, at: seq<nat>, pos: nat, i: nat)
      requires Splicing(x, height, at, height) && height == |at| && pos <= |row| && i <= |row|
      requires forall l | 0 <= l < height :: IsPrev(heights, pos, l, at[l])
      ensures InsertAt(row, pos, x)[i].next == Tower(InsertAt(row, pos, x), InsertAt(heights, pos, height), i)
    {
      if i == pos {
        NewTowerLinked(row, heights, pos, x, height, at);
      } else {
        OldLinkedAgain(x, height, at, pos, i);
      }
    }

    lemma OldLinkedAgain(x: Node<K, V>, height: nat, at: seq<nat>, pos: nat, i: nat)
      requires Splicing(x, height, at, height) && height == |at| && pos <= |row| && i <= |row| && i != pos
      requires forall l | 0 <= l < height :: IsPrev(heights, pos, l, at[l])
      ensures row[if i < pos then i else i - 1].next == Tower(InsertAt(row, pos, x), InsertAt(heights, pos, height), i)
    {
      var j := if i < pos then i else i - 1;
      assert row[j].next == TowerWith(row, heights, j, x, at, height);
      OldTowerLinked(row, heights, pos, x, height, at, j);
    }

    lemma LinkedEverywhere(x: Node<K, V>, height: nat, at: seq<nat>, pos: nat)
      requires Splicing(x, height, at, height) && height == |at| && pos <= |row|
      requires forall l | 0 <= l < height :: IsPrev(heights, pos, l, at[l])
      ensures var row', h' := InsertAt(row, pos, x), InsertAt(heights, pos, height);
              forall i | 0 <= i < |row'| :: row'[i].next == Tower(row', h', i)
    {
      forall i: nat | i <= |row|
        ensures InsertAt(row, pos, x)[i].next == Tower(InsertAt(row, pos, x), InsertAt(heights, pos, height), i)
      {
        LinkedAgain(x, height, at, pos, i);
      }
    }

    // x is linked in on the first n levels.
    ghost predicate Splicing(x: Node<K, V>, height: nat, at: seq<nat>, n: nat)
      reads this, row, x
    {
      && |row| == |heights| && n <= |at|
      && x.next == NewTower(row, heights, height, at, n)
      && (forall i | 0 <= i < |row| :: row[i].next == TowerWith(row, heights, i, x, at, n))
    }

    // x goes between prev[l] and its successor on every level l it reaches.
    method Splice(x: Node<K, V>, height: nat, prev: seq<Node<K, V>>, ghost at: seq<nat>)
      requires Shape() && Linked() && x !in row && x.next == seq(height, _ => null) && height == |at| <= |prev|
      requires forall l | 0 <= l < height :: at[l] < |row| && prev[l] == row[at[l]] && heights[at[l]] > l
      modifies x`next, row`next
      ensures Splicing(x, height, at, height)
    {
      NothingSpliced(x, height, at);
      for n := 0 to height
        invariant Splicing(x, height, at, n)
      {
        SpliceLevel(x, height, prev[n], at, n);
      }
    }

    lemma NothingSpliced(x: Node<K, V>, height: nat, at: seq<nat>)
      requires Shape() && Linked() && x.next == seq(height, _ => null)
      ensures Splicing(x, height, at, 0)
    {
      forall i | 0 <= i < |row|
        ensures row[i].next == TowerWith(row, heights, i, x, at, 0)
      {
        assert Tower(row, heights, i) == TowerWith(row, heights, i, x, at, 0);
      }
    }

    method SpliceLevel(x: Node<K, V>, height: nat, p: Node<K, V>, ghost at: seq<nat>, n: nat)
      requires Splicing(x, height, at, n) && Distinct(row) && x !in row && n < height == |at|
      requires at[n] < |row| && p == row[at[n]] && heights[at[n]] > n
      modifies x`next, p`next
      ensures Splicing(x, height, at, n + 1)
    {
      NewTowerStep(row, heights, height, at, n);
      forall i: nat | i < |row|
        ensures TowerWith(row, heights, i, x, at, n + 1)
             == if i == at[n] then TowerWith(row, heights, i, x, at, n)[n := x] else TowerWith(row, heights, i, x, at, n)
      {
        TowerStep(row, heights, i, x, at, n);
      }
      x.next := x.next[n := p.next[n]];
      p.next := p.next[n := x];
    }

    method Merge(key: K, value: V, height: nat)
      requires Valid() && 1 <= height <= MAX_HEIGHT
      modifies this, row
      ensures Valid() && (forall n | n in row :: n in old(row) || fresh(n))
      ensures Contents() == PutEntry(old(Contents()), cmp, key, value)
    {
      var x, prev, at, pos := FindGreaterOrEqual(key);
      BoundIsLower(key, pos);
      if x != null && cmp(x.key, key) == 0 {
        SetValue(x, value, pos);
      } else {
        LinkNew(key, value, height, prev, at, pos);
      }
    }

    method Delete(key: K) returns (deleted: bool)
      requires Valid()
      modifies this, row
      ensures Valid() && (forall n | n in row :: n in old(row))
      ensures deleted <==> Has(old(Contents()), cmp, key)
      ensures Contents() == RemoveEntry(old(Contents()), cmp, key)
    {
      var x, found, foundAt, pos := FindGreaterOrEqual(key);
      BoundIsLower(key, pos);
      if x == null || cmp(x.key, key) != 0 {
        return false;
      }
      UnlinkNode(x, found, foundAt, pos);
      deleted := true;
    }

    method UnlinkNode(x: Node<K, V>, found: seq<Node<K, V>>, ghost foundAt: seq<nat>, ghost pos: nat)
      requires Valid() && 1 <= pos < |row| && row[pos] == x
      requires |found| == maxHeight && Found(row, heights, pos, found, foundAt)
      modifies this, row
      ensures Valid() && forall n | n in row :: n in old(row)
      ensures Contents() == RemoveAt(old(Contents()), pos - 1)
    {
      var prev, at := UpToHeight(MAX_HEIGHT, found, foundAt, pos);
      Unlink(x, prev, at, pos);
      count := count - 1;
      Drop(pos);
    }

    // With x unlinked everywhere, the row no longer includes it.
    method Drop(ghost pos: nat)
      requires TotalPreorder(cmp) && Shape() && InOrder(row, cmp) && IsTop(heights, maxHeight)
      requires 1 <= pos < |row| && Unlinking(pos, MAX_HEIGHT) && count == |row| - 2
      modifies this`row, this`values, this`heights, this`maxHeight
      ensures Valid() && forall n | n in row :: n in old(row)
      ensures Contents() == RemoveAt(old(Contents()), pos - 1)
    {
      ghost var row', values', h' := RemoveAt(row, pos), RemoveAt(values, pos), RemoveAt(heights, pos);
      UnlinkedRow(pos);
      EntriesOfRemove(row, values, pos);
      RemoveKeepsDistinct(row, pos);
      LowerTop(row', values', h');
      Install(row', values', h');
    }

    // The first n levels lead past x.
    ghost predicate Unlinking(pos: nat, n: nat)
      reads this, row
    {
      && |row| == |heights| && pos < |row|
      && (forall i | 0 <= i < |row| :: row[i].next == TowerWithout(row, heights, i, pos, n))
    }

    method Unlink(x: Node<K, V>, prev: seq<Node<K, V>>, ghost at: seq<nat>, ghost pos: nat)
      requires Shape() && Linked() && 1 <= pos < |row| && row[pos] == x && |at| == MAX_HEIGHT <= |prev|
      requires forall l | 0 <= l < MAX_HEIGHT :: IsPrev(heights, pos, l, at[l]) && prev[l] == row[at[l]]
      modifies row`next
      ensures Unlinking(pos, MAX_HEIGHT)
    {
      forall i | 0 <= i < |row|
        ensures row[i].next == TowerWithout(row, heights, i, pos, 0)
      {
        assert Tower(row, heights, i) == TowerWithout(row, heights, i, pos, 0);
      }
      for n := 0 to MAX_HEIGHT
        invariant Unlinking(pos, n)
      {
        UnlinkLevel(x, prev[n], at[n], pos, n);
      }
    }

    method UnlinkLevel(x: Node<K, V>, p: Node<K, V>, ghost pAt: nat, ghost pos: nat, n: nat)
      requires Unlinking(pos, n) && Distinct(row) && row[pos] == x && IsPrev(heights, pos, n, pAt) && row[pAt] == p
      modifies p`next
      ensures Unlinking(pos, n + 1)
    {
      forall i: nat | i < |row|
        ensures TowerWithout(row, heights, i, pos, n + 1)
             == if i == pAt && NextAt(heights, pAt, n) == pos
                then TowerWithout(row, heights, i, pos, n)[n := NodeAt(row, NextAt(heights, pos, n))]
                else TowerWithout(row, heights, i, pos, n)
      {
        UnlinkStep(row, heights, i, pos, pAt, n);
      }
      if p.next[n] == x {
        p.next := p.next[n := x.next[n]];
      }
    }

    lemma UnlinkedRow(pos: nat)
      requires Shape() && InOrder(row, cmp) && IsTop(heights, maxHeight)
      requires 1 <= pos < |row| && Unlinking(pos, MAX_HEIGHT) && count == |row| - 2
      ensures var row', h', values' := RemoveAt(row, pos), RemoveAt(heights, pos), RemoveAt(values, pos);
              DescribesBelow(row', values', h')
    {
      var row', h', values' := RemoveAt(row, pos), RemoveAt(heights, pos), RemoveAt(values, pos);
      forall i: nat | i < |row'|
        ensures row'[i].next == Tower(row', h', i) && 1 <= h'[i] <= MAX_HEIGHT && row'[i].value == values'[i]
        ensures i > 0 ==> h'[i] <= maxHeight
      {
        RemainsAt(row, pos, i);
        RemainsAt(heights, pos, i);
        RemainsAt(values, pos, i);
        RemainingTower(pos, i);
      }
      RemoveKeepsOrder(row, cmp, pos);
      RemoveKeepsDistinct(row, pos);
    }

    lemma RemainingTower(pos: nat, i: nat)
      requires Shape() && 1 <= pos < |row| && Unlinking(pos, MAX_HEIGHT) && i < |row| - 1
      ensures row[if i < pos then i else i + 1].next == Tower(RemoveAt(row, pos), RemoveAt(heights, pos), i)
    {
      var j := if i < pos then i else i + 1;
      assert row[j].next == TowerWithout(row, heights, j, pos, MAX_HEIGHT);
      UnlinkedTower(row, heights, pos, j, MAX_HEIGHT);
    }

    method Contains(key: K) returns (found: bool)
      requires Valid()
      ensures found <==> Has(Contents(), cmp, key)
    {
      var x, prev, at, pos := FindGreaterOrEqual(key);
      BoundIsLower(key, pos);
      found := x != null && cmp(x.key, key) == 0;
    }

    method Get(key: K) returns (r: Option<V>)
      requires Valid()
      ensures r == Lookup(Contents(), cmp, key)
    {
      var x, prev, at, pos := FindGreaterOrEqual(key);
      BoundIsLower(key, pos);
      r := if x != null && cmp(x.key, key) == 0 then Some(x.value) else None;
    }

    method EstimateCount() returns (n: nat)
      requires Valid()
      ensures n == |Contents()|
    {
      n := count;
    }

    method Clear()
      requires Valid()
      modifies this, head
      ensures Valid() && Contents() == []
    {
      head.next := seq(MAX_HEIGHT, _ => null);
      maxHeight, count := 1, 0;
      row, values, heights := [head], [head.value], [MAX_HEIGHT];
    }

    // The bottom level leads to the very next entry.
    method Successor(x: Node<K, V>, ghost i: nat) returns (next: Node?<K, V>)
      requires Shape() && Linked() && i < |row| && row[i] == x
      ensures next == NodeAt(row, i + 1)
    {
      assert NextAt(heights, i, 0) == i + 1;
      next := x.next[0];
    }

    // Calls back, in order, on every entry from start up to end.
    method RangeQuery(start: K, end: K) returns (visited: seq<(K, V)>)
      requires Valid()
      ensures visited == Range(Contents(), cmp, start, end)
    {
      var first, prev, at, pos := FindGreaterOrEqual(start);
      BoundIsLower(start, pos);
      visited := Walk(first, end, pos - 1);
    }

    // Follows the bottom level from the i-th entry up to end.
    method Walk(first: Node?<K, V>, end: K, ghost from: nat) returns (visited: seq<(K, V)>)
      requires Shape() && Linked() && from <= |Contents()| && first == NodeAt(row, from + 1)
      ensures visited == TakeUpTo(Contents()[from..], cmp, end)
    {
      var current := first;
      ghost var i, all := from, Contents();
      visited := [];
      while current != null && cmp(current.key, end) <= 0
        invariant from <= i <= |all| && current == NodeAt(row, i + 1)
        invariant visited == all[from..i] && TakeUpTo(all[from..], cmp, end) == visited + TakeUpTo(all[i..], cmp, end)
        decreases |all| - i
      {
        TakeOne(all, cmp, end, from, i);
        visited := visited + [(current.key, current.value)];
        assert NextAt(heights, i + 1, 0) == i + 2;
        current, i := current.next[0], i + 1;
      }
    }
  }

  lemma TakeOne<K, V>(s: seq<(K, V)>, cmp: (K, K) -> int, end: K, from: nat, i: nat)
    requires from <= i < |s| && cmp(s[i].0, end) <= 0
    ensures s[from..i] + [s[i]] == s[from..i + 1]
    ensures s[from..i] + TakeUpTo(s[i..], cmp, end) == s[from..i + 1] + TakeUpTo(s[i + 1..], cmp, end)
  {
    assert s[i..][1..] == s[i + 1..];
  }

  function TakeUpTo<K, V>(s: seq<(K, V)>, cmp: (K, K) -> int, end: K): seq<(K, V)> {
    if s == [] || cmp(s[0].0, end) > 0 then [] else [s[0]] + TakeUpTo(s[1..], cmp, end)
  }

  function Range<K, V>(s: seq<(K, V)>, cmp: (K, K) -> int, start: K, end: K): seq<(K, V)> {
    TakeUpTo(s[LowerBound(s, cmp, start)..], cmp, end)
  }

  // A range query visits exactly the entries with start <= key <= end, in order.
  lemma RangeIsExact<K(!new), V>(s: seq<(K, V)>, cmp: (K, K) -> int, start: K, end: K, e: (K, V))
    requires TotalPreorder(cmp) && SortedBy(s, cmp)
    ensures e in Range(s, cmp, start, end) <==> e in s && cmp(start, e.0) <= 0 && cmp(e.0, end) <= 0
    ensures SortedBy(Range(s, cmp, start, end), cmp)
  {
    var n := LowerBound(s, cmp, start);
    TakeUpToIsExact(s[n..], cmp, end, e);
    FromBound(s, cmp, start, e);
  }

  lemma BoundSplits<K(!new), V>(s: seq<(K, V)>, cmp: (K, K) -> int, start: K)
    requires TotalPreorder(cmp) && SortedBy(s, cmp)
    ensures forall i | 0 <= i < |s| :: cmp(start, s[i].0) <= 0 <==> LowerBound(s, cmp, start) <= i
  {
    forall i | 0 <= i < |s|
      ensures cmp(start, s[i].0) <= 0 <==> LowerBound(s, cmp, start) <= i
    {
      if LowerBound(s, cmp, start) <= i {
        AfterBound(s, cmp, start, i);
      }
    }
  }

  lemma FromBound<K(!new), V>(s: seq<(K, V)>, cmp: (K, K) -> int, start: K, e: (K, V))
    requires TotalPreorder(cmp) && SortedBy(s, cmp)
    ensures e in s[LowerBound(s, cmp, start)..] <==> e in s && cmp(start, e.0) <= 0
  {
    hide SortedBy;
    var n := LowerBound(s, cmp, start);
    BoundSplits(s, cmp, start);
    if e in s[n..] {
      var i :| n <= i < |s| && s[i] == e;
    } else if cmp(start, e.0) <= 0 {
      forall i | 0 <= i < |s|
        ensures s[i] != e
      {
        assert i >= n ==> s[n..][i - n] == s[i];
      }
    }
  }

  lemma {:induction false} TakeUpToIsExact<K(!new), V>(s: seq<(K, V)>, cmp: (K, K) -> int, end: K, e: (K, V))
    requires TotalPreorder(cmp) && SortedBy(s, cmp)
    ensures TakeUpTo(s, cmp, end) <= s
    ensures e in TakeUpTo(s, cmp, end) <==> e in s && cmp(e.0, end) <= 0
  {
    if s != [] {
      assert s == [s[0]] + s[1..];
      if cmp(s[0].0, end) <= 0 {
        TakeUpToIsExact(s[1..], cmp, end, e);
      } else if e in s {
        var i :| 0 <= i < |s| && s[i] == e;
        if i > 0 {
          StrictStep(cmp, end, s[0].0, s[i].0);
        }
      }
    }
  }

  // ---- iteration ----

  class Cursor<K(!new), V> {
    const list: SkipList<K, V>
    var node: Node?<K, V>
    // For the proofs: how many entries lie before the current one.
    ghost var place: nat

    constructor (list: SkipList<K, V>)
      ensures this.list == list && node == null
    {
      this.list, node, place := list, null, 0;
    }

    // At an entry, or past the end.
    ghost predicate At()
      reads this, list
    {
      && |list.row| == |list.values| >= 1
      && place < |list.row| && node == NodeAt(list.row, place + 1)
    }

    predicate Valid()
      reads this
    {
      node != null && node != list.head
    }

    method Seek(target: K)
      requires list.Valid()
      modifies this
      ensures At() && place == LowerBound(list.Contents(), list.cmp, target)
      ensures Valid() <==> place < |list.Contents()|
    {
      var x, prev, at, pos := list.FindGreaterOrEqual(target);
      list.BoundIsLower(target, pos);
      node, place := x, pos - 1;
    }

    method SeekToFirst()
      requires list.Valid()
      modifies this
      ensures At() && place == 0 && (Valid() <==> place < |list.Contents()|)
    {
      node, place := list.head.next[0], 0;
    }

    method SeekToLast()
      requires list.Valid()
      modifies this
      ensures Valid() <==> list.Contents() != []
      ensures Valid() ==> At() && place == |list.Contents()| - 1
    {
      var last := list.FindLast();
      if last == list.head {
        node := null;
      } else {
        node, place := last, |list.row| - 2;
      }
    }

    method Next()
      requires list.Shape() && list.Linked() && At() && Valid()
      modifies this
      ensures At() && place == old(place) + 1 && (Valid() <==> place < |list.Contents()|)
    {
      var next := list.Successor(node, place + 1);
      node, place := next, place + 1;
    }

    method Prev()
      requires list.Valid() && At() && Valid()
      modifies this
      ensures Valid() <==> old(place) > 0
      ensures Valid() ==> At() && place == old(place) - 1
    {
      ghost var here := place;
      var x, pos := list.FindLessThan(node.key);
      list.BoundIsHere(node.key, pos, here + 1);
      if x == list.head {
        node := null;
      } else {
        node, place := x, here - 1;
      }
    }

    method Current() returns (key: K, value: V)
      requires list.Shape() && At() && Valid()
      ensures (key, value) == list.Contents()[place]
    {
      key, value := node.key, node.value;
    }
  }
}
