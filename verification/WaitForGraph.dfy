/** The wait-for graph of the lock manager and its depth-first cycle search. */
module WaitGraph {
  import opened Types

  // waiter -> the transactions it waits for
  type Graph = map<TxnId, set<TxnId>>

  function Nodes(g: Graph): set<TxnId> {
    g.Keys + set a, b | a in g && b in g[a] :: b
  }

  predicate Edge(g: Graph, a: TxnId, b: TxnId) {
    a in g && b in g[a]
  }

  ghost predicate IsPath(g: Graph, p: seq<TxnId>) {
    |p| >= 1 && forall i | 0 <= i < |p| - 1 :: Edge(g, p[i], p[i + 1])
  }

  ghost predicate Connects(g: Graph, p: seq<TxnId>, a: TxnId, b: TxnId) {
    IsPath(g, p) && |p| >= 2 && p[0] == a && p[|p| - 1] == b
  }

  // b can be reached from a over at least one edge.
  ghost predicate Reaches(g: Graph, a: TxnId, b: TxnId) {
    exists p :: Connects(g, p, a, b)
  }

  ghost predicate Acyclic(g: Graph) {
    forall n :: !Reaches(g, n, n)
  }

  // A node lying on a cycle is a or can be reached from a.
  ghost predicate CycleFrom(g: Graph, a: TxnId) {
    exists n :: (n == a || Reaches(g, a, n)) && Reaches(g, n, n)
  }

  // ---- reachability ----

  lemma EdgeReaches(g: Graph, a: TxnId, b: TxnId)
    requires Edge(g, a, b)
    ensures Reaches(g, a, b)
  {
    assert Connects(g, [a, b], a, b);
  }

  lemma ReachesTransitive(g: Graph, a: TxnId, b: TxnId, c: TxnId)
    requires Reaches(g, a, b) && Reaches(g, b, c)
    ensures Reaches(g, a, c)
  {
    var p :| Connects(g, p, a, b);
    var q :| Connects(g, q, b, c);
    var r := p + q[1..];
    forall i | 0 <= i < |r| - 1
      ensures Edge(g, r[i], r[i + 1])
    {
      if i >= |p| - 1 {
        assert Edge(g, q[i - |p| + 1], q[i - |p| + 2]);
      }
    }
    assert Connects(g, r, a, c);
  }

  // Two nodes at increasing positions of a path are connected.
  lemma WithinPath(g: Graph, p: seq<TxnId>, i: nat, j: nat)
    requires IsPath(g, p) && i < j < |p|
    ensures Reaches(g, p[i], p[j])
  {
    assert Connects(g, p[i..j + 1], p[i], p[j]);
  }

  ghost predicate Closed(g: Graph, s: set<TxnId>) {
    forall a, b :: a in s && Edge(g, a, b) ==> b in s
  }

  lemma {:induction false} ClosedKeepsPath(g: Graph, s: set<TxnId>, p: seq<TxnId>, i: nat)
    requires Closed(g, s) && IsPath(g, p) && p[0] in s && i < |p|
    ensures p[i] in s
  {
    if i > 0 {
      ClosedKeepsPath(g, s, p, i - 1);
      assert Edge(g, p[i - 1], p[i]);
    }
  }

  // The set a finished part of the search has explored: no way out and no cycle inside.
  ghost predicate Explored(g: Graph, s: set<TxnId>) {
    Closed(g, s) && forall n | n in s :: !Reaches(g, n, n)
  }

  lemma ExploredHasNoCycle(g: Graph, s: set<TxnId>, a: TxnId)
    requires Explored(g, s) && a in s
    ensures !CycleFrom(g, a)
  {
    forall n | Reaches(g, a, n)
      ensures n in s
    {
      var p :| Connects(g, p, a, n);
      ClosedKeepsPath(g, s, p, |p| - 1);
    }
  }

  lemma ExtendExplored(g: Graph, s: set<TxnId>, a: TxnId)
    requires Explored(g, s) && a !in s
    requires forall b :: Edge(g, a, b) ==> b in s
    ensures Explored(g, s + {a})
  {
    if Reaches(g, a, a) {
      var p :| Connects(g, p, a, a);
      assert Edge(g, p[0], p[1]);
      assert IsPath(g, p[1..]);
      ClosedKeepsPath(g, s, p[1..], |p| - 2);
      assert false;
    }
  }

  // ---- changing the graph ----

  function AddEdges(g: Graph, waiter: TxnId, holders: set<TxnId>): Graph {
    if holders == {} then g
    else g[waiter := (if waiter in g then g[waiter] else {}) + holders]
  }

  function Without(g: Graph, txn: TxnId): Graph {
    map a | a in g && a != txn :: g[a] - {txn}
  }

  lemma SubgraphPaths(g: Graph, h: Graph, a: TxnId, b: TxnId)
    requires forall x, y :: Edge(h, x, y) ==> Edge(g, x, y)
    requires Reaches(h, a, b)
    ensures Reaches(g, a, b)
  {
    var p :| Connects(h, p, a, b);
    forall i | 0 <= i < |p| - 1
      ensures Edge(g, p[i], p[i + 1])
    {
      assert Edge(h, p[i], p[i + 1]);
    }
    assert Connects(g, p, a, b);
  }

  lemma WithoutKeepsAcyclic(g: Graph, txn: TxnId)
    requires Acyclic(g)
    ensures Acyclic(Without(g, txn))
  {
    forall n
      ensures !Reaches(Without(g, txn), n, n)
    {
      if Reaches(Without(g, txn), n, n) {
        SubgraphPaths(g, Without(g, txn), n, n);
      }
    }
  }

  // New edges out of one node can only close cycles that node reaches.
  lemma NewCyclesReachWaiter(g: Graph, waiter: TxnId, holders: set<TxnId>, n: TxnId)
    requires Acyclic(g) && Reaches(AddEdges(g, waiter, holders), n, n)
    ensures CycleFrom(AddEdges(g, waiter, holders), waiter)
  {
    var h := AddEdges(g, waiter, holders);
    var p :| Connects(h, p, n, n);
    if i :| 0 <= i < |p| && p[i] == waiter {
      if 0 < i < |p| - 1 {
        WithinPath(h, p, i, |p| - 1);
      }
      assert n == waiter || Reaches(h, waiter, n);
    } else {
      forall j | 0 <= j < |p| - 1
        ensures Edge(g, p[j], p[j + 1])
      {
        assert Edge(h, p[j], p[j + 1]);
      }
      assert Connects(g, p, n, n);
      assert Reaches(g, n, n);
      assert false;
    }
  }

  lemma SearchFromWaiterSuffices(g: Graph, waiter: TxnId, holders: set<TxnId>)
    requires Acyclic(g) && !CycleFrom(AddEdges(g, waiter, holders), waiter)
    ensures Acyclic(AddEdges(g, waiter, holders))
  {
    forall n | Reaches(AddEdges(g, waiter, holders), n, n)
      ensures false
    {
      NewCyclesReachWaiter(g, waiter, holders, n);
    }
  }

  // A path after adding edges out of w either was there before or leads to one of them and on.
  lemma {:induction false} PathWithNewEdges(g: Graph, w: TxnId, hs: set<TxnId>, p: seq<TxnId>, a: TxnId, b: TxnId)
    requires Connects(AddEdges(g, w, hs), p, a, b)
    ensures Reaches(g, a, b) || ((a == w || Reaches(g, a, w)) && exists h | h in hs :: b == h || Reaches(g, h, b))
  {
    var next := p[1];
    assert Edge(AddEdges(g, w, hs), p[0], p[1]);
    if Edge(g, a, next) {
      EdgeReaches(g, a, next);
    }
    if |p| > 2 {
      assert Connects(AddEdges(g, w, hs), p[1..], next, b);
      PathWithNewEdges(g, w, hs, p[1..], next, b);
      if Edge(g, a, next) {
        if Reaches(g, next, b) {
          ReachesTransitive(g, a, next, b);
        } else if next != w {
          ReachesTransitive(g, a, next, w);
        }
      }
    }
  }

  // A cycle that can be found from h, or runs back from h to w.
  ghost predicate LeadsToCycle(g: Graph, w: TxnId, h: TxnId) {
    h == w || Reaches(g, h, w) || CycleFrom(g, h)
  }

  // What searching after adding the edges would answer, in terms of the graph before.
  lemma CycleThroughNewEdges(g: Graph, w: TxnId, hs: set<TxnId>)
    ensures CycleFrom(AddEdges(g, w, hs), w) <==> CycleFrom(g, w) || exists h | h in hs :: LeadsToCycle(g, w, h)
  {
    var g' := AddEdges(g, w, hs);
    forall a, b | Reaches(g, a, b)
      ensures Reaches(g', a, b)
    {
      SubgraphPaths(g', g, a, b);
    }
    if h :| h in hs && LeadsToCycle(g, w, h) {
      EdgeReaches(g', w, h);
      if h == w || Reaches(g, h, w) {
        if h != w {
          ReachesTransitive(g', w, h, w);
        }
      } else {
        CycleIsFoundFromPredecessor(g', w, h);
      }
    }
    if CycleFrom(g', w) && !CycleFrom(g, w) {
      NewCycleUsesNewEdge(g, w, hs);
    }
  }

  lemma NewCycleUsesNewEdge(g: Graph, w: TxnId, hs: set<TxnId>)
    requires CycleFrom(AddEdges(g, w, hs), w) && !CycleFrom(g, w)
    ensures exists h | h in hs :: LeadsToCycle(g, w, h)
  {
    var g' := AddEdges(g, w, hs);
    var n :| (n == w || Reaches(g', w, n)) && Reaches(g', n, n);
    var p :| Connects(g', p, n, n);
    PathWithNewEdges(g, w, hs, p, n, n);
    if Reaches(g, n, n) {
      if n != w {
        var q :| Connects(g', q, w, n);
        PathWithNewEdges(g, w, hs, q, w, n);
        var h :| h in hs && (n == h || Reaches(g, h, n));
        assert LeadsToCycle(g, w, h);
      }
    } else {
      var h :| h in hs && (n == h || Reaches(g, h, n));
      if n != h && n != w {
        ReachesTransitive(g, h, n, w);
      }
      assert LeadsToCycle(g, w, h);
    }
  }

  // WouldCreateCycle searches without the edge it is asked about. Its answer is the
  // right one exactly when the edge closes nothing that was not closed before; in
  // particular when the caller has put the edge into the graph first.
  lemma PrecheckIsRightWhen(g: Graph, w: TxnId, h: TxnId)
    ensures (CycleFrom(g, w) <==> CycleFrom(AddEdges(g, w, {h}), w))
       <==> (CycleFrom(g, w) || (h != w && !Reaches(g, h, w) && !CycleFrom(g, h)))
    ensures Edge(g, w, h) ==> AddEdges(g, w, {h}) == g
  {
    CycleThroughNewEdges(g, w, {h});
    assert CycleFrom(AddEdges(g, w, {h}), w) <==> CycleFrom(g, w) || LeadsToCycle(g, w, h);
    if Edge(g, w, h) {
      assert g[w] + {h} == g[w];
    }
  }

  // A member of a cyclic graph that is no node of the graph cannot be on the cycle.
  lemma CyclesAreOnNodes(g: Graph, n: TxnId)
    requires Reaches(g, n, n)
    ensures n in Nodes(g)
  {
    var p :| Connects(g, p, n, n);
    assert Edge(g, p[0], p[1]);
  }

  class WaitForGraph {
    var g: Graph

    constructor ()
      ensures g == map[]
    {
      g := map[];
    }

    method AddEdge(waiter: TxnId, holder: TxnId)
      modifies this
      ensures g == AddEdges(old(g), waiter, {holder})
    {
      g := g[waiter := (if waiter in g then g[waiter] else {}) + {holder}];
    }

    method RemoveEdgesFor(txn: TxnId)
      modifies this
      ensures g == Without(old(g), txn)
    {
      g := map a | a in g && a != txn :: g[a];
      var todo := g.Keys;
      while todo != {}
        invariant todo <= g.Keys == old(g).Keys - {txn}
        invariant forall a | a in g :: g[a] == if a in todo then old(g)[a] else old(g)[a] - {txn}
      {
        var a :| a in todo;
        g := g[a := g[a] - {txn}];
        todo := todo - {a};
      }
    }

    // Depth-first search with the path in `stack`. The first node met twice on the path
    // stops the search; `cycle` is then the whole path, not only its cyclic part.
    method Dfs(cur: TxnId, visited: set<TxnId>, stack: set<TxnId>)
      returns (found: bool, visited': set<TxnId>, stack': set<TxnId>, cycle: set<TxnId>)
      requires stack <= visited && Explored(g, visited - stack)
      requires forall n | n in stack :: Reaches(g, n, cur)
      ensures found ==> CycleFrom(g, cur) && cycle != {}
      ensures found ==> forall n | n in cycle :: CycleFrom(g, n)
      ensures !found ==> visited <= visited' && stack' == stack && cur in visited' - stack
      ensures !found ==> Explored(g, visited' - stack)
      decreases Nodes(g) - visited, cur !in stack
    {
      visited', stack', cycle := visited, stack, {};
      if cur in stack {
        cycle := stack;
        return true, visited', stack', cycle;
      }
      if cur in visited {
        return false, visited', stack', cycle;
      }
      visited', stack' := visited' + {cur}, stack' + {cur};
      assert visited' - stack' == visited - stack;
      if cur in g {
        var todo := g[cur];
        while todo != {}
          invariant todo <= g[cur]
          invariant visited + {cur} <= visited' && stack' == stack + {cur}
          invariant Explored(g, visited' - stack')
          invariant forall b | b in g[cur] - todo :: b in visited' - stack'
        {
          var nxt :| nxt in todo;
          PathExtends(g, stack, cur, nxt);
          found, visited', stack', cycle := Dfs(nxt, visited', stack');
          if found {
            CycleIsFoundFromPredecessor(g, cur, nxt);
            return;
          }
          assert forall b | b in g[cur] - (todo - {nxt}) :: b == nxt || b in g[cur] - todo;
          todo := todo - {nxt};
        }
      }
      ExtendExplored(g, visited' - stack', cur);
      stack' := stack' - {cur};
      assert stack' == stack && visited' - stack == (visited' - (stack + {cur})) + {cur};
      found := false;
    }

    // The edge (waiter, holder) goes into a copy of the graph, but the search runs on the
    // graph itself: the answer does not depend on `holder`.
    method WouldCreateCycle(waiter: TxnId, holder: TxnId) returns (r: bool)
      ensures r <==> CycleFrom(g, waiter)
    {
      var copy := g[waiter := (if waiter in g then g[waiter] else {}) + {holder}];
      var visited, stack, cycle;
      r, visited, stack, cycle := Dfs(waiter, {}, {});
      if !r {
        ExploredHasNoCycle(g, visited, waiter);
      }
    }

    method DetectCycle() returns (found: bool, victim: TxnId)
      ensures found <==> !Acyclic(g)
      ensures found ==> CycleFrom(g, victim)
    {
      victim := 0;
      var todo := Nodes(g);
      while todo != {}
        invariant forall n | n in Nodes(g) - todo :: !CycleFrom(g, n)
      {
        var t :| t in todo;
        var visited, stack, cycle;
        found, visited, stack, cycle := Dfs(t, {}, {});
        if found {
          victim := Largest(cycle);
          return;
        }
        ExploredHasNoCycle(g, visited, t);
        todo := todo - {t};
      }
      found := false;
      forall n | Reaches(g, n, n)
        ensures false
      {
        CyclesAreOnNodes(g, n);
        assert CycleFrom(g, n);
      }
    }
  }

  method Largest(s: set<TxnId>) returns (m: TxnId)
    requires s != {}
    ensures m in s && forall n | n in s :: n <= m
  {
    m :| m in s;
    var todo := s - {m};
    while todo != {}
      invariant todo <= s && m in s && forall n | n in s && n !in todo :: n <= m
    {
      var n :| n in todo;
      if n > m {
        m := n;
      }
      todo := todo - {n};
    }
  }

  lemma PathExtends(g: Graph, stack: set<TxnId>, cur: TxnId, nxt: TxnId)
    requires Edge(g, cur, nxt) && forall n | n in stack :: Reaches(g, n, cur)
    ensures forall n | n in stack + {cur} :: Reaches(g, n, nxt)
  {
    EdgeReaches(g, cur, nxt);
    forall n | n in stack
      ensures Reaches(g, n, nxt)
    {
      ReachesTransitive(g, n, cur, nxt);
    }
  }

  lemma CycleIsFoundFromPredecessor(g: Graph, cur: TxnId, nxt: TxnId)
    requires Edge(g, cur, nxt) && CycleFrom(g, nxt)
    ensures CycleFrom(g, cur)
  {
    var n :| (n == nxt || Reaches(g, nxt, n)) && Reaches(g, n, n);
    EdgeReaches(g, cur, nxt);
    if n != nxt {
      ReachesTransitive(g, cur, nxt, n);
    }
  }
}
