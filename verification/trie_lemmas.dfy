/** Properties of the predicate trie of lib/trie.js: registration behaves as
    an update of the map from predicate sequences to values, the edge lists only
    grow at their ends, no node ever holds two edges with the same predicate, and
    lookup walks the tree taking the most recently added accepting edge. */
module TrieLemmas {
  import opened Wrappers
  import opened Trie

  /** Nothing is stored below an empty node. */
  lemma StoredEmpty<P, V>(ps: seq<P>)
    ensures StoredAt(EmptyNode<P, V>(), ps) == None
  {
  }

  /** A non-empty sequence is its head followed by its tail. */
  lemma HeadTail<T>(s: seq<T>)
    requires |s| > 0
    ensures s == [s[0]] + s[1..]
  {
  }

  /** Predicates accept features position by position exactly when the first
      accepts the first and the rest accept the rest. */
  lemma AcceptsAllCons<P, F>(ps: seq<P>, features: seq<F>, accepts: (P, F) -> bool)
    requires |ps| > 0 && |features| > 0
    ensures AcceptsAll(ps, features, accepts) <==>
            accepts(ps[0], features[0]) && AcceptsAll(ps[1..], features[1..], accepts)
  {
    if accepts(ps[0], features[0]) && AcceptsAll(ps[1..], features[1..], accepts) {
      forall i | 0 < i < |ps|
        ensures accepts(ps[i], features[i])
      {
        assert ps[1..][i - 1] == ps[i] && features[1..][i - 1] == features[i];
      }
    }
  }

  /** Registration below an existing edge descends into that edge's child. */
  lemma InsertBelowExisting<P, V>(n: Node<P, V>, p: P, rest: seq<P>, v: V, i: nat)
    requires FindEdge(n.edges, p) == Some(i)
    ensures Insert(n, [p] + rest, v) == n.(edges := n.edges[i := Edge(p, Insert(n.edges[i].node, rest, v))])
  {
    assert ([p] + rest)[1..] == rest;
  }

  /** Registration under a predicate the node has no edge for appends one new
      edge, leading to a fresh path for the remaining predicates. */
  lemma InsertBelowNew<P, V>(n: Node<P, V>, p: P, rest: seq<P>, v: V)
    requires p !in Labels(n.edges)
    ensures Insert(n, [p] + rest, v) == n.(edges := n.edges + [Edge(p, Insert(EmptyNode(), rest, v))])
  {
    var ps := [p] + rest;
    var e := Edge(p, Insert(EmptyNode(), rest, v));
    var parent := n.(edges := n.edges + [Edge(p, EmptyNode())]);
    assert ps[0] == p && ps[1..] == rest;
    assert AddEdge(n, p) == (parent, |n.edges|);
    assert Insert(n, ps, v) == parent.(edges := parent.edges[|n.edges| := e]);
    assert parent.edges[|n.edges| := e] == n.edges + [e];
  }

  /** Registering `v` under `ps` changes the registration view at `ps` only:
      every other predicate sequence keeps the value it had, and the empty
      sequence addresses the root. */
  lemma {:induction false} InsertUpdatesStored<P, V>(n: Node<P, V>, ps: seq<P>, v: V, qs: seq<P>)
    ensures StoredAt(Insert(n, ps, v), qs) == if qs == ps then Some(v) else StoredAt(n, qs)
    decreases |ps|
  {
    if qs == ps {
    } else if |ps| == 0 {
      assert Insert(n, ps, v).edges == n.edges;
    } else if |qs| == 0 {
    } else {
      var p, rest := ps[0], ps[1..];
      HeadTail(ps);
      HeadTail(qs);
      match FindEdge(n.edges, p) {
        case Some(i) =>
          if qs[0] == p {
            InsertUpdatesStored(n.edges[i].node, rest, v, qs[1..]);
          }
          InsertBelowExisting(n, p, rest, v, i);
          StoredReplaceChild(n, i, Edge(p, Insert(n.edges[i].node, rest, v)), qs);
        case None =>
          if qs[0] == p {
            InsertUpdatesStored(EmptyNode(), rest, v, qs[1..]);
            StoredEmpty<P, V>(qs[1..]);
          }
          InsertBelowNew(n, p, rest, v);
          StoredAppendChild(n, Edge(p, Insert(EmptyNode(), rest, v)), qs);
      }
    }
  }

  /** Replacing the child of edge `i` by one that agrees with it on the
      sequences below changes no stored value. */
  lemma StoredReplaceChild<P, V>(n: Node<P, V>, i: nat, e: Edge<P, V>, qs: seq<P>)
    requires i < |n.edges| && e.pred == n.edges[i].pred && |qs| > 0
    requires qs[0] == e.pred ==> StoredAt(e.node, qs[1..]) == StoredAt(n.edges[i].node, qs[1..])
    ensures StoredAt(n.(edges := n.edges[i := e]), qs) == StoredAt(n, qs)
  {
    var r := n.(edges := n.edges[i := e]);
    assert FindEdge(r.edges, qs[0]) == FindEdge(n.edges, qs[0]) by {
      assert Labels(r.edges) == Labels(n.edges);
      FindEdgeSameLabels(n.edges, r.edges, qs[0]);
    }
    match FindEdge(n.edges, qs[0]) {
      case None =>
      case Some(j) =>
        if j != i {
          assert r.edges[j] == n.edges[j];
        }
    }
  }

  /** Appending an edge whose predicate is new, and below which nothing is
      stored for the sequences starting with it, changes no stored value. */
  lemma StoredAppendChild<P, V>(n: Node<P, V>, e: Edge<P, V>, qs: seq<P>)
    requires e.pred !in Labels(n.edges) && |qs| > 0
    requires qs[0] == e.pred ==> StoredAt(e.node, qs[1..]) == None
    ensures StoredAt(n.(edges := n.edges + [e]), qs) == StoredAt(n, qs)
  {
    var r := n.(edges := n.edges + [e]);
    FindEdgeAppend(n.edges, e, qs[0]);
    if qs[0] != e.pred {
      match FindEdge(n.edges, qs[0]) {
        case None =>
        case Some(j) => assert r.edges[j] == n.edges[j];
      }
    }
  }

  /** Last write wins: registering twice under the same predicate sequence
      gives exactly the trie the second registration alone gives. */
  lemma {:induction false} InsertOverwrites<P, V>(n: Node<P, V>, ps: seq<P>, v1: V, v2: V)
    ensures Insert(Insert(n, ps, v1), ps, v2) == Insert(n, ps, v2)
    decreases |ps|
  {
    if |ps| > 0 {
      var (parent, i) := AddEdge(n, ps[0]);
      var c := parent.edges[i].node;
      var r1 := Insert(n, ps, v1);
      assert r1 == parent.(edges := parent.edges[i := Edge(ps[0], Insert(c, ps[1..], v1))]);
      assert FindEdge(r1.edges, ps[0]) == Some(i) by {
        assert Labels(r1.edges) == Labels(parent.edges);
        FindEdgeSameLabels(parent.edges, r1.edges, ps[0]);
      }
      HeadTail(ps);
      InsertBelowExisting(r1, ps[0], ps[1..], v2, i);
      InsertOverwrites(c, ps[1..], v1, v2);
      assert r1.edges[i := Edge(ps[0], Insert(c, ps[1..], v2))]
          == parent.edges[i := Edge(ps[0], Insert(c, ps[1..], v2))];
    }
  }

  /** Registration keeps the invariant that no node has two edges carrying the
      same predicate. */
  lemma {:induction false} InsertPreservesNoDuplicates<P, V>(n: Node<P, V>, ps: seq<P>, v: V)
    requires NoDuplicateEdges(n)
    ensures NoDuplicateEdges(Insert(n, ps, v))
    decreases |ps|
  {
    if |ps| > 0 {
      var p, rest := ps[0], ps[1..];
      HeadTail(ps);
      match FindEdge(n.edges, p) {
        case Some(i) =>
          assert NoDuplicateEdges(n.edges[i].node);
          InsertPreservesNoDuplicates(n.edges[i].node, rest, v);
          InsertBelowExisting(n, p, rest, v, i);
          NoDuplicatesReplaceChild(n, i, Edge(p, Insert(n.edges[i].node, rest, v)));
        case None =>
          assert NoDuplicateEdges(EmptyNode<P, V>());
          InsertPreservesNoDuplicates(EmptyNode(), rest, v);
          InsertBelowNew(n, p, rest, v);
          NoDuplicatesAppendChild(n, Edge(p, Insert(EmptyNode(), rest, v)));
      }
    }
  }

  /** Replacing a child, keeping its edge's predicate, by a child without
      duplicate edges keeps a node without duplicate edges. */
  lemma NoDuplicatesReplaceChild<P, V>(n: Node<P, V>, i: nat, e: Edge<P, V>)
    requires NoDuplicateEdges(n) && i < |n.edges|
    requires e.pred == n.edges[i].pred && NoDuplicateEdges(e.node)
    ensures NoDuplicateEdges(n.(edges := n.edges[i := e]))
  {
    var r := n.(edges := n.edges[i := e]);
    assert Labels(r.edges) == Labels(n.edges);
    forall j | 0 <= j < |r.edges|
      ensures NoDuplicateEdges(r.edges[j].node)
    {
      if j != i {
        assert r.edges[j] == n.edges[j];
      }
    }
  }

  /** Appending an edge with a new predicate to a child without duplicate edges
      keeps a node without duplicate edges. */
  lemma NoDuplicatesAppendChild<P, V>(n: Node<P, V>, e: Edge<P, V>)
    requires NoDuplicateEdges(n) && e.pred !in Labels(n.edges) && NoDuplicateEdges(e.node)
    ensures NoDuplicateEdges(n.(edges := n.edges + [e]))
  {
    var r := n.(edges := n.edges + [e]);
    forall j, k | 0 <= j < k < |r.edges|
      ensures r.edges[j].pred != r.edges[k].pred
    {
      if k == |n.edges| {
        assert Labels(n.edges)[j] == n.edges[j].pred;
      }
    }
    forall j | 0 <= j < |r.edges|
      ensures NoDuplicateEdges(r.edges[j].node)
    {
      if j < |n.edges| {
        assert r.edges[j] == n.edges[j];
      }
    }
  }

  /** Every tree grows from itself. */
  lemma GrowsReflexive<P, V>(n: Node<P, V>)
    ensures Grows(n, n)
    decreases n
  {
    forall i | 0 <= i < |n.edges|
      ensures Grows(n.edges[i].node, n.edges[i].node)
    {
      GrowsReflexive(n.edges[i].node);
    }
  }

  /** Registration only appends edges: at every node the existing edges keep
      their predicates and their order. */
  lemma {:induction false} InsertGrows<P, V>(n: Node<P, V>, ps: seq<P>, v: V)
    ensures Grows(n, Insert(n, ps, v))
    decreases |ps|
  {
    var r := Insert(n, ps, v);
    if |ps| == 0 {
      forall j | 0 <= j < |n.edges|
        ensures Grows(n.edges[j].node, r.edges[j].node)
      {
        GrowsReflexive(n.edges[j].node);
      }
    } else {
      var (parent, i) := AddEdge(n, ps[0]);
      var c := parent.edges[i].node;
      assert r == parent.(edges := parent.edges[i := Edge(ps[0], Insert(c, ps[1..], v))]);
      forall j | 0 <= j < |n.edges|
        ensures r.edges[j].pred == n.edges[j].pred
        ensures Grows(n.edges[j].node, r.edges[j].node)
      {
        assert parent.edges[j] == n.edges[j];
        if j == i {
          InsertGrows(c, ps[1..], v);
        } else {
          GrowsReflexive(n.edges[j].node);
        }
      }
    }
  }

  /** Walking a concatenation is walking the first part, then the second part
      from the node reached. */
  lemma {:induction false} WalkAppend<P, V, F>(n: Node<P, V>, a: seq<F>, b: seq<F>, accepts: (P, F) -> bool)
    ensures Walk(n, a + b, accepts) ==
            match Walk(n, a, accepts)
            case None => None
            case Some(m) => Walk(m, b, accepts)
    decreases |a|
  {
    if |a| == 0 {
      assert a + b == b;
    } else {
      assert (a + b)[0] == a[0];
      assert (a + b)[1..] == a[1..] + b;
      match FindTraversableEdge(n.edges, a[0], accepts) {
        case None =>
        case Some(i) => WalkAppend(n.edges[i].node, a[1..], b, accepts);
      }
    }
  }

  /** No edge of `m` accepts `feature`. */
  predicate Stuck<P, V, F>(m: Node<P, V>, feature: F, accepts: (P, F) -> bool) {
    forall j :: 0 <= j < |m.edges| ==> !accepts(m.edges[j].pred, feature)
  }

  /** Once no edge of the node reached after `k` features accepts the next
      feature, lookup reports no value, whatever is stored deeper down. */
  lemma MissStops<P, V, F>(n: Node<P, V>, features: seq<F>, k: nat, m: Node<P, V>, accepts: (P, F) -> bool)
    requires k < |features|
    requires Walk(n, features[..k], accepts) == Some(m)
    requires Stuck(m, features[k], accepts)
    ensures LookupAt(n, features, accepts) == None
  {
    assert features == features[..k] + features[k..];
    WalkAppend(n, features[..k], features[k..], accepts);
    assert features[k..][0] == features[k];
  }

  /** Below a valueless node with a single edge, lookup continues into that
      edge's child when its predicate accepts the first feature, and finds
      nothing otherwise. */
  lemma LookupSingleEdge<P, V, F>(p: P, c: Node<P, V>, features: seq<F>, accepts: (P, F) -> bool)
    requires |features| > 0
    ensures LookupAt(Node(None, [Edge(p, c)]), features, accepts) ==
            if accepts(p, features[0]) then LookupAt(c, features[1..], accepts) else None
  {
    var n := Node(None, [Edge(p, c)]);
    assert FindTraversableEdge(n.edges, features[0], accepts) == if accepts(p, features[0]) then Some(0) else None;
  }

  /** In a trie holding a single registration, lookup finds the value exactly
      when the features are as many as the predicates and each is accepted by
      its predicate; fewer features stop at a node without value, more features
      run past a node without edges. */
  lemma {:induction false} FreshInsertLookup<P, V, F>(ps: seq<P>, v: V, features: seq<F>, accepts: (P, F) -> bool)
    ensures LookupAt(Insert(EmptyNode(), ps, v), features, accepts) ==
            if AcceptsAll(ps, features, accepts) then Some(v) else None
    decreases |ps|
  {
    if |ps| == 0 {
      assert Insert(EmptyNode(), ps, v) == Node(Some(v), []);
    } else {
      FreshPath(ps, v);
      if |features| > 0 {
        LookupSingleEdge(ps[0], Insert(EmptyNode(), ps[1..], v), features, accepts);
        AcceptsAllCons(ps, features, accepts);
        FreshInsertLookup(ps[1..], v, features[1..], accepts);
      }
    }
  }

  /** Registering a non-empty sequence in an empty node creates a single edge
      leading to the path of the remaining predicates. */
  lemma FreshPath<P, V>(ps: seq<P>, v: V)
    requires |ps| > 0
    ensures Insert(EmptyNode(), ps, v) == Node(None, [Edge(ps[0], Insert(EmptyNode(), ps[1..], v))])
  {
    HeadTail(ps);
    InsertBelowNew(EmptyNode(), ps[0], ps[1..], v);
  }

  /** Registering two predicates in an empty node creates a chain of two
      edges ending in the value. */
  lemma FreshPathOfTwo<P, V>(p: P, q: P, v: V)
    ensures Insert(EmptyNode(), [p, q], v) == Node(None, [Edge(p, Node(None, [Edge(q, Node(Some(v), []))]))])
  {
    FreshPath([p, q], v);
    assert [p, q][1..] == [q];
    FreshPath([q], v);
    assert [q][1..] == [];
    assert Insert(EmptyNode<P, V>(), [], v) == Node(Some(v), []);
  }

  /** A root with two edges, `p1` then `p3`, each leading to a chain of one
      more edge (`p2`, resp. `p4`) that ends in a value. */
  function TwoPaths<P, V>(p1: P, p2: P, p3: P, p4: P, a: V, b: V): Node<P, V> {
    Node(None, [Edge(p1, Node(None, [Edge(p2, Node(Some(a), []))])),
                Edge(p3, Node(None, [Edge(p4, Node(Some(b), []))]))])
  }

  /** The trie after registering `[p1, p2]` and then `[p3, p4]` on an empty one,
      with `p1` and `p3` distinct: two root edges in registration order, each
      leading to its own chain. */
  lemma TwoPathsShape<P, V>(p1: P, p2: P, p3: P, p4: P, a: V, b: V)
    requires p1 != p3
    ensures Insert(Insert(EmptyNode(), [p1, p2], a), [p3, p4], b) == TwoPaths(p1, p2, p3, p4, a, b)
  {
    var first := Insert(EmptyNode(), [p1, p2], a);
    FreshPathOfTwo(p1, p2, a);
    assert Labels(first.edges) == [p1];
    FreshPath([p4], b);
    assert [p4][1..] == [];
    assert Insert(EmptyNode<P, V>(), [], b) == Node(Some(b), []);
    assert [p3, p4] == [p3] + [p4];
    InsertBelowNew(first, p3, [p4], b);
  }

  /** Tie-break: when edge `k` accepts the feature and no later edge does, lookup
      continues below edge `k`; earlier edges are not consulted, even if they
      accept the feature too. */
  lemma LastAcceptingEdgeWins<P, V, F>(n: Node<P, V>, k: nat, feature: F, rest: seq<F>, accepts: (P, F) -> bool)
    requires k < |n.edges| && accepts(n.edges[k].pred, feature)
    requires forall j :: k < j < |n.edges| ==> !accepts(n.edges[j].pred, feature)
    ensures LookupAt(n, [feature] + rest, accepts) == LookupAt(n.edges[k].node, rest, accepts)
  {
    assert ([feature] + rest)[1..] == rest;
  }

  /** Two single-predicate registrations with distinct predicates that both
      accept a feature: both stay registered, and lookup resolves through the
      more recent one. */
  lemma RecentRegistrationShadows<P, V, F>(pOld: P, pNew: P, a: V, b: V, feature: F, accepts: (P, F) -> bool)
    requires pOld != pNew
    requires accepts(pOld, feature) && accepts(pNew, feature)
    ensures var t := SetValue(SetValue(Empty(), [pOld], a), [pNew], b);
            GetValue(t, [feature], accepts) == Some(b) && Stored(t, [pOld]) == Some(a)
  {
    var leafA: Node<P, V> := Node(Some(a), []);
    var t1 := SetValue(Empty(), [pOld], a);
    var t := SetValue(t1, [pNew], b);
    InsertBelowNew(EmptyNode<P, V>(), pOld, [], a);
    assert t1.root == Node(None, [Edge(pOld, leafA)]);
    assert Labels(t1.root.edges) == [pOld];
    InsertBelowNew(t1.root, pNew, [], b);
    assert t.root == Node(None, [Edge(pOld, leafA), Edge(pNew, Node(Some(b), []))]);
    LastAcceptingEdgeWins(t.root, 1, feature, [], accepts);
    assert [feature] + [] == [feature];
    assert LookupAt(Node(Some(b), []), [], accepts) == Some(b);
    InsertUpdatesStored(t1.root, [pNew], b, [pOld]);
  }

  /** The shape of the trie after registering `[p1, p2]` and then `[p1, p3]`:
      the first edge is shared and the second level holds both edges in
      registration order. */
  lemma PrefixSharingShape<P, V>(p1: P, p2: P, p3: P, a: V, b: V)
    requires p2 != p3
    ensures SetValue(SetValue(Empty(), [p1, p2], a), [p1, p3], b).root ==
            Node(None, [Edge(p1, Node(None, [Edge(p2, Node(Some(a), [])), Edge(p3, Node(Some(b), []))]))])
  {
    var leafA: Node<P, V> := Node(Some(a), []);
    var leafB: Node<P, V> := Node(Some(b), []);
    var mid := Node(None, [Edge(p2, leafA)]);
    var first := Node(None, [Edge(p1, mid)]);
    assert Insert(EmptyNode(), [p1, p2], a) == first by {
      FreshPathOfTwo(p1, p2, a);
    }
    assert Insert(mid, [p3], b) == Node(None, [Edge(p2, leafA), Edge(p3, leafB)]) by {
      assert Labels(mid.edges) == [p2];
      assert [p3] == [p3] + [];
      InsertBelowNew(mid, p3, [], b);
      assert Insert(EmptyNode<P, V>(), [], b) == leafB;
    }
    assert [p1, p3] == [p1] + [p3];
    InsertBelowExisting(first, p1, [p3], b, 0);
  }

  /** Registrations sharing a first predicate share its edge; a lookup that
      satisfies the first registration but is rejected by the second one's last
      predicate still finds the first value, and the second is found as well. */
  lemma PrefixSharing<P, V, F>(p1: P, p2: P, p3: P, a: V, b: V, f1: F, f2: F, f3: F, accepts: (P, F) -> bool)
    requires p2 != p3
    requires accepts(p1, f1) && accepts(p2, f2) && !accepts(p3, f2) && accepts(p3, f3)
    ensures var t := SetValue(SetValue(Empty(), [p1, p2], a), [p1, p3], b);
            && |t.root.edges| == 1
            && GetValue(t, [f1, f2], accepts) == Some(a)
            && GetValue(t, [f1, f3], accepts) == Some(b)
  {
    var t := SetValue(SetValue(Empty(), [p1, p2], a), [p1, p3], b);
    PrefixSharingShape(p1, p2, p3, a, b);
    var inner := t.root.edges[0].node;
    assert [f1, f2] == [f1] + [f2] && [f1, f3] == [f1] + [f3];
    assert [f2] == [f2] + [] && [f3] == [f3] + [];
    LastAcceptingEdgeWins(t.root, 0, f1, [f2], accepts);
    LastAcceptingEdgeWins(inner, 0, f2, [], accepts);
    assert LookupAt(inner.edges[0].node, [], accepts) == Some(a);
    LastAcceptingEdgeWins(t.root, 0, f1, [f3], accepts);
    LastAcceptingEdgeWins(inner, 1, f3, [], accepts);
    assert LookupAt(inner.edges[1].node, [], accepts) == Some(b);
  }

  /** Lookup never backtracks: after registering `[p1, p2]` and then `[p3, p4]`,
      features accepted position by position by `[p1, p2]` find nothing when
      `p3` also accepts the first feature but `p4` rejects the second, because
      the walk commits to the more recent edge `p3` and stops below it. */
  lemma LookupDoesNotBacktrack<P, V, F>(p1: P, p2: P, p3: P, p4: P, a: V, b: V, x: F, y: F, accepts: (P, F) -> bool)
    requires p1 != p3
    requires accepts(p1, x) && accepts(p2, y) && accepts(p3, x) && !accepts(p4, y)
    ensures var t := SetValue(SetValue(Empty(), [p1, p2], a), [p3, p4], b);
            && Stored(t, [p1, p2]) == Some(a)
            && AcceptsAll([p1, p2], [x, y], accepts)
            && GetValue(t, [x, y], accepts) == None
  {
    var t := SetValue(SetValue(Empty(), [p1, p2], a), [p3, p4], b);
    assert Stored(t, [p1, p2]) == Some(a) by {
      InsertUpdatesStored(Insert(EmptyNode(), [p1, p2], a), [p3, p4], b, [p1, p2]);
    }
    assert GetValue(t, [x, y], accepts) == None by {
      TwoPathsShape(p1, p2, p3, p4, a, b);
      TwoPathsMiss(p1, p2, p3, p4, a, b, x, y, accepts);
    }
  }

  /** In `TwoPaths`, a first feature accepted by `p3` leads below `p3`, where a
      second feature rejected by `p4` finds nothing. */
  lemma TwoPathsMiss<P, V, F>(p1: P, p2: P, p3: P, p4: P, a: V, b: V, x: F, y: F, accepts: (P, F) -> bool)
    requires accepts(p3, x) && !accepts(p4, y)
    ensures LookupAt(TwoPaths(p1, p2, p3, p4, a, b), [x, y], accepts) == None
  {
    assert [x, y] == [x] + [y];
    LastAcceptingEdgeWins(TwoPaths(p1, p2, p3, p4, a, b), 1, x, [y], accepts);
    LookupSingleEdge(p4, Node(Some(b), []), [y], accepts);
  }

  /** A value does not end the walk: after registering `[p]` and then `[p, q]`,
      the node holding the first value also carries the edge `q`, so one
      feature finds the first value and a second feature accepted by `q` walks
      on and finds the second. */
  lemma PastDepthContinues<P, V, F>(p: P, q: P, a: V, b: V, x: F, y: F, accepts: (P, F) -> bool)
    requires accepts(p, x) && accepts(q, y)
    ensures var t := SetValue(SetValue(Empty(), [p], a), [p, q], b);
            && Stored(t, [p]) == Some(a)
            && |t.root.edges| == 1 && |t.root.edges[0].node.edges| == 1
            && GetValue(t, [x], accepts) == Some(a)
            && GetValue(t, [x, y], accepts) == Some(b)
  {
    var leafA: Node<P, V> := Node(Some(a), []);
    var leafB: Node<P, V> := Node(Some(b), []);
    var mid := Node(Some(a), [Edge(q, leafB)]);
    var first := Node(None, [Edge(p, leafA)]);
    var t := SetValue(SetValue(Empty(), [p], a), [p, q], b);
    assert Insert(EmptyNode(), [p], a) == first by {
      FreshPath([p], a);
      assert [p][1..] == [];
      assert Insert(EmptyNode<P, V>(), [], a) == leafA;
    }
    assert Insert(leafA, [q], b) == mid by {
      assert [q] == [q] + [];
      InsertBelowNew(leafA, q, [], b);
      assert Insert(EmptyNode<P, V>(), [], b) == leafB;
    }
    assert t.root == Node(None, [Edge(p, mid)]) by {
      assert [p, q] == [p] + [q];
      InsertBelowExisting(first, p, [q], b, 0);
    }
    assert Stored(t, [p]) == Some(a) by {
      assert FindEdge(t.root.edges, p) == Some(0);
      assert [p][1..] == [];
      assert StoredAt(mid, []) == Some(a);
      assert StoredAt(t.root, [p]) == StoredAt(mid, []);
    }
    assert [x] == [x] + [] && [x, y] == [x] + [y] && [y] == [y] + [];
    LastAcceptingEdgeWins(t.root, 0, x, [], accepts);
    LastAcceptingEdgeWins(t.root, 0, x, [y], accepts);
    LastAcceptingEdgeWins(mid, 0, y, [], accepts);
    assert LookupAt(leafB, [], accepts) == Some(b);
  }

  /** A fresh trie yields no value for any feature sequence. */
  lemma EmptyTrieMatchesNothing<P, V, F>(features: seq<F>, accepts: (P, F) -> bool)
    ensures GetValue(Empty<P, V>(), features, accepts) == None
  {
  }

  /** The empty sequence addresses the root: looking up no features returns the
      value registered under no predicates, and registering under no predicates
      leaves every edge in place. */
  lemma EmptyPathAddressesRoot<P, V, F>(t: Trie<P, V>, v: V, accepts: (P, F) -> bool)
    ensures GetValue(t, [], accepts) == Stored(t, [])
    ensures GetValue(SetValue(t, [], v), [], accepts) == Some(v)
    ensures SetValue(t, [], v).root.edges == t.root.edges
  {
  }

  /** Every child of a node leveled at depth `d` is leveled at depth `d - 1`. */
  lemma LeveledChild<P, V>(n: Node<P, V>, d: nat, j: nat)
    requires Leveled(n, d) && j < |n.edges|
    ensures d > 0 && Leveled(n.edges[j].node, d - 1)
  {
  }

  /** Replacing one child of a leveled node by a child leveled one step lower
      keeps the node leveled. */
  lemma LeveledReplaceChild<P, V>(n: Node<P, V>, d: nat, i: nat, e: Edge<P, V>)
    requires Leveled(n, d) && i < |n.edges| && d > 0 && Leveled(e.node, d - 1)
    ensures Leveled(n.(edges := n.edges[i := e]), d)
  {
    var r := n.(edges := n.edges[i := e]);
    forall j | 0 <= j < |r.edges|
      ensures Leveled(r.edges[j].node, d - 1)
    {
      if j != i {
        LeveledChild(n, d, j);
      }
    }
  }

  /** Appending a child leveled one step lower keeps a valueless node leveled. */
  lemma LeveledAppendChild<P, V>(n: Node<P, V>, d: nat, e: Edge<P, V>)
    requires Leveled(n, d) && d > 0 && Leveled(e.node, d - 1)
    ensures Leveled(n.(edges := n.edges + [e]), d)
  {
    var r := n.(edges := n.edges + [e]);
    forall j | 0 <= j < |r.edges|
      ensures Leveled(r.edges[j].node, d - 1)
    {
      if j < |n.edges| {
        LeveledChild(n, d, j);
      }
    }
  }

  /** Registering a sequence of length `d` keeps a trie of depth `d` leveled. */
  lemma {:induction false} InsertKeepsLeveled<P, V>(n: Node<P, V>, ps: seq<P>, v: V)
    requires Leveled(n, |ps|)
    ensures Leveled(Insert(n, ps, v), |ps|)
    decreases |ps|
  {
    if |ps| > 0 {
      var rest := ps[1..];
      HeadTail(ps);
      match FindEdge(n.edges, ps[0]) {
        case Some(i) =>
          InsertBelowExisting(n, ps[0], rest, v, i);
          LeveledChild(n, |ps|, i);
          InsertKeepsLeveled(n.edges[i].node, rest, v);
          LeveledReplaceChild(n, |ps|, i, Edge(ps[0], Insert(n.edges[i].node, rest, v)));
        case None =>
          InsertBelowNew(n, ps[0], rest, v);
          assert Leveled(EmptyNode<P, V>(), |rest|);
          InsertKeepsLeveled(EmptyNode(), rest, v);
          LeveledAppendChild(n, |ps|, Edge(ps[0], Insert(EmptyNode(), rest, v)));
      }
    }
  }

  /** In a trie whose values all sit at depth `d`, a lookup with any other
      number of features yields no value. */
  lemma {:induction false} LeveledMissesOtherLengths<P, V, F>(n: Node<P, V>, d: nat, features: seq<F>, accepts: (P, F) -> bool)
    requires Leveled(n, d)
    requires |features| != d
    ensures LookupAt(n, features, accepts) == None
    decreases |features|
  {
    if |features| > 0 {
      match FindTraversableEdge(n.edges, features[0], accepts) {
        case None =>
        case Some(i) =>
          LeveledMissesOtherLengths(n.edges[i].node, d - 1, features[1..], accepts);
      }
    }
  }

  /** Registering a value satisfying `ok` keeps every stored value satisfying it. */
  lemma {:induction false} InsertKeepsAllStored<P, V>(n: Node<P, V>, ps: seq<P>, v: V, ok: V -> bool)
    requires AllStored(n, ok) && ok(v)
    ensures AllStored(Insert(n, ps, v), ok)
    decreases |ps|
  {
    if |ps| > 0 {
      var (parent, i) := AddEdge(n, ps[0]);
      var c := parent.edges[i].node;
      var r := Insert(n, ps, v);
      assert r == parent.(edges := parent.edges[i := Edge(ps[0], Insert(c, ps[1..], v))]);
      assert AllStored(c, ok);
      InsertKeepsAllStored(c, ps[1..], v, ok);
      forall j | 0 <= j < |r.edges|
        ensures AllStored(r.edges[j].node, ok)
      {
        if j != i {
          assert r.edges[j] == n.edges[j];
        }
      }
    }
  }

  /** Lookup only ever returns a stored value. */
  lemma {:induction false} LookupReturnsStored<P, V, F>(n: Node<P, V>, features: seq<F>, accepts: (P, F) -> bool, ok: V -> bool)
    requires AllStored(n, ok)
    ensures LookupAt(n, features, accepts).Some? ==> ok(LookupAt(n, features, accepts).value)
    decreases |features|
  {
    if |features| > 0 {
      match FindTraversableEdge(n.edges, features[0], accepts) {
        case None =>
        case Some(i) => LookupReturnsStored(n.edges[i].node, features[1..], accepts, ok);
      }
    }
  }

  /** Soundness of lookup: in a trie without duplicate edges, a value found for
      some features is the value registered under a predicate sequence that
      accepts those features position by position. */
  lemma {:induction false} LookupSound<P, V, F>(n: Node<P, V>, features: seq<F>, accepts: (P, F) -> bool)
    returns (ps: seq<P>)
    requires NoDuplicateEdges(n)
    requires LookupAt(n, features, accepts).Some?
    ensures AcceptsAll(ps, features, accepts)
    ensures StoredAt(n, ps) == LookupAt(n, features, accepts)
    decreases |features|
  {
    if |features| == 0 {
      ps := [];
    } else {
      var i := FindTraversableEdge(n.edges, features[0], accepts).value;
      var p := n.edges[i].pred;
      var c := n.edges[i].node;
      assert NoDuplicateEdges(c);
      assert LookupAt(n, features, accepts) == LookupAt(c, features[1..], accepts);
      var rest := LookupSound(c, features[1..], accepts);
      ps := [p] + rest;
      assert ps[0] == p && ps[1..] == rest;
      assert FindEdge(n.edges, p) == Some(i);
      assert StoredAt(n, ps) == StoredAt(c, rest);
      AcceptsAllCons(ps, features, accepts);
    }
  }
}
