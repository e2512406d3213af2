/** The predicate trie of lib/trie.js.

    A node holds an optional value and an ordered list of outgoing edges; each
    edge is labelled by a predicate and owns its target node.  Predicates are
    opaque values compared by identity (the type parameter `P` with equality),
    and whether a predicate accepts a feature is the caller-supplied relation
    `accepts`.  The trie is a finite tree without sharing, so it is modelled as
    an immutable datatype and every mutating operation returns the new tree. */
module Trie {
  import opened Wrappers

  datatype Edge<P, V> = Edge(pred: P, node: Node<P, V>)

  datatype Node<P, V> = Node(value: Option<V>, edges: seq<Edge<P, V>>)

  datatype Trie<P, V> = Trie(root: Node<P, V>)

  /** A node without value and without edges. */
  function EmptyNode<P, V>(): Node<P, V> {
    Node(None, [])
  }

  /** A trie consisting of its root node only. */
  function Empty<P, V>(): Trie<P, V> {
    Trie(EmptyNode())
  }

  /** The predicates labelling `edges`, in edge order. */
  function Labels<P, V>(edges: seq<Edge<P, V>>): (r: seq<P>)
    ensures |r| == |edges|
    ensures forall i :: 0 <= i < |edges| ==> r[i] == edges[i].pred
  {
    seq(|edges|, i requires 0 <= i < |edges| => edges[i].pred)
  }

  /** The position of the first edge whose predicate is identical to `p`. */
  function FindEdge<P(==), V>(edges: seq<Edge<P, V>>, p: P): (r: Option<nat>)
    ensures r.Some? ==> r.value < |edges| && edges[r.value].pred == p
    ensures r.Some? ==> forall j :: 0 <= j < r.value ==> edges[j].pred != p
    ensures r.None? <==> p !in Labels(edges)
  {
    if |edges| == 0 then None
    else if edges[0].pred == p then Some(0)
    else match FindEdge(edges[1..], p)
      case None => None
      case Some(i) => Some(i + 1)
  }

  /** Returns the parent with an edge labelled `p` and that edge's position.
      An edge with an identical predicate is reused; otherwise a new edge to an
      empty child is appended after all existing edges. */
  function AddEdge<P(==), V>(parent: Node<P, V>, p: P): (r: (Node<P, V>, nat))
    ensures r.1 < |r.0.edges| && r.0.edges[r.1].pred == p
    ensures FindEdge(r.0.edges, p) == Some(r.1)
    ensures r.0.value == parent.value
    ensures p in Labels(parent.edges) ==> r.0 == parent
    ensures p !in Labels(parent.edges) ==>
              r.0.edges == parent.edges + [Edge(p, EmptyNode())] && r.1 == |parent.edges|
  {
    match FindEdge(parent.edges, p)
    case Some(i) => (parent, i)
    case None =>
      var edges := parent.edges + [Edge(p, EmptyNode())];
      assert FindEdge(edges, p) == Some(|parent.edges|) by {
        FindEdgeAppend(parent.edges, Edge(p, EmptyNode()), p);
      }
      (parent.(edges := edges), |parent.edges|)
  }

  /** Appending an edge does not change where an earlier label is first found,
      and a label not found before is found at the appended edge if it matches. */
  lemma {:induction false} FindEdgeAppend<P, V>(edges: seq<Edge<P, V>>, e: Edge<P, V>, q: P)
    ensures FindEdge(edges + [e], q) ==
            (if q in Labels(edges) then FindEdge(edges, q)
             else if e.pred == q then Some(|edges|) else None)
    decreases |edges|
  {
    if |edges| > 0 && edges[0].pred != q {
      assert (edges + [e])[1..] == edges[1..] + [e];
      FindEdgeAppend(edges[1..], e, q);
      assert q in Labels(edges) <==> q in Labels(edges[1..]) by {
        assert Labels(edges) == [edges[0].pred] + Labels(edges[1..]);
      }
    }
  }

  /** The position of the edge `getValue` traverses for `feature`: edges are
      scanned from the last to the first and the first accepting one is taken,
      so the most recently added accepting edge wins. */
  function FindTraversableEdge<P, V, F>(edges: seq<Edge<P, V>>, feature: F, accepts: (P, F) -> bool)
    : (r: Option<nat>)
    ensures r.Some? ==> r.value < |edges| && accepts(edges[r.value].pred, feature)
    ensures r.Some? ==> forall j :: r.value < j < |edges| ==> !accepts(edges[j].pred, feature)
    ensures r.None? <==> forall j :: 0 <= j < |edges| ==> !accepts(edges[j].pred, feature)
    decreases |edges|
  {
    if |edges| == 0 then None
    else if accepts(edges[|edges| - 1].pred, feature) then Some(|edges| - 1)
    else FindTraversableEdge(edges[..|edges| - 1], feature, accepts)
  }

  /** `setValue` below node `n`: follows or creates one edge per predicate and
      stores `v` on the node reached, overwriting what was there. */
  function Insert<P(==), V>(n: Node<P, V>, ps: seq<P>, v: V): (r: Node<P, V>)
    ensures StoredAt(r, ps) == Some(v)
    ensures |ps| > 0 ==> r.value == n.value
    ensures |n.edges| <= |r.edges| <= |n.edges| + 1
    ensures Labels(r.edges)[..|n.edges|] == Labels(n.edges)
    decreases |ps|
  {
    if |ps| == 0 then n.(value := Some(v))
    else
      var (parent, i) := AddEdge(n, ps[0]);
      var child := Insert(parent.edges[i].node, ps[1..], v);
      var r := parent.(edges := parent.edges[i := Edge(ps[0], child)]);
      assert Labels(r.edges) == Labels(parent.edges);
      assert FindEdge(r.edges, ps[0]) == Some(i) by {
        FindEdgeSameLabels(parent.edges, r.edges, ps[0]);
      }
      r
  }

  /** `FindEdge` looks at labels only. */
  lemma {:induction false} FindEdgeSameLabels<P, V>(a: seq<Edge<P, V>>, b: seq<Edge<P, V>>, q: P)
    requires Labels(a) == Labels(b)
    ensures FindEdge(a, q) == FindEdge(b, q)
    decreases |a|
  {
    if |a| > 0 {
      assert a[0].pred == Labels(a)[0] == Labels(b)[0] == b[0].pred;
      if a[0].pred != q {
        assert Labels(a[1..]) == Labels(b[1..]) by {
          forall k | 0 <= k < |a| - 1
            ensures Labels(a[1..])[k] == Labels(b[1..])[k]
          {
            assert Labels(a)[k + 1] == Labels(b)[k + 1];
          }
        }
        FindEdgeSameLabels(a[1..], b[1..], q);
      }
    }
  }

  /** The value stored under exactly the predicate sequence `ps`: the edges
      followed are those whose predicate is identical to `ps[i]`, as registration
      follows them.  `None` when the path does not exist or holds no value. */
  function StoredAt<P(==), V>(n: Node<P, V>, ps: seq<P>): Option<V>
    decreases |ps|
  {
    if |ps| == 0 then n.value
    else match FindEdge(n.edges, ps[0])
      case None => None
      case Some(i) => StoredAt(n.edges[i].node, ps[1..])
  }

  /** The node `getValue`'s loop reaches after consuming all of `features`,
      or `None` if at some step no edge accepts the current feature. */
  function Walk<P, V, F>(n: Node<P, V>, features: seq<F>, accepts: (P, F) -> bool)
    : (r: Option<Node<P, V>>)
    ensures |features| == 0 ==> r == Some(n)
    ensures |features| > 0 && |n.edges| == 0 ==> r == None
    decreases |features|
  {
    if |features| == 0 then Some(n)
    else match FindTraversableEdge(n.edges, features[0], accepts)
      case None => None
      case Some(i) => Walk(n.edges[i].node, features[1..], accepts)
  }

  /** `getValue` below node `n`. */
  function LookupAt<P, V, F>(n: Node<P, V>, features: seq<F>, accepts: (P, F) -> bool): (r: Option<V>)
    ensures |features| == 0 ==> r == n.value
    ensures n == EmptyNode() ==> r == None
  {
    match Walk(n, features, accepts)
    case None => None
    case Some(m) => m.value
  }

  /** `Trie.prototype.setValue`. */
  function SetValue<P(==), V>(t: Trie<P, V>, predicates: seq<P>, value: V): (r: Trie<P, V>)
    ensures Stored(r, predicates) == Some(value)
  {
    Trie(Insert(t.root, predicates, value))
  }

  /** `Trie.prototype.getValue`. */
  function GetValue<P, V, F>(t: Trie<P, V>, features: seq<F>, accepts: (P, F) -> bool): (r: Option<V>)
    ensures |features| == 0 ==> r == Stored(t, [])
    ensures t == Empty() ==> r == None
  {
    LookupAt(t.root, features, accepts)
  }

  /** The registration view of a whole trie. */
  function Stored<P(==), V>(t: Trie<P, V>, predicates: seq<P>): Option<V> {
    StoredAt(t.root, predicates)
  }

  /** Every predicate sequence in `ps` accepts the feature at the same position,
      and the two have the same length. */
  predicate AcceptsAll<P, F>(ps: seq<P>, features: seq<F>, accepts: (P, F) -> bool) {
    |ps| == |features| && forall i :: 0 <= i < |ps| ==> accepts(ps[i], features[i])
  }

  /** No two edges of the list carry the same predicate. */
  ghost predicate DistinctLabels<P, V>(edges: seq<Edge<P, V>>) {
    forall i, j :: 0 <= i < j < |edges| ==> edges[i].pred != edges[j].pred
  }

  /** No node of the tree has two edges with the same predicate. */
  ghost predicate NoDuplicateEdges<P, V>(n: Node<P, V>)
    decreases n
  {
    && DistinctLabels(n.edges)
    && forall i :: 0 <= i < |n.edges| ==> NoDuplicateEdges(n.edges[i].node)
  }

  /** `after` is `before` with edges possibly appended: at every node the
      existing edges keep their predicates and their order. */
  ghost predicate Grows<P, V>(before: Node<P, V>, after: Node<P, V>)
    decreases before
  {
    && |before.edges| <= |after.edges|
    && forall i :: 0 <= i < |before.edges| ==>
         && after.edges[i].pred == before.edges[i].pred
         && Grows(before.edges[i].node, after.edges[i].node)
  }

  /** Every stored value sits exactly `depth` edges below `n`, and the nodes at
      that depth have no edges: the shape of a trie filled only with predicate
      sequences of length `depth`. */
  ghost predicate Leveled<P, V>(n: Node<P, V>, depth: nat)
    decreases n
  {
    && (n.value.Some? ==> depth == 0)
    && (depth == 0 ==> |n.edges| == 0)
    && forall i :: 0 <= i < |n.edges| ==> Leveled(n.edges[i].node, depth - 1)
  }

  /** Every stored value satisfies `ok`. */
  ghost predicate AllStored<P, V>(n: Node<P, V>, ok: V -> bool)
    decreases n
  {
    && (n.value.Some? ==> ok(n.value.value))
    && forall i :: 0 <= i < |n.edges| ==> AllStored(n.edges[i].node, ok)
  }
}
