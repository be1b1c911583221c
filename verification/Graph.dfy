/** Directed graphs given by successor lists, and reachability in them. */
module Graph {
  type Vertex = string
  type Succs = Vertex -> seq<Vertex>

  ghost predicate IsPath(succs: Succs, p: seq<Vertex>) {
    p != [] && forall i :: 0 <= i < |p| - 1 ==> p[i + 1] in succs(p[i])
  }

  ghost predicate Connects(succs: Succs, p: seq<Vertex>, a: Vertex, b: Vertex) {
    IsPath(succs, p) && p[0] == a && p[|p| - 1] == b
  }

  ghost predicate Reach(succs: Succs, a: Vertex, b: Vertex) {
    exists p :: Connects(succs, p, a, b)
  }

  ghost predicate Mutual(succs: Succs, a: Vertex, b: Vertex) {
    Reach(succs, a, b) && Reach(succs, b, a)
  }

  /** No edge leaves s. */
  ghost predicate Closed(succs: Succs, s: set<Vertex>) {
    forall a, b :: a in s && b in succs(a) ==> b in s
  }

  lemma ReachSelf(succs: Succs, a: Vertex)
    ensures Reach(succs, a, a)
  {
    assert Connects(succs, [a], a, a);
  }

  lemma ReachTrans(succs: Succs, a: Vertex, b: Vertex, c: Vertex)
    requires Reach(succs, a, b) && Reach(succs, b, c)
    ensures Reach(succs, a, c)
  {
    var p :| Connects(succs, p, a, b);
    var q :| Connects(succs, q, b, c);
    var r := p + q[1..];
    forall i | 0 <= i < |r| - 1
      ensures r[i + 1] in succs(r[i])
    {
      if i >= |p| - 1 {
        assert r[i] == q[i - (|p| - 1)] && r[i + 1] == q[i + 1 - (|p| - 1)];
      }
    }
    assert Connects(succs, r, a, c);
  }

  lemma ReachEdge(succs: Succs, a: Vertex, b: Vertex, c: Vertex)
    requires Reach(succs, a, b) && c in succs(b)
    ensures Reach(succs, a, c)
  {
    assert Connects(succs, [b, c], b, c);
    ReachTrans(succs, a, b, c);
  }

  /** What is reached from a closed set is in it. */
  lemma ReachClosed(succs: Succs, s: set<Vertex>, a: Vertex, b: Vertex)
    requires Closed(succs, s) && a in s && Reach(succs, a, b)
    ensures b in s
  {
    var p :| Connects(succs, p, a, b);
    PathClosed(succs, s, p, |p| - 1);
  }

  lemma {:induction false} PathClosed(succs: Succs, s: set<Vertex>, p: seq<Vertex>, i: nat)
    requires Closed(succs, s) && IsPath(succs, p) && p[0] in s && i < |p|
    ensures p[i] in s
  {
    if i > 0 {
      PathClosed(succs, s, p, i - 1);
      assert p[i - 1 + 1] in succs(p[i - 1]);
    }
  }
}
