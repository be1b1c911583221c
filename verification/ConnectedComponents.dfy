/** The entry points over whole graphs: folding, sorting and numbering components (asllib/TopoSort.ml). */
module ConnectedComponents {
  import opened Graph
  import opened SccSearch
  import opened TopoSort

  /** The vertices reachable from a list of nodes. */
  ghost predicate ReachedFrom(succs: Succs, nodes: seq<Vertex>, x: Vertex) {
    exists i :: 0 <= i < |nodes| && Reach(succs, nodes[i], x)
  }

  /** The emitted lists: the components of what is reachable, each after those it points to. */
  ghost predicate IsDecomposition(succs: Succs, nodes: seq<Vertex>, comps: seq<seq<Vertex>>) {
    && AreComponents(succs, comps) && AreDisjoint(comps) && AreOrdered(succs, comps)
    && forall x :: InComps(comps, x) <==> ReachedFrom(succs, nodes, x)
  }

  /** Between two explorations nothing is being explored, and everything visited is emitted. */
  ghost predicate Resting(succs: Succs, nodes: seq<Vertex>, t: View) {
    && SccSearch.Valid(succs, t) && t.gray == {}
    && (forall x :: x in nodes ==> x in t.idx)
    && (forall x :: x in t.idx ==> ReachedFrom(succs, nodes, x))
  }

  lemma RestingStart(succs: Succs)
    ensures Resting(succs, [], View(map[], [], {}, [], 0))
  {
    var t := View(map[], [], {}, [], 0);
    assert Emitted(t) == {};
    assert forall x :: !InComps([], x);
  }

  lemma ReachedMore(succs: Succs, nodes: seq<Vertex>, v: Vertex, x: Vertex)
    ensures ReachedFrom(succs, nodes + [v], x) <==> ReachedFrom(succs, nodes, x) || Reach(succs, v, x)
  {
    hide Reach;
    if ReachedFrom(succs, nodes, x) {
      var i :| 0 <= i < |nodes| && Reach(succs, nodes[i], x);
      assert Reach(succs, (nodes + [v])[i], x);
    }
    if Reach(succs, v, x) {
      assert Reach(succs, (nodes + [v])[|nodes|], x);
    }
  }

  lemma RestingVisited(succs: Succs, nodes: seq<Vertex>, v: Vertex, t: View)
    requires Resting(succs, nodes, t) && v in t.idx
    ensures Resting(succs, nodes + [v], t)
  {
    hide SccSearch.Valid; hide Reach; hide ReachedFrom;
    forall x | x in t.idx
      ensures ReachedFrom(succs, nodes + [v], x)
    {
      ReachedMore(succs, nodes, v, x);
    }
  }

  lemma RestingExplored(succs: Succs, nodes: seq<Vertex>, v: Vertex, s: View, low: nat, t: View)
    requires Resting(succs, nodes, s) && Explored(succs, s, v, low, t) && SccSearch.Valid(succs, t)
    ensures Resting(succs, nodes + [v], t)
  {
    hide SccSearch.Valid; hide Reach; hide ReachedFrom; hide LowBounds; hide LowReached;
    forall x | x in t.idx
      ensures ReachedFrom(succs, nodes + [v], x)
    {
      ReachedMore(succs, nodes, v, x);
    }
  }

  lemma NothingInside(s: seq<Vertex>)
    ensures (forall x :: x !in s) ==> s == []
  {
    if s != [] {
      assert s[0] in s;
    }
  }

  /** At rest the stack is empty. */
  lemma RestingEmitted(succs: Succs, t: View)
    requires SccSearch.Valid(succs, t) && t.gray == {}
    ensures t.stack == [] && Emitted(t) == t.idx.Keys
  {
    hide Reach; hide Emissions;
    forall y
      ensures y !in t.stack
    {
      assert !HasAnchor(succs, t, y);
    }
    NothingInside(t.stack);
  }

  lemma RestingSpec(succs: Succs, nodes: seq<Vertex>, t: View)
    requires Resting(succs, nodes, t)
    ensures IsDecomposition(succs, nodes, t.comps)
  {
    hide AreComponents; hide AreDisjoint; hide AreOrdered; hide InComps; hide Reach;
    RestingEmitted(succs, t);
    forall x | ReachedFrom(succs, nodes, x)
      ensures x in t.idx
    {
      var i :| 0 <= i < |nodes| && Reach(succs, nodes[i], x);
      ReachClosed(succs, Emitted(t), nodes[i], x);
    }
  }

  method FoldStrongConnected<A>(fold: (seq<Vertex>, A) -> A, nodes: seq<Vertex>, succs: Succs, acc: A,
                                ghost universe: set<Vertex>)
    returns (acc': A, ghost comps: seq<seq<Vertex>>)
    requires Closed(succs, universe) && forall x :: x in nodes ==> x in universe
    ensures IsDecomposition(succs, nodes, comps) && acc' == FoldAll(fold, comps, acc)
  {
    hide Explored; hide FoldAll; hide IsDecomposition; hide Closed;
    var s := new State.Create();
    RestingStart(succs);
    acc' := acc;
    FoldAllNothing(fold, acc);
    var k := 0;
    assert nodes[..0] == [];
    while k < |nodes|
      invariant 0 <= k <= |nodes| && fresh(s) && fresh(s.stack)
      invariant s.stack.Valid() && Resting(succs, nodes[..k], s.Now())
      invariant acc' == FoldAll(fold, s.comps, acc)
    {
      var v := nodes[k];
      assert nodes[..k + 1] == nodes[..k] + [v];
      ghost var t := s.Now();
      if v in s.data {
        RestingVisited(succs, nodes[..k], v, t);
      } else {
        var vData;
        acc', vData := s.StrongConnected(succs, fold, acc', v, universe);
        RestingExplored(succs, nodes[..k], v, t, vData.lowlink, s.Now());
        FoldAllAppend(fold, t.comps, s.comps[|t.comps|..], acc);
        assert t.comps + s.comps[|t.comps|..] == s.comps;
      }
      k := k + 1;
    }
    assert nodes[..k] == nodes;
    RestingSpec(succs, nodes, s.Now());
    comps := s.comps;
  }

  // ---------------------------------------------------------------- sort_connected

  function Cons(c: seq<Vertex>, cs: seq<seq<Vertex>>): seq<seq<Vertex>> {
    [c] + cs
  }

  lemma {:induction false} ConsAll(comps: seq<seq<Vertex>>, acc: seq<seq<Vertex>>)
    ensures FoldAll(Cons, comps, acc) == Reversed(comps) + acc
  {
    if comps == [] {
      assert [] + acc == acc;
    } else {
      ConsAll(comps[1..], [comps[0]] + acc);
      assert Reversed(comps[1..]) + ([comps[0]] + acc) == Reversed(comps) + acc;
    }
  }

  function Reversed<T>(s: seq<T>): seq<T> {
    if s == [] then [] else Reversed(s[1..]) + [s[0]]
  }

  lemma {:induction false} ReversedAppend<T>(s: seq<T>, x: T)
    ensures Reversed(s + [x]) == [x] + Reversed(s)
  {
    if s != [] {
      ReversedAppend(s[1..], x);
      assert (s + [x])[1..] == s[1..] + [x];
    }
  }

  lemma {:induction false} ReversedTwice<T>(s: seq<T>)
    ensures Reversed(Reversed(s)) == s
  {
    if s != [] {
      ReversedTwice(s[1..]);
      ReversedAppend(Reversed(s[1..]), s[0]);
    }
  }

  method SortConnected(nodes: seq<Vertex>, succs: Succs, ghost universe: set<Vertex>) returns (comps: seq<seq<Vertex>>)
    requires Closed(succs, universe) && forall x :: x in nodes ==> x in universe
    ensures IsDecomposition(succs, nodes, comps)
  {
    var rev: seq<seq<Vertex>>;
    ghost var emitted;
    rev, emitted := FoldStrongConnected(Cons, nodes, succs, [], universe);
    ConsAll(emitted, []);
    ReversedTwice(emitted);
    assert Reversed(emitted) + [] == Reversed(emitted);
    comps := Reversed(rev);
  }

  // ---------------------------------------------------------------- index_connected

  type Indexes = map<Vertex, nat>

  function PutAll(nodes: seq<Vertex>, i: nat, indexes: Indexes): Indexes {
    if nodes == [] then indexes else PutAll(nodes[1..], i, indexes[nodes[0] := i])
  }

  function Indexer(nodes: seq<Vertex>, acc: (Indexes, nat)): (Indexes, nat) {
    (PutAll(nodes, acc.1, acc.0), acc.1 + 1)
  }

  lemma {:induction false} PutAllSpec(nodes: seq<Vertex>, i: nat, indexes: Indexes, x: Vertex)
    ensures var r := PutAll(nodes, i, indexes);
            && (x in r <==> x in indexes || x in nodes)
            && (x in r ==> r[x] == if x in nodes then i else indexes[x])
  {
    if nodes != [] {
      PutAllSpec(nodes[1..], i, indexes[nodes[0] := i], x);
      assert x in nodes <==> x == nodes[0] || x in nodes[1..];
    }
  }

  /** Every vertex is numbered with the position of its component. */
  ghost predicate NumbersComps(comps: seq<seq<Vertex>>, from: nat, indexes: Indexes) {
    && (forall x :: x in indexes <==> InComps(comps, x))
    && (forall i, x :: 0 <= i < |comps| && x in comps[i] ==> indexes[x] == from + i)
  }

  lemma {:induction false} IndexerSpec(comps: seq<seq<Vertex>>, done: seq<seq<Vertex>>, indexes: Indexes)
    requires AreDisjoint(done + comps) && NumbersComps(done, 0, indexes)
    ensures NumbersComps(done + comps, 0, FoldAll<(Indexes, nat)>(Indexer, comps, (indexes, |done|)).0)
  {
    if comps == [] {
      assert done + comps == done;
    } else {
      var c := comps[0];
      var done' := done + [c];
      assert done' + comps[1..] == done + comps;
      IndexerStep(done, c, comps[1..], indexes);
      IndexerSpec(comps[1..], done', PutAll(c, |done|, indexes));
    }
  }

  lemma IndexerStep(done: seq<seq<Vertex>>, c: seq<Vertex>, rest: seq<seq<Vertex>>, indexes: Indexes)
    requires AreDisjoint(done + [c] + rest) && NumbersComps(done, 0, indexes)
    ensures NumbersComps(done + [c], 0, PutAll(c, |done|, indexes))
  {
    hide AreDisjoint; hide InComps;
    var r := PutAll(c, |done|, indexes);
    forall x
      ensures x in r <==> InComps(done + [c], x)
    {
      PutAllSpec(c, |done|, indexes, x);
      InCompsAppend(done, c, x);
    }
    forall i, x | 0 <= i < |done + [c]| && x in (done + [c])[i]
      ensures x in r && r[x] == i
    {
      PutAllSpec(c, |done|, indexes, x);
      InCompsAt(done + [c], i, x);
      if i < |done| {
        DisjointFromLast(done, c, rest, i, x);
        InCompsAt(done, i, x);
      }
    }
  }

  lemma InCompsAt(comps: seq<seq<Vertex>>, i: nat, x: Vertex)
    requires i < |comps| && x in comps[i]
    ensures InComps(comps, x)
  {}

  lemma DisjointFromLast(done: seq<seq<Vertex>>, c: seq<Vertex>, rest: seq<seq<Vertex>>, i: nat, x: Vertex)
    requires AreDisjoint(done + [c] + rest) && i < |done| && x in done[i]
    ensures x !in c
  {
    var all := done + [c] + rest;
    assert all[i] == done[i] && all[|done|] == c;
  }

  /** The numbering respects the edges, and vertices share a number iff they reach each other. */
  ghost predicate RespectsOrder(succs: Succs, nodes: seq<Vertex>, indexes: Indexes) {
    && (forall x :: x in indexes <==> ReachedFrom(succs, nodes, x))
    && (forall v, w :: v in indexes && w in succs(v) ==> w in indexes && indexes[v] >= indexes[w])
    && (forall v, w :: v in indexes && w in indexes ==> (indexes[v] == indexes[w] <==> Mutual(succs, v, w)))
  }

  lemma OrderFromComps(succs: Succs, nodes: seq<Vertex>, comps: seq<seq<Vertex>>, indexes: Indexes)
    requires IsDecomposition(succs, nodes, comps) && NumbersComps(comps, 0, indexes)
    ensures RespectsOrder(succs, nodes, indexes)
  {
    hide Mutual; hide ReachedFrom; hide AreDisjoint; hide NoDuplicates;
    forall v, w | v in indexes && w in succs(v)
      ensures w in indexes && indexes[v] >= indexes[w]
    {
      var i :| 0 <= i < |comps| && v in comps[i];
      assert InComps(comps[..i + 1], w);
      var j :| 0 <= j < |comps[..i + 1]| && w in comps[..i + 1][j];
      assert w in comps[j];
    }
    forall v, w | v in indexes && w in indexes
      ensures indexes[v] == indexes[w] <==> Mutual(succs, v, w)
    {
      var i :| 0 <= i < |comps| && v in comps[i];
      var j :| 0 <= j < |comps| && w in comps[j];
    }
  }

  method IndexConnected(nodes: seq<Vertex>, succs: Succs, ghost universe: set<Vertex>) returns (indexes: Indexes)
    requires Closed(succs, universe) && forall x :: x in nodes ==> x in universe
    ensures RespectsOrder(succs, nodes, indexes)
    ensures exists comps :: IsDecomposition(succs, nodes, comps) && NumbersComps(comps, 0, indexes)
  {
    var acc: (Indexes, nat);
    ghost var comps;
    acc, comps := FoldStrongConnected<(Indexes, nat)>(Indexer, nodes, succs, (map[], 0), universe);
    assert [] + comps == comps;
    IndexerSpec(comps, [], map[]);
    OrderFromComps(succs, nodes, comps, acc.0);
    indexes := acc.0;
  }
}
