/** The states of the depth-first search for components, and what each of its steps keeps (asllib/TopoSort.ml). */
module SccSearch {
  import opened Graph

  /** idx: order of discovery; stack: visited vertices not yet in a component; gray: vertices being explored. */
  datatype View = View(idx: map<Vertex, nat>, stack: seq<Vertex>, gray: set<Vertex>, comps: seq<seq<Vertex>>, n: nat)

  function Elements(s: seq<Vertex>): set<Vertex> {
    set x | x in s
  }

  /** Vertices whose component is known. */
  function Emitted(t: View): set<Vertex> {
    t.idx.Keys - Elements(t.stack)
  }

  // ---------------------------------------------------------------- the invariant

  ghost predicate Numbered(t: View) {
    && (forall x :: x in t.idx ==> t.idx[x] < t.n)
    && (forall x :: x in t.stack ==> x in t.idx)
    && (forall i, j :: 0 <= i < j < |t.stack| ==> t.idx[t.stack[i]] < t.idx[t.stack[j]])
    && (forall x :: x in t.gray ==> x in t.stack)
  }

  /** The successors of a vertex that is no longer explored are visited. */
  ghost predicate NoWhiteSuccessor(succs: Succs, t: View) {
    forall a, b :: a in t.idx && a !in t.gray && b in succs(a) ==> b in t.idx
  }

  /** A lower vertex of the stack reaches the higher ones. */
  ghost predicate Chained(succs: Succs, t: View) {
    forall i, j :: 0 <= i <= j < |t.stack| ==> Reach(succs, t.stack[i], t.stack[j])
  }

  /** y reaches a vertex below it that is still being explored. */
  ghost predicate HasAnchor(succs: Succs, t: View, y: Vertex) {
    exists x :: x in t.gray && x in t.idx && y in t.idx && t.idx[x] <= t.idx[y] && Reach(succs, y, x)
  }

  ghost predicate Anchored(succs: Succs, t: View) {
    forall y {:trigger HasAnchor(succs, t, y)} :: y in t.stack ==> HasAnchor(succs, t, y)
  }

  ghost predicate InComps(comps: seq<seq<Vertex>>, x: Vertex) {
    exists i :: 0 <= i < |comps| && x in comps[i]
  }

  ghost predicate NoDuplicates(s: seq<Vertex>) {
    forall i, j :: 0 <= i < j < |s| ==> s[i] != s[j]
  }

  /** Each list is exactly one maximal strongly connected component. */
  ghost predicate AreComponents(succs: Succs, comps: seq<seq<Vertex>>) {
    forall i :: 0 <= i < |comps| ==>
      && comps[i] != [] && NoDuplicates(comps[i])
      && forall a, b :: a in comps[i] ==> (b in comps[i] <==> Mutual(succs, a, b))
  }

  ghost predicate AreDisjoint(comps: seq<seq<Vertex>>) {
    forall i, j, x :: 0 <= i < j < |comps| && x in comps[i] ==> x !in comps[j]
  }

  /** An edge leads to the same component or to one emitted before. */
  ghost predicate AreOrdered(succs: Succs, comps: seq<seq<Vertex>>) {
    forall i, a, b :: 0 <= i < |comps| && a in comps[i] && b in succs(a) ==> InComps(comps[..i + 1], b)
  }

  ghost predicate Emissions(succs: Succs, t: View) {
    && AreComponents(succs, t.comps) && AreDisjoint(t.comps) && AreOrdered(succs, t.comps)
    && (forall x :: x in Emitted(t) <==> InComps(t.comps, x))
    && Closed(succs, Emitted(t))
  }

  ghost predicate Valid(succs: Succs, t: View) {
    && Numbered(t) && NoWhiteSuccessor(succs, t) && Chained(succs, t) && Anchored(succs, t)
    && Emissions(succs, t)
  }

  // ---------------------------------------------------------------- what an exploration achieves

  ghost predicate Grows(s: View, t: View) {
    && (forall x :: x in s.idx ==> x in t.idx && t.idx[x] == s.idx[x])
    && s.stack <= t.stack && s.comps <= t.comps && s.n <= t.n
  }

  ghost predicate LowReached(succs: Succs, t: View, v: Vertex, low: nat) {
    exists y :: y in t.stack && y in t.idx && t.idx[y] == low && Reach(succs, v, y)
  }

  /** Edges from the part of the stack above position k into `base` lead to vertices numbered at least low. */
  ghost predicate LowBounds(succs: Succs, t: View, k: nat, base: seq<Vertex>, low: nat) {
    k <= |t.stack| &&
    forall a, b :: a in t.stack[k..] && b in base && b in succs(a) && b in t.idx ==> low <= t.idx[b]
  }

  /** Only vertices reachable from v were visited since s. */
  ghost predicate NewReached(succs: Succs, s: View, v: Vertex, t: View) {
    forall x :: x in t.idx && x !in s.idx ==> Reach(succs, v, x)
  }

  /** strong_connected has explored v from s, giving t and v's lowlink. */
  ghost predicate Explored(succs: Succs, s: View, v: Vertex, low: nat, t: View) {
    && Grows(s, t) && t.gray == s.gray
    && v in t.idx && t.idx[v] == s.n && low <= s.n
    && (if v in t.stack then low < s.n && LowReached(succs, t, v, low)
        else t.stack == s.stack && low == s.n)
    && LowBounds(succs, t, |s.stack|, s.stack, low) && NewReached(succs, s, v, t)
  }

  /** The fold over the successors of v has handled the first k of them. */
  ghost predicate Exploring(succs: Succs, s: View, v: Vertex, k: nat, low: nat, t: View) {
    && k <= |succs(v)|
    && Grows(s, t) && t.gray == s.gray + {v} && v !in s.idx
    && v in t.idx && t.idx[v] == s.n && low <= s.n
    && s.stack + [v] <= t.stack
    && LowReached(succs, t, v, low)
    && (forall j :: 0 <= j < k ==> succs(v)[j] in t.idx && (succs(v)[j] in s.stack ==> low <= t.idx[succs(v)[j]]))
    && LowBounds(succs, t, |s.stack| + 1, s.stack, low) && NewReached(succs, s, v, t)
  }

  // ---------------------------------------------------------------- entering a vertex

  function Enter(s: View, v: Vertex): View {
    View(s.idx[v := s.n], s.stack + [v], s.gray + {v}, s.comps, s.n + 1)
  }

  lemma EnterEmitted(s: View, v: Vertex)
    requires Numbered(s) && v !in s.idx
    ensures Emitted(Enter(s, v)) == Emitted(s)
  {
    assert forall x :: x in Enter(s, v).stack <==> x in s.stack || x == v;
  }

  lemma EnterChained(succs: Succs, s: View, v: Vertex)
    requires Chained(succs, s) && Anchored(succs, s)
    requires forall x :: x in s.gray ==> Reach(succs, x, v)
    ensures Chained(succs, Enter(s, v))
  {
    var t := Enter(s, v);
    forall i, j | 0 <= i <= j < |t.stack|
      ensures Reach(succs, t.stack[i], t.stack[j])
    {
      if i == |s.stack| {
        ReachSelf(succs, v);
      } else if j == |s.stack| {
        var y := s.stack[i];
        assert y in s.stack && HasAnchor(succs, s, y);
        var x :| x in s.gray && Reach(succs, y, x);
        ReachTrans(succs, y, x, v);
      }
    }
  }

  lemma EnterAnchored(succs: Succs, s: View, v: Vertex)
    requires Numbered(s) && Anchored(succs, s) && v !in s.idx
    ensures Anchored(succs, Enter(s, v))
  {
    var t := Enter(s, v);
    forall y | y in t.stack
      ensures HasAnchor(succs, t, y)
    {
      if y in s.stack {
        assert HasAnchor(succs, s, y);
      } else {
        ReachSelf(succs, v);
      }
    }
  }

  lemma EnterNumbered(s: View, v: Vertex)
    requires Numbered(s) && v !in s.idx
    ensures Numbered(Enter(s, v))
  {
    var t := Enter(s, v);
    assert forall x :: x in t.stack <==> x in s.stack || x == v;
  }

  lemma EnterSpec(succs: Succs, s: View, v: Vertex)
    requires Valid(succs, s) && v !in s.idx && forall x :: x in s.gray ==> Reach(succs, x, v)
    ensures Valid(succs, Enter(s, v)) && Exploring(succs, s, v, 0, s.n, Enter(s, v))
  {
    hide Chained; hide HasAnchor; hide AreComponents; hide AreDisjoint; hide AreOrdered; hide Emitted;
    var t := Enter(s, v);
    EnterEmitted(s, v);
    EnterChained(succs, s, v);
    EnterAnchored(succs, s, v);
    EnterNumbered(s, v);
    ReachSelf(succs, v);
    assert v in t.stack && t.idx[v] == s.n;
    assert t.stack[|s.stack| + 1..] == [];
  }

  // ---------------------------------------------------------------- handling a successor

  lemma ReachFromEdge(succs: Succs, v: Vertex, w: Vertex, y: Vertex)
    requires w in succs(v) && Reach(succs, w, y)
    ensures Reach(succs, v, y)
  {
    ReachSelf(succs, v);
    ReachEdge(succs, v, v, w);
    ReachTrans(succs, v, w, y);
  }

  lemma VisitedSpec(succs: Succs, s: View, v: Vertex, k: nat, low: nat, t: View)
    requires Numbered(t) && Exploring(succs, s, v, k, low, t) && k < |succs(v)| && succs(v)[k] in t.idx
    ensures var w := succs(v)[k];
            var low' := if w in t.stack && low > t.idx[w] then t.idx[w] else low;
            Exploring(succs, s, v, k + 1, low', t)
  {
    hide Reach; hide LowBounds; hide NewReached; hide Numbered;
    var w := succs(v)[k];
    assert forall x :: x in s.stack ==> x in t.stack by { StackInside(s, t); }
    if w in t.stack && low > t.idx[w] {
      LowerBounds(succs, t, |s.stack| + 1, s.stack, low, t.idx[w]);
      ReachSelf(succs, w);
      ReachFromEdge(succs, v, w, w);
      assert LowReached(succs, t, v, t.idx[w]);
    }
  }

  lemma LowerBounds(succs: Succs, t: View, k: nat, base: seq<Vertex>, low: nat, low': nat)
    requires LowBounds(succs, t, k, base, low) && low' <= low
    ensures LowBounds(succs, t, k, base, low')
  {}

  lemma PrefixTail(s: seq<Vertex>, t: seq<Vertex>, k: nat, a: Vertex)
    requires s <= t && k <= |s| && a in t[k..]
    ensures a in s[k..] || a in t[|s|..]
  {
    var i :| k <= i < |t| && t[i] == a;
    if i < |s| {
      assert s[i] == a;
    }
  }

  /** Exploring an unvisited successor bounds the new edges into the old stack. */
  lemma UnvisitedBounds(succs: Succs, s: View, v: Vertex, low: nat, t: View, low': nat, t': View)
    requires LowBounds(succs, t, |s.stack| + 1, s.stack, low) && LowBounds(succs, t', |t.stack|, t.stack, low')
    requires Grows(t, t') && Numbered(t) && s.stack + [v] <= t.stack
    ensures LowBounds(succs, t', |s.stack| + 1, s.stack, if low > low' then low' else low)
  {
    forall a, b | a in t'.stack[|s.stack| + 1..] && b in s.stack && b in succs(a) && b in t'.idx
      ensures (if low > low' then low' else low) <= t'.idx[b]
    {
      PrefixTail(t.stack, t'.stack, |s.stack| + 1, a);
      var i :| 0 <= i < |s.stack| && s.stack[i] == b;
      assert t.stack[i] == (s.stack + [v])[i] == b;
    }
  }

  lemma UnvisitedReached(succs: Succs, s: View, v: Vertex, w: Vertex, t: View, t': View)
    requires NewReached(succs, s, v, t) && NewReached(succs, t, w, t') && w in succs(v)
    ensures NewReached(succs, s, v, t')
  {
    hide Reach;
    forall x | x in t'.idx && x !in s.idx
      ensures Reach(succs, v, x)
    {
      if x !in t.idx {
        ReachFromEdge(succs, v, w, x);
      }
    }
  }

  /** Whatever is being explored reaches the next successor. */
  lemma SuccessorReached(succs: Succs, s: View, v: Vertex, k: nat, low: nat, t: View)
    requires Exploring(succs, s, v, k, low, t) && k < |succs(v)|
    requires forall x :: x in s.gray ==> Reach(succs, x, v)
    ensures forall x :: x in t.gray ==> Reach(succs, x, succs(v)[k])
  {
    hide Reach;
    forall x | x in t.gray
      ensures Reach(succs, x, succs(v)[k])
    {
      ReachSelf(succs, v);
      ReachEdge(succs, x, v, succs(v)[k]);
    }
  }

  lemma UnvisitedSpec(succs: Succs, s: View, v: Vertex, k: nat, low: nat, t: View, low': nat, t': View)
    requires Numbered(t) && Exploring(succs, s, v, k, low, t) && k < |succs(v)| && succs(v)[k] !in t.idx
    requires Explored(succs, t, succs(v)[k], low', t')
    ensures Exploring(succs, s, v, k + 1, if low > low' then low' else low, t')
  {
    hide LowBounds; hide Numbered; hide NewReached; hide Reach;
    var w := succs(v)[k];
    UnvisitedBounds(succs, s, v, low, t, low', t');
    UnvisitedReached(succs, s, v, w, t, t');
    GrowsTrans(s, t, t');
    StackInside(s, t);
    LowKept(succs, t, v, low, t');
    if low > low' {
      var y :| y in t'.stack && y in t'.idx && t'.idx[y] == low' && Reach(succs, w, y);
      ReachFromEdge(succs, v, w, y);
    }
  }

  lemma GrowsTrans(s: View, t: View, u: View)
    requires Grows(s, t) && Grows(t, u)
    ensures Grows(s, u)
  {}

  lemma StackInside(s: View, t: View)
    requires Numbered(t) && s.stack <= t.stack
    ensures forall x :: x in s.stack ==> x in t.idx
  {
    assert forall x :: x in s.stack ==> x in t.stack;
  }

  lemma LowKept(succs: Succs, t: View, v: Vertex, low: nat, t': View)
    requires Grows(t, t') && LowReached(succs, t, v, low)
    ensures LowReached(succs, t', v, low)
  {
    assert forall x :: x in t.stack ==> x in t'.stack;
  }

  // ---------------------------------------------------------------- leaving a vertex

  /** v is no longer explored, but a vertex below it on the stack is reached. */
  function Leave(s: View, t: View): View {
    t.(gray := s.gray)
  }

  /** The part of the stack from v on is a component. */
  function Emit(s: View, t: View): View
    requires |s.stack| <= |t.stack|
  {
    t.(gray := s.gray, stack := s.stack, comps := t.comps + [t.stack[|s.stack|..]])
  }

  ghost predicate Finished(succs: Succs, s: View, v: Vertex, low: nat, t: View) {
    Valid(succs, s) && Valid(succs, t) && Exploring(succs, s, v, |succs(v)|, low, t)
  }

  lemma FinishedBounds(succs: Succs, s: View, v: Vertex, low: nat, t: View)
    requires Numbered(t) && Exploring(succs, s, v, |succs(v)|, low, t)
    ensures LowBounds(succs, t, |s.stack|, s.stack, low)
    ensures forall b :: b in succs(v) ==> b in t.idx
  {
    forall a, b | a in t.stack[|s.stack|..] && b in s.stack && b in succs(a) && b in t.idx
      ensures low <= t.idx[b]
    {
      if a == v {
        var j :| 0 <= j < |succs(v)| && succs(v)[j] == b;
      } else {
        assert t.stack[|s.stack|] == (s.stack + [v])[|s.stack|] == v;
        var i :| |s.stack| <= i < |t.stack| && t.stack[i] == a;
        assert a in t.stack[|s.stack| + 1..];
      }
    }
  }

  lemma FinishedWhite(succs: Succs, s: View, v: Vertex, t: View)
    requires NoWhiteSuccessor(succs, t) && t.gray == s.gray + {v}
    requires forall b :: b in succs(v) ==> b in t.idx
    ensures NoWhiteSuccessor(succs, Leave(s, t))
  {}

  /** Vertices at and above v on the stack are numbered from s.n on, those below are numbered lower. */
  lemma StackNumbers(s: View, v: Vertex, t: View)
    requires Numbered(s) && Numbered(t) && Grows(s, t)
    requires s.stack + [v] <= t.stack && v in t.idx && t.idx[v] == s.n
    ensures |s.stack| < |t.stack| && t.stack[|s.stack|] == v && t.stack == s.stack + t.stack[|s.stack|..]
    ensures forall x :: x in s.stack ==> x in t.idx && t.idx[x] < s.n
    ensures forall x :: x in t.stack[|s.stack|..] ==> x in t.idx && s.n <= t.idx[x]
  {
    hide Numbered; hide Grows;
    ExtendedStack(s.stack, v, t.stack);
    NumbersBelow(s, t);
    forall x | x in t.stack[|s.stack|..]
      ensures x in t.idx && s.n <= t.idx[x]
    {
      var i :| |s.stack| <= i < |t.stack| && t.stack[i] == x;
      NumberAt(t, |s.stack|, i);
    }
  }

  lemma NumbersBelow(s: View, t: View)
    requires Numbered(s) && Grows(s, t)
    ensures forall x :: x in s.stack ==> x in t.idx && t.idx[x] < s.n
  {}

  lemma NumberAt(t: View, i: nat, j: nat)
    requires Numbered(t) && i <= j < |t.stack|
    ensures t.stack[i] in t.idx && t.stack[j] in t.idx && t.idx[t.stack[i]] <= t.idx[t.stack[j]]
  {
    assert t.stack[i] in t.stack && t.stack[j] in t.stack;
  }

  lemma ExtendedStack(a: seq<Vertex>, v: Vertex, b: seq<Vertex>)
    requires a + [v] <= b
    ensures |a| < |b| && b[|a|] == v && b == a + b[|a|..]
  {
    assert b[|a|] == (a + [v])[|a|] == v;
    assert b[..|a|] == (a + [v])[..|a|] == a;
  }

  lemma LeaveAnchored(succs: Succs, s: View, v: Vertex, low: nat, t: View, y: Vertex)
    requires Anchored(succs, t) && LowReached(succs, t, v, low) && t.gray == s.gray + {v}
    requires v in t.idx && low < t.idx[v] && y in t.stack
    ensures HasAnchor(succs, Leave(s, t), y)
  {
    assert HasAnchor(succs, t, y);
    var x :| x in t.gray && x in t.idx && y in t.idx && t.idx[x] <= t.idx[y] && Reach(succs, y, x);
    if x == v {
      var z :| z in t.stack && z in t.idx && t.idx[z] == low && Reach(succs, v, z);
      assert HasAnchor(succs, t, z);
      var x' :| x' in t.gray && x' in t.idx && t.idx[x'] <= t.idx[z] && Reach(succs, z, x');
      ReachTrans(succs, v, z, x');
      ReachTrans(succs, y, v, x');
      assert x' in Leave(s, t).gray;
    } else {
      assert x in Leave(s, t).gray;
    }
  }

  lemma LeaveValid(succs: Succs, s: View, v: Vertex, low: nat, t: View)
    requires Finished(succs, s, v, low, t) && low < s.n
    ensures Valid(succs, Leave(s, t))
  {
    hide Chained; hide HasAnchor; hide Emissions; hide NoWhiteSuccessor; hide LowBounds; hide NewReached; hide LowReached;
    FinishedBounds(succs, s, v, low, t);
    FinishedWhite(succs, s, v, t);
    forall y | y in Leave(s, t).stack
      ensures HasAnchor(succs, Leave(s, t), y)
    {
      LeaveAnchored(succs, s, v, low, t, y);
    }
    SameStack(succs, s, t);
    assert forall x :: x in s.gray ==> x in t.gray;
  }

  /** v stays on the stack when its lowlink is below its own number. */
  lemma LeaveSpec(succs: Succs, s: View, v: Vertex, low: nat, t: View)
    requires Finished(succs, s, v, low, t) && low < s.n
    ensures Valid(succs, Leave(s, t)) && Explored(succs, s, v, low, Leave(s, t))
  {
    hide Valid; hide Numbered; hide Reach;
    LeaveValid(succs, s, v, low, t);
    FinishedNumbered(succs, s, v, low, t);
    FinishedBounds(succs, s, v, low, t);
    StackNumbers(s, v, t);
    assert v in t.stack;
  }

  lemma FinishedNumbered(succs: Succs, s: View, v: Vertex, low: nat, t: View)
    requires Finished(succs, s, v, low, t)
    ensures Numbered(s) && Numbered(t)
  {
    hide Numbered;
  }

  lemma SameStack(succs: Succs, s: View, t: View)
    ensures Chained(succs, t) ==> Chained(succs, Leave(s, t))
    ensures Emissions(succs, t) ==> Emissions(succs, Leave(s, t))
  {
    assert Emitted(Leave(s, t)) == Emitted(t);
  }

  // ---------------------------------------------------------------- emitting a component

  function Component(s: View, t: View): seq<Vertex>
    requires |s.stack| <= |t.stack|
  {
    t.stack[|s.stack|..]
  }

  lemma EmitEmitted(s: View, v: Vertex, t: View)
    requires Numbered(s) && Numbered(t) && Grows(s, t)
    requires s.stack + [v] <= t.stack && v in t.idx && t.idx[v] == s.n
    ensures |s.stack| < |t.stack| && Emitted(Emit(s, t)) == Emitted(t) + Elements(Component(s, t))
    ensures Emitted(t) !! Elements(Component(s, t))
  {
    StackNumbers(s, v, t);
    assert forall x :: x in t.stack <==> x in s.stack || x in Component(s, t);
  }

  /** Nothing leaves the new component except to vertices already emitted. */
  lemma EmitClosed(succs: Succs, s: View, v: Vertex, low: nat, t: View)
    requires Finished(succs, s, v, low, t) && low == s.n
    ensures |s.stack| < |t.stack| && Closed(succs, Emitted(Emit(s, t)))
  {
    hide Chained; hide HasAnchor; hide AreComponents; hide AreDisjoint; hide AreOrdered; hide LowBounds;
    hide Numbered; hide Emitted; hide NoWhiteSuccessor; hide LowReached;
    EmitEmitted(s, v, t);
    forall a, b | a in Emitted(Emit(s, t)) && b in succs(a)
      ensures b in Emitted(Emit(s, t))
    {
      if a in Component(s, t) {
        ComponentEdge(succs, s, v, low, t, a, b);
      } else {
        assert a in Emitted(t);
      }
    }
  }

  lemma ComponentEdge(succs: Succs, s: View, v: Vertex, low: nat, t: View, a: Vertex, b: Vertex)
    requires Finished(succs, s, v, low, t) && low == s.n
    requires |s.stack| < |t.stack| && a in Component(s, t) && b in succs(a)
    ensures b in Emitted(Emit(s, t))
  {
    hide Chained; hide HasAnchor; hide Emissions; hide LowReached;
    StackNumbers(s, v, t);
    FinishedBounds(succs, s, v, low, t);
    if a != v {
      GrayNotAbove(s, v, t, a);
    }
    assert b in t.idx;
  }

  lemma GrayNotAbove(s: View, v: Vertex, t: View, a: Vertex)
    requires Numbered(s) && Numbered(t) && Grows(s, t) && t.gray == s.gray + {v}
    requires s.stack + [v] <= t.stack && v in t.idx && t.idx[v] == s.n
    requires |s.stack| < |t.stack| && a in Component(s, t) && a != v
    ensures a !in t.gray
  {
    StackNumbers(s, v, t);
  }

  lemma ReachedFromRoot(succs: Succs, s: View, v: Vertex, t: View, a: Vertex)
    requires Chained(succs, t) && |s.stack| < |t.stack| && t.stack[|s.stack|] == v && a in Component(s, t)
    ensures Reach(succs, v, a)
  {
    var i :| |s.stack| <= i < |t.stack| && t.stack[i] == a;
    assert Reach(succs, t.stack[|s.stack|], t.stack[i]);
  }

  lemma ReachesRoot(succs: Succs, s: View, v: Vertex, t: View, a: Vertex)
    requires Numbered(s) && Anchored(succs, t) && t.gray == s.gray + {v} && |s.stack| < |t.stack|
    requires Closed(succs, Emitted(Emit(s, t))) && a in Component(s, t) && a in Emitted(Emit(s, t))
    ensures Reach(succs, a, v)
  {
    hide Emitted; hide Closed;
    assert a in t.stack && HasAnchor(succs, t, a);
    var x :| x in t.gray && x in t.idx && Reach(succs, a, x);
    ReachClosed(succs, Emitted(Emit(s, t)), a, x);
    GrayInComponent(s, v, t, x);
  }

  /** Every vertex of the new component and v reach each other. */
  lemma ComponentMutual(succs: Succs, s: View, v: Vertex, low: nat, t: View)
    requires Finished(succs, s, v, low, t) && low == s.n && |s.stack| < |t.stack|
    ensures forall a :: a in Component(s, t) ==> Mutual(succs, a, v)
  {
    hide LowBounds; hide NoWhiteSuccessor; hide Emissions; hide Emitted; hide LowReached; hide Anchored; hide Chained;
    hide Numbered; hide Closed; hide Reach;
    EmitClosed(succs, s, v, low, t);
    EmitEmitted(s, v, t);
    StackNumbers(s, v, t);
    forall a | a in Component(s, t)
      ensures Mutual(succs, a, v)
    {
      assert a in Elements(Component(s, t));
      ReachedFromRoot(succs, s, v, t, a);
      ReachesRoot(succs, s, v, t, a);
    }
  }

  lemma GrayInComponent(s: View, v: Vertex, t: View, x: Vertex)
    requires Numbered(s) && t.gray == s.gray + {v} && |s.stack| <= |t.stack|
    requires x in t.gray && x in Emitted(Emit(s, t))
    ensures x == v
  {
    assert x in s.gray ==> x in s.stack;
  }

  lemma MutualTrans(succs: Succs, a: Vertex, b: Vertex, c: Vertex)
    requires Mutual(succs, a, b) && Mutual(succs, b, c)
    ensures Mutual(succs, a, c)
  {
    ReachTrans(succs, a, b, c);
    ReachTrans(succs, c, b, a);
  }

  /** The new component is exactly the class of mutual reachability of v. */
  lemma ComponentExact(succs: Succs, s: View, v: Vertex, low: nat, t: View, a: Vertex, b: Vertex)
    requires Finished(succs, s, v, low, t) && low == s.n && |s.stack| < |t.stack| && a in Component(s, t)
    ensures b in Component(s, t) <==> Mutual(succs, a, b)
  {
    hide LowBounds; hide NoWhiteSuccessor; hide Emitted; hide LowReached; hide Anchored; hide Chained;
    hide Numbered; hide Closed; hide Reach; hide AreComponents; hide AreDisjoint; hide AreOrdered;
    ComponentMutual(succs, s, v, low, t);
    if b in Component(s, t) {
      MutualTrans(succs, a, v, b);
    } else if Mutual(succs, a, b) {
      EmitClosed(succs, s, v, low, t);
      EmitEmitted(s, v, t);
      assert a in Elements(Component(s, t));
      ReachClosed(succs, Emitted(Emit(s, t)), a, b);
      if b in Emitted(t) {
        ReachClosed(succs, Emitted(t), b, a);
      }
    }
  }

  lemma ComponentsAppend(succs: Succs, comps: seq<seq<Vertex>>, c: seq<Vertex>)
    requires AreComponents(succs, comps) && c != [] && NoDuplicates(c)
    requires forall a, b :: a in c ==> (b in c <==> Mutual(succs, a, b))
    ensures AreComponents(succs, comps + [c])
  {
    hide Mutual; hide NoDuplicates;
    var ds := comps + [c];
    forall i | 0 <= i < |ds|
      ensures ds[i] != [] && NoDuplicates(ds[i])
      ensures forall a, b :: a in ds[i] ==> (b in ds[i] <==> Mutual(succs, a, b))
    {
      assert i < |comps| ==> ds[i] == comps[i];
    }
  }

  lemma InCompsAppend(comps: seq<seq<Vertex>>, c: seq<Vertex>, x: Vertex)
    ensures InComps(comps + [c], x) <==> InComps(comps, x) || x in c
  {
    if InComps(comps, x) {
      var i :| 0 <= i < |comps| && x in comps[i];
      assert x in (comps + [c])[i];
    }
    if x in c {
      assert x in (comps + [c])[|comps|];
    }
  }

  lemma OrderedAppend(succs: Succs, comps: seq<seq<Vertex>>, c: seq<Vertex>)
    requires AreOrdered(succs, comps)
    requires forall a, b :: a in c && b in succs(a) ==> InComps(comps + [c], b)
    ensures AreOrdered(succs, comps + [c])
  {
    var ds := comps + [c];
    forall i, a, b | 0 <= i < |ds| && a in ds[i] && b in succs(a)
      ensures InComps(ds[..i + 1], b)
    {
      if i < |comps| {
        assert ds[i] == comps[i] && ds[..i + 1] == comps[..i + 1];
      } else {
        assert ds[..i + 1] == ds;
      }
    }
  }

  lemma EmitEmissions(succs: Succs, s: View, v: Vertex, low: nat, t: View)
    requires Finished(succs, s, v, low, t) && low == s.n
    ensures |s.stack| < |t.stack| && Emissions(succs, Emit(s, t))
  {
    hide LowBounds; hide NoWhiteSuccessor; hide LowReached; hide Anchored; hide Chained; hide Reach;
    hide Mutual; hide AreComponents; hide AreOrdered; hide InComps;
    EmitClosed(succs, s, v, low, t);
    EmitEmitted(s, v, t);
    StackNumbers(s, v, t);
    var c := Component(s, t);
    forall a, b | a in c
      ensures b in c <==> Mutual(succs, a, b)
    {
      ComponentExact(succs, s, v, low, t, a, b);
    }
    ComponentsAppend(succs, t.comps, c);
    forall x
      ensures InComps(t.comps + [c], x) <==> InComps(t.comps, x) || x in c
    {
      InCompsAppend(t.comps, c, x);
    }
    assert forall a :: a in c ==> a in Emitted(Emit(s, t));
    OrderedAppend(succs, t.comps, c);
    DisjointAppend(t.comps, c);
  }

  lemma DisjointAppend(comps: seq<seq<Vertex>>, c: seq<Vertex>)
    requires AreDisjoint(comps) && forall x :: InComps(comps, x) ==> x !in c
    ensures AreDisjoint(comps + [c])
  {}

  lemma EmitRest(succs: Succs, s: View, t: View)
    requires Valid(succs, s) && Numbered(t) && Grows(s, t) && |s.stack| <= |t.stack|
    ensures Numbered(Emit(s, t)) && Chained(succs, Emit(s, t)) && Anchored(succs, Emit(s, t))
  {
    hide Reach; hide Emissions; hide NoWhiteSuccessor;
    var u := Emit(s, t);
    assert Numbered(u);
    forall y | y in u.stack
      ensures HasAnchor(succs, u, y)
    {
      assert HasAnchor(succs, s, y);
    }
  }

  /** v is the lowest vertex of its component: the component is emitted and the invariant holds again. */
  lemma EmitSpec(succs: Succs, s: View, v: Vertex, low: nat, t: View)
    requires Finished(succs, s, v, low, t) && low == s.n
    ensures |s.stack| < |t.stack| && Valid(succs, Emit(s, t)) && Explored(succs, s, v, low, Emit(s, t))
  {
    hide LowReached; hide Reach; hide Emissions; hide Anchored; hide Chained;
    EmitEmissions(succs, s, v, low, t);
    FinishedBounds(succs, s, v, low, t);
    FinishedWhite(succs, s, v, t);
    StackNumbers(s, v, t);
    EmitRest(succs, s, t);
    assert NoWhiteSuccessor(succs, Emit(s, t)) by { assert NoWhiteSuccessor(succs, Leave(s, t)); }
    assert v in Component(s, t);
  }
}
