/** The run-time check of the invariants of interval trees (check_invariants of asllib/diet.ml). */
module DietCheck {
  import opened Diet

  function Depth(t: Tree): nat {
    if t.Empty? then 0 else 1 + if Depth(t.l) >= Depth(t.r) then Depth(t.l) else Depth(t.r)
  }

  // ---------------------------------------------------------------- the checks at one node

  predicate OrderedAt(n: Tree)
    requires n.Node?
  {
    n.x <= n.y
  }

  predicate NoOverlapAt(n: Tree)
    requires n.Node?
  {
    (n.l.Node? ==> n.l.y < n.x) && (n.r.Node? ==> n.r.x > n.y)
  }

  predicate NoAdjacentAt(n: Tree)
    requires n.Node?
  {
    (n.l.Node? ==> n.l.y + 1 < n.x) && (n.r.Node? ==> n.r.x - 1 > n.y)
  }

  predicate HeightEqualsDepthAt(n: Tree)
    requires n.Node?
  {
    n.h == Depth(n)
  }

  predicate BalancedAt(n: Tree)
    requires n.Node?
  {
    -2 <= Height(n.l) - Height(n.r) <= 2
  }

  predicate CardinalAt(n: Tree)
    requires n.Node?
  {
    n.cardinal - Cardinal(n.l) - Cardinal(n.r) - n.y + n.x == 1
  }

  /** on_every_node, for all six checks at once: it fails iff one of them fails somewhere. */
  predicate Check(t: Tree) {
    t.Node? ==>
      && OrderedAt(t) && NoOverlapAt(t) && HeightEqualsDepthAt(t) && BalancedAt(t) && CardinalAt(t) && NoAdjacentAt(t)
      && Check(t.l) && Check(t.r)
  }

  // ---------------------------------------------------------------- what the check decides

  lemma {:induction false} CheckBalanced(t: Tree)
    requires Check(t)
    ensures Balanced(t) && Height(t) == Depth(t)
  {
    if t.Node? {
      CheckBalanced(t.l);
      CheckBalanced(t.r);
    }
  }

  lemma {:induction false} BalancedDepth(t: Tree)
    requires Balanced(t)
    ensures Height(t) == Depth(t)
  {
    if t.Node? {
      BalancedDepth(t.l);
      BalancedDepth(t.r);
    }
  }

  /** The root interval of a subtree is among its points. */
  lemma RootIn(t: Tree)
    requires t.Node? && t.x <= t.y
    ensures t.x in Elems(t) && t.y in Elems(t)
  {
    assert t.x in Range(t.x, t.y) && t.y in Range(t.x, t.y);
  }

  lemma {:induction false} ValidPasses(t: Tree)
    requires Valid(t)
    ensures Check(t)
  {
    if t.Node? {
      ValidPasses(t.l);
      ValidPasses(t.r);
      BalancedDepth(t);
      assert t.x in Range(t.x, t.y) && t.y in Range(t.x, t.y);
      if t.l.Node? {
        RootIn(t.l);
      }
      if t.r.Node? {
        RootIn(t.r);
      }
    }
  }

  /**
   * The check compares each interval with the roots of its subtrees only, so a tree is valid exactly
   * when it passes and its in-order list of intervals is ordered.
   */
  lemma CheckDecides(t: Tree)
    ensures Valid(t) <==> Check(t) && OrderedList(Intervals(t))
  {
    IntervalsSpec(t);
    if Valid(t) {
      ValidPasses(t);
    }
    if Check(t) {
      CheckBalanced(t);
    }
  }

  /** A tree whose subtrees have no subtrees in turn is valid when it passes. */
  lemma LowPasses(t: Tree)
    requires Check(t) && Height(t) <= 2
    ensures Valid(t)
  {
    CheckBalanced(t);
    if t.Node? {
      CheckBalanced(t.l);
      CheckBalanced(t.r);
      LeafOrdered(t.l);
      LeafOrdered(t.r);
    }
  }

  lemma LeafOrdered(t: Tree)
    requires Check(t) && Depth(t) <= 1
    ensures Ordered(t) && Elems(t) == if t.Empty? then {} else Range(t.x, t.y)
  {
    if t.Node? {
      assert t.l.Empty? && t.r.Empty?;
    }
  }

  /** A tree of height h that passes the check, with overlapping intervals from height three on. */
  function Passing(h: nat, x: int): Tree
    requires h >= 3
  {
    if h == 3 then Create(x, x, Create(x - 5, x - 5, Empty, Create(x - 3, x + 10, Empty, Empty)), Empty)
    else Create(x, x, Passing(h - 1, x - 2), Passing(h - 1, x + 2))
  }

  /** From height three on, for every height, the check accepts a tree with overlapping intervals. */
  lemma {:induction false} CheckTooWeak(h: nat, x: int)
    requires h >= 3
    ensures var t := Passing(h, x);
            Check(t) && Height(t) == Depth(t) == h && t.Node? && t.x == t.y == x && !Ordered(t)
  {
    if h == 3 {
      PassingThree(x);
    } else {
      CheckTooWeak(h - 1, x - 2);
      CheckTooWeak(h - 1, x + 2);
    }
  }

  lemma PassingThree(x: int)
    ensures var t := Passing(3, x);
            Check(t) && Height(t) == Depth(t) == 3 && t.Node? && t.x == t.y == x && !Ordered(t)
  {
    var t := Passing(3, x);
    var inner := t.l.r;
    assert Depth(inner) == 1 && Check(inner);
    assert Depth(t.l) == 2 && Check(t.l);
    assert x + 10 in Range(x - 3, x + 10) && x + 10 in Elems(inner);
    assert x + 10 in Elems(t.l) && x in Range(x, x);
  }
}
