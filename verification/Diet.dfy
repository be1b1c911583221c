/** Height-balanced trees of disjoint, non-adjacent intervals of integers (asllib/diet.ml). */
module Diet {
  datatype Tree = Empty | Node(x: int, y: int, l: Tree, r: Tree, h: int, cardinal: int)

  function Max(a: int, b: int): int {
    if a >= b then a else b
  }

  function Height(t: Tree): int {
    if t.Empty? then 0 else t.h
  }

  function Cardinal(t: Tree): int {
    if t.Empty? then 0 else t.cardinal
  }

  function Create(x: int, y: int, l: Tree, r: Tree): Tree {
    Node(x, y, l, r, Max(Height(l), Height(r)) + 1, (y - x + 1) + Cardinal(l) + Cardinal(r))
  }

  // ---------------------------------------------------------------- meaning of a tree

  predicate Between(x: int, e: int, y: int) {
    x <= e <= y
  }

  /** The integers from x to y. */
  ghost function Range(x: int, y: int): (s: set<int>)
    ensures forall e :: e in s <==> x <= e <= y
  {
    set e {:trigger Between(x, e, y)} | x <= e <= y && Between(x, e, y)
  }

  ghost function Elems(t: Tree): set<int> {
    if t.Empty? then {} else Elems(t.l) + Range(t.x, t.y) + Elems(t.r)
  }

  /** The intervals of t from left to right, followed by tail. */
  function Onto(t: Tree, tail: seq<(int, int)>): seq<(int, int)> {
    if t.Empty? then tail else Onto(t.l, [(t.x, t.y)] + Onto(t.r, tail))
  }

  function Intervals(t: Tree): seq<(int, int)> {
    Onto(t, [])
  }

  // ---------------------------------------------------------------- the global invariant

  /** Height h of a node whose subtrees have heights hl and hr. */
  predicate Parent(hl: int, hr: int, h: int) {
    h == Max(hl, hr) + 1 && -2 <= hl - hr <= 2
  }

  /** The stored heights and cardinals are right, and subtrees differ in height by at most two. */
  predicate Balanced(t: Tree)
    ensures Balanced(t) ==> 0 <= Height(t) && (Height(t) == 0 <==> t.Empty?)
  {
    t.Empty? ||
    (&& Balanced(t.l) && Balanced(t.r)
     && Parent(Height(t.l), Height(t.r), t.h)
     && t.cardinal == (t.y - t.x + 1) + Cardinal(t.l) + Cardinal(t.r))
  }

  /** Every point of a is before every point of b, with at least one point in between. */
  ghost predicate Apart(a: set<int>, b: set<int>) {
    forall e, f :: e in a && f in b ==> e + 1 < f
  }

  /** Intervals are not reversed, in order, disjoint and never adjacent. */
  ghost predicate Ordered(t: Tree) {
    t.Empty? ||
    (&& t.x <= t.y && Ordered(t.l) && Ordered(t.r)
     && Apart(Elems(t.l), Range(t.x, t.y)) && Apart(Range(t.x, t.y), Elems(t.r)))
  }

  ghost predicate Valid(t: Tree) {
    Balanced(t) && Ordered(t)
  }

  // ---------------------------------------------------------------- node, as a join

  function Gap(hl: int, hr: int): int {
    if hl >= hr then hl - hr else hr - hl
  }

  /** What joining trees of heights hl and hr guarantees about the height h of the result. */
  predicate Fits(hl: int, hr: int, h: int) {
    && Max(hl, hr) - 1 <= h <= Max(hl, hr) + 1
    && (Gap(hl, hr) <= 4 ==> h >= Max(hl, hr))
    && (Gap(hl, hr) <= 2 ==> h == Max(hl, hr) + 1)
  }

  /** Heights in a single rotation: tree a is high, b is joined with the small tree r. */
  lemma SingleRotation(h: int, a: int, b: int, r: int, m: int)
    requires Parent(a, b, h) && a >= b && h > r + 2 && Fits(b, r, m)
    ensures Gap(b, r) < h - r && Gap(a, m) < h - r
    ensures forall t :: Fits(a, m, t) ==> Fits(h, r, t)
  {}

  /** Heights in a double rotation: b, with subtrees c and d, is higher than a. */
  lemma DoubleRotation(h: int, a: int, b: int, c: int, d: int, r: int, m: int, n: int)
    requires Parent(a, b, h) && Parent(c, d, b) && a < b && h > r + 2
    requires Fits(a, c, m) && Fits(d, r, n)
    ensures Gap(a, c) < h - r && Gap(d, r) < h - r && Gap(m, n) < h - r
    ensures forall t :: Fits(m, n, t) ==> Fits(h, r, t)
  {}

  lemma SingleRotationMirror(h: int, a: int, b: int, r: int, m: int)
    requires Parent(b, a, h) && a >= b && h > r + 2 && Fits(r, b, m)
    ensures Gap(r, b) < h - r && Gap(m, a) < h - r
    ensures forall t :: Fits(m, a, t) ==> Fits(r, h, t)
  {}

  lemma DoubleRotationMirror(h: int, a: int, b: int, c: int, d: int, r: int, m: int, n: int)
    requires Parent(b, a, h) && Parent(d, c, b) && a < b && h > r + 2
    requires Fits(c, a, m) && Fits(r, d, n)
    ensures Gap(c, a) < h - r && Gap(r, d) < h - r && Gap(n, m) < h - r
    ensures forall t :: Fits(n, m, t) ==> Fits(r, h, t)
  {}

  /** Joins two balanced trees of any height difference around one interval. */
  function Join(x: int, y: int, l: Tree, r: Tree): (t: Tree)
    requires Balanced(l) && Balanced(r)
    ensures Balanced(t) && t.Node? && Fits(Height(l), Height(r), Height(t))
    decreases Gap(Height(l), Height(r)), 1
  {
    if Height(l) > Height(r) + 2 then
      JoinIntoLeft(x, y, l, r)
    else if Height(r) > Height(l) + 2 then
      JoinIntoRight(x, y, l, r)
    else
      Create(x, y, l, r)
  }

  function JoinIntoLeft(x: int, y: int, l: Tree, r: Tree): (t: Tree)
    requires Balanced(l) && Balanced(r) && Height(l) > Height(r) + 2
    ensures Balanced(t) && t.Node? && Fits(Height(l), Height(r), Height(t))
    decreases Gap(Height(l), Height(r)), 0
  {
    var Node(lx, ly, ll, lr, _, _) := l;
    if Height(ll) >= Height(lr) then
      var m := Join(x, y, lr, r);
      SingleRotation(Height(l), Height(ll), Height(lr), Height(r), Height(m));
      Join(lx, ly, ll, m)
    else
      assert Balanced(lr);
      var Node(lrx, lry, lrl, lrr, _, _) := lr;
      var m, n := Join(lx, ly, ll, lrl), Join(x, y, lrr, r);
      DoubleRotation(Height(l), Height(ll), Height(lr), Height(lrl), Height(lrr), Height(r), Height(m), Height(n));
      Join(lrx, lry, m, n)
  }

  function JoinIntoRight(x: int, y: int, l: Tree, r: Tree): (t: Tree)
    requires Balanced(l) && Balanced(r) && Height(r) > Height(l) + 2
    ensures Balanced(t) && t.Node? && Fits(Height(l), Height(r), Height(t))
    decreases Gap(Height(l), Height(r)), 0
  {
    var Node(rx, ry, rl, rr, _, _) := r;
    if Height(rr) >= Height(rl) then
      var m := Join(x, y, l, rl);
      SingleRotationMirror(Height(r), Height(rr), Height(rl), Height(l), Height(m));
      Join(rx, ry, m, rr)
    else
      assert Balanced(rl);
      var Node(rlx, rly, rll, rlr, _, _) := rl;
      var m, n := Join(x, y, l, rll), Join(rx, ry, rlr, rr);
      DoubleRotationMirror(Height(r), Height(rr), Height(rl), Height(rlr), Height(rll), Height(l), Height(n), Height(m));
      Join(rlx, rly, m, n)
  }
  /** Joining keeps the intervals in their order. */
  lemma {:induction false} JoinOnto(x: int, y: int, l: Tree, r: Tree, tail: seq<(int, int)>)
    requires Balanced(l) && Balanced(r)
    ensures Onto(Join(x, y, l, r), tail) == Onto(l, [(x, y)] + Onto(r, tail))
    decreases Gap(Height(l), Height(r)), 1
  {
    if Height(l) > Height(r) + 2 {
      JoinOntoLeft(x, y, l, r, tail);
    } else if Height(r) > Height(l) + 2 {
      JoinOntoRight(x, y, l, r, tail);
    }
  }

  lemma {:induction false} JoinOntoLeft(x: int, y: int, l: Tree, r: Tree, tail: seq<(int, int)>)
    requires Balanced(l) && Balanced(r) && Height(l) > Height(r) + 2
    ensures Onto(JoinIntoLeft(x, y, l, r), tail) == Onto(l, [(x, y)] + Onto(r, tail))
    decreases Gap(Height(l), Height(r)), 0
  {
    var Node(lx, ly, ll, lr, _, _) := l;
    if Height(ll) >= Height(lr) {
      var m := Join(x, y, lr, r);
      SingleRotation(Height(l), Height(ll), Height(lr), Height(r), Height(m));
      JoinOnto(x, y, lr, r, tail);
      JoinOnto(lx, ly, ll, m, tail);
    } else {
      assert Balanced(lr);
      var Node(lrx, lry, lrl, lrr, _, _) := lr;
      var m, n := Join(lx, ly, ll, lrl), Join(x, y, lrr, r);
      DoubleRotation(Height(l), Height(ll), Height(lr), Height(lrl), Height(lrr), Height(r), Height(m), Height(n));
      JoinOnto(x, y, lrr, r, tail);
      JoinOnto(lx, ly, ll, lrl, [(lrx, lry)] + Onto(n, tail));
      JoinOnto(lrx, lry, m, n, tail);
    }
  }

  lemma {:induction false} JoinOntoRight(x: int, y: int, l: Tree, r: Tree, tail: seq<(int, int)>)
    requires Balanced(l) && Balanced(r) && Height(r) > Height(l) + 2
    ensures Onto(JoinIntoRight(x, y, l, r), tail) == Onto(l, [(x, y)] + Onto(r, tail))
    decreases Gap(Height(l), Height(r)), 0
  {
    var Node(rx, ry, rl, rr, _, _) := r;
    if Height(rr) >= Height(rl) {
      var m := Join(x, y, l, rl);
      SingleRotationMirror(Height(r), Height(rr), Height(rl), Height(l), Height(m));
      JoinOnto(x, y, l, rl, [(rx, ry)] + Onto(rr, tail));
      JoinOnto(rx, ry, m, rr, tail);
    } else {
      assert Balanced(rl);
      var Node(rlx, rly, rll, rlr, _, _) := rl;
      var m, n := Join(x, y, l, rll), Join(rx, ry, rlr, rr);
      DoubleRotationMirror(Height(r), Height(rr), Height(rl), Height(rlr), Height(rll), Height(l), Height(n), Height(m));
      JoinOnto(rx, ry, rlr, rr, tail);
      JoinOnto(x, y, l, rll, [(rlx, rly)] + Onto(n, tail));
      JoinOnto(rlx, rly, m, n, tail);
    }
  }

  // ---------------------------------------------------------------- lists of intervals

  ghost function Points(s: seq<(int, int)>): set<int> {
    if s == [] then {} else Range(s[0].0, s[0].1) + Points(s[1..])
  }

  ghost predicate OrderedList(s: seq<(int, int)>) {
    s != [] ==>
      && s[0].0 <= s[0].1 && OrderedList(s[1..])
      && Apart(Range(s[0].0, s[0].1), Points(s[1..]))
  }

  lemma {:induction false} OntoPoints(t: Tree, tail: seq<(int, int)>)
    ensures Points(Onto(t, tail)) == Elems(t) + Points(tail)
  {
    if t.Node? {
      var rest := Onto(t.r, tail);
      OntoPoints(t.r, tail);
      OntoPoints(t.l, [(t.x, t.y)] + rest);
      assert ([(t.x, t.y)] + rest)[1..] == rest;
    }
  }

  lemma ApartUnion(a: set<int>, b: set<int>, c: set<int>)
    ensures Apart(a + b, c) <==> Apart(a, c) && Apart(b, c)
    ensures Apart(c, a + b) <==> Apart(c, a) && Apart(c, b)
  {
    assert forall e :: e in a || e in b ==> e in a + b;
  }

  lemma ApartAcross(a: set<int>, x: int, y: int, c: set<int>)
    requires x <= y && Apart(a, Range(x, y)) && Apart(Range(x, y), c)
    ensures Apart(a, c)
  {
    assert x in Range(x, y);
  }

  lemma {:induction false} OntoOrdered(t: Tree, tail: seq<(int, int)>)
    ensures OrderedList(Onto(t, tail)) <==>
            Ordered(t) && OrderedList(tail) && Apart(Elems(t), Points(tail))
  {
    if t.Node? {
      var rest := Onto(t.r, tail);
      var l, m, r, p := Elems(t.l), Range(t.x, t.y), Elems(t.r), Points(tail);
      OntoPoints(t.r, tail);
      OntoOrdered(t.r, tail);
      OntoOrdered(t.l, [(t.x, t.y)] + rest);
      assert ([(t.x, t.y)] + rest)[1..] == rest;
      assert Points([(t.x, t.y)] + rest) == m + (r + p);
      ApartUnion(m, r + p, l);
      ApartUnion(r, p, l);
      ApartUnion(r, p, m);
      ApartUnion(l + m, r, p);
      ApartUnion(l, m, p);
      if t.x <= t.y && Apart(l, m) && Apart(m, r) {
        ApartAcross(l, t.x, t.y, r);
      }
    }
  }

  lemma IntervalsSpec(t: Tree)
    ensures Points(Intervals(t)) == Elems(t)
    ensures OrderedList(Intervals(t)) <==> Ordered(t)
  {
    OntoPoints(t, []);
    OntoOrdered(t, []);
  }

  lemma OntoSingle(t: Tree, u: int, v: int)
    ensures Points(Onto(t, [(u, v)])) == Elems(t) + Range(u, v)
    ensures OrderedList(Onto(t, [(u, v)])) <==> Ordered(t) && u <= v && Apart(Elems(t), Range(u, v))
  {
    var s := [(u, v)];
    OntoPoints(t, s);
    OntoOrdered(t, s);
    assert s[1..] == [];
    assert Points(s) == Range(u, v);
  }

  lemma ConsSpec(u: int, v: int, t: Tree)
    ensures Points([(u, v)] + Intervals(t)) == Range(u, v) + Elems(t)
    ensures OrderedList([(u, v)] + Intervals(t)) <==> u <= v && Ordered(t) && Apart(Range(u, v), Elems(t))
  {
    var s := [(u, v)] + Intervals(t);
    IntervalsSpec(t);
    assert s[1..] == Intervals(t);
  }

  /** An ordered list of non-adjacent intervals is determined by the set of its points. */
  lemma {:induction false} OrderedListIsCanonical(s: seq<(int, int)>, s': seq<(int, int)>)
    requires OrderedList(s) && OrderedList(s') && Points(s) == Points(s')
    ensures s == s'
  {
    FirstPoint(s);
    FirstPoint(s');
    if s != [] && s' != [] {
      SameFirst(s, s');
      OrderedListIsCanonical(s[1..], s'[1..]);
      assert s == [s[0]] + s[1..] && s' == [s'[0]] + s'[1..];
    }
  }

  lemma SameFirst(s: seq<(int, int)>, s': seq<(int, int)>)
    requires s != [] && s' != [] && OrderedList(s) && OrderedList(s') && Points(s) == Points(s')
    ensures s[0] == s'[0] && Points(s[1..]) == Points(s'[1..])
  {
    FirstPoint(s);
    FirstPoint(s');
    FirstInterval(s);
    FirstInterval(s');
    assert s[0].0 == s'[0].0;
  }

  lemma FirstPoint(s: seq<(int, int)>)
    requires OrderedList(s)
    ensures s != [] ==> s[0].0 in Points(s) && forall e :: e in Points(s) ==> s[0].0 <= e
  {}

  lemma FirstInterval(s: seq<(int, int)>)
    requires s != [] && OrderedList(s)
    ensures forall e :: s[0].0 <= e <= s[0].1 ==> e in Points(s)
    ensures s[0].1 + 1 !in Points(s)
    ensures Points(s[1..]) == Points(s) - Range(s[0].0, s[0].1)
  {
    assert s[0].1 in Range(s[0].0, s[0].1);
  }

  /** A join denotes the union, and keeps the invariant when the parts are apart. */
  lemma JoinSpec(x: int, y: int, l: Tree, r: Tree)
    requires Balanced(l) && Balanced(r)
    ensures Elems(Join(x, y, l, r)) == Elems(l) + Range(x, y) + Elems(r)
    ensures x <= y && Ordered(l) && Ordered(r) && Apart(Elems(l), Range(x, y)) && Apart(Range(x, y), Elems(r))
            ==> Valid(Join(x, y, l, r))
  {
    JoinOnto(x, y, l, r, []);
    IntervalsSpec(Create(x, y, l, r));
    IntervalsSpec(Join(x, y, l, r));
  }

  /** A node over two trees of compatible heights; which interval it holds does not matter. */
  function Over(l: Tree, r: Tree): (t: Tree)
    requires Balanced(l) && Balanced(r) && Gap(Height(l), Height(r)) <= 2
    ensures Balanced(t) && Height(t) == Max(Height(l), Height(r)) + 1 && t.Node? && t.l == l && t.r == r
  {
    Create(0, 0, l, r)
  }

  function Tall(h: nat): (t: Tree)
    ensures Balanced(t) && Height(t) == h
  {
    if h == 0 then Empty else Over(Tall(h - 1), Tall(h - 1))
  }

  /** A join of trees of similar heights is one level higher. */
  lemma JoinClose(x: int, y: int, l: Tree, r: Tree)
    requires Balanced(l) && Balanced(r) && Gap(Height(l), Height(r)) <= 2
    ensures Height(Join(x, y, l, r)) == Max(Height(l), Height(r)) + 1
  {}

  /** The branches of a join into the left tree. */
  lemma JoinSingle(x: int, y: int, l: Tree, r: Tree)
    requires Balanced(l) && Balanced(r) && Height(l) > Height(r) + 2 && Height(l.l) >= Height(l.r)
    ensures Balanced(l.l) && Balanced(l.r) && Join(x, y, l, r) == Join(l.x, l.y, l.l, Join(x, y, l.r, r))
  {}

  lemma JoinDouble(x: int, y: int, l: Tree, r: Tree)
    requires Balanced(l) && Balanced(r) && Height(l) > Height(r) + 2 && Height(l.l) < Height(l.r)
    ensures Balanced(l.l) && Balanced(l.r) && Balanced(l.r.l) && Balanced(l.r.r)
    ensures Join(x, y, l, r) == Join(l.r.x, l.r.y, Join(l.x, l.y, l.l, l.r.l), Join(x, y, l.r.r, r))
  {
    assert Balanced(l.r);
  }

  /** Joining r into l loses a level. */
  predicate Loses(x: int, y: int, l: Tree, r: Tree)
    requires Balanced(l) && Balanced(r)
  {
    Height(Join(x, y, l, r)) < Height(l)
  }

  lemma LosesFive(x: int, y: int, r: Tree)
    requires Balanced(r)
    ensures exists l :: Balanced(l) && Height(l) == Height(r) + 5 && Loses(x, y, l, r)
  {
    hide Tall; hide Join; hide Balanced; hide Over;
    var k := Height(r);
    BalancedHeight(r);
    var t0, t1 := Tall(k), Tall(k + 1);
    var c := Over(t0, t1);
    var d := Over(t0, c);
    var a := Over(t1, d);
    var l := Over(c, a);
    JoinDouble(x, y, l, r);
    JoinClose(l.x, l.y, c, t1);
    JoinDouble(x, y, d, r);
    JoinClose(d.x, d.y, t0, t0);
    JoinClose(x, y, t1, r);
    JoinClose(c.x, c.y, Join(d.x, d.y, t0, t0), Join(x, y, t1, r));
    JoinClose(a.x, a.y, Join(l.x, l.y, c, t1), Join(x, y, d, r));
  }

  lemma LosesSix(x: int, y: int, r: Tree)
    requires Balanced(r)
    ensures exists l :: Balanced(l) && Height(l) == Height(r) + 6 && Loses(x, y, l, r)
  {
    hide Tall; hide Join; hide Balanced; hide Over;
    var k := Height(r);
    BalancedHeight(r);
    var t1, t2, t3 := Tall(k + 1), Tall(k + 2), Tall(k + 3);
    var c := Over(t2, t1);
    var d := Over(t3, c);
    var a := Over(t2, d);
    var l := Over(t3, a);
    JoinDouble(x, y, l, r);
    JoinClose(l.x, l.y, t3, t2);
    JoinSingle(x, y, d, r);
    JoinSingle(x, y, c, r);
    JoinClose(x, y, t1, r);
    JoinClose(c.x, c.y, t2, Join(x, y, t1, r));
    JoinClose(d.x, d.y, t3, Join(x, y, c, r));
    JoinClose(a.x, a.y, Join(l.x, l.y, t3, t2), Join(x, y, d, r));
  }

  lemma LosesSeven(x: int, y: int, r: Tree)
    requires Balanced(r)
    ensures exists l :: Balanced(l) && Height(l) == Height(r) + 7 && Loses(x, y, l, r)
  {
    hide Tall; hide Join; hide Balanced; hide Over;
    var k := Height(r);
    BalancedHeight(r);
    var t1, t2, t4 := Tall(k + 1), Tall(k + 2), Tall(k + 4);
    var c := Over(t4, t2);
    var d := Over(t2, t1);
    var a := Over(c, d);
    var l := Over(t4, a);
    JoinDouble(x, y, l, r);
    JoinClose(l.x, l.y, t4, c);
    JoinSingle(x, y, d, r);
    JoinClose(x, y, t1, r);
    JoinClose(d.x, d.y, t2, Join(x, y, t1, r));
    var m, n := Join(l.x, l.y, t4, c), Join(x, y, d, r);
    assert m == Create(l.x, l.y, t4, c) by { JoinCreates(l.x, l.y, t4, c); }
    JoinDouble(a.x, a.y, m, n);
    JoinClose(m.x, m.y, t4, t4);
    JoinClose(a.x, a.y, t2, n);
    JoinClose(c.x, c.y, Join(m.x, m.y, t4, t4), Join(a.x, a.y, t2, n));
  }

  lemma JoinCreates(x: int, y: int, l: Tree, r: Tree)
    requires Balanced(l) && Balanced(r) && Gap(Height(l), Height(r)) <= 2
    ensures Join(x, y, l, r) == Create(x, y, l, r)
  {}

  lemma BalancedHeight(t: Tree)
    requires Balanced(t)
    ensures Height(t) >= 0
  {}

  /** A loss in the smaller subtree is a loss of the whole. */
  lemma LosesMore(x: int, y: int, b: Tree, r: Tree)
    requires Balanced(b) && Balanced(r) && Height(b) >= Height(r) + 5 && Loses(x, y, b, r)
    ensures exists l :: Balanced(l) && Height(l) == Height(b) + 3 && Loses(x, y, l, r)
  {
    hide Tall; hide Join; hide Balanced; hide Over;
    BalancedHeight(r);
    var h := Height(b);
    var t0, t1 := Tall(h), Tall(h + 1);
    var a := Over(t1, t0);
    var l := Over(a, b);
    JoinSingle(x, y, l, r);
    var m := Join(x, y, b, r);
    JoinSingle(l.x, l.y, a, m);
    JoinClose(l.x, l.y, t0, m);
    JoinClose(a.x, a.y, t1, Join(l.x, l.y, t0, m));
  }

  lemma {:induction false} SomeLoses(x: int, y: int, r: Tree, gap: nat)
    requires Balanced(r) && gap >= 5
    ensures exists l :: Balanced(l) && Height(l) == Height(r) + gap && Loses(x, y, l, r)
    decreases gap
  {
    hide Loses; hide Balanced;
    if gap == 5 {
      LosesFive(x, y, r);
    } else if gap == 6 {
      LosesSix(x, y, r);
    } else if gap == 7 {
      LosesSeven(x, y, r);
    } else {
      SomeLoses(x, y, r, gap - 3);
      var b :| Balanced(b) && Height(b) == Height(r) + (gap - 3) && Loses(x, y, b, r);
      LosesMore(x, y, b, r);
    }
  }

  function Mirror(t: Tree): Tree {
    if t.Empty? then Empty else Node(t.x, t.y, Mirror(t.r), Mirror(t.l), t.h, t.cardinal)
  }

  lemma {:induction false} MirrorSpec(t: Tree)
    ensures Height(Mirror(t)) == Height(t) && Cardinal(Mirror(t)) == Cardinal(t)
    ensures Balanced(t) ==> Balanced(Mirror(t))
    ensures Mirror(Mirror(t)) == t
  {
    if t.Node? {
      MirrorSpec(t.l);
      MirrorSpec(t.r);
    }
  }

  lemma MirrorNode(t: Tree)
    requires Balanced(t) && t.Node?
    ensures var m := Mirror(t);
            && Balanced(m) && m.Node? && m.x == t.x && m.y == t.y && m.l == Mirror(t.r) && m.r == Mirror(t.l)
            && Balanced(t.l) && Balanced(t.r) && Balanced(m.l) && Balanced(m.r)
            && Height(m) == Height(t) && Height(m.l) == Height(t.r) && Height(m.r) == Height(t.l)
  {
    MirrorSpec(t);
    MirrorSpec(t.l);
    MirrorSpec(t.r);
  }

  /** Joining is symmetric. */
  lemma {:induction false} MirrorJoin(x: int, y: int, l: Tree, r: Tree)
    requires Balanced(l) && Balanced(r)
    ensures Balanced(Mirror(r)) && Balanced(Mirror(l))
    ensures Join(x, y, Mirror(r), Mirror(l)) == Mirror(Join(x, y, l, r))
    decreases Gap(Height(l), Height(r)), 1
  {
    MirrorSpec(l);
    MirrorSpec(r);
    if Height(l) > Height(r) + 2 {
      MirrorJoinLeft(x, y, l, r);
    } else if Height(r) > Height(l) + 2 {
      MirrorSpec(Join(x, y, l, r));
      MirrorJoinLeft(x, y, Mirror(r), Mirror(l));
      MirrorSpec(Join(x, y, Mirror(r), Mirror(l)));
    }
  }

  lemma {:induction false} MirrorJoinLeft(x: int, y: int, l: Tree, r: Tree)
    requires Balanced(l) && Balanced(r) && Height(l) > Height(r) + 2
    ensures Balanced(Mirror(r)) && Balanced(Mirror(l))
    ensures Join(x, y, Mirror(r), Mirror(l)) == Mirror(Join(x, y, l, r))
    decreases Gap(Height(l), Height(r)), 0
  {
    hide Balanced; hide Mirror;
    MirrorSpec(r);
    MirrorNode(l);
    var ll, lr := l.l, l.r;
    if Height(ll) >= Height(lr) {
      var m := Join(x, y, lr, r);
      LeftParts(l);
      SingleRotation(Height(l), Height(ll), Height(lr), Height(r), Height(m));
      MirrorJoin(x, y, lr, r);
      MirrorJoin(l.x, l.y, ll, m);
    } else {
      LeftParts(l);
      LeftParts(lr);
      MirrorNode(lr);
      var m, n := Join(l.x, l.y, ll, lr.l), Join(x, y, lr.r, r);
      DoubleRotation(Height(l), Height(ll), Height(lr), Height(lr.l), Height(lr.r), Height(r), Height(m), Height(n));
      MirrorJoin(x, y, lr.r, r);
      MirrorJoin(l.x, l.y, ll, lr.l);
      MirrorJoin(lr.x, lr.y, m, n);
    }
  }

  lemma LeftParts(t: Tree)
    requires Balanced(t) && t.Node?
    ensures Balanced(t.l) && Balanced(t.r) && Parent(Height(t.l), Height(t.r), Height(t))
    ensures Height(t.l) >= 0 && Height(t.r) >= 0 && (Height(t.r) > 0 ==> t.r.Node?)
  {}

  /** Same nodes and stored heights, whatever the intervals. */
  predicate SameShape(t: Tree, t': Tree) {
    if t.Empty? then t'.Empty?
    else t'.Node? && t.h == t'.h && SameShape(t.l, t'.l) && SameShape(t.r, t'.r)
  }

  lemma SameHeight(t: Tree, t': Tree)
    requires SameShape(t, t')
    ensures Height(t) == Height(t')
  {}

  /** The shape of a join depends on the shapes of the trees only. */
  lemma {:induction false} JoinShape(x: int, y: int, l: Tree, r: Tree, l': Tree, r': Tree)
    requires Balanced(l) && Balanced(r) && Balanced(l') && Balanced(r') && SameShape(l, l') && SameShape(r, r')
    ensures forall x', y' :: SameShape(Join(x, y, l, r), Join(x', y', l', r'))
    decreases Gap(Height(l), Height(r)), 2
  {
    SameHeight(l, l');
    SameHeight(r, r');
    if Height(l) > Height(r) + 2 {
      JoinShapeLeft(x, y, l, r, l', r');
    } else if Height(r) > Height(l) + 2 {
      JoinShapeRight(x, y, l, r, l', r');
    }
  }

  lemma ShapeParts(t: Tree, t': Tree)
    requires Balanced(t) && Balanced(t') && SameShape(t, t') && t.Node?
    ensures t'.Node? && SameShape(t.l, t'.l) && SameShape(t.r, t'.r)
    ensures Balanced(t.l) && Balanced(t.r) && Balanced(t'.l) && Balanced(t'.r)
    ensures Height(t.l) == Height(t'.l) && Height(t.r) == Height(t'.r) && Height(t) == Height(t')
    ensures Parent(Height(t.l), Height(t.r), Height(t)) && Height(t.l) >= 0 && Height(t.r) >= 0
    ensures (Height(t.l) > 0 ==> t.l.Node?) && (Height(t.r) > 0 ==> t.r.Node?)
  {}

  lemma {:induction false} JoinShapeLeft(x: int, y: int, l: Tree, r: Tree, l': Tree, r': Tree)
    requires Balanced(l) && Balanced(r) && Balanced(l') && Balanced(r') && SameShape(l, l') && SameShape(r, r')
    requires Height(l) > Height(r) + 2
    ensures forall x', y' :: SameShape(Join(x, y, l, r), Join(x', y', l', r'))
    decreases Gap(Height(l), Height(r)), 0
  {
    hide Balanced; hide SameShape;
    SameHeight(r, r');
    BalancedHeight(r);
    TallNode(l);
    ShapeParts(l, l');
    if Height(l.l) >= Height(l.r) {
      var m := Join(x, y, l.r, r);
      SingleRotation(Height(l), Height(l.l), Height(l.r), Height(r), Height(m));
      JoinShape(x, y, l.r, r, l'.r, r');
      forall x', y'
        ensures SameShape(Join(x, y, l, r), Join(x', y', l', r'))
      {
        JoinShape(l.x, l.y, l.l, m, l'.l, Join(x', y', l'.r, r'));
        JoinSingle(x, y, l, r);
        JoinSingle(x', y', l', r');
      }
    } else {
      ShapeParts(l.r, l'.r);
      var m, n := Join(l.x, l.y, l.l, l.r.l), Join(x, y, l.r.r, r);
      DoubleRotation(Height(l), Height(l.l), Height(l.r), Height(l.r.l), Height(l.r.r), Height(r), Height(m), Height(n));
      JoinShape(l.x, l.y, l.l, l.r.l, l'.l, l'.r.l);
      JoinShape(x, y, l.r.r, r, l'.r.r, r');
      forall x', y'
        ensures SameShape(Join(x, y, l, r), Join(x', y', l', r'))
      {
        JoinShape(l.r.x, l.r.y, m, n, Join(l'.x, l'.y, l'.l, l'.r.l), Join(x', y', l'.r.r, r'));
        JoinDouble(x, y, l, r);
        JoinDouble(x', y', l', r');
      }
    }
  }

  lemma TallNode(t: Tree)
    requires Balanced(t) && Height(t) > 0
    ensures t.Node?
  {}

  lemma {:induction false} JoinShapeRight(x: int, y: int, l: Tree, r: Tree, l': Tree, r': Tree)
    requires Balanced(l) && Balanced(r) && Balanced(l') && Balanced(r') && SameShape(l, l') && SameShape(r, r')
    requires Height(r) > Height(l) + 2
    ensures forall x', y' :: SameShape(Join(x, y, l, r), Join(x', y', l', r'))
    decreases Gap(Height(l), Height(r)), 1
  {
    hide Balanced; hide SameShape; hide Mirror;
    SameHeight(l, l');
    MirrorShape(l, l');
    MirrorShape(r, r');
    MirrorSpec(l);
    MirrorSpec(r);
    MirrorSpec(l');
    MirrorSpec(r');
    JoinShapeLeft(x, y, Mirror(r), Mirror(l), Mirror(r'), Mirror(l'));
    forall x', y'
      ensures SameShape(Join(x, y, l, r), Join(x', y', l', r'))
    {
      MirrorJoin(x, y, Mirror(r), Mirror(l));
      MirrorJoin(x', y', Mirror(r'), Mirror(l'));
      MirrorShape(Join(x, y, Mirror(r), Mirror(l)), Join(x', y', Mirror(r'), Mirror(l')));
    }
  }

  lemma {:induction false} MirrorShape(t: Tree, t': Tree)
    requires SameShape(t, t')
    ensures SameShape(Mirror(t), Mirror(t'))
  {
    if t.Node? {
      MirrorShape(t.l, t'.l);
      MirrorShape(t.r, t'.r);
    }
  }

  function Nodes(t: Tree): nat {
    if t.Empty? then 0 else Nodes(t.l) + 1 + Nodes(t.r)
  }

  /** A tree of the shape of t that holds every second integer from lo on. */
  function Spread(t: Tree, lo: int): Tree {
    if t.Empty? then Empty
    else
      var e := lo + 2 * Nodes(t.l);
      Node(e, e, Spread(t.l, lo), Spread(t.r, e + 2), t.h, Nodes(t))
  }

  lemma {:induction false} SpreadSpec(t: Tree, lo: int)
    requires Balanced(t)
    ensures Valid(Spread(t, lo)) && SameShape(t, Spread(t, lo)) && Cardinal(Spread(t, lo)) == Nodes(t)
    ensures forall e :: e in Elems(Spread(t, lo)) ==> lo <= e <= lo + 2 * Nodes(t) - 2
  {
    if t.Node? {
      SpreadSpec(t.l, lo);
      SpreadSpec(t.r, lo + 2 * Nodes(t.l) + 2);
    }
  }

  /** A join with the higher tree on the left gives its height or one more. */
  ghost predicate KeepsHeight(x: int, y: int, l: Tree, r: Tree) {
    Valid(l) && Valid(r) && x <= y && Apart(Elems(l), Range(x, y)) && Apart(Range(x, y), Elems(r)) ==>
      var h := Max(Height(l), Height(r));
      h <= Height(Join(x, y, l, r)) <= h + 1
  }

  /**
   * A join of two interval trees around an interval between them gives the higher height or one more, for all trees
   * of the given height and a given lower one, exactly when the heights differ by at most four; on either side.
   */
  lemma JoinHeightIff(x: int, y: int, r: Tree, gap: nat)
    requires Valid(r) && x <= y
    ensures Apart(Range(x, y), Elems(r)) ==>
              (gap <= 4 <==> forall l :: Valid(l) && Height(l) == Height(r) + gap ==> KeepsHeight(x, y, l, r))
    ensures Apart(Elems(r), Range(x, y)) ==>
              (gap <= 4 <==> forall l :: Valid(l) && Height(l) == Height(r) + gap ==> KeepsHeight(x, y, r, l))
  {
    hide Join; hide Balanced; hide Mirror; hide Ordered; hide Elems;
    BalancedHeight(r);
    if gap >= 5 {
      if Apart(Range(x, y), Elems(r)) {
        LeftLoses(x, y, r, gap);
      }
      if Apart(Elems(r), Range(x, y)) {
        RightLoses(x, y, r, gap);
      }
    }
  }

  lemma LeftLoses(x: int, y: int, r: Tree, gap: nat)
    requires Valid(r) && x <= y && gap >= 5 && Apart(Range(x, y), Elems(r))
    ensures exists l :: Valid(l) && Height(l) == Height(r) + gap && !KeepsHeight(x, y, l, r)
  {
    hide Join; hide Balanced; hide Ordered; hide SameShape; hide Spread; hide Elems;
    SomeLoses(x, y, r, gap);
    var b :| Balanced(b) && Height(b) == Height(r) + gap && Loses(x, y, b, r);
    var l := Spread(b, x - 2 * Nodes(b));
    SpreadSpec(b, x - 2 * Nodes(b));
    SameShapeSelf(r);
    SameHeight(b, l);
    JoinShape(x, y, b, r, l, r);
    SameHeight(Join(x, y, b, r), Join(x, y, l, r));
    assert !KeepsHeight(x, y, l, r);
  }

  lemma RightLoses(x: int, y: int, r: Tree, gap: nat)
    requires Valid(r) && x <= y && gap >= 5 && Apart(Elems(r), Range(x, y))
    ensures exists l :: Valid(l) && Height(l) == Height(r) + gap && !KeepsHeight(x, y, r, l)
  {
    hide Join; hide Balanced; hide Ordered; hide SameShape; hide Spread; hide Elems; hide Mirror;
    MirrorSpec(r);
    SomeLoses(x, y, Mirror(r), gap);
    var b :| Balanced(b) && Height(b) == Height(r) + gap && Loses(x, y, b, Mirror(r));
    MirrorSpec(b);
    MirrorJoin(x, y, b, Mirror(r));
    MirrorSpec(Join(x, y, b, Mirror(r)));
    var l := Spread(Mirror(b), y + 2);
    SpreadSpec(Mirror(b), y + 2);
    SameShapeSelf(r);
    SameHeight(Mirror(b), l);
    JoinShape(x, y, r, Mirror(b), r, l);
    SameHeight(Join(x, y, r, Mirror(b)), Join(x, y, r, l));
    assert !KeepsHeight(x, y, r, l);
  }

  lemma {:induction false} SameShapeSelf(t: Tree)
    ensures SameShape(t, t)
  {
    if t.Node? {
      SameShapeSelf(t.l);
      SameShapeSelf(t.r);
    }
  }

  // ---------------------------------------------------------------- splitting off an end

  function SplitMax(n: Tree): (res: (int, int, Tree))
    requires n.Node? && Balanced(n)
    ensures Balanced(res.2)
  {
    if n.r.Empty? then (n.x, n.y, n.l)
    else
      var (u, v, r') := SplitMax(n.r);
      (u, v, Join(n.x, n.y, n.l, r'))
  }

  function SplitMin(n: Tree): (res: (int, int, Tree))
    requires n.Node? && Balanced(n)
    ensures Balanced(res.2)
  {
    if n.l.Empty? then (n.x, n.y, n.r)
    else
      var (u, v, l') := SplitMin(n.l);
      (u, v, Join(n.x, n.y, l', n.r))
  }

  lemma {:induction false} SplitMaxOnto(n: Tree, tail: seq<(int, int)>)
    requires n.Node? && Balanced(n)
    ensures var (u, v, l') := SplitMax(n); Onto(n, tail) == Onto(l', [(u, v)] + tail)
  {
    if n.r.Node? {
      var (u, v, r') := SplitMax(n.r);
      SplitMaxOnto(n.r, tail);
      JoinOnto(n.x, n.y, n.l, r', [(u, v)] + tail);
    }
  }

  lemma {:induction false} SplitMinOnto(n: Tree, tail: seq<(int, int)>)
    requires n.Node? && Balanced(n)
    ensures var (u, v, r') := SplitMin(n); Onto(n, tail) == [(u, v)] + Onto(r', tail)
  {
    if n.l.Node? {
      var (u, v, l') := SplitMin(n.l);
      SplitMinOnto(n.l, [(n.x, n.y)] + Onto(n.r, tail));
      JoinOnto(n.x, n.y, l', n.r, tail);
    }
  }

  /** splitMax removes exactly the last interval. */
  lemma SplitMaxSpec(n: Tree, u: int, v: int, l': Tree)
    requires n.Node? && Valid(n) && SplitMax(n) == (u, v, l')
    ensures Valid(l') && u <= v && Elems(n) == Elems(l') + Range(u, v) && Apart(Elems(l'), Range(u, v))
  {
    SplitMaxOnto(n, []);
    assert [(u, v)] + [] == [(u, v)];
    IntervalsSpec(n);
    OntoSingle(l', u, v);
  }

  /** splitMin removes exactly the first interval. */
  lemma SplitMinSpec(n: Tree, u: int, v: int, r': Tree)
    requires n.Node? && Valid(n) && SplitMin(n) == (u, v, r')
    ensures Valid(r') && u <= v && Elems(n) == Range(u, v) + Elems(r') && Apart(Range(u, v), Elems(r'))
  {
    SplitMinOnto(n, []);
    IntervalsSpec(n);
    ConsSpec(u, v, r');
  }

  // ---------------------------------------------------------------- add

  /** Merges the interval of n with an adjacent last interval of its left subtree. */
  function AddL(n: Tree): (n': Tree)
    requires n.Node? && Balanced(n.l)
    ensures n'.Node? && Balanced(n'.l) && n'.r == n.r && n'.y == n.y
  {
    if n.l.Empty? then n
    else
      var (x', y', l') := SplitMax(n.l);
      if y' + 1 == n.x then n.(x := x', l := l') else n
  }

  function AddR(n: Tree): (n': Tree)
    requires n.Node? && Balanced(n.r)
    ensures n'.Node? && Balanced(n'.r) && n'.l == n.l && n'.x == n.x
  {
    if n.r.Empty? then n
    else
      var (x', y', r') := SplitMin(n.r);
      if n.y + 1 == x' then n.(y := y', r := r') else n
  }

  function Add(x: int, y: int, t: Tree): (t': Tree)
    requires x <= y && Balanced(t)
    ensures Balanced(t')
    decreases t
  {
    if t.Empty? then Join(x, y, Empty, Empty)
    else if y < t.x - 1 then Join(t.x, t.y, Add(x, y, t.l), t.r)
    else if t.y + 1 < x then Join(t.x, t.y, t.l, Add(x, y, t.r))
    else if x < t.x && y <= t.y then
      var n := AddL(t.(l := Add(x, t.x - 1, t.l)));
      Join(n.x, n.y, n.l, n.r)
    else if y > t.y && x >= t.x then
      var n := AddR(t.(r := Add(t.y + 1, y, t.r)));
      Join(n.x, n.y, n.l, n.r)
    else if x < t.x && y > t.y then
      var l := Add(x, t.x - 1, t.l);
      var r := Add(t.y + 1, y, t.r);
      var n := AddL(AddR(t.(r := r)).(l := l));
      Join(n.x, n.y, n.l, n.r)
    else t
  }

  /** Every point of a is before every point of b; they may touch. */
  ghost predicate Before(a: set<int>, b: set<int>) {
    forall e, f :: e in a && f in b ==> e < f
  }

  lemma TouchLeft(a: set<int>, u: int, v: int, x: int, y: int)
    requires u <= v < x <= y && Apart(a, Range(u, v))
    ensures v + 1 == x ==> Range(u, v) + Range(x, y) == Range(u, y) && Apart(a, Range(u, y))
    ensures v + 1 < x ==> Apart(a + Range(u, v), Range(x, y))
  {
    assert u in Range(u, v);
  }

  lemma TouchRight(x: int, y: int, u: int, v: int, b: set<int>)
    requires x <= y < u <= v && Apart(Range(u, v), b)
    ensures y + 1 == u ==> Range(x, y) + Range(u, v) == Range(x, v) && Apart(Range(x, v), b)
    ensures y + 1 < u ==> Apart(Range(x, y), Range(u, v) + b)
  {
    assert v in Range(u, v);
  }

  lemma AddLSpec(n: Tree)
    requires n.Node? && n.x <= n.y && Valid(n.l) && Before(Elems(n.l), Range(n.x, n.y))
    ensures var n' := AddL(n);
            && Valid(n'.l) && n'.x <= n'.y && Apart(Elems(n'.l), Range(n'.x, n'.y))
            && Elems(n'.l) + Range(n'.x, n'.y) == Elems(n.l) + Range(n.x, n.y)
  {
    if n.l.Node? {
      var (u, v, l') := SplitMax(n.l);
      SplitMaxSpec(n.l, u, v, l');
      assert v in Elems(n.l) && n.x in Range(n.x, n.y);
      TouchLeft(Elems(l'), u, v, n.x, n.y);
    }
  }

  lemma AddRSpec(n: Tree)
    requires n.Node? && n.x <= n.y && Valid(n.r) && Before(Range(n.x, n.y), Elems(n.r))
    ensures var n' := AddR(n);
            && Valid(n'.r) && n'.x <= n'.y && Apart(Range(n'.x, n'.y), Elems(n'.r))
            && Range(n'.x, n'.y) + Elems(n'.r) == Range(n.x, n.y) + Elems(n.r)
  {
    if n.r.Node? {
      var (u, v, r') := SplitMin(n.r);
      SplitMinSpec(n.r, u, v, r');
      assert u in Elems(n.r) && n.y in Range(n.x, n.y);
      TouchRight(n.x, n.y, u, v, Elems(r'));
    }
  }

  lemma ApartBefore(a: set<int>, z: int, x: int, y: int, y': int)
    requires x <= y && Apart(a, Range(x, y))
    ensures Apart(a, Range(x, y')) && Before(a + Range(z, x - 1), Range(x, y'))
  {
    assert x in Range(x, y);
  }

  lemma ApartAfter(x': int, x: int, y: int, z: int, b: set<int>)
    requires x <= y && Apart(Range(x, y), b)
    ensures Apart(Range(x', y), b) && Before(Range(x', y), b + Range(y + 1, z))
  {
    assert y in Range(x, y);
  }

  lemma AppendRight(a: set<int>, x0: int, y0: int, b: set<int>, x: int, y: int, m: set<int>, c: set<int>)
    requires y > y0 && x0 <= x <= y0 + 1 && m + c == Range(x0, y0) + (b + Range(y0 + 1, y))
    ensures a + m + c == (a + Range(x0, y0) + b) + Range(x, y)
  {
    assert Range(x0, y0) + Range(x, y) == Range(x0, y0) + Range(y0 + 1, y);
    assert a + m + c == a + (m + c);
  }

  /** The branch of add for an overlap on the left, where l is the grown left subtree. */
  lemma AddToLeft(x: int, y: int, t: Tree, l: Tree)
    requires t.Node? && Valid(t) && x < t.x && t.x - 1 <= y <= t.y
    requires Valid(l) && Elems(l) == Elems(t.l) + Range(x, t.x - 1)
    ensures var n := AddL(t.(l := l)); var j := Join(n.x, n.y, n.l, n.r);
            Valid(j) && Elems(j) == Elems(t) + Range(x, y)
  {
    var n := AddL(t.(l := l));
    ApartBefore(Elems(t.l), x, t.x, t.y, t.y);
    AddLSpec(t.(l := l));
    ApartAfter(n.x, t.x, t.y, t.y, Elems(t.r));
    JoinSpec(n.x, n.y, n.l, n.r);
    assert Range(t.x, t.y) + Range(x, y) == Range(t.x, t.y) + Range(x, t.x - 1);
  }

  /** The branch of add for an overlap on the right, where r is the grown right subtree. */
  lemma AddToRight(x: int, y: int, t: Tree, r: Tree)
    requires t.Node? && Valid(t) && y > t.y && t.x <= x <= t.y + 1
    requires Valid(r) && Elems(r) == Elems(t.r) + Range(t.y + 1, y)
    ensures var n := AddR(t.(r := r)); var j := Join(n.x, n.y, n.l, n.r);
            Valid(j) && Elems(j) == Elems(t) + Range(x, y)
  {
    var n := AddR(t.(r := r));
    ApartAfter(t.x, t.x, t.y, y, Elems(t.r));
    AddRSpec(t.(r := r));
    ApartBefore(Elems(t.l), t.x, t.x, t.y, n.y);
    JoinSpec(n.x, n.y, n.l, n.r);
    AppendRight(Elems(t.l), t.x, t.y, Elems(t.r), x, y, Range(n.x, n.y), Elems(n.r));
  }

  /** The branch of add for an overlap on both sides. */
  lemma AddAround(x: int, y: int, t: Tree, l: Tree, r: Tree)
    requires t.Node? && Valid(t) && x < t.x && y > t.y
    requires Valid(l) && Elems(l) == Elems(t.l) + Range(x, t.x - 1)
    requires Valid(r) && Elems(r) == Elems(t.r) + Range(t.y + 1, y)
    ensures AddR(t.(r := r)).Node?
    ensures var n := AddL(AddR(t.(r := r)).(l := l)); var j := Join(n.x, n.y, n.l, n.r);
            Valid(j) && Elems(j) == Elems(t) + Range(x, y)
  {
    hide AddL; hide AddR; hide Join; hide Range;
    ApartAfter(t.x, t.x, t.y, y, Elems(t.r));
    AddRSpec(t.(r := r));
    var n := AddR(t.(r := r));
    ApartBefore(Elems(t.l), x, t.x, t.y, n.y);
    AddLSpec(n.(l := l));
    var n' := AddL(n.(l := l));
    ApartAfter(n'.x, n.x, n.y, n.y, Elems(n.r));
    JoinSpec(n'.x, n'.y, n'.l, n'.r);
    SurroundSets(Elems(t.l), x, t.x, t.y, y, Elems(t.r), Range(n.x, n.y), Elems(n.r), Elems(n'.l), Range(n'.x, n'.y));
  }

  lemma SurroundSets(a: set<int>, x: int, x0: int, y0: int, y: int, b: set<int>,
                     m: set<int>, b': set<int>, a': set<int>, m': set<int>)
    requires x < x0 <= y0 < y
    requires m + b' == Range(x0, y0) + (b + Range(y0 + 1, y))
    requires a' + m' == (a + Range(x, x0 - 1)) + m
    ensures a' + m' + b' == (a + Range(x0, y0) + b) + Range(x, y)
  {
    assert Range(x, y) == Range(x, x0 - 1) + Range(x0, y0) + Range(y0 + 1, y);
    assert a' + m' + b' == (a + Range(x, x0 - 1)) + (m + b');
  }

  /** add denotes the union with the interval and keeps the invariant. */
  lemma {:induction false} AddSpec(x: int, y: int, t: Tree)
    requires x <= y && Valid(t)
    ensures Valid(Add(x, y, t)) && Elems(Add(x, y, t)) == Elems(t) + Range(x, y)
    decreases t, 1
  {
    if t.Empty? {
      JoinSpec(x, y, Empty, Empty);
    } else if y < t.x - 1 {
      AddSpec(x, y, t.l);
      JoinSpec(t.x, t.y, Add(x, y, t.l), t.r);
    } else if t.y + 1 < x {
      AddSpec(x, y, t.r);
      JoinSpec(t.x, t.y, t.l, Add(x, y, t.r));
    } else if x < t.x || y > t.y {
      AddOverlapSpec(x, y, t);
    }
  }

  lemma {:induction false} AddOverlapSpec(x: int, y: int, t: Tree)
    requires x <= y && t.Node? && Valid(t) && t.x - 1 <= y && x <= t.y + 1 && (x < t.x || y > t.y)
    ensures Valid(Add(x, y, t)) && Elems(Add(x, y, t)) == Elems(t) + Range(x, y)
    decreases t, 0
  {
    hide Add; hide AddL; hide AddR; hide Join;
    if y <= t.y {
      AddSpec(x, t.x - 1, t.l);
      AddToLeft(x, y, t, Add(x, t.x - 1, t.l));
    } else if x >= t.x {
      AddSpec(t.y + 1, y, t.r);
      AddToRight(x, y, t, Add(t.y + 1, y, t.r));
    } else {
      AddSpec(x, t.x - 1, t.l);
      AddSpec(t.y + 1, y, t.r);
      AddAround(x, y, t, Add(x, t.x - 1, t.l), Add(t.y + 1, y, t.r));
    }
    AddOverlapStep(x, y, t);

  }

  lemma AddOverlapStep(x: int, y: int, t: Tree)
    requires x <= y && t.Node? && Balanced(t) && t.x - 1 <= y && x <= t.y + 1 && (x < t.x || y > t.y)
    ensures x < t.x && y > t.y ==> AddR(t.(r := Add(t.y + 1, y, t.r))).Node?
    ensures Add(x, y, t) ==
            var n :=
              if y <= t.y then AddL(t.(l := Add(x, t.x - 1, t.l)))
              else if x >= t.x then AddR(t.(r := Add(t.y + 1, y, t.r)))
              else AddL(AddR(t.(r := Add(t.y + 1, y, t.r))).(l := Add(x, t.x - 1, t.l)));
            Join(n.x, n.y, n.l, n.r)
  {
    hide AddL; hide AddR; hide Join;
  }

  // ---------------------------------------------------------------- remove

  function Merge(l: Tree, r: Tree): (t: Tree)
    requires Balanced(l) && Balanced(r)
    ensures Balanced(t)
  {
    if r.Empty? then l
    else if l.Empty? then r
    else
      var (x, y, l') := SplitMax(l);
      Join(x, y, l', r)
  }

  function Remove(x: int, y: int, t: Tree): (t': Tree)
    requires x <= y && Balanced(t)
    ensures Balanced(t')
    decreases y - x, t
  {
    if t.Empty? then Empty
    else if y < t.x then Join(t.x, t.y, Remove(x, y, t.l), t.r)
    else if t.y < x then Join(t.x, t.y, t.l, Remove(x, y, t.r))
    else if x < t.x && y < t.y then Remove(x, t.x - 1, Join(y + 1, t.y, t.l, t.r))
    else if y > t.y && x > t.x then Remove(t.y + 1, y, Join(t.x, x - 1, t.l, t.r))
    else if x <= t.x && y >= t.y then
      Merge(Remove(x, t.x, t.l), Remove(t.y, y, t.r))
    else if y == t.y then Join(t.x, x - 1, t.l, t.r)
    else if x == t.x then Join(y + 1, t.y, t.l, t.r)
    else Join(t.x, x - 1, t.l, Join(y + 1, t.y, Empty, t.r))
  }

  lemma MergeSpec(l: Tree, r: Tree)
    requires Valid(l) && Valid(r) && Apart(Elems(l), Elems(r))
    ensures Valid(Merge(l, r)) && Elems(Merge(l, r)) == Elems(l) + Elems(r)
  {
    if l.Node? && r.Node? {
      var (x, y, l') := SplitMax(l);
      SplitMaxSpec(l, x, y, l');
      ApartUnion(Elems(l'), Range(x, y), Elems(r));
      JoinSpec(x, y, l', r);
    }
  }

  lemma ApartSubset(a: set<int>, b: set<int>, a': set<int>, b': set<int>)
    requires Apart(a, b) && a' <= a && b' <= b
    ensures Apart(a', b')
  {}

  /** A join of parts of the subtrees of t around a part of its interval. */
  lemma JoinPart(t: Tree, x: int, y: int, l: Tree, r: Tree)
    requires t.Node? && Valid(t) && t.x <= x <= y <= t.y
    requires Valid(l) && Valid(r) && Elems(l) <= Elems(t.l) && Elems(r) <= Elems(t.r)
    ensures Valid(Join(x, y, l, r)) && Elems(Join(x, y, l, r)) == Elems(l) + Range(x, y) + Elems(r)
  {
    assert Range(x, y) <= Range(t.x, t.y);
    ApartSubset(Elems(t.l), Range(t.x, t.y), Elems(l), Range(x, y));
    ApartSubset(Range(t.x, t.y), Elems(t.r), Range(x, y), Elems(r));
    JoinSpec(x, y, l, r);
  }

  /** What the invariant says at the root of t, and that points of the subtrees are off its interval. */
  lemma OffInterval(t: Tree)
    requires t.Node? && Valid(t)
    ensures t.x <= t.y && Valid(t.l) && Valid(t.r) && Elems(t) == Elems(t.l) + Range(t.x, t.y) + Elems(t.r)
    ensures Apart(Elems(t.l), Range(t.x, t.y)) && Apart(Range(t.x, t.y), Elems(t.r))
    ensures Valid(Empty) && Elems(Empty) == {}
    ensures forall e :: e in Elems(t.l) ==> e + 1 < t.x
    ensures forall e :: e in Elems(t.r) ==> t.y + 1 < e
  {
    assert t.x in Range(t.x, t.y) && t.y in Range(t.x, t.y);
  }

  /** remove denotes the difference with the interval and keeps the invariant. */
  lemma {:induction false} RemoveSpec(x: int, y: int, t: Tree)
    requires x <= y && Valid(t)
    ensures Valid(Remove(x, y, t)) && Elems(Remove(x, y, t)) == Elems(t) - Range(x, y)
    decreases y - x, t, 1
  {
    if t.Node? {
      OffInterval(t);
      if y < t.x {
        RemoveSpec(x, y, t.l);
        JoinPart(t, t.x, t.y, Remove(x, y, t.l), t.r);
      } else if t.y < x {
        RemoveSpec(x, y, t.r);
        JoinPart(t, t.x, t.y, t.l, Remove(x, y, t.r));
      } else if x <= t.x && y >= t.y {
        RemoveSpec(x, t.x, t.l);
        RemoveSpec(t.y, y, t.r);
        RemoveCover(x, y, t, Remove(x, t.x, t.l), Remove(t.y, y, t.r));
      } else {
        RemoveOverlap(x, y, t);
      }
    }
  }

  lemma RemoveCover(x: int, y: int, t: Tree, l: Tree, r: Tree)
    requires t.Node? && Valid(t) && x <= t.x && y >= t.y
    requires Valid(l) && Elems(l) == Elems(t.l) - Range(x, t.x)
    requires Valid(r) && Elems(r) == Elems(t.r) - Range(t.y, y)
    ensures Valid(Merge(l, r)) && Elems(Merge(l, r)) == Elems(t) - Range(x, y)
  {
    OffInterval(t);
    ApartAcross(Elems(t.l), t.x, t.y, Elems(t.r));
    ApartSubset(Elems(t.l), Elems(t.r), Elems(l), Elems(r));
    MergeSpec(l, r);
  }

  lemma {:induction false} RemoveOverlap(x: int, y: int, t: Tree)
    requires x <= y && t.Node? && Valid(t) && t.x <= y && x <= t.y && (t.x < x || y < t.y)
    ensures Valid(Remove(x, y, t)) && Elems(Remove(x, y, t)) == Elems(t) - Range(x, y)
    decreases y - x, t, 0
  {
    hide Remove; hide Join; hide Elems; hide Ordered; hide Balanced;
    OffInterval(t);
    RemoveOverlapStep(x, y, t);
    if x < t.x {
      JoinPart(t, y + 1, t.y, t.l, t.r);
      RemoveSpec(x, t.x - 1, Join(y + 1, t.y, t.l, t.r));
      CutSets(Elems(t.l), t.x, t.y, Elems(t.r), x, y);
    } else if y > t.y {
      JoinPart(t, t.x, x - 1, t.l, t.r);
      RemoveSpec(t.y + 1, y, Join(t.x, x - 1, t.l, t.r));
      CutSets(Elems(t.l), t.x, t.y, Elems(t.r), x, y);
    } else if y == t.y {
      JoinPart(t, t.x, x - 1, t.l, t.r);
    } else if x == t.x {
      JoinPart(t, y + 1, t.y, t.l, t.r);
    } else {
      RemoveInside(x, y, t);
    }
  }

  lemma RemoveOverlapStep(x: int, y: int, t: Tree)
    requires x <= y && t.Node? && Balanced(t) && t.x <= y && x <= t.y && (t.x < x || y < t.y)
    ensures Remove(x, y, t) ==
            if x < t.x then Remove(x, t.x - 1, Join(y + 1, t.y, t.l, t.r))
            else if y > t.y then Remove(t.y + 1, y, Join(t.x, x - 1, t.l, t.r))
            else if y == t.y then Join(t.x, x - 1, t.l, t.r)
            else if x == t.x then Join(y + 1, t.y, t.l, t.r)
            else Join(t.x, x - 1, t.l, Join(y + 1, t.y, Empty, t.r))
  {}

  lemma CutSets(a: set<int>, x0: int, y0: int, b: set<int>, x: int, y: int)
    requires x0 <= y0 && x0 <= y && x <= y0
    requires (forall e :: e in a ==> e < x0) && (forall e :: e in b ==> y0 < e)
    ensures x < x0 && y < y0 ==>
              (a + Range(y + 1, y0) + b) - Range(x, x0 - 1) == (a + Range(x0, y0) + b) - Range(x, y)
    ensures x0 < x && y0 < y ==>
              (a + Range(x0, x - 1) + b) - Range(y0 + 1, y) == (a + Range(x0, y0) + b) - Range(x, y)
    ensures x0 < x && x <= y && y < y0 ==>
              a + Range(x0, x - 1) + (Range(y + 1, y0) + b) == (a + Range(x0, y0) + b) - Range(x, y)
  {}

  lemma RemoveInside(x: int, y: int, t: Tree)
    requires t.Node? && Valid(t) && t.x < x <= y < t.y
    ensures var j := Join(t.x, x - 1, t.l, Join(y + 1, t.y, Empty, t.r));
            Valid(j) && Elems(j) == Elems(t) - Range(x, y)
  {
    hide Join; hide Elems; hide Ordered; hide Balanced;
    OffInterval(t);
    var r := Join(y + 1, t.y, Empty, t.r);
    JoinPart(t, y + 1, t.y, Empty, t.r);
    assert Apart(Elems(t.l), Range(t.x, x - 1));
    assert Apart(Range(t.x, x - 1), Elems(r));
    JoinSpec(t.x, x - 1, t.l, r);
    CutSets(Elems(t.l), t.x, t.y, Elems(t.r), x, y);
  }

  // ---------------------------------------------------------------- union, diff and inter

  /** fold add t acc */
  function AddAll(t: Tree, acc: Tree): (res: Tree)
    requires Ordered(t) && Balanced(acc)
    ensures Balanced(res)
    decreases t
  {
    if t.Empty? then acc else AddAll(t.r, Add(t.x, t.y, AddAll(t.l, acc)))
  }

  /** fold remove t acc */
  function RemoveAll(t: Tree, acc: Tree): (res: Tree)
    requires Ordered(t) && Balanced(acc)
    ensures Balanced(res)
    decreases t
  {
    if t.Empty? then acc else RemoveAll(t.r, Remove(t.x, t.y, RemoveAll(t.l, acc)))
  }

  lemma {:induction false} AddAllSpec(t: Tree, acc: Tree)
    requires Ordered(t) && Valid(acc)
    ensures Valid(AddAll(t, acc)) && Elems(AddAll(t, acc)) == Elems(acc) + Elems(t)
  {
    if t.Node? {
      AddAllSpec(t.l, acc);
      var m := AddAll(t.l, acc);
      AddSpec(t.x, t.y, m);
      AddAllSpec(t.r, Add(t.x, t.y, m));
    }
  }

  lemma {:induction false} RemoveAllSpec(t: Tree, acc: Tree)
    requires Ordered(t) && Valid(acc)
    ensures Valid(RemoveAll(t, acc)) && Elems(RemoveAll(t, acc)) == Elems(acc) - Elems(t)
  {
    if t.Node? {
      RemoveAllSpec(t.l, acc);
      var m := RemoveAll(t.l, acc);
      RemoveSpec(t.x, t.y, m);
      RemoveAllSpec(t.r, Remove(t.x, t.y, m));
    }
  }

  function Union(a: Tree, b: Tree): Tree
    requires Valid(a) && Valid(b)
  {
    if Cardinal(a) > Cardinal(b) then AddAll(b, a) else AddAll(a, b)
  }

  function Diff(a: Tree, b: Tree): Tree
    requires Valid(a) && Valid(b)
  {
    RemoveAll(b, a)
  }

  lemma DiffSpec(a: Tree, b: Tree)
    requires Valid(a) && Valid(b)
    ensures Valid(Diff(a, b)) && Elems(Diff(a, b)) == Elems(a) - Elems(b)
  {
    RemoveAllSpec(b, a);
  }

  function Inter(a: Tree, b: Tree): Tree
    requires Valid(a) && Valid(b)
  {
    DiffSpec(a, b);
    Diff(a, Diff(a, b))
  }

  /** union, diff and inter are the set operations, whatever the shapes of the two trees. */
  lemma SetOperations(a: Tree, b: Tree)
    requires Valid(a) && Valid(b)
    ensures Valid(Union(a, b)) && Elems(Union(a, b)) == Elems(a) + Elems(b)
    ensures Valid(Diff(a, b)) && Elems(Diff(a, b)) == Elems(a) - Elems(b)
    ensures Valid(Inter(a, b)) && Elems(Inter(a, b)) == Elems(a) * Elems(b)
  {
    AddAllSpec(a, b);
    AddAllSpec(b, a);
    DiffSpec(a, b);
    DiffSpec(a, Diff(a, b));
  }

  // ---------------------------------------------------------------- cardinal

  lemma {:induction false} RangeSize(x: int, y: int)
    requires x <= y + 1
    ensures |Range(x, y)| == y - x + 1
    decreases y - x
  {
    if x > y {
      assert Range(x, y) == {};
    } else {
      RangeSize(x, y - 1);
      assert Range(x, y) == Range(x, y - 1) + {y};
    }
  }

  /** The stored cardinal is the number of points. */
  lemma {:induction false} CardinalSpec(t: Tree)
    requires Valid(t)
    ensures Cardinal(t) == |Elems(t)|
  {
    if t.Node? {
      CardinalSpec(t.l);
      CardinalSpec(t.r);
      RangeSize(t.x, t.y);
      OffInterval(t);
      var a := Elems(t.l) + Range(t.x, t.y);
      assert Elems(t.l) !! Range(t.x, t.y);
      assert a !! Elems(t.r);
    }
  }

  // ---------------------------------------------------------------- queries

  function Mem(e: int, t: Tree): bool {
    t.Node? && ((e >= t.x && e <= t.y) || if e < t.x then Mem(e, t.l) else Mem(e, t.r))
  }

  lemma {:induction false} MemSpec(e: int, t: Tree)
    requires Valid(t)
    ensures Mem(e, t) <==> e in Elems(t)
  {
    if t.Node? {
      OffInterval(t);
      MemSpec(e, t.l);
      MemSpec(e, t.r);
    }
  }

  function FindNextGap(from: int, t: Tree): int {
    if t.Empty? then from
    else if from >= t.x && from <= t.y then t.y + 1
    else if from < t.x then FindNextGap(from, t.l)
    else FindNextGap(from, t.r)
  }

  /** find_next_gap is the least point from `from` on that is outside the set. */
  lemma {:induction false} FindNextGapSpec(from: int, t: Tree)
    requires Valid(t)
    ensures var g := FindNextGap(from, t);
            from <= g && g !in Elems(t) && Range(from, g - 1) <= Elems(t)
  {
    if t.Node? {
      OffInterval(t);
      if from < t.x {
        FindNextGapSpec(from, t.l);
        GapBound(from, t.l, t.x - 1);
      } else if from > t.y {
        FindNextGapSpec(from, t.r);
      }
    }
  }

  /** A search that starts before b and a set that ends before b give a gap no later than b. */
  lemma {:induction false} GapBound(from: int, t: Tree, b: int)
    requires Valid(t) && from <= b && forall e :: e in Elems(t) ==> e < b
    ensures FindNextGap(from, t) <= b
  {
    if t.Node? {
      assert t.y in Elems(t) && Elems(t.l) <= Elems(t) && Elems(t.r) <= Elems(t);
      if from < t.x {
        GapBound(from, t.l, b);
      } else if from > t.y {
        GapBound(from, t.r, b);
      }
    }
  }

  datatype TakeResult = Taken(acc: Tree, free: Tree) | TooFew | BadInterval

  function TakeLoop(acc: Tree, free: Tree, n: int): TakeResult
    requires Valid(acc) && Valid(free)
    decreases if n < 0 then 1 else n
  {
    if n == 0 then Taken(acc, free)
    else if free.Empty? then TooFew
    else
      var x, y := free.x, free.y;
      var len := y - x + 1;
      var willUse := if n < len then n else len;
      var y' := x + willUse - 1;
      if x > y' then BadInterval
      else
        AddSpec(x, y', acc);
        RemoveSpec(x, y', free);
        TakeLoop(Add(x, y', acc), Remove(x, y', free), n - willUse)
  }

  function Take(t: Tree, n: int): TakeResult
    requires Valid(t)
  {
    TakeLoop(Empty, t, n)
  }

  lemma MoveSets(a: set<int>, f: set<int>, m: set<int>)
    requires a !! f && m <= f
    ensures a + m !! f - m && (a + m) + (f - m) == a + f
    ensures |a + m| == |a| + |m| && |f - m| == |f| - |m|
  {
    assert (f - m) + m == f;
  }

  /** Moving an interval of free to acc moves its points. */
  lemma MoveSpec(acc: Tree, free: Tree, x: int, y: int)
    requires Valid(acc) && Valid(free) && Elems(acc) !! Elems(free)
    requires x <= y && Range(x, y) <= Elems(free)
    ensures var a, f := Add(x, y, acc), Remove(x, y, free);
            && Valid(a) && Valid(f) && Elems(a) !! Elems(f)
            && Elems(a) + Elems(f) == Elems(acc) + Elems(free)
            && |Elems(a)| == |Elems(acc)| + (y - x + 1)
            && |Elems(f)| == |Elems(free)| - (y - x + 1)
  {
    hide Add; hide Remove; hide Valid; hide Elems;
    AddSpec(x, y, acc);
    RemoveSpec(x, y, free);
    RangeSize(x, y);
    MoveSets(Elems(acc), Elems(free), Range(x, y));
  }

  /** The result splits `all` with `taken` points on one side, or there were `spare` < 0 points to spare. */
  ghost predicate TakeGives(all: set<int>, taken: int, spare: int, r: TakeResult) {
    match r
    case Taken(a, f) =>
      Valid(a) && Valid(f) && Elems(a) !! Elems(f) && Elems(a) + Elems(f) == all && |Elems(a)| == taken
    case TooFew => spare < 0
    case BadInterval => false
  }

  /** The part of the first free interval that take uses next. */
  function FirstPart(free: Tree, n: nat): (int, int)
    requires free.Node?
  {
    var len := free.y - free.x + 1;
    (free.x, free.x + (if n < len then n else len) - 1)
  }

  lemma FirstPartSpec(acc: Tree, free: Tree, n: nat)
    requires Valid(acc) && Valid(free) && free.Node? && n > 0
    ensures var (x, y) := FirstPart(free, n);
            && x <= y && y - x + 1 <= n && Range(x, y) <= Elems(free)
            && Valid(Add(x, y, acc)) && Valid(Remove(x, y, free))
            && TakeLoop(acc, free, n) == TakeLoop(Add(x, y, acc), Remove(x, y, free), n - (y - x + 1))
  {
    hide Add; hide Remove;
    var (x, y) := FirstPart(free, n);
    assert Range(x, y) <= Range(free.x, free.y);
    AddSpec(x, y, acc);
    RemoveSpec(x, y, free);
  }

  lemma EmptySpec()
    ensures Valid(Empty) && Elems(Empty) == {}
  {}

  lemma TakeLoopEnd(acc: Tree, free: Tree, n: nat)
    requires Valid(acc) && Valid(free) && Elems(acc) !! Elems(free) && (n == 0 || free.Empty?)
    ensures TakeGives(Elems(acc) + Elems(free), |Elems(acc)| + n, |Elems(free)| - n, TakeLoop(acc, free, n))
  {}

  lemma {:induction false} TakeLoopSpec(acc: Tree, free: Tree, n: nat)
    requires Valid(acc) && Valid(free) && Elems(acc) !! Elems(free)
    ensures TakeGives(Elems(acc) + Elems(free), |Elems(acc)| + n, |Elems(free)| - n, TakeLoop(acc, free, n))
    decreases n
  {
    hide TakeLoop; hide TakeGives; hide Add; hide Remove; hide Balanced; hide Ordered; hide Elems;
    if n == 0 || free.Empty? {
      TakeLoopEnd(acc, free, n);
    } else {
      var (x, y) := FirstPart(free, n);
      FirstPartSpec(acc, free, n);
      MoveSpec(acc, free, x, y);
      TakeLoopSpec(Add(x, y, acc), Remove(x, y, free), n - (y - x + 1));
    }
  }

  /** take splits off n points, and fails only when there are fewer than n. */
  lemma TakeSpec(t: Tree, n: int)
    requires Valid(t)
    ensures n < 0 ==> Take(t, n) == if t.Empty? then TooFew else BadInterval
    ensures n >= 0 ==>
              match Take(t, n)
              case Taken(a, f) =>
                Valid(a) && Valid(f) && Elems(a) !! Elems(f) && Elems(a) + Elems(f) == Elems(t) && |Elems(a)| == n
              case TooFew => |Elems(t)| < n
              case BadInterval => false
  {
    if n >= 0 {
      TakeNatural(t, n);
    } else if t.Node? {
      OffInterval(t);
    }
  }

  lemma TakeNatural(t: Tree, n: nat)
    requires Valid(t)
    ensures match Take(t, n)
            case Taken(a, f) =>
              Valid(a) && Valid(f) && Elems(a) !! Elems(f) && Elems(a) + Elems(f) == Elems(t) && |Elems(a)| == n
            case TooFew => |Elems(t)| < n
            case BadInterval => false
  {
    hide Elems; hide TakeLoop; hide Balanced; hide Ordered;
    EmptySpec();
    TakeLoopSpec(Empty, t, n);
    assert {} + Elems(t) == Elems(t);
  }

  // ---------------------------------------------------------------- equality

  predicate AllNodes(enum: seq<Tree>) {
    forall i :: 0 <= i < |enum| ==> enum[i].Node?
  }

  function ConsEnum(t: Tree, enum: seq<Tree>): (res: seq<Tree>)
    requires AllNodes(enum)
    ensures AllNodes(res)
    decreases t
  {
    if t.Empty? then enum else ConsEnum(t.l, [t] + enum)
  }

  /** The intervals still to come: each pending node, then its right subtree. */
  ghost function Pending(enum: seq<Tree>): seq<(int, int)>
    requires AllNodes(enum)
  {
    if enum == [] then [] else [(enum[0].x, enum[0].y)] + Onto(enum[0].r, Pending(enum[1..]))
  }

  lemma {:induction false} ConsEnumPending(t: Tree, enum: seq<Tree>)
    requires AllNodes(enum)
    ensures Pending(ConsEnum(t, enum)) == Onto(t, Pending(enum))
  {
    if t.Node? {
      ConsEnumPending(t.l, [t] + enum);
      assert ([t] + enum)[1..] == enum;
    }
  }

  function CompareNodes(n: Tree, n': Tree): int
    requires n.Node? && n'.Node?
  {
    if n.x == n'.x && n.y == n'.y then 0 else if n.y < n'.x then -1 else 1
  }

  function CompareAux(enum: seq<Tree>, enum': seq<Tree>): int
    requires AllNodes(enum) && AllNodes(enum')
    decreases |Pending(enum)|
  {
    if enum == [] && enum' == [] then 0
    else if enum == [] then -1
    else if enum' == [] then 1
    else
      var c := CompareNodes(enum[0], enum'[0]);
      if c != 0 then c
      else
        ConsEnumPending(enum[0].r, enum[1..]);
        CompareAux(ConsEnum(enum[0].r, enum[1..]), ConsEnum(enum'[0].r, enum'[1..]))
  }

  lemma {:induction false} CompareAuxSpec(enum: seq<Tree>, enum': seq<Tree>)
    requires AllNodes(enum) && AllNodes(enum')
    ensures CompareAux(enum, enum') == 0 <==> Pending(enum) == Pending(enum')
    decreases |Pending(enum)|
  {
    if enum != [] && enum' != [] {
      var n, n' := enum[0], enum'[0];
      var rest, rest' := Onto(n.r, Pending(enum[1..])), Onto(n'.r, Pending(enum'[1..]));
      assert Pending(enum)[0] == (n.x, n.y) && Pending(enum)[1..] == rest;
      assert Pending(enum')[0] == (n'.x, n'.y) && Pending(enum')[1..] == rest';
      if CompareNodes(n, n') == 0 {
        ConsEnumPending(n.r, enum[1..]);
        ConsEnumPending(n'.r, enum'[1..]);
        CompareAuxSpec(ConsEnum(n.r, enum[1..]), ConsEnum(n'.r, enum'[1..]));
      }
    }
  }

  function Compare(t: Tree, t': Tree): int {
    CompareAux(ConsEnum(t, []), ConsEnum(t', []))
  }

  predicate Equal(t: Tree, t': Tree) {
    Compare(t, t') == 0
  }

  /** equal decides equality of the sets, whatever the shapes of the two trees. */
  lemma EqualSpec(t: Tree, t': Tree)
    requires Valid(t) && Valid(t')
    ensures Equal(t, t') <==> Elems(t) == Elems(t')
  {
    ConsEnumPending(t, []);
    ConsEnumPending(t', []);
    CompareAuxSpec(ConsEnum(t, []), ConsEnum(t', []));
    IntervalsSpec(t);
    IntervalsSpec(t');
    if Elems(t) == Elems(t') {
      OrderedListIsCanonical(Intervals(t), Intervals(t'));
    }
  }

  /** The lists agree before position k and differ there. */
  predicate DifferAt(s: seq<(int, int)>, s': seq<(int, int)>, k: int) {
    0 <= k < |s| && k < |s'| && s[..k] == s'[..k] && s[k] != s'[k]
  }

  /** s ends where s' goes on, or at the first difference its interval is wholly below. */
  ghost predicate Precedes(s: seq<(int, int)>, s': seq<(int, int)>) {
    s < s' || exists k :: DifferAt(s, s', k) && s[k].1 < s'[k].0
  }

  /** At the first difference neither interval is wholly below the other. */
  ghost predicate Clash(s: seq<(int, int)>, s': seq<(int, int)>) {
    exists k :: DifferAt(s, s', k) && s[k].1 >= s'[k].0 && s'[k].1 >= s[k].0
  }

  lemma DifferStep(a: (int, int), s: seq<(int, int)>, s': seq<(int, int)>, k: nat)
    ensures DifferAt([a] + s, [a] + s', k + 1) <==> DifferAt(s, s', k)
    ensures !DifferAt([a] + s, [a] + s', 0)
  {
    if k <= |s| && k <= |s'| {
      assert ([a] + s)[..k + 1] == [a] + s[..k] && ([a] + s')[..k + 1] == [a] + s'[..k];
      assert s[..k] == ([a] + s[..k])[1..] && s'[..k] == ([a] + s'[..k])[1..];
    }
  }

  lemma BeforeStep(a: (int, int), s: seq<(int, int)>, s': seq<(int, int)>)
    ensures Precedes([a] + s, [a] + s') <==> Precedes(s, s')
  {
    assert [a] + s < [a] + s' <==> s < s' by {
      if s < s' {
        assert s' == s + s'[|s|..];
      }
      if [a] + s < [a] + s' {
        assert ([a] + s')[1..] == s' && ([a] + s)[1..] == s;
      }
    }
    if k :| DifferAt(s, s', k) && s[k].1 < s'[k].0 {
      DifferStep(a, s, s', k);
      assert ([a] + s)[k + 1] == s[k] && ([a] + s')[k + 1] == s'[k];
    }
    if k :| DifferAt([a] + s, [a] + s', k) && ([a] + s)[k].1 < ([a] + s')[k].0 {
      assert k > 0;
      DifferStep(a, s, s', k - 1);
      assert ([a] + s)[k] == s[k - 1] && ([a] + s')[k] == s'[k - 1];
    }
  }

  lemma BeforeFirst(s: seq<(int, int)>, s': seq<(int, int)>)
    requires s != [] && s' != [] && s[0] != s'[0]
    ensures Precedes(s, s') <==> s[0].1 < s'[0].0
  {
    assert DifferAt(s, s', 0);
    forall k | DifferAt(s, s', k)
      ensures k == 0
    {
      OneDifference(s, s', 0, k);
    }
  }

  lemma {:induction false} CompareAuxBefore(enum: seq<Tree>, enum': seq<Tree>)
    requires AllNodes(enum) && AllNodes(enum')
    ensures -1 <= CompareAux(enum, enum') <= 1
    ensures CompareAux(enum, enum') == -1 <==> Precedes(Pending(enum), Pending(enum'))
    decreases |Pending(enum)|
  {
    if enum != [] && enum' != [] {
      var n, n' := enum[0], enum'[0];
      var a, a' := (n.x, n.y), (n'.x, n'.y);
      var rest, rest' := Onto(n.r, Pending(enum[1..])), Onto(n'.r, Pending(enum'[1..]));
      if a == a' {
        ConsEnumPending(n.r, enum[1..]);
        ConsEnumPending(n'.r, enum'[1..]);
        CompareAuxBefore(ConsEnum(n.r, enum[1..]), ConsEnum(n'.r, enum'[1..]));
        BeforeStep(a, rest, rest');
      } else {
        BeforeFirst([a] + rest, [a'] + rest');
      }
    }
  }

  /** compare orders the interval lists: minus one exactly if the first is before the second, zero if they are equal. */
  lemma CompareSpec(t: Tree, t': Tree)
    ensures -1 <= Compare(t, t') <= 1
    ensures Compare(t, t') == -1 <==> Precedes(Intervals(t), Intervals(t'))
    ensures Compare(t, t') == 0 <==> Intervals(t) == Intervals(t')
  {
    ConsEnumPending(t, []);
    ConsEnumPending(t', []);
    CompareAuxSpec(ConsEnum(t, []), ConsEnum(t', []));
    CompareAuxBefore(ConsEnum(t, []), ConsEnum(t', []));
  }

  lemma {:induction false} FirstDifference(s: seq<(int, int)>, s': seq<(int, int)>) returns (k: nat)
    ensures s == s' || s < s' || s' < s || DifferAt(s, s', k)
  {
    if s == [] || s' == [] {
      k := 0;
    } else if s[0] != s'[0] {
      k := 0;
    } else {
      var i := FirstDifference(s[1..], s'[1..]);
      k := i + 1;
      assert s == [s[0]] + s[1..] && s' == [s[0]] + s'[1..];
      DifferStep(s[0], s[1..], s'[1..], i);
      if s[1..] < s'[1..] {
        assert s < s';
      } else if s'[1..] < s[1..] {
        assert s' < s;
      }
    }
  }

  lemma SameBefore(s: seq<(int, int)>, s': seq<(int, int)>, i: nat, j: nat)
    requires DifferAt(s, s', j) && i < j
    ensures s[i] == s'[i]
  {
    assert s[..j][i] == s'[..j][i];
  }

  lemma OneDifference(s: seq<(int, int)>, s': seq<(int, int)>, i: int, j: int)
    requires DifferAt(s, s', i) && DifferAt(s, s', j)
    ensures i == j
  {
    if i < j {
      SameBefore(s, s', i, j);
    } else if j < i {
      SameBefore(s, s', j, i);
    }
  }

  /** compare is the opposite with its arguments exchanged, exactly unless the first differing intervals overlap. */
  lemma CompareOppositeIff(t: Tree, t': Tree)
    requires Valid(t) && Valid(t')
    ensures Compare(t, t') == -Compare(t', t) <==> !Clash(Intervals(t), Intervals(t'))
  {
    hide Compare;
    CompareSpec(t, t');
    CompareSpec(t', t);
    IntervalsSpec(t);
    IntervalsSpec(t');
    OrderedEach(Intervals(t));
    OrderedEach(Intervals(t'));
    OppositeLists(Intervals(t), Intervals(t'));
  }

  lemma {:induction false} OrderedEach(s: seq<(int, int)>)
    requires OrderedList(s)
    ensures forall i :: 0 <= i < |s| ==> s[i].0 <= s[i].1
  {
    if s != [] {
      OrderedEach(s[1..]);
      assert forall i :: 0 < i < |s| ==> s[i] == s[1..][i - 1];
    }
  }

  lemma PrefixAgrees(s: seq<(int, int)>, s': seq<(int, int)>)
    requires s <= s' || s' <= s
    ensures forall i :: !DifferAt(s, s', i)
  {
    forall i | 0 <= i < |s| && i < |s'|
      ensures s[i] == s'[i]
    {}
  }

  lemma OppositeLists(s: seq<(int, int)>, s': seq<(int, int)>)
    requires (forall i :: 0 <= i < |s| ==> s[i].0 <= s[i].1) && forall i :: 0 <= i < |s'| ==> s'[i].0 <= s'[i].1
    ensures !(Precedes(s, s') && Precedes(s', s))
    ensures s != s' ==> (Precedes(s, s') || Precedes(s', s) <==> !Clash(s, s'))
    ensures s == s' ==> !Precedes(s, s') && !Clash(s, s')
  {
    var k := FirstDifference(s, s');
    if s <= s' || s' <= s {
      PrefixAgrees(s, s');
    } else {
      forall i | DifferAt(s, s', i)
        ensures i == k
      {
        OneDifference(s, s', i, k);
      }
    }
    assert forall i :: DifferAt(s, s', i) <==> DifferAt(s', s, i);
    if DifferAt(s, s', k) {
      assert DifferAt(s', s, k);
    }
  }

  /** 0..5 and 3..8 are each found greater than the other. */
  lemma CompareClash()
    ensures var t, t' := Create(0, 5, Empty, Empty), Create(3, 8, Empty, Empty);
            Valid(t) && Valid(t') && Compare(t, t') == 1 && Compare(t', t) == 1
  {
    hide CompareAux; hide Valid; hide Compare;
    OneNode(0, 5);
    OneNode(3, 8);
    CompareOne(Create(0, 5, Empty, Empty), Create(3, 8, Empty, Empty));
    CompareOne(Create(3, 8, Empty, Empty), Create(0, 5, Empty, Empty));
  }

  lemma OneNode(x: int, y: int)
    requires x <= y
    ensures Valid(Create(x, y, Empty, Empty))
  {
    assert Balanced(Empty) && Ordered(Empty) && Elems(Empty) == {};
    var t := Create(x, y, Empty, Empty);
    assert t.h == 1 && t.cardinal == y - x + 1;
    assert Balanced(t);
  }

  lemma CompareOne(t: Tree, t': Tree)
    requires t.Node? && t'.Node? && t.l.Empty? && t'.l.Empty? && CompareNodes(t, t') != 0
    ensures Compare(t, t') == CompareNodes(t, t')
  {
    assert ConsEnum(t, []) == [t] && ConsEnum(t', []) == [t'];
  }
}
