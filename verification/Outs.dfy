/** The linked cells that count outcomes, changed in place (litmus/libdir/_outs.c). */
module Outs {
  import T = OutsTree

  class OutCell {
    var k: int
    var c: nat
    var show: bool
    var next: OutCell?
    var down: OutCell?

    /** alloc_outs */
    constructor (k: int)
      ensures this.k == k && c == 0 && !show && next == null && down == null
    {
      this.k := k;
      c := 0;
      show := false;
      next := null;
      down := null;
    }
  }

  // ---------------------------------------------------------------- which cells make up a tree

  /** The cells of a tree in their places. */
  datatype Shape = Leaf | At(cell: OutCell, next: Shape, down: Shape)

  function Root(s: Shape): OutCell? {
    if s.Leaf? then null else s.cell
  }

  ghost function Foot(s: Shape): set<OutCell> {
    if s.Leaf? then {} else {s.cell} + Foot(s.next) + Foot(s.down)
  }

  ghost function Size(s: Shape): nat {
    if s.Leaf? then 0 else 1 + Size(s.next) + Size(s.down)
  }

  /** The pointers of the cells are as the shape says, and no cell occurs twice. */
  ghost predicate Linked(s: Shape)
    reads Foot(s)
  {
    s.Leaf? ||
    (&& s.cell.next == Root(s.next) && s.cell.down == Root(s.down)
     && s.cell !in Foot(s.next) && s.cell !in Foot(s.down) && Foot(s.next) !! Foot(s.down)
     && Linked(s.next) && Linked(s.down))
  }

  ghost function Value(s: Shape): T.Outs
    reads Foot(s)
  {
    if s.Leaf? then T.Nil else T.Cell(s.cell.k, s.cell.c, s.cell.show, Value(s.next), Value(s.down))
  }

  lemma {:induction false} FootAllocated(s: Shape)
    ensures forall o :: o in Foot(s) ==> allocated(o)
  {
    if s.At? {
      FootAllocated(s.next);
      FootAllocated(s.down);
    }
  }

  /** A linked tree, one level down. */
  lemma Parts(s: Shape)
    requires s.At? && Linked(s)
    ensures s.cell.next == Root(s.next) && s.cell.down == Root(s.down) && Linked(s.next) && Linked(s.down)
    ensures Foot(s) == {s.cell} + Foot(s.next) + Foot(s.down)
    ensures s.cell !in Foot(s.next) && s.cell !in Foot(s.down) && Foot(s.next) !! Foot(s.down)
    ensures Size(s.next) < Size(s) && Size(s.down) < Size(s)
    ensures Value(s) == T.Cell(s.cell.k, s.cell.c, s.cell.show, Value(s.next), Value(s.down))
  {}

  /** The converse: a cell whose pointers lead to two separate linked trees. */
  lemma Build(s: Shape)
    requires s.At? && s.cell.next == Root(s.next) && s.cell.down == Root(s.down) && Linked(s.next) && Linked(s.down)
    requires s.cell !in Foot(s.next) && s.cell !in Foot(s.down) && Foot(s.next) !! Foot(s.down)
    ensures Linked(s) && Foot(s) == {s.cell} + Foot(s.next) + Foot(s.down)
    ensures Value(s) == T.Cell(s.cell.k, s.cell.c, s.cell.show, Value(s.next), Value(s.down))
    ensures Size(s) == 1 + Size(s.next) + Size(s.down)
  {}

  lemma NoParts()
    ensures Foot(Leaf) == {} && Linked(Leaf) && Value(Leaf) == T.Nil
  {}

  // ---------------------------------------------------------------- sum_outs, finals_outs, same_outs

  method SumOuts(p: OutCell?, ghost s: Shape) returns (r: nat)
    requires p == Root(s) && Linked(s)
    ensures r == T.Sum(Value(s))
    decreases Size(s)
  {
    hide Linked; hide Value; hide Size; hide Foot;
    NoParts();
    FootAllocated(s);
    r := 0;
    ghost var total := T.Sum(Value(s));
    var p, cur := p, s;
    while p != null
      invariant p == Root(cur) && Linked(cur) && Size(cur) <= Size(s)
      invariant r + T.Sum(Value(cur)) == total
      decreases Size(cur)
    {
      Parts(cur);
      FootAllocated(cur);
      r := r + p.c;
      var below := SumOuts(p.down, cur.down);
      r := r + below;
      p, cur := p.next, cur.next;
    }
  }

  method FinalsOuts(p: OutCell?, ghost s: Shape) returns (r: nat)
    requires p == Root(s) && Linked(s)
    ensures r == T.Finals(Value(s))
    decreases Size(s)
  {
    hide Linked; hide Value; hide Size; hide Foot; hide T.Finals;
    NoParts();
    FootAllocated(s);
    r := 0;
    ghost var total := T.Finals(Value(s));
    T.FinalsCell(T.Nil);
    var p, cur := p, s;
    while p != null
      invariant p == Root(cur) && Linked(cur) && Size(cur) <= Size(s)
      invariant r + T.Finals(Value(cur)) == total
      decreases Size(cur)
    {
      Parts(cur);
      FootAllocated(cur);
      T.FinalsCell(Value(cur));
      if p.c > 0 {
        r := r + 1;
      }
      var below := FinalsOuts(p.down, cur.down);
      r := r + below;
      p, cur := p.next, cur.next;
    }
  }

  method SameOuts(p: OutCell?, q: OutCell?, ghost sp: Shape, ghost sq: Shape) returns (same: bool)
    requires p == Root(sp) && q == Root(sq) && Linked(sp) && Linked(sq)
    ensures same <==> T.Same(Value(sp), Value(sq))
    decreases Size(sp)
  {
    hide Linked; hide Value; hide Size; hide Foot;
    NoParts();
    FootAllocated(sp);
    FootAllocated(sq);
    ghost var same0 := T.Same(Value(sp), Value(sq));
    var p, q := p, q;
    ghost var cp, cq := sp, sq;
    while p != null && q != null
      invariant p == Root(cp) && q == Root(cq) && Linked(cp) && Linked(cq) && Size(cp) <= Size(sp)
      invariant same0 <==> T.Same(Value(cp), Value(cq))
      decreases Size(cp)
    {
      Parts(cp);
      Parts(cq);
      FootAllocated(cp);
      FootAllocated(cq);
      if p.k != q.k || p.c != q.c || p.show != q.show {
        return false;
      }
      var below := SameOuts(p.down, q.down, cp.down, cq.down);
      if !below {
        return false;
      }
      p, q := p.next, q.next;
      cp, cq := cp.next, cq.next;
    }
    if cp.At? {
      Parts(cp);
    }
    if cq.At? {
      Parts(cq);
    }
    return p == q;
  }

  // ---------------------------------------------------------------- merge_outs

  method DoMergeOuts(p: OutCell?, q: OutCell?, ghost sp: Shape, ghost sq: Shape) returns (r: OutCell?, ghost sr: Shape)
    requires p == Root(sp) && q == Root(sq) && Linked(sp) && Linked(sq) && Foot(sp) !! Foot(sq)
    modifies Foot(sp)
    ensures r == Root(sr) && Linked(sr) && fresh(Foot(sr) - Foot(sp))
    ensures Value(sr) == T.Merge(old(Value(sp)), old(Value(sq)))
    decreases Size(sq), 2 * Size(sp) + 2
  {
    hide Linked; hide Value; hide Size; hide Foot; hide T.Merge;
    NoParts();
    ghost var vp, vq := Value(sp), Value(sq);
    if q == null {
      MergeNil(vp);
      return p, sp;
    }
    Parts(sq);
    if sp.At? {
      Parts(sp);
    }
    FootAllocated(sp);
    FootAllocated(sq);
    r, sr := p, sp;
    if p == null || q.k < p.k {
      r := new OutCell(q.k);
      r.next := p;
      sr := At(r, sp, Leaf);
    }
    if r.k == q.k {
      Build(sr);
      ghost var before := sr;
      sr := MergeCell(r, q, sr, sq);
      FootAllocated(sr);
      forall o | o in Foot(sr) && o !in Foot(sp)
        ensures fresh(o)
      {
        assert o == r || o in Foot(sr) - Foot(before);
      }
    } else {
      sr := MergeNext(r, q, sr, sq);
    }
    MergeStep(vp, vq);
  }

  /** The branch of do_merge_outs for two cells with the same number: counts and descendants. */
  method MergeDown(p: OutCell, q: OutCell, ghost sp: Shape, ghost sq: Shape) returns (ghost sr: Shape)
    requires p == Root(sp) && q == Root(sq) && Linked(sp) && Linked(sq) && Foot(sp) !! Foot(sq)
    modifies Foot(sp)
    ensures p == Root(sr) && sr.next == sp.next && Linked(sr) && fresh(Foot(sr) - Foot(sp)) && p.k == old(p.k)
    ensures Value(sr) == old(T.Cell(p.k, p.c + q.c, p.show || q.show, Value(sp.next), T.Merge(Value(sp.down), Value(sq.down))))
    decreases Size(sq), 0
  {
    hide Linked; hide Value; hide Size; hide Foot; hide T.Merge;
    Parts(sp);
    Parts(sq);
    FootAllocated(sp);
    ghost var vn := Value(sp.next);
    p.c := p.c + q.c;
    p.show := p.show || q.show;
    var d, sd := DoMergeOuts(p.down, q.down, sp.down, sq.down);
    assert Linked(sp.next) && Value(sp.next) == vn;
    p.down := d;
    sr := At(p, sp.next, sd);
    Build(sr);
    FootAllocated(sr);
    forall o | o in Foot(sr) && o !in Foot(sp)
      ensures fresh(o)
    {
      assert o in Foot(sd) - Foot(sp.down);
    }
  }

  /** The same branch, with the rest of the two lists. */
  method MergeCell(p: OutCell, q: OutCell, ghost sp: Shape, ghost sq: Shape) returns (ghost sr: Shape)
    requires p == Root(sp) && q == Root(sq) && Linked(sp) && Linked(sq) && Foot(sp) !! Foot(sq)
    modifies Foot(sp)
    ensures p == Root(sr) && Linked(sr) && fresh(Foot(sr) - Foot(sp))
    ensures Value(sr) == old(T.Cell(p.k, p.c + q.c, p.show || q.show,
              T.Merge(Value(sp.next), Value(sq.next)), T.Merge(Value(sp.down), Value(sq.down))))
    decreases Size(sq), 1
  {
    hide Linked; hide Value; hide Size; hide Foot; hide T.Merge;
    FootAllocated(sq);
    Parts(sq);
    ghost var vqn := Value(sq.next);
    ghost var half := MergeDown(p, q, sp, sq);
    assert Linked(sq.next) && Value(sq.next) == vqn;
    Parts(half);
    sr := MergeNext(p, q.next, half, sq.next);
    FootAllocated(sr);
    forall o | o in Foot(sr) && o !in Foot(sp)
      ensures fresh(o)
    {
      assert o in Foot(sr) - Foot(half) || o in Foot(half) - Foot(sp);
    }
  }
  /** p->next = do_merge_outs(p->next,q) */
  method MergeNext(p: OutCell, q: OutCell?, ghost sp: Shape, ghost sq: Shape) returns (ghost sr: Shape)
    requires p == Root(sp) && q == Root(sq) && Linked(sp) && Linked(sq) && Foot(sp) !! Foot(sq)
    modifies Foot(sp)
    ensures p == Root(sr) && Linked(sr) && fresh(Foot(sr) - Foot(sp))
    ensures Value(sr) == old(T.Cell(p.k, p.c, p.show, T.Merge(Value(sp.next), Value(sq)), Value(sp.down)))
    decreases Size(sq), 2 * Size(sp) + 1
  {
    hide Linked; hide Value; hide Size; hide Foot; hide T.Merge;
    Parts(sp);
    FootAllocated(sp);
    ghost var vd := Value(sp.down);
    var n, sn := DoMergeOuts(p.next, q, sp.next, sq);
    assert Linked(sp.down) && Value(sp.down) == vd;
    p.next := n;
    sr := At(p, sn, sp.down);
    Build(sr);
    FootAllocated(sr);
    forall o | o in Foot(sr) && o !in Foot(sp)
      ensures fresh(o)
    {
      assert o in Foot(sn) - Foot(sp.next);
    }
  }

  /** Merges q into p; q is not changed and the result shares no cell with it. */
  method MergeOuts(p: OutCell?, q: OutCell?, ghost sp: Shape, ghost sq: Shape) returns (r: OutCell?, ghost sr: Shape)
    requires p == Root(sp) && q == Root(sq) && Linked(sp) && Linked(sq) && Foot(sp) !! Foot(sq)
    modifies Foot(sp)
    ensures r == Root(sr) && Linked(sr) && fresh(Foot(sr) - Foot(sp)) && Foot(sr) !! Foot(sq)
    ensures Value(sr) == T.Merge(old(Value(sp)), old(Value(sq)))
    ensures Linked(sq) && Value(sq) == old(Value(sq))
  {
    hide Linked; hide Value; hide Foot; hide T.Merge;
    FootAllocated(sq);
    r, sr := DoMergeOuts(p, q, sp, sq);
  }

  lemma MergeNil(p: T.Outs)
    ensures T.Merge(p, T.Nil) == p
  {}

  lemma MergeStep(p: T.Outs, q: T.Outs)
    requires q.Cell?
    ensures T.Merge(p, q) ==
      if p.Nil? || q.k < p.k then T.Cell(q.k, q.c, q.show, T.Merge(p, q.next), T.Merge(T.Nil, q.down))
      else if p.k == q.k then T.Cell(p.k, p.c + q.c, p.show || q.show, T.Merge(p.next, q.next), T.Merge(p.down, q.down))
      else T.Cell(p.k, p.c, p.show, T.Merge(p.next, q), p.down)
  {}

  // ---------------------------------------------------------------- add_outcome_outs

  /** The way from a position in a tree back to its root. */
  datatype Path = Top | NextOf(cell: OutCell, down: Shape, up: Path) | DownOf(cell: OutCell, next: Shape, up: Path)

  function Plug(path: Path, s: Shape): Shape {
    match path
    case Top => s
    case NextOf(cell, down, up) => Plug(up, At(cell, s, down))
    case DownOf(cell, next, up) => Plug(up, At(cell, next, s))
  }

  /** The first cell of the whole tree when `hole` is the first cell at the position. */
  function First(path: Path, hole: OutCell?): OutCell? {
    if path.Top? then hole else First(path.up, path.cell)
  }

  ghost function Side(path: Path): Shape
    requires !path.Top?
  {
    if path.NextOf? then path.down else path.next
  }

  ghost function PathFoot(path: Path): set<OutCell> {
    if path.Top? then {} else {path.cell} + Foot(Side(path)) + PathFoot(path.up)
  }

  ghost predicate PathLinked(path: Path, hole: OutCell?)
    reads PathFoot(path)
  {
    path.Top? ||
    (&& path.cell.next == (if path.NextOf? then hole else Root(path.next))
     && path.cell.down == (if path.NextOf? then Root(path.down) else hole)
     && Linked(Side(path)) && PathLinked(path.up, path.cell)
     && path.cell !in Foot(Side(path)) && path.cell !in PathFoot(path.up) && Foot(Side(path)) !! PathFoot(path.up))
  }

  ghost function PathValue(path: Path): T.Hole
    reads PathFoot(path)
  {
    match path
    case Top => T.Here
    case NextOf(cell, down, up) => T.InNext(cell.k, cell.c, cell.show, Value(down), PathValue(up))
    case DownOf(cell, next, up) => T.InDown(cell.k, cell.c, cell.show, Value(next), PathValue(up))
  }

  lemma {:induction false} PathAllocated(path: Path)
    ensures forall o :: o in PathFoot(path) ==> allocated(o)
  {
    if !path.Top? {
      FootAllocated(Side(path));
      PathAllocated(path.up);
    }
  }

  /** A linked tree in a linked context is a linked tree. */
  lemma {:induction false} PlugSpec(path: Path, s: Shape)
    requires Linked(s) && PathLinked(path, Root(s)) && Foot(s) !! PathFoot(path)
    ensures var w := Plug(path, s);
            && Linked(w) && Root(w) == First(path, Root(s)) && Foot(w) == Foot(s) + PathFoot(path)
            && Value(w) == T.Fill(PathValue(path), Value(s))
    decreases path
  {
    hide Linked; hide Value; hide Foot;
    if !path.Top? {
      var w := if path.NextOf? then At(path.cell, s, path.down) else At(path.cell, path.next, s);
      Build(w);
      PlugSpec(path.up, w);
    }
  }

  lemma EnterNext(path: Path, s: Shape)
    requires s.At? && Linked(s) && PathLinked(path, s.cell) && Foot(s) !! PathFoot(path)
    ensures var path' := NextOf(s.cell, s.down, path);
            && Linked(s.next) && PathLinked(path', Root(s.next)) && Foot(s.next) !! PathFoot(path')
            && Foot(s.next) + PathFoot(path') == Foot(s) + PathFoot(path) && s.cell.next == Root(s.next)
            && First(path', Root(s.next)) == First(path, s.cell)
            && PathValue(path') == T.InNext(s.cell.k, s.cell.c, s.cell.show, Value(s.down), PathValue(path))
  {
    hide Linked; hide Value; hide Foot;
    Parts(s);
  }

  lemma EnterDown(path: Path, s: Shape)
    requires s.At? && Linked(s) && PathLinked(path, s.cell) && Foot(s) !! PathFoot(path)
    ensures var path' := DownOf(s.cell, s.next, path);
            && Linked(s.down) && PathLinked(path', Root(s.down)) && Foot(s.down) !! PathFoot(path')
            && Foot(s.down) + PathFoot(path') == Foot(s) + PathFoot(path) && s.cell.down == Root(s.down)
            && First(path', Root(s.down)) == First(path, s.cell)
            && PathValue(path') == T.InDown(s.cell.k, s.cell.c, s.cell.show, Value(s.next), PathValue(path))
  {
    hide Linked; hide Value; hide Foot;
    Parts(s);
  }

  /** The address of a pointer field: q = &(p->next) or q = &(p->down). */
  datatype FieldOf = NextField(cell: OutCell) | DownField(cell: OutCell)

  predicate PointsInto(q: FieldOf, path: Path) {
    !path.Top? && q == if path.NextOf? then NextField(path.cell) else DownField(path.cell)
  }

  /** Allocates a cell in front of p and stores it where q points. */
  method InsertAt(q: FieldOf, p: OutCell?, k: int, ghost path: Path, ghost s: Shape) returns (a: OutCell)
    requires PointsInto(q, path) && p == Root(s) && Linked(s) && PathLinked(path, p) && Foot(s) !! PathFoot(path)
    modifies q.cell
    ensures fresh(a) && PathLinked(path, a) && Linked(At(a, s, Leaf)) && Foot(At(a, s, Leaf)) == Foot(s) + {a}
    ensures Value(At(a, s, Leaf)) == T.Cell(k, 0, false, old(Value(s)), T.Nil) && a.k == k
    ensures PathValue(path) == old(PathValue(path))
  {
    hide Linked; hide Value; hide Foot;
    FootAllocated(s);
    PathAllocated(path);
    NoParts();
    a := new OutCell(k);
    a.next := p;
    match q {
      case NextField(cell) => cell.next := a;
      case DownField(cell) => cell.down := a;
    }
    Build(At(a, s, Leaf));
  }

  /** The tree s at the end of path, in a linked tree that starts at r. */
  ghost predicate Standing(path: Path, s: Shape, r: OutCell?)
    reads Foot(s), PathFoot(path)
  {
    Linked(s) && PathLinked(path, Root(s)) && Foot(s) !! PathFoot(path) && First(path, Root(s)) == r
  }

  ghost function Whole(path: Path, s: Shape): set<OutCell> {
    Foot(s) + PathFoot(path)
  }

  /** What remains to be added below s gives `target` for the whole tree. */
  ghost predicate Remains(path: Path, s: Shape, key: seq<int>, i: nat, c: nat, show: bool, target: T.Outs)
    requires i < |key|
    reads Foot(s), PathFoot(path)
  {
    T.Fill(PathValue(path), T.Add(Value(s), key, i, c, show)) == target
  }

  lemma StepNext(path: Path, s: Shape, r: OutCell?, key: seq<int>, i: nat, c: nat, show: bool, target: T.Outs)
    requires i < |key| && s.At? && key[i] > s.cell.k
    requires Standing(path, s, r) && Remains(path, s, key, i, c, show, target)
    ensures var path' := NextOf(s.cell, s.down, path);
            && Standing(path', s.next, r) && Remains(path', s.next, key, i, c, show, target)
            && Whole(path', s.next) == Whole(path, s) && s.cell.next == Root(s.next) && Size(s.next) < Size(s)
  {
    hide Linked; hide Value; hide Foot; hide PathLinked; hide PathFoot; hide PathValue; hide T.Add; hide First;
    EnterNext(path, s);
    Parts(s);
    T.AddStep(Value(s), key, i, c, show);
  }

  lemma StepDown(path: Path, s: Shape, r: OutCell?, key: seq<int>, i: nat, c: nat, show: bool, target: T.Outs)
    requires 0 < i < |key| && s.At? && key[i] == s.cell.k
    requires Standing(path, s, r) && Remains(path, s, key, i, c, show, target)
    ensures var path' := DownOf(s.cell, s.next, path);
            && Standing(path', s.down, r) && Remains(path', s.down, key, i - 1, c, show, target)
            && Whole(path', s.down) == Whole(path, s) && s.cell.down == Root(s.down)
  {
    hide Linked; hide Value; hide Foot; hide PathLinked; hide PathFoot; hide PathValue; hide T.Add; hide First;
    EnterDown(path, s);
    Parts(s);
    T.AddStep(Value(s), key, i, c, show);
  }

  /** The end of the loop: the count at the cell itself. */
  method AddHere(p: OutCell, c: nat, show: bool, key: seq<int>, ghost path: Path, ghost s: Shape, ghost r: OutCell?,
                 ghost target: T.Outs)
    requires p == Root(s) && |key| > 0 && key[0] == p.k
    requires Standing(path, s, r) && Remains(path, s, key, 0, c, show, target)
    modifies p
    ensures var w := Plug(path, s); r == Root(w) && Linked(w) && Foot(w) == Whole(path, s) && Value(w) == target
  {
    hide Linked; hide Value; hide Foot; hide PathLinked; hide PathFoot; hide PathValue; hide T.Add; hide First; hide Plug;
    Parts(s);
    T.AddStep(Value(s), key, 0, c, show);
    FootAllocated(s);
    PathAllocated(path);
    ghost var vn, vd := Value(s.next), Value(s.down);
    p.c := p.c + c;
    p.show := show || p.show;
    assert Linked(s.next) && Linked(s.down) && Value(s.next) == vn && Value(s.down) == vd;
    Build(s);
    PlugSpec(path, s);
  }

  /** Inserts where the number is missing below the cell just left. */
  method InsertIfMissing(q: FieldOf, p: OutCell?, key: seq<int>, i: nat, ghost path: Path, ghost s: Shape, ghost r: OutCell?,
                         ghost c: nat, ghost show: bool, ghost target: T.Outs)
    returns (p': OutCell, ghost s': Shape)
    requires PointsInto(q, path) && p == Root(s) && i < |key|
    requires Standing(path, s, r) && Remains(path, s, key, i, c, show, target)
    modifies q.cell
    ensures p' == Root(s') && p'.k <= key[i] && Standing(path, s', r) && Remains(path, s', key, i, c, show, target)
    ensures s' == s || p'.k == key[i]
    ensures forall o :: o in Whole(path, s') ==> o in Whole(path, s) || fresh(o)
  {
    hide Linked; hide Value; hide Foot; hide PathLinked; hide PathFoot; hide PathValue; hide T.Add;
    if p == null || key[i] < p.k {
      NoParts();
      if s.At? {
        Parts(s);
      }
      T.AddGap(Value(s), key, i, c, show);
      FootAllocated(s);
      PathAllocated(path);
      p' := InsertAt(q, p, key[i], path, s);
      s' := At(p', s, Leaf);
    } else {
      p', s' := p, s;
    }
  }

  lemma RootInside(path: Path, s: Shape)
    requires s.At? && Linked(s)
    ensures s.cell in Whole(path, s)
  {
    Parts(s);
  }

  /** The start of the loop: the first cell, or a new one before it. */
  method StartOuts(p: OutCell?, key: seq<int>, i: nat, ghost s: Shape, ghost c: nat, ghost show: bool)
    returns (r: OutCell, ghost cur: Shape)
    requires i < |key| && p == Root(s) && Linked(s)
    ensures r == Root(cur) && r.k <= key[i] && Standing(Top, cur, r)
    ensures Remains(Top, cur, key, i, c, show, T.Add(old(Value(s)), key, i, c, show))
    ensures forall o :: o in Whole(Top, cur) ==> o in Foot(s) || fresh(o)
  {
    hide Linked; hide Value; hide Foot; hide PathLinked; hide PathFoot; hide PathValue; hide T.Add; hide First;
    if s.At? {
      Parts(s);
    }
    if p == null || key[i] < p.k {
      NoParts();
      FootAllocated(s);
      T.AddGap(Value(s), key, i, c, show);
      r := new OutCell(key[i]);
      r.next := p;
      cur := At(r, s, Leaf);
      Build(cur);
    } else {
      r, cur := p, s;
    }
    StartAtTop(cur);
  }

  method LoopAddOutcomeOuts(p: OutCell?, key: seq<int>, i: nat, c: nat, show: bool, ghost s: Shape)
    returns (r: OutCell, ghost sr: Shape)
    requires i < |key| && p == Root(s) && Linked(s)
    modifies Foot(s)
    ensures r == Root(sr) && Linked(sr) && fresh(Foot(sr) - Foot(s))
    ensures Value(sr) == T.Add(old(Value(s)), key, i, c, show)
  {
    hide Linked; hide Value; hide Foot; hide T.Add; hide Plug; hide Whole; hide Remains;
    hide PathLinked; hide PathFoot; hide PathValue; hide First;
    ghost var target := T.Add(Value(s), key, i, c, show);
    ghost var path, cur := Top, s;
    var i: nat := i;
    r, cur := StartOuts(p, key, i, s, c, show);
    var p := r;
    while true
      invariant i < |key| && p == Root(cur) && p != null && p.k <= key[i]
      invariant Standing(path, cur, r) && Remains(path, cur, key, i, c, show, target)
      invariant forall o :: o in Whole(path, cur) ==> o in Foot(s) || fresh(o)
      decreases i, if key[i] > p.k then 1 + Size(cur) else 0
    {
      RootInside(path, cur);
      var q;
      if key[i] > p.k {
        StepNext(path, cur, r, key, i, c, show, target);
        q := NextField(p);
        path, cur := NextOf(p, cur.down, path), cur.next;
        p := p.next;
      } else if i == 0 {
        AddHere(p, c, show, key, path, cur, r, target);
        sr := Plug(path, cur);
        return;
      } else {
        StepDown(path, cur, r, key, i, c, show, target);
        i := i - 1;
        q := DownField(p);
        path, cur := DownOf(p, cur.next, path), cur.down;
        p := p.down;
      }
      p, cur := InsertIfMissing(q, p, key, i, path, cur, r, c, show, target);
    }
  }

  lemma StartAtTop(s: Shape)
    requires Linked(s)
    ensures Standing(Top, s, Root(s)) && Whole(Top, s) == Foot(s) && PathValue(Top) == T.Here
  {}

  /** The key tuple has at least one number; its last one is the outermost level. */
  method AddOutcomeOuts(p: OutCell?, key: seq<int>, c: nat, show: bool, ghost s: Shape) returns (r: OutCell, ghost sr: Shape)
    requires |key| > 0 && p == Root(s) && Linked(s)
    modifies Foot(s)
    ensures r == Root(sr) && Linked(sr) && fresh(Foot(sr) - Foot(s))
    ensures Value(sr) == T.Add(old(Value(s)), key, |key| - 1, c, show)
  {
    hide Linked; hide Value; hide Foot; hide T.Add;
    r, sr := LoopAddOutcomeOuts(p, key, |key| - 1, c, show, s);
  }
}
