/**
 * Disjointness of bit slices, and what it gives for writes
 * (asllib/Typing.ml, asllib/ASTUtils.ml, asllib/diet.ml, asllib/bitvector.ml).
 */
module Slices {
  import opened Prelude
  import opened Diet
  import B = Bitvector
  import W = BitvectorSlices

  /** The slices of the abstract syntax, with their expressions already evaluated to integers. */
  datatype Slice =
    | Single(i: int)
    | FromTo(j: int, i: int)
    | Length(offset: int, length: int)
    | Star(factor: int, preLength: int)

  /** The interval that disjoint_slices_to_diet makes of a slice. */
  function Bounds(s: Slice): (int, int) {
    match s
    case Single(x) => (x, x)
    case FromTo(e1, e2) => (e2, e1)
    case Length(x, y) => (x, x + y - 1)
    case Star(x, y) => (x * y, x * (y + 1) - 1)
  }

  /** annotate_slices: every slice becomes an offset and a length. */
  function Annotate(s: Slice): Slice {
    match s
    case Single(i) => Length(i, 1)
    case FromTo(j, i) => Length(i, j - i + 1)
    case Length(_, _) => s
    case Star(factor, preLength) => Length(factor * preLength, preLength)
  }

  /** Annotation keeps the positions of every slice, except a starred one whose two numbers differ. */
  lemma AnnotateKeepsPositions(s: Slice)
    ensures (Bounds(Annotate(s)) == Bounds(s)) <==> !(s.Star? && s.factor != s.preLength)
  {
    if s.Star? {
      assert s.factor * (s.preLength + 1) - 1 == s.factor * s.preLength + s.factor - 1;
    }
  }

  // ---------------------------------------------------------------- disjoint_slices_to_diet

  ghost function Covered(s: Slice): set<int> {
    Range(Bounds(s).0, Bounds(s).1)
  }

  ghost function AllCovered(slices: seq<Slice>): set<int> {
    if slices == [] then {} else AllCovered(slices[..|slices| - 1]) + Covered(slices[|slices| - 1])
  }

  function Width(s: Slice): int {
    Bounds(s).1 - Bounds(s).0 + 1
  }

  function TotalWidth(slices: seq<Slice>): int {
    if slices == [] then 0 else TotalWidth(slices[..|slices| - 1]) + Width(slices[|slices| - 1])
  }

  lemma EmptyValid()
    ensures Valid(Empty) && Elems(Empty) == {}
  {}

  /** One step of the fold; None is the fatal error OverlappingSlices. */
  function OneSlice(diet: Tree, s: Slice): (r: Option<Tree>)
    requires Valid(diet)
    ensures r.Some? ==> Valid(r.value)
  {
    var (x, y) := Bounds(s);
    if x > y then None
    else
      AddSpec(x, y, Empty);
      AddSpec(x, y, diet);
      if Inter(Add(x, y, Empty), diet).Empty? then Some(Add(x, y, diet)) else None
  }

  function ToDiet(slices: seq<Slice>): (r: Option<Tree>)
    ensures r.Some? ==> Valid(r.value)
  {
    if slices == [] then Some(Empty)
    else
      var n := |slices| - 1;
      var diet :- ToDiet(slices[..n]);
      OneSlice(diet, slices[n])
  }

  lemma OneSliceSpec(diet: Tree, s: Slice)
    requires Valid(diet)
    ensures OneSlice(diet, s).Some? <==> Width(s) >= 1 && Covered(s) !! Elems(diet)
    ensures OneSlice(diet, s).Some? ==> Elems(OneSlice(diet, s).value) == Elems(diet) + Covered(s)
  {
    hide Add; hide Inter; hide Valid;
    EmptyValid();
    var (x, y) := Bounds(s);
    if x <= y {
      AddSpec(x, y, Empty);
      AddSpec(x, y, diet);
      var single := Add(x, y, Empty);
      SetOperations(single, diet);
      EmptyIff(Inter(single, diet));
    }
  }

  lemma EmptyIff(t: Tree)
    requires Valid(t)
    ensures t.Empty? <==> Elems(t) == {}
  {
    if t.Node? {
      assert t.x in Range(t.x, t.y);
    }
  }

  /** All slices have at least one position, and no two have one in common. */
  ghost predicate Disjoint(slices: seq<Slice>) {
    && (forall i :: 0 <= i < |slices| ==> Width(slices[i]) >= 1)
    && (forall i, j :: 0 <= i < j < |slices| ==> Covered(slices[i]) !! Covered(slices[j]))
  }

  lemma {:induction false} AllCoveredSpec(slices: seq<Slice>, p: int)
    ensures p in AllCovered(slices) <==> exists i :: 0 <= i < |slices| && p in Covered(slices[i])
  {
    hide Covered;
    if slices != [] {
      var n := |slices| - 1;
      AllCoveredSpec(slices[..n], p);
      if i :| 0 <= i < |slices| && p in Covered(slices[i]) {
        if i < n {
          assert p in Covered(slices[..n][i]);
        }
      }
      if i :| 0 <= i < n && p in Covered(slices[..n][i]) {
        assert p in Covered(slices[i]);
      }
    }
  }

  lemma DisjointStep(slices: seq<Slice>)
    requires slices != []
    ensures var n := |slices| - 1;
            Disjoint(slices) <==>
            Disjoint(slices[..n]) && Width(slices[n]) >= 1 && Covered(slices[n]) !! AllCovered(slices[..n])
  {
    hide Covered; hide Width; hide AllCovered;
    var n := |slices| - 1;
    var init := slices[..n];
    forall p
      ensures p in AllCovered(init) <==> exists i :: 0 <= i < n && p in Covered(init[i])
    {
      AllCoveredSpec(init, p);
    }
    if Disjoint(init) && Width(slices[n]) >= 1 && Covered(slices[n]) !! AllCovered(init) {
      forall i, j | 0 <= i < j < |slices|
        ensures Covered(slices[i]) !! Covered(slices[j])
      {
        if j < n {
          assert Covered(init[i]) !! Covered(init[j]);
        } else {
          forall p | p in Covered(init[i])
            ensures p !in Covered(slices[n])
          {}
        }
      }
      forall i | 0 <= i < |slices|
        ensures Width(slices[i]) >= 1
      {
        assert i < n ==> Width(init[i]) >= 1;
      }
    }
  }

  /**
   * The fold succeeds exactly on disjoint slices; then the tree denotes their positions and its
   * cardinal is the sum of the widths.
   */
  lemma {:induction false} ToDietSpec(slices: seq<Slice>)
    ensures ToDiet(slices).Some? <==> Disjoint(slices)
    ensures ToDiet(slices).Some? ==>
              Elems(ToDiet(slices).value) == AllCovered(slices) && Cardinal(ToDiet(slices).value) == TotalWidth(slices)
  {
    hide Valid; hide Width; hide Covered; hide Elems; hide OneSlice; hide Disjoint;
    if slices == [] {
      EmptyValid();
      NoSlices();
    } else {
      var n := |slices| - 1;
      ToDietSpec(slices[..n]);
      DisjointStep(slices);
      if ToDiet(slices[..n]).Some? {
        var diet := ToDiet(slices[..n]).value;
        OneSliceSpec(diet, slices[n]);
        if ToDiet(slices).Some? {
          StepCardinal(diet, slices[n], ToDiet(slices).value);
        }
      }
    }
  }

  lemma NoSlices()
    ensures Disjoint([]) && Cardinal(Empty) == 0
  {}

  lemma StepCardinal(before: Tree, s: Slice, after: Tree)
    requires Valid(before) && Valid(after) && Width(s) >= 1
    requires Covered(s) !! Elems(before) && Elems(after) == Elems(before) + Covered(s)
    ensures Cardinal(after) == Cardinal(before) + Width(s)
  {
    hide Valid; hide Elems; hide Cardinal;
    CardinalSpec(before);
    CardinalSpec(after);
    RangeSize(Bounds(s).0, Bounds(s).1);
  }

  /** check_disjoint_slices: a single slice is accepted unseen. */
  predicate CheckDisjoint(slices: seq<Slice>) {
    |slices| <= 1 || ToDiet(slices).Some?
  }

  lemma CheckDisjointSpec(slices: seq<Slice>)
    ensures CheckDisjoint(slices) <==> |slices| == 1 || Disjoint(slices)
  {
    ToDietSpec(slices);
    if slices == [] {
      NoSlices();
    }
  }

  // ---------------------------------------------------------------- check_diet_in_width

  function MinElt(t: Tree): (int, int)
    requires t.Node?
  {
    if t.l.Empty? then (t.x, t.y) else MinElt(t.l)
  }

  function MaxElt(t: Tree): (int, int)
    requires t.Node?
  {
    if t.r.Empty? then (t.x, t.y) else MaxElt(t.r)
  }

  lemma {:induction false} MinEltSpec(t: Tree)
    requires Valid(t) && t.Node?
    ensures MinElt(t).0 in Elems(t) && forall e :: e in Elems(t) ==> MinElt(t).0 <= e
  {
    assert t.x in Range(t.x, t.y);
    if t.l.Node? {
      MinEltSpec(t.l);
      ApartAcross(Elems(t.l), t.x, t.y, Elems(t.r));
    }
  }

  lemma {:induction false} MaxEltSpec(t: Tree)
    requires Valid(t) && t.Node?
    ensures MaxElt(t).1 in Elems(t) && forall e :: e in Elems(t) ==> e <= MaxElt(t).1
  {
    assert t.y in Range(t.x, t.y);
    if t.r.Node? {
      MaxEltSpec(t.r);
      ApartAcross(Elems(t.l), t.x, t.y, Elems(t.r));
    }
  }

  /** What check_slices_in_width answers; Escapes is the uncaught Not_found of an empty tree. */
  datatype Verdict = Fits | Overlapping | Bad | Escapes

  function CheckSlicesInWidth(width: int, slices: seq<Slice>): Verdict {
    match ToDiet(slices)
    case None => Overlapping
    case Some(diet) =>
      if diet.Empty? then Escapes
      else if 0 <= MinElt(diet).0 && MaxElt(diet).1 < width then Verdict.Fits else Bad
  }

  lemma CheckSlicesSpec(width: int, slices: seq<Slice>)
    ensures CheckSlicesInWidth(width, slices) == Verdict.Fits <==>
              slices != [] && Disjoint(slices) && forall p :: p in AllCovered(slices) ==> 0 <= p < width
    ensures CheckSlicesInWidth(width, slices) == Overlapping <==> !Disjoint(slices)
    ensures CheckSlicesInWidth(width, slices) == Escapes <==> slices == []
  {
    hide Disjoint; hide Elems; hide ToDiet;
    ToDietSpec(slices);
    if slices == [] {
      NoSlices();
      EmptySlices();
    } else if ToDiet(slices).Some? {
      var diet := ToDiet(slices).value;
      LastCovered(slices);
      EmptyIff(diet);
      if diet.Node? {
        MinEltSpec(diet);
        MaxEltSpec(diet);
      }
    }
  }

  lemma EmptySlices()
    ensures ToDiet([]) == Some(Empty)
  {}

  lemma LastCovered(slices: seq<Slice>)
    requires slices != [] && Disjoint(slices)
    ensures AllCovered(slices) != {}
  {
    var s := slices[|slices| - 1];
    assert Bounds(s).0 in Covered(s);
  }

  // ---------------------------------------------------------------- slices_to_positions

  /** List.init length (fun i -> start + length - 1 - i) */
  function OnePositions(start: int, length: nat): (r: seq<int>)
    ensures |r| == length && forall i :: 0 <= i < length ==> r[i] == start + length - 1 - i
  {
    seq(length, i => start + length - 1 - i)
  }

  /** None is the Invalid_argument of a negative length. */
  function SlicesToPositions(slices: seq<Slice>): Option<seq<int>>
    requires forall s :: s in slices ==> s.Length?
  {
    if slices == [] then Some([])
    else
      var s := slices[|slices| - 1];
      var before :- SlicesToPositions(slices[..|slices| - 1]);
      if s.length < 0 then None else Some(before + OnePositions(s.offset, s.length))
  }

  ghost predicate NoRepeat(positions: seq<int>) {
    forall i, j :: 0 <= i < j < |positions| ==> positions[i] != positions[j]
  }

  /** Positions of disjoint slices: each covered position once, as many as the tree's cardinal. */
  lemma {:induction false} PositionsSpec(slices: seq<Slice>)
    requires (forall s :: s in slices ==> s.Length?) && Disjoint(slices)
    ensures var r := SlicesToPositions(slices);
            && r.Some? && |r.value| == TotalWidth(slices) && NoRepeat(r.value)
            && forall p :: p in r.value <==> p in AllCovered(slices)
  {
    hide Disjoint;
    if slices != [] {
      var n := |slices| - 1;
      var s := slices[n];
      DisjointStep(slices);
      PositionsSpec(slices[..n]);
      AppendPositions(SlicesToPositions(slices[..n]).value, s, AllCovered(slices[..n]));
    }
  }

  lemma AppendPositions(before: seq<int>, s: Slice, covered: set<int>)
    requires s.Length? && s.length >= 1 && NoRepeat(before) && Covered(s) !! covered
    requires forall p :: p in before <==> p in covered
    ensures NoRepeat(before + OnePositions(s.offset, s.length))
    ensures forall p :: p in before + OnePositions(s.offset, s.length) <==> p in covered + Covered(s)
  {
    var one := OnePositions(s.offset, s.length);
    forall p
      ensures p in one <==> p in Covered(s)
    {
      if p in Covered(s) {
        assert one[s.offset + s.length - 1 - p] == p;
      }
    }
    var all := before + one;
    forall i, j | 0 <= i < j < |all|
      ensures all[i] != all[j]
    {
      if i < |before| <= j {
        assert before[i] in before && one[j - |before|] in one;
      }
    }
  }

  /**
   * Annotated slices that pass the width check can be written: reading them back gives the source,
   * and no other bit changes.
   */
  lemma AcceptedSlicesWrite(slices: seq<Slice>, dst: B.Bv, src: B.Bv, positions: seq<nat>, beyond: nat -> bool,
                            w: B.Bv, x: B.Bv)
    requires forall s :: s in slices ==> s.Length?
    requires CheckSlicesInWidth(dst.length, slices) == Verdict.Fits
    requires SlicesToPositions(slices).Some? && SlicesToPositions(slices).value == positions
    requires B.Valid(dst) && B.Valid(src) && src.length == TotalWidth(slices)
    requires W.IsWritten(dst, src, positions, beyond, w)
    requires W.IsExtract(w, positions, x)
    ensures x == src
    ensures forall p: nat :: p < dst.length && p !in AllCovered(slices) ==> B.DataBit(w.data, p) == B.DataBit(dst.data, p)
  {
    hide B.DataBit; hide B.Valid; hide W.IsWritten; hide W.IsExtract; hide W.Distinct;
    AcceptedPositions(dst.length, slices, positions);
    W.WriteThenExtract(dst, src, positions, beyond, w, x);
  }

  /** The positions of accepted slices are distinct, in the vector, and those covered. */
  lemma AcceptedPositions(width: nat, slices: seq<Slice>, positions: seq<nat>)
    requires forall s :: s in slices ==> s.Length?
    requires CheckSlicesInWidth(width, slices) == Verdict.Fits
    requires SlicesToPositions(slices).Some? && SlicesToPositions(slices).value == positions
    ensures W.Distinct(positions) && |positions| == TotalWidth(slices)
    ensures forall i :: 0 <= i < |positions| ==> positions[i] < width
    ensures forall p: nat :: p in positions <==> p in AllCovered(slices)
  {
    hide Disjoint; hide AllCovered; hide CheckSlicesInWidth; hide SlicesToPositions; hide TotalWidth; hide NoRepeat;
    CheckSlicesSpec(width, slices);
    assert forall p :: p in AllCovered(slices) ==> 0 <= p < width;
    PositionsSpec(slices);
    NaturalPositions(width, SlicesToPositions(slices).value, positions, AllCovered(slices));
  }

  lemma NaturalPositions(width: nat, all: seq<int>, positions: seq<nat>, covered: set<int>)
    requires all == positions && NoRepeat(all)
    requires forall p :: p in all <==> p in covered
    requires forall p :: p in covered ==> 0 <= p < width
    ensures W.Distinct(positions)
    ensures forall i :: 0 <= i < |positions| ==> positions[i] < width
    ensures forall p: nat :: p in positions <==> p in covered
  {
    forall i | 0 <= i < |positions|
      ensures positions[i] < width
    {
      var p: int := positions[i];
      assert all[i] == p && p in all;
    }
    forall p: nat
      ensures p in positions <==> p in covered
    {
      var q: int := p;
      assert q in all <==> q in covered;
    }
  }

  // ---------------------------------------------------------------- reading slices

  predicate AllLengths(slices: seq<Slice>) {
    forall s :: s in slices ==> s.Length?
  }

  /** The positions exist exactly when no length is negative. */
  lemma {:induction false} PositionsFail(slices: seq<Slice>)
    requires AllLengths(slices)
    ensures SlicesToPositions(slices).Some? <==> forall s :: s in slices ==> s.length >= 0
  {
    if slices != [] {
      var n := |slices| - 1;
      assert forall s :: s in slices <==> s in slices[..n] || s == slices[n];
      PositionsFail(slices[..n]);
    }
  }

  /** The positions of earlier slices come before those of later ones. */
  lemma {:induction false} PositionsConcat(a: seq<Slice>, b: seq<Slice>)
    requires AllLengths(a) && AllLengths(b) && SlicesToPositions(a).Some? && SlicesToPositions(b).Some?
    ensures SlicesToPositions(a + b) == Some(SlicesToPositions(a).value + SlicesToPositions(b).value)
  {
    if b == [] {
      assert a + b == a;
      assert SlicesToPositions(a).value + [] == SlicesToPositions(a).value;
    } else {
      var n := |b| - 1;
      var s := b[n];
      assert (a + b)[..|a + b| - 1] == a + b[..n];
      PositionsConcat(a, b[..n]);
      var pa, pb, one := SlicesToPositions(a).value, SlicesToPositions(b[..n]).value, OnePositions(s.offset, s.length);
      assert (pa + pb) + one == pa + (pb + one);
    }
  }

  /** x is what is read from bv at the slices. */
  ghost predicate IsRead(bv: B.Bv, slices: seq<Slice>, x: B.Bv)
    requires AllLengths(slices)
  {
    exists positions: seq<nat> :: SlicesToPositions(slices) == Some(positions) && W.IsExtract(bv, positions, x)
  }

  lemma PositionsOfOne(offset: int, length: int)
    ensures SlicesToPositions([Length(offset, length)]) == if length < 0 then None else Some(OnePositions(offset, length))
  {
    var slices := [Length(offset, length)];
    assert slices[..0] == [] && SlicesToPositions([]) == Some([]);
    assert length >= 0 ==> [] + OnePositions(offset, length) == OnePositions(offset, length);
  }

  /** Reading one slice gives the bits from its offset on. */
  lemma ReadOne(bv: B.Bv, offset: nat, length: int, x: B.Bv)
    requires IsRead(bv, [Length(offset, length)], x)
    ensures x.length == length && forall j: nat :: j < x.length ==> B.DataBit(x.data, j) == B.DataBit(bv.data, offset + j)
  {
    hide B.DataBit; hide SlicesToPositions; hide B.Valid;
    var slices := [Length(offset, length)];
    var positions: seq<nat> :| SlicesToPositions(slices) == Some(positions) && W.IsExtract(bv, positions, x);
    PositionsOfOne(offset, length);
    forall j: nat | j < x.length
      ensures B.DataBit(x.data, j) == B.DataBit(bv.data, offset + j)
    {
      var i := |positions| - 1 - j;
      assert positions[i] == offset + j;
      assert B.DataBit(x.data, |positions| - 1 - i) == B.DataBit(bv.data, positions[i]);
    }
  }

  /** Reading several slices concatenates what each gives, the first one most significant. */
  lemma ReadConcat(bv: B.Bv, a: seq<Slice>, b: seq<Slice>, x: B.Bv, y: B.Bv, z: B.Bv)
    requires AllLengths(a) && AllLengths(b) && IsRead(bv, a, x) && IsRead(bv, b, y)
    requires IsRead(bv, a + b, z)
    ensures z.length == x.length + y.length
    ensures forall j: nat :: j < z.length ==>
              B.DataBit(z.data, j) == if j < y.length then B.DataBit(y.data, j) else B.DataBit(x.data, j - y.length)
  {
    hide B.DataBit; hide SlicesToPositions;
    var pa: seq<nat> :| SlicesToPositions(a) == Some(pa) && W.IsExtract(bv, pa, x);
    var pb: seq<nat> :| SlicesToPositions(b) == Some(pb) && W.IsExtract(bv, pb, y);
    var pc: seq<nat> :| SlicesToPositions(a + b) == Some(pc) && W.IsExtract(bv, pc, z);
    PositionsConcat(a, b);
    assert pc == pa + pb;
    forall j: nat | j < z.length
      ensures B.DataBit(z.data, j) == if j < y.length then B.DataBit(y.data, j) else B.DataBit(x.data, j - y.length)
    {
      var i := |pc| - 1 - j;
      assert B.DataBit(z.data, |pc| - 1 - i) == B.DataBit(bv.data, pc[i]);
      if j < y.length {
        var k := |pb| - 1 - j;
        assert pc[i] == pb[k];
        assert B.DataBit(y.data, |pb| - 1 - k) == B.DataBit(bv.data, pb[k]);
      } else {
        var k := |pa| - 1 - (j - y.length);
        assert pc[i] == pa[k];
        assert B.DataBit(x.data, |pa| - 1 - k) == B.DataBit(bv.data, pa[k]);
      }
    }
  }
}
