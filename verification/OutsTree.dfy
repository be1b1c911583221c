/** Values of the lexicographic trees that count outcomes (litmus/libdir/_outs.c). */
module OutsTree {
  /** A list of siblings, each with its own list of descendants. */
  datatype Outs = Nil | Cell(k: int, c: nat, show: bool, next: Outs, down: Outs)

  // ---------------------------------------------------------------- meaning: a map from key tuples to counts

  /** The count of the tuple key[0..i]; the number of level i is the outermost one. */
  function Count(t: Outs, key: seq<int>, i: nat): nat
    requires i < |key|
    decreases t
  {
    if t.Nil? then 0
    else (if t.k != key[i] then 0 else if i == 0 then t.c else Count(t.down, key, i - 1)) + Count(t.next, key, i)
  }

  function Shown(t: Outs, key: seq<int>, i: nat): bool
    requires i < |key|
    decreases t
  {
    t.Cell? && ((t.k == key[i] && if i == 0 then t.show else Shown(t.down, key, i - 1)) || Shown(t.next, key, i))
  }

  /** Siblings are strictly sorted, and counts are at the leaves of level 0 only. */
  predicate Sorted(t: Outs, i: nat)
    decreases t
  {
    t.Nil? ||
    (&& Sorted(t.next, i) && (t.next.Cell? ==> t.k < t.next.k)
     && if i == 0 then t.down.Nil? else t.c == 0 && !t.show && Sorted(t.down, i - 1))
  }

  /** No empty branch, and every leaf has a positive count. */
  predicate Full(t: Outs, i: nat)
    decreases t
  {
    t.Nil? || (Full(t.next, i) && if i == 0 then t.c > 0 else t.down.Cell? && Full(t.down, i - 1))
  }

  // ---------------------------------------------------------------- add_outcome_outs

  function Add(t: Outs, key: seq<int>, i: nat, c: nat, show: bool): Outs
    requires i < |key|
    decreases i, t
  {
    if t.Cell? && key[i] > t.k then t.(next := Add(t.next, key, i, c, show))
    else
      var cell := if t.Cell? && key[i] == t.k then t else Cell(key[i], 0, false, t, Nil);
      if i == 0 then cell.(c := cell.c + c, show := show || cell.show)
      else cell.(down := Add(cell.down, key, i - 1, c, show))
  }

  /** Where nothing or a larger number stands, adding is the same after a fresh cell has been put in front. */
  lemma AddGap(t: Outs, key: seq<int>, i: nat, c: nat, show: bool)
    requires i < |key| && (t.Cell? ==> key[i] < t.k)
    ensures Add(Cell(key[i], 0, false, t, Nil), key, i, c, show) == Add(t, key, i, c, show)
  {}

  lemma AddStep(t: Outs, key: seq<int>, i: nat, c: nat, show: bool)
    requires i < |key| && t.Cell? && t.k <= key[i]
    ensures Add(t, key, i, c, show) ==
      if key[i] > t.k then Cell(t.k, t.c, t.show, Add(t.next, key, i, c, show), t.down)
      else if i == 0 then Cell(t.k, t.c + c, show || t.show, t.next, t.down)
      else Cell(t.k, t.c, t.show, t.next, Add(t.down, key, i - 1, c, show))
  {}

  /** A tree with a hole, from the hole outwards. */
  datatype Hole =
    | Here
    | InNext(k: int, c: nat, show: bool, down: Outs, up: Hole)
    | InDown(k: int, c: nat, show: bool, next: Outs, up: Hole)

  function Fill(h: Hole, t: Outs): Outs {
    match h
    case Here => t
    case InNext(k, c, show, down, up) => Fill(up, Cell(k, c, show, t, down))
    case InDown(k, c, show, next, up) => Fill(up, Cell(k, c, show, next, t))
  }

  predicate SameKey(key: seq<int>, key': seq<int>, i: nat)
    requires i < |key| && i < |key'|
  {
    key[..i + 1] == key'[..i + 1]
  }

  lemma SameKeyStep(key: seq<int>, key': seq<int>, i: nat)
    requires i < |key| && i < |key'|
    ensures SameKey(key, key', i) <==> key[i] == key'[i] && (i > 0 ==> SameKey(key, key', i - 1))
  {
    assert key[..i + 1] == key[..i] + [key[i]] && key'[..i + 1] == key'[..i] + [key'[i]];
  }

  /** Adding is a point update of the map. */
  lemma {:induction false} AddCount(t: Outs, key: seq<int>, i: nat, c: nat, show: bool, key': seq<int>)
    requires i < |key| && i < |key'|
    ensures Count(Add(t, key, i, c, show), key', i) == Count(t, key', i) + if SameKey(key, key', i) then c else 0
    ensures Shown(Add(t, key, i, c, show), key', i) == (Shown(t, key', i) || (SameKey(key, key', i) && show))
    decreases i, t
  {
    SameKeyStep(key, key', i);
    if t.Cell? && key[i] > t.k {
      AddCount(t.next, key, i, c, show, key');
    } else if i > 0 {
      AddCount(if t.Cell? && key[i] == t.k then t.down else Nil, key, i - 1, c, show, key');
    }
  }

  /** The first key of a list only moves down to the added key. */
  lemma {:induction false} AddSorted(t: Outs, key: seq<int>, i: nat, c: nat, show: bool)
    requires i < |key| && Sorted(t, i)
    ensures var r := Add(t, key, i, c, show);
            Sorted(r, i) && r.Cell? && (r.k == key[i] || (t.Cell? && r.k == t.k))
    decreases i, t
  {
    if t.Cell? && key[i] > t.k {
      AddSorted(t.next, key, i, c, show);
    } else if i > 0 {
      AddSorted(if t.Cell? && key[i] == t.k then t.down else Nil, key, i - 1, c, show);
    }
  }

  lemma {:induction false} AddFull(t: Outs, key: seq<int>, i: nat, c: nat, show: bool)
    requires i < |key| && Full(t, i) && c > 0
    ensures Full(Add(t, key, i, c, show), i) && Add(t, key, i, c, show).Cell?
    decreases i, t
  {
    if t.Cell? && key[i] > t.k {
      AddFull(t.next, key, i, c, show);
    } else if i > 0 {
      AddFull(if t.Cell? && key[i] == t.k then t.down else Nil, key, i - 1, c, show);
    }
  }

  // ---------------------------------------------------------------- merge_outs

  function Merge(p: Outs, q: Outs): Outs
    decreases q, p
  {
    if q.Nil? then p
    else if p.Nil? || q.k < p.k then Cell(q.k, q.c, q.show, Merge(p, q.next), Merge(Nil, q.down))
    else if p.k == q.k then
      Cell(p.k, p.c + q.c, p.show || q.show, Merge(p.next, q.next), Merge(p.down, q.down))
    else p.(next := Merge(p.next, q))
  }

  /** Merging is the pointwise sum of the maps; show marks are or-ed. */
  lemma {:induction false} MergeCount(p: Outs, q: Outs, key: seq<int>, i: nat)
    requires i < |key|
    ensures Count(Merge(p, q), key, i) == Count(p, key, i) + Count(q, key, i)
    ensures Shown(Merge(p, q), key, i) == (Shown(p, key, i) || Shown(q, key, i))
    decreases q, p
  {
    if q.Nil? {
    } else if p.Nil? || q.k < p.k {
      MergeCount(p, q.next, key, i);
      if i > 0 {
        MergeCount(Nil, q.down, key, i - 1);
      }
    } else if p.k == q.k {
      MergeCount(p.next, q.next, key, i);
      if i > 0 {
        MergeCount(p.down, q.down, key, i - 1);
      }
    } else {
      MergeCount(p.next, q, key, i);
    }
  }

  lemma {:induction false} MergeSorted(p: Outs, q: Outs, i: nat)
    requires Sorted(p, i) && Sorted(q, i)
    ensures var r := Merge(p, q);
            && Sorted(r, i) && (r.Nil? <==> p.Nil? && q.Nil?)
            && (r.Cell? ==> (p.Cell? && r.k == p.k) || (q.Cell? && r.k == q.k))
    decreases q, p
  {
    if q.Nil? {
    } else if p.Nil? || q.k < p.k {
      MergeSorted(p, q.next, i);
      if i > 0 {
        MergeSorted(Nil, q.down, i - 1);
      }
    } else if p.k == q.k {
      MergeSorted(p.next, q.next, i);
      if i > 0 {
        MergeSorted(p.down, q.down, i - 1);
      }
    } else {
      MergeSorted(p.next, q, i);
    }
  }

  lemma {:induction false} MergeFull(p: Outs, q: Outs, i: nat)
    requires Full(p, i) && Full(q, i)
    ensures Full(Merge(p, q), i) && (p.Cell? || q.Cell? ==> Merge(p, q).Cell?)
    decreases q, p
  {
    if q.Nil? {
    } else if p.Nil? || q.k < p.k {
      MergeFull(p, q.next, i);
      if i > 0 {
        MergeFull(Nil, q.down, i - 1);
      }
    } else if p.k == q.k {
      MergeFull(p.next, q.next, i);
      if i > 0 {
        MergeFull(p.down, q.down, i - 1);
      }
    } else {
      MergeFull(p.next, q, i);
    }
  }

  // ---------------------------------------------------------------- sum_outs and finals_outs

  function Sum(t: Outs): nat {
    if t.Nil? then 0 else t.c + Sum(t.down) + Sum(t.next)
  }

  /** Adding and merging conserve totals. */
  lemma {:induction false} SumAdd(t: Outs, key: seq<int>, i: nat, c: nat, show: bool)
    requires i < |key|
    ensures Sum(Add(t, key, i, c, show)) == Sum(t) + c
    decreases i, t
  {
    if t.Cell? && key[i] > t.k {
      SumAdd(t.next, key, i, c, show);
    } else if i > 0 {
      SumAdd(if t.Cell? && key[i] == t.k then t.down else Nil, key, i - 1, c, show);
    }
  }

  lemma {:induction false} SumMerge(p: Outs, q: Outs)
    ensures Sum(Merge(p, q)) == Sum(p) + Sum(q)
    decreases q, p
  {
    if q.Nil? {
    } else if p.Nil? || q.k < p.k {
      SumMerge(p, q.next);
      SumMerge(Nil, q.down);
    } else if p.k == q.k {
      SumMerge(p.next, q.next);
      SumMerge(p.down, q.down);
    } else {
      SumMerge(p.next, q);
    }
  }

  function Finals(t: Outs): nat {
    if t.Nil? then 0 else (if t.c > 0 then 1 else 0) + Finals(t.down) + Finals(t.next)
  }

  lemma FinalsCell(t: Outs)
    ensures t.Nil? ==> Finals(t) == 0
    ensures t.Cell? ==> Finals(t) == (if t.c > 0 then 1 else 0) + Finals(t.down) + Finals(t.next)
  {}

  ghost function Prolong(keys: set<seq<int>>, k: int): set<seq<int>> {
    set r | r in keys :: r + [k]
  }

  /** The tuples with a positive count. */
  ghost function Keys(t: Outs, i: nat): set<seq<int>>
    decreases t
  {
    if t.Nil? then {}
    else
      (if i == 0 then if t.c > 0 then {[t.k]} else {} else Prolong(Keys(t.down, i - 1), t.k)) + Keys(t.next, i)
  }

  lemma {:induction false} KeysSpec(t: Outs, i: nat, key: seq<int>)
    ensures key in Keys(t, i) <==> |key| == i + 1 && Count(t, key, i) > 0
    decreases t
  {
    if t.Cell? {
      KeysSpec(t.next, i, key);
      if i > 0 && key != [] {
        var rest := key[..|key| - 1];
        KeysSpec(t.down, i - 1, rest);
        assert key == rest + [key[|key| - 1]];
        if |key| == i + 1 {
          CountPrefix(t.down, key, rest, i - 1);
        }
      }
      if i == 0 && |key| == 1 {
        assert key == [key[0]];
      }
    }
  }

  /** The count depends on the tuple only. */
  lemma {:induction false} CountPrefix(t: Outs, key: seq<int>, key': seq<int>, i: nat)
    requires i < |key| && i < |key'| && SameKey(key, key', i)
    ensures Count(t, key, i) == Count(t, key', i) && Shown(t, key, i) == Shown(t, key', i)
    decreases t
  {
    if t.Cell? {
      SameKeyStep(key, key', i);
      CountPrefix(t.next, key, key', i);
      if i > 0 {
        CountPrefix(t.down, key, key', i - 1);
      }
    }
  }

  /** Smaller numbers than the first of a sorted list do not occur. */
  lemma {:induction false} BelowFirst(t: Outs, key: seq<int>, i: nat)
    requires i < |key| && Sorted(t, i) && (t.Cell? ==> key[i] < t.k)
    ensures Count(t, key, i) == 0 && !Shown(t, key, i)
    decreases t
  {
    if t.Cell? {
      BelowFirst(t.next, key, i);
    }
  }

  lemma ProlongInjective(r: seq<int>, r': seq<int>, k: int)
    ensures r + [k] == r' + [k] ==> r == r'
  {
    assert r == (r + [k])[..|r + [k]| - 1] && r' == (r' + [k])[..|r' + [k]| - 1];
  }

  lemma {:induction false} ProlongSize(keys: set<seq<int>>, k: int)
    ensures |Prolong(keys, k)| == |keys|
    decreases |keys|
  {
    if keys == {} {
      assert Prolong(keys, k) == {};
    } else {
      var r :| r in keys;
      ProlongSize(keys - {r}, k);
      forall r' | r' in keys - {r}
        ensures r' + [k] != r + [k]
      {
        ProlongInjective(r', r, k);
      }
      assert Prolong(keys, k) == Prolong(keys - {r}, k) + {r + [k]};
    }
  }

  /** finals_outs counts the tuples with a positive count. */
  lemma {:induction false} FinalsSpec(t: Outs, i: nat)
    requires Sorted(t, i)
    ensures Finals(t) == |Keys(t, i)|
    decreases t
  {
    if t.Cell? {
      FinalsSpec(t.next, i);
      var own := if i == 0 then if t.c > 0 then {[t.k]} else {} else Prolong(Keys(t.down, i - 1), t.k);
      if i > 0 {
        FinalsSpec(t.down, i - 1);
        ProlongSize(Keys(t.down, i - 1), t.k);
      }
      forall key | key in own
        ensures key !in Keys(t.next, i)
      {
        KeysSpec(t, i, key);
        assert key in Keys(t, i) && key[i] == t.k;
        KeysSpec(t.next, i, key);
        BelowFirst(t.next, key, i);
      }
      assert own !! Keys(t.next, i);
    }
  }

  // ---------------------------------------------------------------- same_outs

  function Same(p: Outs, q: Outs): bool {
    if p.Nil? || q.Nil? then p == q
    else p.k == q.k && p.c == q.c && p.show == q.show && Same(p.down, q.down) && Same(p.next, q.next)
  }

  ghost predicate SameMap(p: Outs, q: Outs, i: nat) {
    forall key: seq<int> :: |key| == i + 1 ==> Count(p, key, i) == Count(q, key, i) && Shown(p, key, i) == Shown(q, key, i)
  }

  lemma {:induction false} SameIsEqual(p: Outs, q: Outs)
    ensures Same(p, q) <==> p == q
  {
    if p.Cell? && q.Cell? {
      SameIsEqual(p.down, q.down);
      SameIsEqual(p.next, q.next);
    }
  }

  /** Some tuple of a full tree starts with the first number. */
  lemma {:induction false} FirstTuple(t: Outs, i: nat) returns (key: seq<int>)
    requires Full(t, i) && t.Cell?
    ensures |key| == i + 1 && key[i] == t.k && Count(t, key, i) > 0
    decreases t
  {
    if i == 0 {
      key := [t.k];
    } else {
      var rest := FirstTuple(t.down, i - 1);
      key := rest + [t.k];
      assert key[..i] == rest[..i];
      CountPrefix(t.down, key, rest, i - 1);
    }
  }

  /** On sorted full trees, same_outs decides equality of the two maps. */
  lemma SameSpec(p: Outs, q: Outs, i: nat)
    requires Sorted(p, i) && Full(p, i) && Sorted(q, i) && Full(q, i)
    ensures Same(p, q) <==> SameMap(p, q, i)
  {
    SameIsEqual(p, q);
    if SameMap(p, q, i) {
      SameTree(p, q, i);
    }
  }

  lemma FirstNotAfter(p: Outs, q: Outs, i: nat)
    requires Full(p, i) && p.Cell? && Sorted(q, i) && SameMap(p, q, i)
    ensures q.Cell? && q.k <= p.k
  {
    var key := FirstTuple(p, i);
    assert Count(p, key, i) == Count(q, key, i);
    if q.Nil? || q.k > p.k {
      BelowFirst(q, key, i);
    }
  }

  lemma {:induction false} SameTree(p: Outs, q: Outs, i: nat)
    requires Sorted(p, i) && Full(p, i) && Sorted(q, i) && Full(q, i) && SameMap(p, q, i)
    ensures p == q
    decreases p
  {
    hide SameMap;
    if p.Cell? {
      FirstNotAfter(p, q, i);
      SameMapSymmetric(p, q, i);
      FirstNotAfter(q, p, i);
      SameBelow(p, q, i);
      SameTree(p.next, q.next, i);
      if i > 0 {
        SameTree(p.down, q.down, i - 1);
      }
    } else if q.Cell? {
      SameMapSymmetric(p, q, i);
      FirstNotAfter(q, p, i);
    }
  }

  lemma SameMapSymmetric(p: Outs, q: Outs, i: nat)
    requires SameMap(p, q, i)
    ensures SameMap(q, p, i)
  {}

  /** Two sorted trees with the same map and the same first number: the parts have the same maps. */
  lemma SameBelow(p: Outs, q: Outs, i: nat)
    requires Sorted(p, i) && Sorted(q, i) && SameMap(p, q, i) && p.Cell? && q.Cell? && p.k == q.k
    ensures SameMap(p.next, q.next, i)
    ensures if i == 0 then p.c == q.c && p.show == q.show else SameMap(p.down, q.down, i - 1)
  {
    forall key: seq<int> | |key| == i + 1
      ensures Count(p.next, key, i) == Count(q.next, key, i) && Shown(p.next, key, i) == Shown(q.next, key, i)
    {
      assert Count(p, key, i) == Count(q, key, i) && Shown(p, key, i) == Shown(q, key, i);
      if key[i] == p.k {
        BelowFirst(p.next, key, i);
        BelowFirst(q.next, key, i);
      }
    }
    if i == 0 {
      FirstPart(p, q, [p.k], 0);
    } else {
      forall key: seq<int> | |key| == i
        ensures Count(p.down, key, i - 1) == Count(q.down, key, i - 1) && Shown(p.down, key, i - 1) == Shown(q.down, key, i - 1)
      {
        var long := key + [p.k];
        FirstPart(p, q, long, i);
        assert long[..i] == key[..i];
        CountPrefix(p.down, long, key, i - 1);
        CountPrefix(q.down, long, key, i - 1);
      }
    }
  }

  lemma FirstPart(p: Outs, q: Outs, key: seq<int>, i: nat)
    requires Sorted(p, i) && Sorted(q, i) && SameMap(p, q, i) && p.Cell? && q.Cell? && |key| == i + 1 && p.k == q.k == key[i]
    ensures if i == 0 then p.c == q.c && p.show == q.show
            else Count(p.down, key, i - 1) == Count(q.down, key, i - 1) && Shown(p.down, key, i - 1) == Shown(q.down, key, i - 1)
  {
    BelowFirst(p.next, key, i);
    BelowFirst(q.next, key, i);
    assert Count(p, key, i) == Count(q, key, i) && Shown(p, key, i) == Shown(q, key, i);
  }
}
