/** Components of a graph in dependency order, by Tarjan's algorithm (asllib/TopoSort.ml). */
module TopoSort {
  import opened Graph
  import opened SccSearch

  class OStack {
    var stack: seq<Vertex>
    var members: set<Vertex>

    ghost predicate Valid()
      reads this
    {
      members == Elements(stack) && NoDuplicates(stack)
    }

    constructor Create()
      ensures Valid() && stack == []
    {
      stack, members := [], {};
    }

    method Push(o: Vertex)
      requires Valid() && o !in stack
      modifies this
      ensures Valid() && stack == old(stack) + [o]
    {
      members := members + {o};
      stack := stack + [o];
    }

    predicate Mem(w: Vertex)
      reads this
      requires Valid()
      ensures Mem(w) <==> w in stack
    {
      w in members
    }

    method Pop() returns (o: Vertex)
      requires Valid() && stack != []
      modifies this
      ensures Valid() && old(stack) == stack + [o]
    {
      o := stack[|stack| - 1];
      stack := stack[..|stack| - 1];
      members := members - {o};
      assert old(stack) == stack + [o];
      PopMembers(stack, o);
    }

    /** Pops o and everything above it. */
    method PopUntil(o: Vertex) returns (acc: seq<Vertex>)
      requires Valid() && o in stack
      modifies this
      ensures Valid() && old(stack) == stack + acc && acc != [] && acc[0] == o
    {
      acc := [];
      var o' := Pop();
      acc := [o'] + acc;
      while o' != o
        invariant Valid() && old(stack) == stack + acc
        invariant acc != [] && acc[0] == o' && (o' != o ==> o in stack)
        decreases |stack|
      {
        o' := Pop();
        acc := [o'] + acc;
      }
    }
  }

  lemma PopMembers(s: seq<Vertex>, o: Vertex)
    requires NoDuplicates(s + [o])
    ensures NoDuplicates(s) && Elements(s + [o]) - {o} == Elements(s)
  {
    forall i, j | 0 <= i < j < |s|
      ensures s[i] != s[j]
    {
      assert (s + [o])[i] != (s + [o])[j];
    }
    forall i | 0 <= i < |s|
      ensures s[i] != o
    {
      assert (s + [o])[i] != (s + [o])[|s|];
    }
  }

  /** Book-keeping for each vertex: order of discovery, and lowest order known to be reachable on the stack. */
  datatype Data = Data(index: nat, lowlink: nat)

  /** The fold over emitted components, in the order of emission. */
  function FoldAll<A>(fold: (seq<Vertex>, A) -> A, comps: seq<seq<Vertex>>, acc: A): A {
    if comps == [] then acc else FoldAll(fold, comps[1..], fold(comps[0], acc))
  }

  lemma {:induction false} FoldAllAppend<A>(fold: (seq<Vertex>, A) -> A, cs: seq<seq<Vertex>>, ds: seq<seq<Vertex>>, acc: A)
    ensures FoldAll(fold, cs + ds, acc) == FoldAll(fold, ds, FoldAll(fold, cs, acc))
  {
    if cs == [] {
      assert cs + ds == ds;
    } else {
      FoldAllAppend(fold, cs[1..], ds, fold(cs[0], acc));
      assert (cs + ds)[1..] == cs[1..] + ds;
    }
  }

  lemma FoldAllNothing<A>(fold: (seq<Vertex>, A) -> A, acc: A)
    ensures FoldAll(fold, [], acc) == acc
  {}

  /** Folding what was emitted between two states and then what was emitted next. */
  lemma FoldAllBetween<A>(fold: (seq<Vertex>, A) -> A, cs: seq<seq<Vertex>>, ds: seq<seq<Vertex>>, es: seq<seq<Vertex>>, acc: A)
    requires cs <= ds <= es
    ensures FoldAll(fold, es[|cs|..], acc) == FoldAll(fold, es[|ds|..], FoldAll(fold, ds[|cs|..], acc))
  {
    FoldAllAppend(fold, ds[|cs|..], es[|ds|..], acc);
    assert ds[|cs|..] + es[|ds|..] == es[|cs|..];
  }

  lemma ExploringFacts(succs: Succs, s: View, v: Vertex, k: nat, low: nat, t: View)
    requires SccSearch.Valid(succs, t) && Exploring(succs, s, v, k, low, t)
    ensures v in t.idx && t.idx[v] == s.n && Numbered(t) && s.comps <= t.comps && low <= s.n
    ensures s.stack + [v] <= t.stack && v in t.stack && t.gray == s.gray + {v} && v !in s.idx
  {
    assert (s.stack + [v])[|s.stack|] == t.stack[|s.stack|];
  }

  lemma ValidFacts(succs: Succs, s: View)
    requires SccSearch.Valid(succs, s)
    ensures forall x :: x in s.stack ==> x in s.idx
    ensures forall x :: x in s.gray ==> x in s.stack
  {}

  lemma ExploredFacts(succs: Succs, s: View, v: Vertex, low: nat, t: View)
    requires Explored(succs, s, v, low, t)
    ensures s.comps <= t.comps
  {}

  /** All entries but that of v are kept. */
  ghost predicate KeepsBut(before: map<Vertex, Data>, after: map<Vertex, Data>, v: Vertex) {
    forall x :: x in before && x != v ==> x in after && after[x] == before[x]
  }

  ghost predicate HasData(table: map<Vertex, Data>, v: Vertex, d: Data) {
    v in table && table[v] == d
  }

  class State {
    var data: map<Vertex, Data>
    const stack: OStack
    var index: nat
    ghost var gray: set<Vertex>
    ghost var comps: seq<seq<Vertex>>

    ghost function Now(): View
      reads this, stack
    {
      View(map x | x in data :: data[x].index, stack.stack, gray, comps, index)
    }

    ghost predicate Valid(succs: Succs)
      reads this, stack
    {
      stack.Valid() && SccSearch.Valid(succs, Now())
    }

    constructor Create()
      ensures fresh(stack) && stack.Valid()
      ensures Now() == View(map[], [], {}, [], 0)
    {
      stack := new OStack.Create();
      data, index, gray, comps := map[], 0, {}, [];
    }

    method SetLowlink(v: Vertex, vData: Data, lowlink: nat) returns (vData': Data)
      requires v in data && data[v].index == vData.index
      modifies this
      ensures vData' == vData.(lowlink := lowlink) && Now() == old(Now()) && data == old(data)[v := vData']
    {
      vData' := vData.(lowlink := lowlink);
      data := data[v := vData'];
    }

    /** Handles the k-th successor of v. */
    method EachSuccessor<A>(succs: Succs, fold: (seq<Vertex>, A) -> A, v: Vertex, acc: A, vData: Data, w: Vertex,
                            ghost k: nat, ghost s: View, ghost universe: set<Vertex>)
      returns (acc': A, vData': Data)
      requires Valid(succs) && Closed(succs, universe) && v in universe
      requires k < |succs(v)| && succs(v)[k] == w && HasData(data, v, vData)
      requires Exploring(succs, s, v, k, vData.lowlink, Now()) && vData.index == s.n
      requires forall x :: x in s.gray ==> Reach(succs, x, v)
      modifies this, stack
      ensures Valid(succs) && Exploring(succs, s, v, k + 1, vData'.lowlink, Now()) && vData'.index == s.n
      ensures old(comps) <= comps && acc' == FoldAll(fold, comps[|old(comps)|..], acc)
      ensures old(data.Keys) <= data.Keys && KeepsBut(old(data), data, v) && HasData(data, v, vData')
      decreases |universe - data.Keys|, 2
    {
      hide Reach; hide Exploring; hide Explored; hide SccSearch.Valid;
      ghost var t := Now();
      ExploringFacts(succs, s, v, k, vData.lowlink, t);
      if w !in data {
        SuccessorReached(succs, s, v, k, vData.lowlink, t);
        var wData;
        acc', wData := StrongConnected(succs, fold, acc, w, universe);
        ExploredFacts(succs, t, w, wData.lowlink, Now());
        UnvisitedSpec(succs, s, v, k, vData.lowlink, t, wData.lowlink, Now());
        ExploringFacts(succs, s, v, k + 1, if vData.lowlink > wData.lowlink then wData.lowlink else vData.lowlink, Now());
        if vData.lowlink > wData.lowlink {
          vData' := SetLowlink(v, vData, wData.lowlink);
        } else {
          vData' := vData;
        }
      } else {
        VisitedSpec(succs, s, v, k, vData.lowlink, t);
        acc' := acc;
        if stack.Mem(w) && vData.lowlink > data[w].index {
          vData' := SetLowlink(v, vData, data[w].index);
        } else {
          vData' := vData;
        }
      }
    }

    /** Enters v in the table and on the stack. */
    method Discover(succs: Succs, v: Vertex) returns (vData: Data)
      requires Valid(succs) && v !in data && forall x :: x in gray ==> Reach(succs, x, v)
      modifies this, stack
      ensures Valid(succs) && Now() == Enter(old(Now()), v) && vData == Data(old(index), old(index))
      ensures comps == old(comps) && data == old(data)[v := vData]
      ensures Exploring(succs, old(Now()), v, 0, vData.lowlink, Now())
    {
      hide Reach; hide Exploring; hide SccSearch.Valid; hide Numbered;
      EnterSpec(succs, Now(), v);
      ValidFacts(succs, Now());
      var i := index;
      vData := Data(i, i);
      data := data[v := vData];
      stack.Push(v);
      index := i + 1;
      gray := gray + {v};
      assert Now() == Enter(old(Now()), v);
    }

    /** Emits the component of v if its lowlink is its own index. */
    method Close<A>(succs: Succs, fold: (seq<Vertex>, A) -> A, acc: A, v: Vertex, vData: Data, ghost s: View)
      returns (acc': A)
      requires Valid(succs) && SccSearch.Valid(succs, s)
      requires Exploring(succs, s, v, |succs(v)|, vData.lowlink, Now()) && vData.index == s.n
      modifies this, stack
      ensures Valid(succs) && Explored(succs, s, v, vData.lowlink, Now()) && data == old(data)
      ensures old(comps) <= comps && acc' == FoldAll(fold, comps[|old(comps)|..], acc)
    {
      hide Reach; hide Exploring; hide Explored; hide SccSearch.Valid; hide Numbered;
      ghost var t := Now();
      ExploringFacts(succs, s, v, |succs(v)|, vData.lowlink, t);
      ValidFacts(succs, s);
      assert v !in s.gray && t.gray - {v} == s.gray;
      if vData.index == vData.lowlink {
        EmitSpec(succs, s, v, vData.lowlink, t);
        var component := stack.PopUntil(v);
        UniqueSplit(t.stack, stack.stack, component, s.stack, v);
        acc' := fold(component, acc);
        gray, comps := gray - {v}, comps + [component];
        assert Now() == Emit(s, t);
        assert comps[|old(comps)|..] == [component];
      } else {
        LeaveSpec(succs, s, v, vData.lowlink, t);
        acc' := acc;
        gray := gray - {v};
        assert Now() == Leave(s, t);
      }
    }

    /** The fold of EachSuccessor over the successors of v. */
    method EachSuccessors<A>(succs: Succs, fold: (seq<Vertex>, A) -> A, v: Vertex, acc: A, vData: Data,
                             ghost s: View, ghost universe: set<Vertex>)
      returns (acc': A, vData': Data)
      requires Valid(succs) && Closed(succs, universe) && v in universe
      requires Exploring(succs, s, v, 0, vData.lowlink, Now()) && vData.index == s.n && HasData(data, v, vData)
      requires forall x :: x in s.gray ==> Reach(succs, x, v)
      modifies this, stack
      ensures Valid(succs) && Exploring(succs, s, v, |succs(v)|, vData'.lowlink, Now()) && vData'.index == s.n
      ensures old(comps) <= comps && acc' == FoldAll(fold, comps[|old(comps)|..], acc)
      ensures old(data.Keys) <= data.Keys && KeepsBut(old(data), data, v) && HasData(data, v, vData')
      decreases |universe - data.Keys|, 3
    {
      hide Reach; hide Exploring; hide Explored; hide SccSearch.Valid; hide FoldAll; hide Closed; hide OStack.Valid;
      acc', vData' := acc, vData;
      FoldAllNothing(fold, acc);
      assert comps[|comps|..] == [];
      var k := 0;
      while k < |succs(v)|
        invariant 0 <= k <= |succs(v)|
        invariant Valid(succs) && Exploring(succs, s, v, k, vData'.lowlink, Now()) && vData'.index == s.n
        invariant old(comps) <= comps && acc' == FoldAll(fold, comps[|old(comps)|..], acc)
        invariant old(data.Keys) <= data.Keys && KeepsBut(old(data), data, v) && HasData(data, v, vData')
      {
        ghost var before := comps;
        SubsetSize(universe - data.Keys, universe - old(data.Keys));
        acc', vData' := EachSuccessor(succs, fold, v, acc', vData', succs(v)[k], k, s, universe);
        FoldAllBetween(fold, old(comps), before, comps, acc);
        k := k + 1;
      }
    }

    /** Explores v, which is not visited yet, and emits the components found on the way. */
    method StrongConnected<A>(succs: Succs, fold: (seq<Vertex>, A) -> A, acc: A, v: Vertex, ghost universe: set<Vertex>)
      returns (acc': A, vData: Data)
      requires Valid(succs) && Closed(succs, universe) && v in universe
      requires v !in data && forall x :: x in gray ==> Reach(succs, x, v)
      modifies this, stack
      ensures Valid(succs) && Explored(succs, old(Now()), v, vData.lowlink, Now())
      ensures old(comps) <= comps && acc' == FoldAll(fold, comps[|old(comps)|..], acc)
      ensures old(data.Keys) <= data.Keys && KeepsBut(old(data), data, v) && HasData(data, v, vData)
      decreases |universe - data.Keys|, 1
    {
      hide Reach; hide Exploring; hide Explored; hide FoldAll; hide Closed; hide Enter; hide SccSearch.Valid; hide OStack.Valid;
      ghost var s := Now();
      vData := Discover(succs, v);
      FewerLeft(universe, old(data.Keys), data.Keys, v);
      acc', vData := EachSuccessors(succs, fold, v, acc, vData, s, universe);
      ghost var before := comps;
      acc' := Close(succs, fold, acc', v, vData, s);
      FoldAllBetween(fold, s.comps, before, comps, acc);
    }
  }

  lemma FewerLeft(universe: set<Vertex>, a: set<Vertex>, b: set<Vertex>, v: Vertex)
    requires v in universe && v !in a && a + {v} <= b
    ensures |universe - b| < |universe - a|
  {
    assert universe - b <= universe - a - {v};
    SubsetSize(universe - b, universe - a - {v});
  }

  lemma SubsetSize(a: set<Vertex>, b: set<Vertex>)
    requires a <= b
    ensures |a| <= |b|
  {
    assert b == a + (b - a);
  }

  lemma UniqueSplit(t: seq<Vertex>, rest: seq<Vertex>, c: seq<Vertex>, s: seq<Vertex>, v: Vertex)
    requires NoDuplicates(t) && t == rest + c && c != [] && c[0] == v && s + [v] <= t
    ensures rest == s && c == t[|s|..]
  {
    assert t[|s|] == (s + [v])[|s|] == v;
    assert t[..|s|] == (s + [v])[..|s|] == s;
    assert t[|rest|] == c[0];
    assert |rest| == |s|;
  }
}
