/** Scoped storage through pointers (asllib/storage.ml, asllib/env.ml). */
module Storage {
  import opened Prelude

  type Name = string
  type Values = map<Name, int>

  /** Names lead to pointers, pointers to values. */
  datatype Store = Store(env: map<Name, nat>, mem: map<nat, int>)

  /** The global storage, the local one, and the names declared in the current local scope. */
  datatype Env = Env(globals: Store, storage: Store, declared: seq<Name>)

  /** What the names stand for. */
  function View(t: Store): Values {
    map x | x in t.env && t.env[x] in t.mem :: t.mem[t.env[x]]
  }

  // ---------------------------------------------------------------- storage.ml

  /** None is the exception Not_found. */
  function Assign(x: Name, v: int, t: Store): Option<Store> {
    if x in t.env then Some(t.(mem := t.mem[t.env[x] := v])) else None
  }

  /** `next` is the pointer that alloc hands out. */
  function Declare(x: Name, v: int, t: Store, next: nat): Store {
    Store(t.env[x := next], t.mem[next := v])
  }

  /** The storage and the next pointer after add: declares only what is not bound. */
  function Add(x: Name, v: int, t: Store, next: nat): (Store, nat) {
    match Assign(x, v, t)
    case Some(t') => (t', next)
    case None => (Declare(x, v, t, next), next + 1)
  }

  /** The counter behind alloc. */
  class Allocator {
    var next: nat

    constructor ()
      ensures next == 0
    {
      next := 0;
    }

    method Alloc() returns (p: nat)
      modifies this
      ensures p == old(next) && next == old(next) + 1
    {
      p := next;
      next := p + 1;
    }

    /** add, with the counter advanced only when a name is declared. */
    method AddHere(x: Name, v: int, t: Store) returns (r: Store)
      modifies this
      ensures (r, next) == Add(x, v, t, old(next))
    {
      var done := Assign(x, v, t);
      if done.Some? {
        r := done.value;
      } else {
        var p := Alloc();
        r := Declare(x, v, t, p);
      }
    }
  }

  function Remove(x: Name, t: Store): Store {
    if x in t.env then Store(t.env - {x}, t.mem - {t.env[x]}) else t
  }

  /** The memory without the cells of the names; None is the failed assertion for an unbound name. */
  function RemoveCells(mem: map<nat, int>, env: map<Name, nat>, names: seq<Name>): Option<map<nat, int>> {
    if names == [] then Some(mem)
    else if names[0] !in env then None
    else RemoveCells(mem - {env[names[0]]}, env, names[1..])
  }

  function PatchMem(tEnv: Store, tMem: Store, toAvoid: seq<Name>): Option<Store> {
    var mem :- RemoveCells(tMem.mem, tMem.env, toAvoid);
    Some(Store(tEnv.env, mem))
  }

  // ---------------------------------------------------------------- env.ml

  function DeclareLocal(x: Name, v: int, e: Env, next: nat): (Env, nat) {
    var (t, n) := Add(x, v, e.storage, next);
    (e.(storage := t, declared := [x] + e.declared), n)
  }

  function AssignLocal(x: Name, v: int, e: Env): Option<Env> {
    var t :- Assign(x, v, e.storage);
    Some(e.(storage := t))
  }

  function AssignGlobal(x: Name, v: int, e: Env): Option<Env> {
    var t :- Assign(x, v, e.globals);
    Some(e.(globals := t))
  }

  /** assign of env.ml: a local name first, then a global one; None is NotFound. */
  function AssignAny(x: Name, v: int, e: Env): Option<Env> {
    match AssignLocal(x, v, e)
    case Some(e') => Some(e')
    case None => AssignGlobal(x, v, e)
  }

  /** find of env.ml for every name: local names hide global ones. */
  function ViewAll(e: Env): Values {
    View(e.globals) + View(e.storage)
  }

  function Without(names: seq<Name>, x: Name): seq<Name> {
    if names == [] then []
    else if names[0] == x then Without(names[1..], x)
    else [names[0]] + Without(names[1..], x)
  }

  function RemoveLocal(x: Name, e: Env): Env {
    e.(storage := Remove(x, e.storage), declared := Without(e.declared, x))
  }

  function PushScope(e: Env): Env {
    e.(declared := [])
  }

  function PopScope(parent: Env, child: Env): Option<Env> {
    var t :- PatchMem(parent.storage, child.storage, child.declared);
    Some(child.(storage := t, declared := parent.declared))
  }

  // ---------------------------------------------------------------- consistency

  /** No two names share a pointer, no pointer dangles, no cell leaks, and new pointers are unused. */
  ghost predicate Consistent(t: Store, next: nat) {
    && (forall x :: x in t.env ==> t.env[x] in t.mem && t.env[x] < next)
    && (forall x, y :: x in t.env && y in t.env && t.env[x] == t.env[y] ==> x == y)
    && (forall p :: p in t.mem ==> p in t.env.Values)
  }

  ghost function NameSet(names: seq<Name>): set<Name> {
    set x | x in names
  }

  /** The names of the environment are those of `base` and the ones declared in the current scope. */
  ghost predicate Scope(e: Env, base: set<Name>) {
    base <= e.storage.env.Keys && NameSet(e.declared) == e.storage.env.Keys - base
  }

  ghost predicate Good(e: Env, next: nat, base: set<Name>) {
    Consistent(e.storage, next) && Scope(e, base)
  }

  /** Every name bound before has kept its pointer. */
  ghost predicate Keeps(before: Store, after: Store) {
    forall x :: x in before.env ==> x in after.env && after.env[x] == before.env[x]
  }

  lemma ViewSpec(t: Store, next: nat)
    requires Consistent(t, next)
    ensures View(t).Keys == t.env.Keys && forall x :: x in t.env ==> View(t)[x] == t.mem[t.env[x]]
  {}

  lemma ViewAt(t: Store, x: Name)
    ensures x in View(t) <==> x in t.env && t.env[x] in t.mem
    ensures x in View(t) ==> View(t)[x] == t.mem[t.env[x]]
  {}

  /** Declaring an unbound name binds it to a fresh pointer. */
  lemma DeclareSpec(x: Name, v: int, e: Env, next: nat, base: set<Name>)
    requires Good(e, next, base) && x !in e.storage.env
    ensures var (e', n) := DeclareLocal(x, v, e, next);
            && n == next + 1 && Good(e', n, base) && View(e'.storage) == View(e.storage)[x := v]
            && Keeps(e.storage, e'.storage) && e'.storage.env.Keys == e.storage.env.Keys + {x}
  {
    hide Consistent; hide View; hide Declare;
    DeclareStore(x, v, e.storage, next);
    assert NameSet([x] + e.declared) == NameSet(e.declared) + {x};
  }

  lemma DeclareStore(x: Name, v: int, t: Store, next: nat)
    requires Consistent(t, next) && x !in t.env
    ensures var t' := Declare(x, v, t, next);
            && Consistent(t', next + 1) && View(t') == View(t)[x := v]
            && Keeps(t, t') && t'.env.Keys == t.env.Keys + {x}
  {
    hide View;
    DeclareView(x, v, t, next);
    var t' := Declare(x, v, t, next);
    forall p | p in t'.mem
      ensures p in t'.env.Values
    {
      if p == next {
        assert t'.env[x] == p;
      } else {
        var y :| y in t.env && t.env[y] == p;
        assert t'.env[y] == p;
      }
    }
  }

  lemma DeclareView(x: Name, v: int, t: Store, next: nat)
    requires Consistent(t, next) && x !in t.env
    ensures View(Declare(x, v, t, next)) == View(t)[x := v]
  {
    ViewSpec(t, next);
    var t' := Declare(x, v, t, next);
    forall y
      ensures y in View(t') <==> y in View(t) || y == x
      ensures y in View(t') ==> View(t')[y] == View(t)[x := v][y]
    {}
  }

  /** Assigning a bound name changes its value and nothing else. */
  lemma AssignSpec(x: Name, v: int, e: Env, next: nat, base: set<Name>)
    requires Good(e, next, base) && x in e.storage.env
    ensures var r := AssignLocal(x, v, e);
            && r.Some? && Good(r.value, next, base) && View(r.value.storage) == View(e.storage)[x := v]
            && r.value.storage.env == e.storage.env
  {}

  /** Assigning a global name changes its value and nothing else. */
  lemma AssignGlobalSpec(x: Name, v: int, e: Env, next: nat)
    requires Consistent(e.globals, next)
    ensures AssignGlobal(x, v, e).Some? <==> x in e.globals.env
    ensures x in e.globals.env ==>
              var e' := AssignGlobal(x, v, e).value;
              && Consistent(e'.globals, next) && View(e'.globals) == View(e.globals)[x := v]
              && e'.globals.env == e.globals.env && e'.storage == e.storage && e'.declared == e.declared
  {
    if x in e.globals.env {
      AssignSpec(x, v, Env(e.globals, e.globals, []), next, e.globals.env.Keys);
    }
  }

  lemma {:induction false} WithoutSpec(names: seq<Name>, x: Name)
    ensures NameSet(Without(names, x)) == NameSet(names) - {x}
  {
    if names != [] {
      WithoutSpec(names[1..], x);
      assert NameSet(names) == {names[0]} + NameSet(names[1..]);
      if names[0] != x {
        assert NameSet(Without(names, x)) == {names[0]} + NameSet(Without(names[1..], x));
      }
    }
  }

  /** Removing a name of the current scope frees its cell. */
  lemma RemoveSpec(x: Name, e: Env, next: nat, base: set<Name>)
    requires Good(e, next, base) && x in e.storage.env && x !in base
    ensures var e' := RemoveLocal(x, e);
            && Good(e', next, base) && View(e'.storage) == View(e.storage) - {x}
            && e'.storage.env == e.storage.env - {x}
  {
    hide View; hide Remove;
    RemoveStore(x, e.storage, next);
    WithoutSpec(e.declared, x);
  }

  lemma RemoveStore(x: Name, t: Store, next: nat)
    requires Consistent(t, next) && x in t.env
    ensures var t' := Remove(x, t); Consistent(t', next) && View(t') == View(t) - {x} && t'.env == t.env - {x}
  {
    hide View;
    RemoveView(x, t, next);
    var t' := Remove(x, t);
    forall p | p in t'.mem
      ensures p in t'.env.Values
    {
      var y :| y in t.env && t.env[y] == p;
      assert y != x && t'.env[y] == p;
    }
  }

  lemma RemoveView(x: Name, t: Store, next: nat)
    requires Consistent(t, next) && x in t.env
    ensures View(Remove(x, t)) == View(t) - {x}
  {
    hide View;
    var l, r := View(Remove(x, t)), View(t) - {x};
    forall y
      ensures y in l <==> y in r
      ensures y in l ==> l[y] == r[y]
    {
      ViewAt(Remove(x, t), y);
      ViewAt(t, y);
    }
  }

  /** patch_mem removes exactly the cells of the names. */
  lemma {:induction false} RemoveCellsSpec(mem: map<nat, int>, env: map<Name, nat>, names: seq<Name>)
    ensures RemoveCells(mem, env, names).Some? <==> NameSet(names) <= env.Keys
    ensures RemoveCells(mem, env, names).Some? ==>
              RemoveCells(mem, env, names).value == map p | p in mem && (forall x :: x in names ==> env[x] != p) :: mem[p]
  {
    if names != [] {
      assert NameSet(names) == {names[0]} + NameSet(names[1..]);
      if names[0] in env {
        RemoveCellsSpec(mem - {env[names[0]]}, env, names[1..]);
        assert forall x :: x in names <==> x == names[0] || x in names[1..];
      }
    }
  }

  /**
   * Leaving a scope: exactly the outer names are bound again, to their old pointers, with their
   * latest values; the cells of the scope are freed.
   */
  lemma PopScopeSpec(parent: Env, child: Env, next: nat, next': nat, base: set<Name>)
    requires Good(parent, next, base) && Good(child, next', parent.storage.env.Keys) && Keeps(parent.storage, child.storage)
    requires next <= next'
    ensures var r := PopScope(parent, child);
            && r.Some? && r.value.storage.env == parent.storage.env && r.value.declared == parent.declared
            && r.value.globals == child.globals
            && Good(r.value, next', base)
            && View(r.value.storage) == Restrict(View(child.storage), parent.storage.env.Keys)
  {
    RemoveCellsSpec(child.storage.mem, child.storage.env, child.declared);
    PopCells(parent, child, next', PopScope(parent, child).value.storage.mem);
  }

  function Restrict(m: Values, names: set<Name>): Values {
    map x | x in m && x in names :: m[x]
  }

  lemma PopCells(parent: Env, child: Env, next: nat, mem: map<nat, int>)
    requires Good(child, next, parent.storage.env.Keys) && Keeps(parent.storage, child.storage)
    requires forall x :: x in child.declared ==> x in child.storage.env
    requires mem == map p | p in child.storage.mem && (forall x :: x in child.declared ==> child.storage.env[x] != p) :: child.storage.mem[p]
    ensures var t := Store(parent.storage.env, mem);
            Consistent(t, next) && View(t) == Restrict(View(child.storage), parent.storage.env.Keys)
  {
    hide View; hide Restrict; hide Consistent;
    var c := child.storage;
    forall x
      ensures x in child.declared <==> x in c.env && x !in parent.storage.env
    {
      assert x in NameSet(child.declared) <==> x in child.declared;
    }
    PoppedCells(parent.storage.env, c, next, child.declared, mem);
    PoppedView(Store(parent.storage.env, mem), c);
  }

  /** Without the cells of the names outside env, c is consistent with the names of env alone. */
  lemma PoppedCells(env: map<Name, nat>, c: Store, next: nat, names: seq<Name>, mem: map<nat, int>)
    requires Consistent(c, next) && Keeps(Store(env, mem), c)
    requires forall x :: x in names <==> x in c.env && x !in env
    requires mem == map p | p in c.mem && (forall x :: x in names ==> c.env[x] != p) :: c.mem[p]
    ensures Consistent(Store(env, mem), next)
    ensures (forall x :: x in env ==> env[x] in mem) && forall p :: p in mem ==> p in c.mem && c.mem[p] == mem[p]
  {
    forall x | x in env
      ensures env[x] in mem
    {
      assert c.env[x] == env[x];
    }
    forall p | p in mem
      ensures p in env.Values
    {
      var x :| x in c.env && c.env[x] == p;
      assert x !in names;
      assert env[x] == p;
    }
  }

  lemma PoppedView(t: Store, c: Store)
    requires Keeps(t, c) && (forall x :: x in t.env ==> t.env[x] in t.mem) && (forall p :: p in t.mem ==> p in c.mem && c.mem[p] == t.mem[p])
    ensures View(t) == Restrict(View(c), t.env.Keys)
  {
    var l, r := View(t), Restrict(View(c), t.env.Keys);
    forall x
      ensures x in l <==> x in r
      ensures x in l ==> l[x] == r[x]
    {
      assert x in t.env ==> c.env[x] == t.env[x];
    }
  }

  /**
   * Declaring a bound name is an assignment, but leaving the scope still frees its cell: the storage
   * is consistent afterwards exactly when no declared name was bound outside.
   */
  lemma PopScopeIff(parent: Env, child: Env, next: nat)
    requires Consistent(parent.storage, next) && Consistent(child.storage, next) && Keeps(parent.storage, child.storage)
    requires child.storage.env.Keys == parent.storage.env.Keys + NameSet(child.declared)
    ensures PopScope(parent, child).Some?
    ensures Consistent(PopScope(parent, child).value.storage, next) <==> NameSet(child.declared) !! parent.storage.env.Keys
  {
    hide View; hide Restrict;
    var outer := parent.storage.env.Keys;
    RemoveCellsSpec(child.storage.mem, child.storage.env, child.declared);
    assert NameSet(child.declared) <= child.storage.env.Keys;
    var t := PopScope(parent, child).value.storage;
    if NameSet(child.declared) !! outer {
      assert NameSet(child.declared) == child.storage.env.Keys - outer;
      PopCells(parent, child, next, t.mem);
    } else {
      var x :| x in NameSet(child.declared) && x in outer;
      assert child.storage.env[x] == t.env[x] && t.env[x] !in t.mem;
    }
  }
}
