/** The open-addressing table of outcomes (litmus/libdir/_hash.c). */
module HashTable {
  /** The words of a logged outcome; two keys are equal when all their words are. */
  type Key = seq<int>

  /** An entry is in use when its count is positive. */
  datatype Entry = Entry(key: Key, c: nat, ok: int)

  // ---------------------------------------------------------------- probing

  /** The d-th slot probed from home, for d <= n. */
  function Slot(home: nat, d: nat, n: nat): int {
    if home + d < n then home + d else home + d - n
  }

  /** How many probes lead from home to slot j. */
  function Dist(home: nat, j: nat, n: nat): int {
    if j >= home then j - home else j - home + n
  }

  function Home(hash: Key -> nat, key: Key, n: nat): nat
    requires n > 0
  {
    hash(key) % n
  }

  /** The first k slots probed for key are in use by other keys. */
  ghost predicate Passed(t: seq<Entry>, home: nat, k: nat, key: Key)
    requires home < |t| && k <= |t|
  {
    forall d: nat :: d < k ==> t[Slot(home, d, |t|)].c > 0 && t[Slot(home, d, |t|)].key != key
  }

  /** Every key in use is found by probing from its home. */
  ghost predicate Probed(t: seq<Entry>, hash: Key -> nat)
    requires |t| > 0
  {
    forall j: nat :: j < |t| && t[j].c > 0 ==>
      Passed(t, Home(hash, t[j].key, |t|), Dist(Home(hash, t[j].key, |t|), j, |t|), t[j].key)
  }

  ghost predicate Once(t: seq<Entry>) {
    forall i, j :: 0 <= i < j < |t| && t[i].c > 0 && t[j].c > 0 ==> t[i].key != t[j].key
  }

  /** A key in use is reached from its home. */
  lemma Reached(t: seq<Entry>, hash: Key -> nat, j: nat)
    requires |t| > 0 && Probed(t, hash) && j < |t| && t[j].c > 0
    ensures var home := Home(hash, t[j].key, |t|);
            var d := Dist(home, j, |t|);
            0 <= d < |t| && Slot(home, d, |t|) == j && Passed(t, home, d, t[j].key)
  {}

  /** No key is in use twice. */
  lemma ProbedOnce(t: seq<Entry>, hash: Key -> nat)
    requires |t| > 0 && Probed(t, hash)
    ensures Once(t)
  {
    forall i, j | 0 <= i < j < |t| && t[i].c > 0 && t[j].c > 0
      ensures t[i].key != t[j].key
    {
      Reached(t, hash, i);
      Reached(t, hash, j);
    }
  }

  /** Where probing passes k slots and finds an empty one, the key is not in use at all. */
  lemma EmptySlotAbsent(t: seq<Entry>, hash: Key -> nat, key: Key, k: nat, j: nat)
    requires |t| > 0 && Probed(t, hash) && k < |t| && j < |t|
    requires Passed(t, Home(hash, key, |t|), k, key) && t[Slot(Home(hash, key, |t|), k, |t|)].c == 0
    ensures !(t[j].c > 0 && t[j].key == key)
  {
    if t[j].c > 0 {
      Reached(t, hash, j);
    }
  }

  // ---------------------------------------------------------------- the map

  /** Counts and ok marks by key. */
  ghost function Contents(t: seq<Entry>): map<Key, (nat, int)> {
    if t == [] then map[]
    else
      var (m, e) := (Contents(t[..|t| - 1]), t[|t| - 1]);
      if e.c == 0 then m else m[e.key := (e.c, e.ok)]
  }

  function InUse(t: seq<Entry>): nat {
    if t == [] then 0 else InUse(t[..|t| - 1]) + if t[|t| - 1].c > 0 then 1 else 0
  }

  /** m has exactly the entries in use. */
  ghost predicate Lists(t: seq<Entry>, m: map<Key, (nat, int)>) {
    && (forall j :: 0 <= j < |t| && t[j].c > 0 ==> t[j].key in m && m[t[j].key] == (t[j].c, t[j].ok))
    && (forall key :: key in m ==> exists j :: 0 <= j < |t| && t[j].c > 0 && t[j].key == key)
  }

  lemma ListsStep(init: seq<Entry>, e: Entry, m: map<Key, (nat, int)>)
    requires Lists(init, m) && e.c > 0 && forall j :: 0 <= j < |init| && init[j].c > 0 ==> init[j].key != e.key
    ensures e.key !in m && Lists(init + [e], m[e.key := (e.c, e.ok)])
  {
    var t, m' := init + [e], m[e.key := (e.c, e.ok)];
    forall key | key in m'
      ensures exists j :: 0 <= j < |t| && t[j].c > 0 && t[j].key == key
    {
      if key == e.key {
        assert t[|init|] == e;
      } else {
        var j :| 0 <= j < |init| && init[j].c > 0 && init[j].key == key;
        assert t[j] == init[j];
      }
    }
  }

  lemma ListsSkip(init: seq<Entry>, e: Entry, m: map<Key, (nat, int)>)
    requires Lists(init, m) && e.c == 0
    ensures Lists(init + [e], m)
  {
    var t := init + [e];
    forall key | key in m
      ensures exists j :: 0 <= j < |t| && t[j].c > 0 && t[j].key == key
    {
      var j :| 0 <= j < |init| && init[j].c > 0 && init[j].key == key;
      assert t[j] == init[j];
    }
  }

  lemma {:induction false} ContentsSpec(t: seq<Entry>)
    requires Once(t)
    ensures Lists(t, Contents(t)) && |Contents(t)| == InUse(t)
  {
    hide Lists;
    if t == [] {
      NoEntries();
    } else {
      var init, e := t[..|t| - 1], t[|t| - 1];
      assert t == init + [e];
      ContentsSpec(init);
      if e.c > 0 {
        ListsStep(init, e, Contents(init));
      } else {
        ListsSkip(init, e, Contents(init));
      }
    }
  }

  lemma NoEntries()
    ensures Lists([], map[])
  {}

  /** InUse is |t| exactly when no slot is empty. */
  lemma {:induction false} InUseFull(t: seq<Entry>)
    ensures InUse(t) <= |t| && (InUse(t) == |t| <==> forall j :: 0 <= j < |t| ==> t[j].c > 0)
  {
    if t != [] {
      InUseFull(t[..|t| - 1]);
      assert forall j :: 0 <= j < |t| - 1 ==> t[..|t| - 1][j] == t[j];
    }
  }

  // ---------------------------------------------------------------- hash_add on the slots

  /** What adding c to a key makes of the map. */
  function Put(m: map<Key, (nat, int)>, key: Key, c: nat, ok: int): map<Key, (nat, int)> {
    if key in m then m[key := (m[key].0 + c, m[key].1)] else m[key := (c, ok)]
  }

  /** An empty slot met while probing takes the key. */
  lemma NewEntry(t: seq<Entry>, hash: Key -> nat, key: Key, k: nat, e: Entry)
    requires |t| > 0 && Probed(t, hash) && k < |t| && e.key == key && e.c > 0
    requires var home := Home(hash, key, |t|); Passed(t, home, k, key) && t[Slot(home, k, |t|)].c == 0
    ensures var t' := t[Slot(Home(hash, key, |t|), k, |t|) := e];
            && Probed(t', hash) && Once(t') && key !in Contents(t)
            && Contents(t') == Put(Contents(t), key, e.c, e.ok) && InUse(t) < |t|
  {
    hide Contents; hide Passed; hide Probed; hide InUse;
    var h := Slot(Home(hash, key, |t|), k, |t|);
    NewEntryProbed(t, hash, key, k, e);
    ProbedOnce(t, hash);
    ProbedOnce(t[h := e], hash);
    ContentsSpec(t);
    ContentsSpec(t[h := e]);
    InUseFull(t);
    forall j: nat | j < |t|
      ensures !(t[j].c > 0 && t[j].key == key)
    {
      EmptySlotAbsent(t, hash, key, k, j);
    }
    SlotUpdated(t, h, e, Contents(t), Contents(t[h := e]));
  }

  lemma NewEntryProbed(t: seq<Entry>, hash: Key -> nat, key: Key, k: nat, e: Entry)
    requires |t| > 0 && Probed(t, hash) && k < |t| && e.key == key && e.c > 0
    requires var home := Home(hash, key, |t|); Passed(t, home, k, key) && t[Slot(home, k, |t|)].c == 0
    ensures Probed(t[Slot(Home(hash, key, |t|), k, |t|) := e], hash)
  {
    var n := |t|;
    var h := Slot(Home(hash, key, n), k, n);
    var t' := t[h := e];
    forall j: nat | j < n && t'[j].c > 0
      ensures Passed(t', Home(hash, t'[j].key, n), Dist(Home(hash, t'[j].key, n), j, n), t'[j].key)
    {
      if j != h {
        Reached(t, hash, j);
      }
    }
  }

  /** A map with the entries of t, and one with those of t after slot h is given to e. */
  lemma SlotUpdated(t: seq<Entry>, h: nat, e: Entry, m: map<Key, (nat, int)>, m': map<Key, (nat, int)>)
    requires h < |t| && e.c > 0 && (t[h].c > 0 ==> t[h].key == e.key)
    requires Lists(t, m) && Lists(t[h := e], m')
    ensures m' == m[e.key := (e.c, e.ok)]
  {
    var t' := t[h := e];
    assert t'[h] == e;
    forall key
      ensures key in m' <==> key in m || key == e.key
      ensures key in m' && key != e.key ==> m'[key] == m[key]
    {
      if key in m' {
        var j :| 0 <= j < |t| && t'[j].c > 0 && t'[j].key == key;
        assert j != h ==> t[j] == t'[j];
      }
      if key in m {
        var j :| 0 <= j < |t| && t[j].c > 0 && t[j].key == key;
        assert j != h ==> t[j] == t'[j];
      }
    }
  }

  /** A slot in use by the key gets the larger count. */
  lemma OldEntry(t: seq<Entry>, hash: Key -> nat, h: nat, c: nat, ok: int)
    requires |t| > 0 && Probed(t, hash) && h < |t| && t[h].c > 0
    ensures var t' := t[h := t[h].(c := t[h].c + c)];
            && Probed(t', hash) && Once(t') && t[h].key in Contents(t)
            && Contents(t') == Put(Contents(t), t[h].key, c, ok)
  {
    hide Contents; hide Passed;
    var e := t[h].(c := t[h].c + c);
    var t' := t[h := e];
    OldEntryProbed(t, hash, h, c);
    ProbedOnce(t, hash);
    ProbedOnce(t', hash);
    ContentsSpec(t);
    ContentsSpec(t');
    SlotUpdated(t, h, e, Contents(t), Contents(t'));
  }

  lemma OldEntryProbed(t: seq<Entry>, hash: Key -> nat, h: nat, c: nat)
    requires |t| > 0 && Probed(t, hash) && h < |t| && t[h].c > 0
    ensures Probed(t[h := t[h].(c := t[h].c + c)], hash)
  {
    var t' := t[h := t[h].(c := t[h].c + c)];
    forall j: nat | j < |t| && t'[j].c > 0
      ensures Passed(t', Home(hash, t'[j].key, |t|), Dist(Home(hash, t'[j].key, |t|), j, |t|), t'[j].key)
    {
      Reached(t, hash, j);
    }
  }

  /** When all slots are passed, the table is full and lacks the key. */
  lemma AllPassed(t: seq<Entry>, hash: Key -> nat, key: Key)
    requires |t| > 0 && Probed(t, hash) && Passed(t, Home(hash, key, |t|), |t|, key)
    ensures key !in Contents(t) && |Contents(t)| == |t|
  {
    hide Contents; hide InUse;
    ProbedOnce(t, hash);
    ContentsSpec(t);
    InUseFull(t);
    var home := Home(hash, key, |t|);
    forall j | 0 <= j < |t|
      ensures t[j].c > 0 && t[j].key != key
    {
      assert Slot(home, Dist(home, j, |t|), |t|) == j;
    }
  }

  // ---------------------------------------------------------------- hash_adds on the slots

  /** hash_add on the map: only a new key in a full table is refused. */
  function TryPut(m: map<Key, (nat, int)>, e: Entry, size: nat): (map<Key, (nat, int)>, bool) {
    if e.key in m || |m| < size then (Put(m, e.key, e.c, e.ok), true) else (m, false)
  }

  /** hash_adds on the map: the entries in use, in the order of their slots. */
  function TryAll(m: map<Key, (nat, int)>, es: seq<Entry>, size: nat): (map<Key, (nat, int)>, bool) {
    if es == [] then (m, true)
    else
      var (m1, r1) := TryAll(m, es[..|es| - 1], size);
      var e := es[|es| - 1];
      if e.c == 0 then (m1, r1)
      else
        var (m2, r2) := TryPut(m1, e, size);
        (m2, r1 && r2)
  }

  /** Pointwise sum; the ok mark of the first map stays. */
  ghost function Sum(m: map<Key, (nat, int)>, f: map<Key, (nat, int)>): map<Key, (nat, int)> {
    map key | key in m.Keys + f.Keys ::
      if key in m && key in f then (m[key].0 + f[key].0, m[key].1) else if key in m then m[key] else f[key]
  }

  /** hash_adds succeeds exactly when both tables' keys fit, and then gives the pointwise sum. */
  lemma {:induction false} TryAllSpec(m: map<Key, (nat, int)>, es: seq<Entry>, size: nat)
    requires Once(es) && |m| <= size
    ensures var (m', r) := TryAll(m, es, size);
            && |m'| <= size && (r <==> |m.Keys + Contents(es).Keys| <= size)
            && (r ==> m' == Sum(m, Contents(es)))
  {
    hide Put; hide Lists; hide Sum; hide Contents; hide TryPut; hide TryAll;
    TryAllStep(m, es, size);
    ContentsStep(es);
    if es == [] {
      SumKeys(m, map[]);
    } else {
      var init, e := es[..|es| - 1], es[|es| - 1];
      var f := Contents(init);
      TryAllSpec(m, init, size);
      if e.c > 0 {
        ContentsSpec(init);
        ListsStep(init, e, f);
        TryOne(m, f, e, size, TryAll(m, init, size).0, TryAll(m, init, size).1);
      }
    }
  }

  lemma TryAllStep(m: map<Key, (nat, int)>, es: seq<Entry>, size: nat)
    ensures es == [] ==> TryAll(m, es, size) == (m, true)
    ensures es != [] ==>
      var init, e := es[..|es| - 1], es[|es| - 1];
      var before := TryAll(m, init, size);
      var after := TryPut(before.0, e, size);
      TryAll(m, es, size) == if e.c == 0 then before else (after.0, before.1 && after.1)
  {}

  lemma ContentsStep(t: seq<Entry>)
    ensures t == [] ==> Contents(t) == map[]
    ensures t != [] ==>
      var m, e := Contents(t[..|t| - 1]), t[|t| - 1];
      Contents(t) == if e.c == 0 then m else m[e.key := (e.c, e.ok)]
  {}

  lemma SumKeys(m: map<Key, (nat, int)>, f: map<Key, (nat, int)>)
    ensures Sum(m, f).Keys == m.Keys + f.Keys && |Sum(m, f)| == |m.Keys + f.Keys|
    ensures f == map[] ==> Sum(m, f) == m && m.Keys + f.Keys == m.Keys
  {
    assert |Sum(m, f)| == |Sum(m, f).Keys|;
  }

  lemma SumPut(m: map<Key, (nat, int)>, f: map<Key, (nat, int)>, e: Entry)
    requires e.key !in f
    ensures Put(Sum(m, f), e.key, e.c, e.ok) == Sum(m, f[e.key := (e.c, e.ok)])
  {
    var l, r := Put(Sum(m, f), e.key, e.c, e.ok), Sum(m, f[e.key := (e.c, e.ok)]);
    assert l.Keys == r.Keys;
    forall key | key in l
      ensures l[key] == r[key]
    {
      assert key != e.key ==> (key in f <==> key in f[e.key := (e.c, e.ok)]);
    }
  }

  lemma TryOne(m: map<Key, (nat, int)>, f: map<Key, (nat, int)>, e: Entry, size: nat, m1: map<Key, (nat, int)>, r1: bool)
    requires e.key !in f && |m1| <= size && (r1 <==> |m.Keys + f.Keys| <= size) && (r1 ==> m1 == Sum(m, f))
    ensures var (m2, r2) := TryPut(m1, e, size);
            var f' := f[e.key := (e.c, e.ok)];
            && |m2| <= size && (r1 && r2 <==> |m.Keys + f'.Keys| <= size)
            && (r1 && r2 ==> m2 == Sum(m, f'))
  {
    hide Sum; hide Put; hide TryPut;
    var f' := f[e.key := (e.c, e.ok)];
    SumKeys(m, f);
    SumPut(m, f, e);
    KeysPlus(m.Keys, f, e);
    TryStep(m.Keys + f.Keys, Sum(m, f'), e, size, m1, r1);
  }

  lemma KeysPlus(keys: set<Key>, f: map<Key, (nat, int)>, e: Entry)
    ensures keys + f[e.key := (e.c, e.ok)].Keys == keys + f.Keys + {e.key}
  {}

  lemma TryStep(u: set<Key>, sum: map<Key, (nat, int)>, e: Entry, size: nat, m1: map<Key, (nat, int)>, r1: bool)
    requires |m1| <= size && (r1 <==> |u| <= size) && (r1 ==> m1.Keys == u && Put(m1, e.key, e.c, e.ok) == sum)
    ensures var after := TryPut(m1, e, size);
            && |after.0| <= size && (r1 && after.1 <==> |u + {e.key}| <= size) && (r1 && after.1 ==> after.0 == sum)
  {
    hide Put;
    OneMore(u, e.key);
    PutSize(m1, e);
    assert |m1| == |m1.Keys|;
  }

  lemma OneMore(keys: set<Key>, key: Key)
    ensures |keys + {key}| == |keys| + if key in keys then 0 else 1
  {
    if key in keys {
      assert keys + {key} == keys;
    }
  }

  lemma PutSize(m: map<Key, (nat, int)>, e: Entry)
    ensures |Put(m, e.key, e.c, e.ok)| == |m| + if e.key in m then 0 else 1
    ensures e.key in m.Keys <==> e.key in m
  {
    var m' := Put(m, e.key, e.c, e.ok);
    OneMore(m.Keys, e.key);
    assert m'.Keys == m.Keys + {e.key} && |m'| == |m'.Keys| && |m| == |m.Keys|;
  }

  // ---------------------------------------------------------------- the table

  class Table {
    const hash: Key -> nat
    const t: array<Entry>
    var nhash: nat

    ghost predicate Valid()
      reads this, t
    {
      t.Length > 0 && Probed(t[..], hash) && nhash == InUse(t[..])
    }

    constructor (size: nat, hash: Key -> nat, blank: Key)
      requires size > 0
      ensures Valid() && fresh(t) && t.Length == size && this.hash == hash && Contents(t[..]) == map[]
    {
      this.hash := hash;
      t := new Entry[size](_ => Entry(blank, 0, 0));
      nhash := 0;
      new;
      NothingInUse(t[..], hash);
    }

    /** hash_init */
    method HashInit(blank: Key)
      requires t.Length > 0
      modifies this, t
      ensures Valid() && nhash == 0 && Contents(t[..]) == map[]
    {
      nhash := 0;
      for k := 0 to t.Length
        invariant nhash == 0 && forall j :: 0 <= j < k ==> t[j].c == 0
      {
        t[k] := Entry(blank, 0, t[k].ok);
      }
      NothingInUse(t[..], hash);
    }

    method HashAdd(key: Key, c: nat, ok: int) returns (r: bool)
      requires Valid() && c > 0
      modifies this, t
      ensures Valid() && (Contents(t[..]), r) == TryPut(old(Contents(t[..])), Entry(key, c, ok), t.Length)
      ensures nhash == |Contents(t[..])| <= t.Length
    {
      hide Probed; hide Contents; hide InUse; hide Passed; hide Put; hide Once; hide Slot; hide Home;
      HomeInside(hash, key, t.Length);
      SlotZero(Home(hash, key, t.Length), t.Length);
      ghost var before := t[..];
      Counted(before, hash);
      var h := Home(hash, key, t.Length);
      ghost var home := h;
      NothingPassed(before, h, key);
      for k := 0 to t.Length
        invariant h == Slot(home, k, t.Length)
        invariant Passed(before, home, k, key)
        invariant t[..] == before && nhash == old(nhash)
      {
        var p := t[h];
        if p.c == 0 {
          NewEntry(before, hash, key, k, Entry(key, c, ok));
          t[h] := Entry(key, c, ok);
          assert t[..] == before[h := Entry(key, c, ok)];
          nhash := nhash + 1;
          Counted(t[..], hash);
          PutSize(Contents(before), Entry(key, c, ok));
          return true;
        } else if key == p.key {
          OldEntry(before, hash, h, c, ok);
          t[h] := p.(c := p.c + c);
          assert t[..] == before[h := p.(c := p.c + c)];
          Counted(t[..], hash);
          PutSize(Contents(before), Entry(key, c, ok));
          return true;
        }
        PassedNext(before, home, k, key);
        NextSlot(home, k, t.Length);
        h := h + 1;
        h := h % t.Length;
      }
      AllPassed(before, hash, key);
      return false;
    }

    /** Adds the entries of f; f is not changed. */
    method HashAdds(f: Table) returns (r: bool)
      requires Valid() && f.Valid() && f != this && f.t != t
      modifies this, t
      ensures Valid() && f.Valid() && f.t[..] == old(f.t[..])
      ensures (Contents(t[..]), r) == TryAll(old(Contents(t[..])), f.t[..], t.Length)
      ensures r <==> |old(Contents(t[..])).Keys + Contents(f.t[..]).Keys| <= t.Length
      ensures r ==> Contents(t[..]) == Sum(old(Contents(t[..])), Contents(f.t[..]))
    {
      hide Probed; hide Contents; hide InUse; hide TryPut; hide TryAll; hide Once; hide Sum;
      ghost var mine, theirs := Contents(t[..]), f.t[..];
      Counted(t[..], hash);
      Counted(theirs, f.hash);
      TryAllStep(mine, [], t.Length);
      r := true;
      for k := 0 to f.t.Length
        invariant Valid() && f.Valid() && f.t[..] == theirs
        invariant (Contents(t[..]), r) == TryAll(mine, theirs[..k], t.Length)
      {
        TryAllStep(mine, theirs[..k + 1], t.Length);
        assert theirs[..k + 1][..k] == theirs[..k];
        var p := f.t[k];
        if p.c > 0 {
          var rloc := HashAdd(p.key, p.c, p.ok);
          r := r && rloc;
        }
      }
      assert theirs[..f.t.Length] == theirs;
      TryAllSpec(mine, theirs, t.Length);
    }
  }

  lemma Counted(t: seq<Entry>, hash: Key -> nat)
    requires |t| > 0 && Probed(t, hash)
    ensures Once(t) && |Contents(t)| == InUse(t) <= |t|
  {
    ProbedOnce(t, hash);
    ContentsSpec(t);
    InUseFull(t);
  }

  lemma HomeInside(hash: Key -> nat, key: Key, n: nat)
    requires n > 0
    ensures 0 <= Home(hash, key, n) < n
  {}

  lemma SlotZero(home: nat, n: nat)
    requires home < n
    ensures Slot(home, 0, n) == home
    ensures forall k: nat :: k <= n ==> 0 <= Slot(home, k, n) < n
  {}

  lemma NextSlot(home: nat, k: nat, n: nat)
    requires home < n && k < n
    ensures (Slot(home, k, n) + 1) % n == Slot(home, k + 1, n)
  {}

  lemma NothingPassed(t: seq<Entry>, home: nat, key: Key)
    requires home < |t|
    ensures Passed(t, home, 0, key)
  {}

  lemma PassedNext(t: seq<Entry>, home: nat, k: nat, key: Key)
    requires home < |t| && k < |t| && Passed(t, home, k, key)
    requires t[Slot(home, k, |t|)].c > 0 && t[Slot(home, k, |t|)].key != key
    ensures Passed(t, home, k + 1, key)
  {}

  lemma {:induction false} NothingInUse(t: seq<Entry>, hash: Key -> nat)
    requires |t| > 0 ==> forall j :: 0 <= j < |t| ==> t[j].c == 0
    ensures Contents(t) == map[] && InUse(t) == 0 && (|t| > 0 ==> Probed(t, hash))
    decreases |t|
  {
    if t != [] {
      NothingInUse(t[..|t| - 1], hash);
    }
  }
}
