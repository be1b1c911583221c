/** The growing table of queued tasks (litmus/libdir/_utils.c). */
module TaskTable {
  class Table<T(0)> {
    var sz: nat
    var next: nat
    var t: array<T>

    ghost predicate Valid()
      reads this
    {
      next <= sz == t.Length
    }

    /** The queued tasks, the last pushed last. */
    ghost function Contents(): seq<T>
      requires Valid()
      reads this, t
    {
      t[..next]
    }

    constructor Create()
      ensures Valid() && Contents() == [] && fresh(t)
    {
      sz, next, t := 0, 0, new T[0];
    }

    method Push(p: T)
      requires Valid()
      modifies this, t
      ensures Valid() && Contents() == old(Contents()) + [p]
      ensures t == old(t) || fresh(t)
    {
      if next >= sz {
        var bigger := new T[2 * sz + 1];
        forall i | 0 <= i < next {
          bigger[i] := t[i];
        }
        assert bigger[..next] == old(Contents());
        sz, t := 2 * sz + 1, bigger;
      }
      t[next] := p;
      next := next + 1;
    }

    method Pop() returns (p: T)
      requires Valid() && next > 0
      modifies this
      ensures Valid() && old(Contents()) == Contents() + [p] && t == old(t)
    {
      next := next - 1;
      p := t[next];
    }
  }
}
