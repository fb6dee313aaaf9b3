/** Things held by id and found by name: the view of them by name. */
module ByName {
  import opened Options

  ghost predicate Unique<U(!new)>(m: map<nat, (string, U)>) {
    forall i, j :: i in m && j in m && m[i].0 == m[j].0 ==> i == j
  }

  ghost function IdOf<U(!new)>(m: map<nat, (string, U)>, name: string): (r: Option<nat>)
    ensures r.Some? <==> exists i :: i in m && m[i].0 == name
    ensures r.Some? ==> r.value in m && m[r.value].0 == name
  {
    if exists i :: i in m && m[i].0 == name then
      var i :| i in m && m[i].0 == name;
      Some(i)
    else None
  }

  ghost function View<U(!new)>(m: map<nat, (string, U)>): map<string, U> {
    map n | n in (set i | i in m :: m[i].0) :: m[IdOf(m, n).value].1
  }

  lemma Lookup<U(!new)>(m: map<nat, (string, U)>, i: nat)
    requires Unique(m) && i in m
    ensures IdOf(m, m[i].0) == Some(i) && m[i].0 in View(m) && View(m)[m[i].0] == m[i].1
  {
  }

  lemma Present<U(!new)>(m: map<nat, (string, U)>, n: string)
    requires Unique(m)
    ensures n in View(m) <==> exists i :: i in m && m[i].0 == n
    ensures n in View(m) ==> IdOf(m, n).Some? && View(m)[n] == m[IdOf(m, n).value].1
  {
  }

  /** Setting an entry replaces what its id had under the old name. */
  lemma SetEntry<U(!new)>(m: map<nat, (string, U)>, i: nat, n: string, u: U)
    requires Unique(m) && forall j :: j in m && m[j].0 == n ==> j == i
    ensures Unique(m[i := (n, u)])
    ensures View(m[i := (n, u)]) == (if i in m then View(m) - {m[i].0} else View(m))[n := u]
  {
    hide View;
    var w := m[i := (n, u)];
    var x, y := View(w), (if i in m then View(m) - {m[i].0} else View(m))[n := u];
    Lookup(w, i);
    forall l
      ensures (l in x <==> l in y) && (l in x ==> x[l] == y[l])
    {
      Present(w, l);
      Present(m, l);
      if l in x && l != n {
        var j := IdOf(w, l).value;
        assert j != i && m[j] == w[j];
        Lookup(m, j);
      }
      if l in y && l != n {
        var j := IdOf(m, l).value;
        assert j != i;
        assert w[j] == m[j];
        Lookup(w, j);
      }
    }
  }

  lemma DropEntry<U(!new)>(m: map<nat, (string, U)>, i: nat)
    requires Unique(m) && i in m
    ensures Unique(m - {i})
    ensures View(m - {i}) == View(m) - {m[i].0}
  {
    hide View;
    var w := m - {i};
    var x, y := View(w), View(m) - {m[i].0};
    forall l
      ensures (l in x <==> l in y) && (l in x ==> x[l] == y[l])
    {
      Present(w, l);
      Present(m, l);
      if l in x {
        var j := IdOf(w, l).value;
        assert m[j] == w[j];
        Lookup(m, j);
      }
      if l in y {
        var j := IdOf(m, l).value;
        assert j in w && w[j] == m[j];
        Lookup(w, j);
      }
    }
  }

  /** Setting an entry that keeps its name. */
  lemma SetSame<U(!new)>(m: map<nat, (string, U)>, i: nat, u: U)
    requires Unique(m) && i in m
    ensures Unique(m[i := (m[i].0, u)])
    ensures View(m[i := (m[i].0, u)]) == View(m)[m[i].0 := u]
  {
    SetEntry(m, i, m[i].0, u);
    assert (View(m) - {m[i].0})[m[i].0 := u] == View(m)[m[i].0 := u];
  }

  /** A new entry under a new name. */
  lemma AddEntry<U(!new)>(m: map<nat, (string, U)>, i: nat, n: string, u: U)
    requires Unique(m) && i !in m && forall j :: j in m ==> m[j].0 != n
    ensures Unique(m[i := (n, u)])
    ensures View(m[i := (n, u)]) == View(m)[n := u]
  {
    SetEntry(m, i, n, u);
  }

  lemma EmptyView<U(!new)>()
    ensures View<U>(map[]) == map[]
  {
  }
}
