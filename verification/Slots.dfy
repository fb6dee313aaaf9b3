/** Vectors whose elements carry an id: `Vec<Store>` and `Vec<Index>`. */
module Slots {
  import opened Options

  datatype Slot<T> = Slot(id: nat, body: T)

  predicate Distinct<T>(s: seq<Slot<T>>) {
    forall i, j :: 0 <= i < j < |s| ==> s[i].id != s[j].id
  }

  /** The elements by id, whatever their order. */
  function ById<T>(s: seq<Slot<T>>): map<nat, T>
    requires Distinct(s)
  {
    map i | 0 <= i < |s| :: s[i].id := s[i].body
  }

  /** `iter_mut().find(|x| x.id == id)` */
  method FindId<T>(s: seq<Slot<T>>, id: nat) returns (pos: Option<nat>)
    ensures match pos
            case None => forall i :: 0 <= i < |s| ==> s[i].id != id
            case Some(p) => p < |s| && s[p].id == id
  {
    for i := 0 to |s|
      invariant forall j :: 0 <= j < i ==> s[j].id != id
    {
      if s[i].id == id {
        return Some(i);
      }
    }
    return None;
  }

  lemma HasId<T>(s: seq<Slot<T>>, i: nat)
    requires Distinct(s) && i < |s|
    ensures s[i].id in ById(s) && ById(s)[s[i].id] == s[i].body
  {
  }

  lemma IdAt<T>(s: seq<Slot<T>>, id: nat) returns (j: nat)
    requires Distinct(s) && id in ById(s)
    ensures j < |s| && s[j].id == id
  {
    j :| 0 <= j < |s| && s[j].id == id;
  }

  lemma NoId<T>(s: seq<Slot<T>>, id: nat)
    requires Distinct(s) && forall i :: 0 <= i < |s| ==> s[i].id != id
    ensures id !in ById(s)
  {
  }

  /** The view by id, from its members. */
  lemma ByMembers<T>(r: seq<Slot<T>>, m: map<nat, T>)
    requires Distinct(r)
    requires forall i :: 0 <= i < |r| ==> r[i].id in m && m[r[i].id] == r[i].body
    requires forall k :: k in m ==> exists i :: 0 <= i < |r| && r[i].id == k
    ensures ById(r) == m
  {
    var n := ById(r);
    forall k
      ensures (k in m <==> k in n) && (k in m ==> m[k] == n[k])
    {
      if k in m {
        var i :| 0 <= i < |r| && r[i].id == k;
        HasId(r, i);
      }
    }
  }

  /** `retain(|x| x.id != id)` */
  method Retain<T>(s: seq<Slot<T>>, id: nat) returns (r: seq<Slot<T>>)
    requires Distinct(s)
    ensures Distinct(r) && ById(r) == ById(s) - {id}
    ensures forall x :: x in r ==> x in s
  {
    r := [];
    for i := 0 to |s|
      invariant forall x :: x in r ==> x.id != id && exists j :: 0 <= j < i && s[j] == x
      invariant Distinct(r)
      invariant forall j :: 0 <= j < i && s[j].id != id ==> s[j] in r
    {
      if s[i].id != id {
        forall x | x in r
          ensures x.id != s[i].id
        {
          var j :| 0 <= j < i && s[j] == x;
        }
        assert forall j :: 0 <= j < |r| ==> r[j] in r;
        r := r + [s[i]];
      }
    }
    forall i | 0 <= i < |r|
      ensures r[i].id in ById(s) - {id} && ById(s)[r[i].id] == r[i].body
    {
      assert r[i] in r;
      var j :| 0 <= j < |s| && s[j] == r[i];
      HasId(s, j);
    }
    forall k | k in ById(s) - {id}
      ensures exists i :: 0 <= i < |r| && r[i].id == k
    {
      var j :| 0 <= j < |s| && s[j].id == k;
      assert s[j] in r;
    }
    ByMembers(r, ById(s) - {id});
  }

  lemma SetSlot<T>(s: seq<Slot<T>>, i: nat, b: T)
    requires Distinct(s) && i < |s|
    ensures Distinct(s[i := Slot(s[i].id, b)])
    ensures ById(s[i := Slot(s[i].id, b)]) == ById(s)[s[i].id := b]
  {
    var t := s[i := Slot(s[i].id, b)];
    forall j | 0 <= j < |t|
      ensures t[j].id == s[j].id
    {
    }
    SameMap(ById(t), ById(s)[s[i].id := b]);
  }

  lemma SameMap<T>(m: map<nat, T>, n: map<nat, T>)
    requires m.Keys == n.Keys && forall k :: k in m ==> m[k] == n[k]
    ensures m == n
  {
  }

  lemma PushSlot<T>(s: seq<Slot<T>>, id: nat, b: T)
    requires Distinct(s) && id !in ById(s)
    ensures Distinct(s + [Slot(id, b)])
    ensures ById(s + [Slot(id, b)]) == ById(s)[id := b]
  {
    forall i | 0 <= i < |s|
      ensures s[i].id != id && s[i].id in ById(s) && ById(s)[s[i].id] == s[i].body
    {
      HasId(s, i);
    }
    var r, m := s + [Slot(id, b)], ById(s)[id := b];
    forall k | k in m
      ensures exists i :: 0 <= i < |r| && r[i].id == k
    {
      if k == id {
        assert r[|s|].id == k;
      } else {
        var i :| 0 <= i < |s| && s[i].id == k;
        assert r[i].id == k;
      }
    }
    ByMembers(r, m);
  }

  /** `Vec::remove(pos)` */
  function Without<T>(s: seq<Slot<T>>, i: nat): (r: seq<Slot<T>>)
    requires i < |s|
    ensures |r| == |s| - 1
    ensures forall j :: 0 <= j < |r| ==> r[j] == s[if j < i then j else j + 1]
  {
    s[..i] + s[i + 1..]
  }

  lemma RemoveSlot<T>(s: seq<Slot<T>>, i: nat)
    requires Distinct(s) && i < |s|
    ensures Distinct(Without(s, i))
    ensures ById(Without(s, i)) == ById(s) - {s[i].id}
  {
    var r, m := Without(s, i), ById(s) - {s[i].id};
    forall j | 0 <= j < |r|
      ensures r[j].id in m && m[r[j].id] == r[j].body
    {
      HasId(s, if j < i then j else j + 1);
    }
    forall k | k in m
      ensures exists j :: 0 <= j < |r| && r[j].id == k
    {
      KeptSlot(s, i, k);
    }
    hide ById, Without;
    ByMembers(r, m);
  }

  lemma KeptSlot<T>(s: seq<Slot<T>>, i: nat, k: nat)
    requires Distinct(s) && i < |s| && k in ById(s) && k != s[i].id
    ensures exists j :: 0 <= j < |Without(s, i)| && Without(s, i)[j].id == k
  {
    var j :| 0 <= j < |s| && s[j].id == k;
    assert Without(s, i)[if j < i then j else j - 1] == s[j];
  }
}
