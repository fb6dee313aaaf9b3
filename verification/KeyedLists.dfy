/** Lists of keyed values in descending order of their keys, sorted stably as
    `sort_by(|a, b| b.0.cmp(&a.0))` does. */
module KeyedLists {

  datatype Entry<T> = Entry(key: string, value: T)

  // ---- the order of keys --------------------------------------------------------------------

  predicate Less(a: string, b: string) {
    b != "" && (a == "" || a[0] < b[0] || (a[0] == b[0] && Less(a[1..], b[1..])))
  }

  lemma {:induction false} LessIsStrict(a: string, b: string)
    ensures !Less(a, a) && !(Less(a, b) && Less(b, a))
  {
    if a != "" {
      LessIsStrict(a[1..], if b == "" then b else b[1..]);
    }
  }

  lemma {:induction false} LessIsTotal(a: string, b: string)
    ensures Less(a, b) || a == b || Less(b, a)
  {
    if a != "" && b != "" && a[0] == b[0] {
      LessIsTotal(a[1..], b[1..]);
      assert a == [a[0]] + a[1..] && b == [b[0]] + b[1..];
    }
  }

  lemma {:induction false} LessIsTransitive(a: string, b: string, c: string)
    requires Less(a, b) && Less(b, c)
    ensures Less(a, c)
  {
    if a != "" && a[0] == b[0] && b[0] == c[0] {
      LessIsTransitive(a[1..], b[1..], c[1..]);
    }
  }

  /** A proper prefix comes before what it is a prefix of. */
  lemma {:induction false} PrefixIsLess(a: string, b: string)
    requires a <= b && a != b
    ensures Less(a, b)
  {
    if a != "" {
      assert a[0] == b[0] && a[1..] <= b[1..];
      assert a == [a[0]] + a[1..] && b == [b[0]] + b[1..];
      PrefixIsLess(a[1..], b[1..]);
    }
  }

  // ---- sorting --------------------------------------------------------------------------------

  /** No key comes after a lesser one; equal keys stand together. */
  ghost predicate Ordered<T>(v: seq<Entry<T>>) {
    forall i, j :: 0 <= i < j < |v| ==> !Less(v[i].key, v[j].key)
  }

  predicate HasKey<T>(v: seq<Entry<T>>, k: string) {
    exists i :: 0 <= i < |v| && v[i].key == k
  }

  /** Into an ordered list, after every entry of the same key. */
  function Inserted<T>(v: seq<Entry<T>>, e: Entry<T>): (r: seq<Entry<T>>)
    ensures |r| == |v| + 1
  {
    if v == [] then [e]
    else if Less(v[0].key, e.key) then [e] + v
    else [v[0]] + Inserted(v[1..], e)
  }

  /** The list in descending order of its keys, equal keys as they came. */
  function Sorted<T>(v: seq<Entry<T>>): (r: seq<Entry<T>>)
    ensures |r| == |v|
  {
    if v == [] then [] else Inserted(Sorted(v[..|v| - 1]), v[|v| - 1])
  }

  /** The values of a key, in order. */
  function Group<T>(v: seq<Entry<T>>, k: string): seq<T> {
    if v == [] then [] else (if v[0].key == k then [v[0].value] else []) + Group(v[1..], k)
  }

  lemma {:induction false} GroupKey<T>(v: seq<Entry<T>>, k: string)
    ensures Group(v, k) != [] <==> HasKey(v, k)
  {
    if v != [] {
      GroupKey(v[1..], k);
      if HasKey(v[1..], k) {
        var i :| 0 <= i < |v[1..]| && v[1..][i].key == k;
        assert v[i + 1].key == k;
      }
      if HasKey(v, k) && v[0].key != k {
        var i :| 0 <= i < |v| && v[i].key == k;
        assert v[1..][i - 1].key == k;
      }
    }
  }

  lemma GroupCons<T>(e: Entry<T>, v: seq<Entry<T>>, k: string)
    ensures Group([e] + v, k) == (if e.key == k then [e.value] else []) + Group(v, k)
  {
    assert ([e] + v)[1..] == v;
  }

  lemma GroupJoinStep<T>(e: Entry<T>, a: seq<Entry<T>>, b: seq<Entry<T>>, k: string)
    requires Group(a + b, k) == Group(a, k) + Group(b, k)
    ensures Group([e] + a + b, k) == Group([e] + a, k) + Group(b, k)
  {
    hide Group;
    GroupCons(e, a, k);
    GroupCons(e, a + b, k);
    assert [e] + a + b == [e] + (a + b);
  }

  lemma {:induction false} GroupJoin<T>(a: seq<Entry<T>>, b: seq<Entry<T>>, k: string)
    ensures Group(a + b, k) == Group(a, k) + Group(b, k)
  {
    if a == [] {
      assert a + b == b;
    } else {
      GroupJoin(a[1..], b, k);
      GroupJoinStep(a[0], a[1..], b, k);
      assert [a[0]] + a[1..] == a;
    }
  }

  lemma GroupOne<T>(e: Entry<T>, k: string)
    ensures Group([e], k) == if e.key == k then [e.value] else []
  {
    assert [e][1..] == [];
  }

  lemma GroupSnoc<T>(v: seq<Entry<T>>, e: Entry<T>, k: string)
    ensures Group(v + [e], k) == Group(v, k) + if e.key == k then [e.value] else []
  {
    GroupJoin(v, [e], k);
    GroupOne(e, k);
  }

  /** In an ordered list nothing equals or exceeds a key above the first. */
  lemma NoneAbove<T>(v: seq<Entry<T>>, k: string)
    requires Ordered(v) && v != [] && Less(v[0].key, k)
    ensures Group(v, k) == []
    ensures forall i :: 0 <= i < |v| ==> Less(v[i].key, k)
  {
    forall i | 0 <= i < |v|
      ensures Less(v[i].key, k) && v[i].key != k
    {
      LessIsTotal(v[0].key, v[i].key);
      if Less(v[i].key, v[0].key) {
        LessIsTransitive(v[i].key, v[0].key, k);
      }
      LessIsStrict(v[i].key, k);
    }
    GroupKey(v, k);
  }

  lemma {:induction false} GroupInserted<T>(v: seq<Entry<T>>, e: Entry<T>, k: string)
    requires Ordered(v)
    ensures Group(Inserted(v, e), k) == Group(v, k) + if e.key == k then [e.value] else []
  {
    if v == [] {
      GroupOne(e, k);
    } else if Less(v[0].key, e.key) {
      NoneAbove(v, e.key);
      GroupCons(e, v, k);
    } else {
      GroupInserted(v[1..], e, k);
      GroupCons(v[0], Inserted(v[1..], e), k);
    }
  }

  /** Inserting keeps the order. */
  lemma {:induction false} InsertedOrdered<T>(v: seq<Entry<T>>, e: Entry<T>)
    requires Ordered(v)
    ensures Ordered(Inserted(v, e))
    ensures forall i :: 0 <= i <= |v| ==> Inserted(v, e)[i] == e || Inserted(v, e)[i] in v
  {
    if v != [] {
      if Less(v[0].key, e.key) {
        NoneAbove(v, e.key);
        forall j | 0 <= j < |v|
          ensures !Less(e.key, v[j].key)
        {
          LessIsStrict(e.key, v[j].key);
        }
      } else {
        InsertedOrdered(v[1..], e);
        var r := Inserted(v[1..], e);
        forall j | 0 <= j < |r|
          ensures !Less(v[0].key, r[j].key) && (r[j] == e || r[j] in v)
        {
          if r[j] != e {
            var i :| 0 <= i < |v[1..]| && v[1..][i] == r[j];
            assert v[i + 1] == r[j];
          }
        }
      }
    }
  }

  lemma {:induction false} SortedOrdered<T>(v: seq<Entry<T>>)
    ensures Ordered(Sorted(v))
    ensures forall i :: 0 <= i < |v| ==> Sorted(v)[i] in v
  {
    if v != [] {
      var front := v[..|v| - 1];
      SortedOrdered(front);
      InsertedOrdered(Sorted(front), v[|v| - 1]);
      forall i | 0 <= i < |v|
        ensures Sorted(v)[i] in v
      {
        if Sorted(v)[i] != v[|v| - 1] {
          var j :| 0 <= j < |front| && Sorted(front)[j] == Sorted(v)[i];
          assert Sorted(front)[j] in front;
        }
      }
    }
  }

  /** Sorting is stable: every key keeps its values in their order. */
  lemma {:induction false} GroupSorted<T>(v: seq<Entry<T>>, k: string)
    ensures Group(Sorted(v), k) == Group(v, k)
  {
    if v != [] {
      var front, last := v[..|v| - 1], v[|v| - 1];
      GroupSorted(front, k);
      SortedOrdered(front);
      GroupInserted(Sorted(front), last, k);
      GroupSnoc(front, last, k);
      assert front + [last] == v;
    }
  }

  /** An ordered list is the only one with its values for every key. */
  lemma {:induction false} SameGroups<T>(v: seq<Entry<T>>, w: seq<Entry<T>>)
    requires Ordered(v) && Ordered(w) && forall k :: Group(v, k) == Group(w, k)
    ensures v == w
    decreases |v|
  {
    if v == [] {
      if w != [] {
        GroupKey(w, w[0].key);
        GroupKey(v, w[0].key);
      }
    } else {
      SameHead(v, w);
      forall k
        ensures Group(v[1..], k) == Group(w[1..], k)
      {
        TailGroups(v, w, k);
      }
      SameGroups(v[1..], w[1..]);
      assert v == [v[0]] + v[1..] && w == [w[0]] + w[1..];
    }
  }

  lemma SameHead<T>(v: seq<Entry<T>>, w: seq<Entry<T>>)
    requires Ordered(v) && Ordered(w) && v != [] && forall k :: Group(v, k) == Group(w, k)
    ensures w != [] && v[0] == w[0]
  {
    GroupKey(v, v[0].key);
    GroupKey(w, v[0].key);
    var i :| 0 <= i < |w| && w[i].key == v[0].key;
    GroupKey(w, w[0].key);
    GroupKey(v, w[0].key);
    var j :| 0 <= j < |v| && v[j].key == w[0].key;
    LessIsTotal(v[0].key, w[0].key);
    assert Group(v, v[0].key)[0] == v[0].value;
    assert Group(w, w[0].key)[0] == w[0].value;
  }

  lemma TailGroups<T>(v: seq<Entry<T>>, w: seq<Entry<T>>, k: string)
    requires v != [] && w != [] && v[0] == w[0] && Group(v, k) == Group(w, k)
    ensures Group(v[1..], k) == Group(w[1..], k)
  {
    var n := if v[0].key == k then 1 else 0;
    assert Group(v[1..], k) == Group(v, k)[n..];
    assert Group(w[1..], k) == Group(w, k)[n..];
  }

  // ---- adding what is missing --------------------------------------------------------------------

  /** `a` with every entry of `b` whose key was not there when its turn came. */
  function Pushed<T>(a: seq<Entry<T>>, b: seq<Entry<T>>): seq<Entry<T>> {
    if b == [] then a
    else
      var front, last := b[..|b| - 1], b[|b| - 1];
      var r := Pushed(a, front);
      if HasKey(r, last.key) then r else r + [last]
  }

  function Union<T>(a: seq<Entry<T>>, b: seq<Entry<T>>): seq<Entry<T>> {
    Sorted(Pushed(a, b))
  }

  function First<T>(g: seq<T>): seq<T> {
    if g == [] then [] else [g[0]]
  }

  lemma {:induction false} GroupPushed<T>(a: seq<Entry<T>>, b: seq<Entry<T>>, k: string)
    ensures Group(Pushed(a, b), k) == if Group(a, k) != [] then Group(a, k) else First(Group(b, k))
  {
    if b != [] {
      var front, last := b[..|b| - 1], b[|b| - 1];
      GroupPushed(a, front, k);
      var r := Pushed(a, front);
      GroupKey(r, last.key);
      GroupSnoc(r, last, k);
      GroupSnoc(front, last, k);
      assert front + [last] == b;
    }
  }

  /** A left-biased union: a key of the first list keeps its values, and a key
      only the second has gets the first of its values there. */
  lemma UnionIsLeftBiased<T>(a: seq<Entry<T>>, b: seq<Entry<T>>, k: string)
    ensures Ordered(Union(a, b))
    ensures Group(Union(a, b), k) == if Group(a, k) != [] then Group(a, k) else First(Group(b, k))
  {
    SortedOrdered(Pushed(a, b));
    GroupSorted(Pushed(a, b), k);
    GroupPushed(a, b, k);
  }

  lemma UnionAssociative<T>(a: seq<Entry<T>>, b: seq<Entry<T>>, c: seq<Entry<T>>)
    ensures Union(Union(a, b), c) == Union(a, Union(b, c))
  {
    var x, y := Union(Union(a, b), c), Union(a, Union(b, c));
    forall k
      ensures Group(x, k) == Group(y, k)
    {
      UnionIsLeftBiased(a, b, k);
      UnionIsLeftBiased(Union(a, b), c, k);
      UnionIsLeftBiased(b, c, k);
      UnionIsLeftBiased(a, Union(b, c), k);
    }
    SortedOrdered(Pushed(Union(a, b), c));
    SortedOrdered(Pushed(a, Union(b, c)));
    SameGroups(x, y);
  }

  /** A list of lists united from left to right. */
  function UnionAll<T>(lists: seq<seq<Entry<T>>>): seq<Entry<T>>
    requires lists != []
  {
    if |lists| == 1 then lists[0] else Union(UnionAll(lists[..|lists| - 1]), lists[|lists| - 1])
  }

  /** The values of a key in the first list that has it, one of them unless that
      is the very first list. */
  function GroupAll<T>(lists: seq<seq<Entry<T>>>, k: string): seq<T>
    requires lists != []
  {
    if |lists| == 1 then Group(lists[0], k)
    else
      var g := GroupAll(lists[..|lists| - 1], k);
      if g != [] then g else First(Group(lists[|lists| - 1], k))
  }

  lemma {:induction false} UnionAllGroups<T>(lists: seq<seq<Entry<T>>>, k: string)
    requires lists != []
    ensures Group(UnionAll(lists), k) == GroupAll(lists, k)
    ensures |lists| > 1 ==> Ordered(UnionAll(lists))
    decreases |lists|
  {
    if |lists| > 1 {
      UnionAllGroups(lists[..|lists| - 1], k);
      UnionIsLeftBiased(UnionAll(lists[..|lists| - 1]), lists[|lists| - 1], k);
    }
  }

  /** Later lists only matter for a key the earlier ones lack. */
  lemma {:induction false} GroupAllJoin<T>(a: seq<seq<Entry<T>>>, b: seq<seq<Entry<T>>>, k: string)
    requires a != []
    ensures GroupAll(a + b, k) ==
            if b == [] || GroupAll(a, k) != [] then GroupAll(a, k) else First(GroupAll(b, k))
    decreases |b|
  {
    if b == [] {
      assert a + b == a;
    } else {
      var front, last := b[..|b| - 1], b[|b| - 1];
      assert (a + b)[..|a + b| - 1] == a + front;
      GroupAllJoin(a, front, k);
    }
  }
}
