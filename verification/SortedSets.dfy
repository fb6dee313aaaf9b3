/** The sorted sets of the engine: a BTreeSet, or the keys of a BTreeMap, is a
    finite set of byte strings iterated in ascending order. */
module SortedSets {
  import opened ByteStrings
  import opened Ranges

  predicate IsMin(m: Bytes, s: set<Bytes>) {
    m in s && forall x :: x in s ==> AtMost(m, x)
  }

  lemma {:induction false} MinExists(s: set<Bytes>)
    requires s != {}
    ensures exists m :: IsMin(m, s)
  {
    var x :| x in s;
    if s == {x} {
      assert IsMin(x, s);
    } else {
      MinExists(s - {x});
      var m :| IsMin(m, s - {x});
      LessIsTotal(x, m);
      if Less(x, m) {
        forall y | y in s
          ensures AtMost(x, y)
        {
          if y != x && y != m {
            assert y in s - {x};
            LessIsTransitive(x, m, y);
          }
        }
        assert IsMin(x, s);
      } else {
        assert IsMin(m, s);
      }
    }
  }

  lemma MinUnique(a: Bytes, b: Bytes, s: set<Bytes>)
    requires IsMin(a, s) && IsMin(b, s)
    ensures a == b
  {
    LessIsStrict(a, b);
  }

  /** `iter().next()` of a non-empty set. */
  function Min(s: set<Bytes>): (m: Bytes)
    requires s != {}
    ensures IsMin(m, s)
  {
    MinExists(s);
    assert forall a, b :: IsMin(a, s) && IsMin(b, s) ==> a == b by {
      forall a, b | IsMin(a, s) && IsMin(b, s)
        ensures a == b
      {
        MinUnique(a, b, s);
      }
    }
    var m :| m in s && IsMin(m, s);
    m
  }

  predicate Ascends(q: seq<Bytes>) {
    forall i, j :: 0 <= i < j < |q| ==> Less(q[i], q[j])
  }

  /** The elements in iteration order. */
  function Ascending(s: set<Bytes>): (q: seq<Bytes>)
    ensures Ascends(q)
    ensures forall x :: x in q <==> x in s
    ensures |q| == |s|
    decreases |s|
  {
    if s == {} then []
    else
      var m := Min(s);
      assert forall x :: x in s - {m} ==> Less(m, x);
      [m] + Ascending(s - {m})
  }

  /** What `range(lo..hi)` iterates over. */
  function Within(s: set<Bytes>, r: Range): set<Bytes> {
    set x | x in s && Contains(r, x)
  }

  /** The iteration over a tree's range; callers show that the tree accepts it. */
  function Scan(s: set<Bytes>, r: Range): seq<Bytes>
    requires !Panics(r)
  {
    Ascending(Within(s, r))
  }

  /** A set has one ascending enumeration. */
  lemma {:induction false} AscendingUnique(q: seq<Bytes>, s: set<Bytes>)
    requires Ascends(q) && forall x :: x in q <==> x in s
    ensures q == Ascending(s)
    decreases |q|
  {
    if q == [] {
      assert s == {};
    } else {
      assert q[0] in s;
      forall x | x in s
        ensures AtMost(q[0], x)
      {
        var i :| 0 <= i < |q| && q[i] == x;
      }
      MinUnique(q[0], Min(s), s);
      forall x
        ensures x in q[1..] <==> x in s - {q[0]}
      {
        LessIsStrict(q[0], q[0]);
        if x in s - {q[0]} {
          var i :| 0 <= i < |q| && q[i] == x;
          assert q[1..][i - 1] == x;
        }
      }
      AscendingUnique(q[1..], s - {q[0]});
    }
  }

  function SetOf(q: seq<Bytes>): set<Bytes> {
    set x | x in q
  }

  lemma SetOfLast(q: seq<Bytes>)
    requires q != []
    ensures SetOf(q) == SetOf(q[..|q| - 1]) + {q[|q| - 1]}
  {
  }

  predicate NoRepeats(q: seq<Bytes>) {
    forall i, j :: 0 <= i < j < |q| ==> q[i] != q[j]
  }

  lemma AscendingDistinct(q: seq<Bytes>)
    requires Ascends(q)
    ensures NoRepeats(q)
  {
    forall i, j | 0 <= i < j < |q|
      ensures q[i] != q[j]
    {
      LessIsStrict(q[i], q[j]);
    }
  }

  lemma MinIsHead(s: set<Bytes>)
    requires s != {}
    ensures Ascending(s)[0] == Min(s)
  {
  }
}
