/** The order of keys in the words of the standard (section 2.4), and key ranges
    in terms of it. */
module KeyOrder {
  import opened ByteStrings
  import opened Doubles
  import opened Keys
  import opened Ranges

  /** Any number is below any date, any date below any string, any string below any
      binary key, and any of those below any array. */
  lemma KindsInOrder(x: Double, y: Double, units: seq<u16>, bytes: Bytes, items: seq<Key>)
    ensures Compare(Num(x), Date(y)) == Lt && Compare(Date(y), Str(units)) == Lt
    ensures Compare(Str(units), Bin(bytes)) == Lt && Compare(Bin(bytes), Arr(items)) == Lt
  {
  }

  /** Numbers and dates go by their value. */
  lemma NumbersByValue(x: Double, y: Double)
    ensures Compare(Num(x), Num(y)) == Lt <==> Value(x) < Value(y)
    ensures Compare(Num(x), Num(y)) == Eq <==> Value(x) == Value(y)
    ensures Compare(Date(x), Date(y)) == Lt <==> Value(x) < Value(y)
    ensures Compare(Date(x), Date(y)) == Eq <==> Value(x) == Value(y)
  {
    hide Value;
  }

  /** The two agree before `i`, where the first one ends or has the smaller element. */
  ghost predicate LessAt(a: seq<int>, b: seq<int>, i: nat) {
    i <= |a| && i < |b| && (forall j :: 0 <= j < i ==> a[j] == b[j]) && (i == |a| || a[i] < b[i])
  }

  lemma {:induction false} SeqsByElement(a: seq<int>, b: seq<int>)
    ensures CompareSeqs(a, b) == Eq <==> a == b
    ensures CompareSeqs(a, b) == Lt <==> exists i :: LessAt(a, b, i)
  {
    if a == [] || b == [] || a[0] != b[0] {
      if b != [] && CompareSeqs(a, b) == Lt {
        assert LessAt(a, b, 0);
      }
    } else {
      SeqsByElement(a[1..], b[1..]);
      assert a == [a[0]] + a[1..] && b == [b[0]] + b[1..];
      if i: nat :| LessAt(a[1..], b[1..], i) {
        LaterElement(a, b, i);
      }
      if i: nat :| LessAt(a, b, i) {
        assert i > 0 && LessAt(a[1..], b[1..], i - 1);
      }
    }
  }

  lemma LaterElement(a: seq<int>, b: seq<int>, i: nat)
    requires a != [] && b != [] && a[0] == b[0] && LessAt(a[1..], b[1..], i)
    ensures LessAt(a, b, i + 1)
  {
    forall j | 0 <= j < i + 1
      ensures a[j] == b[j]
    {
      if j > 0 {
        assert a[1..][j - 1] == b[1..][j - 1];
      }
    }
  }

  /** Strings by their code units and binary keys by their bytes, lexicographically. */
  lemma StringsByUnit(a: seq<u16>, b: seq<u16>)
    ensures Compare(Str(a), Str(b)) == Eq <==> a == b
    ensures Compare(Str(a), Str(b)) == Lt <==> exists i :: LessAt(a, b, i)
  {
    SeqsByElement(a, b);
  }

  lemma BytesByByte(a: Bytes, b: Bytes)
    ensures Compare(Bin(a), Bin(b)) == Eq <==> a == b
    ensures Compare(Bin(a), Bin(b)) == Lt <==> exists i :: LessAt(a, b, i)
  {
    SeqsByElement(a, b);
  }

  ghost predicate ItemsLessAt(a: seq<Key>, b: seq<Key>, i: nat) {
    i <= |a| && i < |b| && (forall j :: 0 <= j < i ==> Compare(a[j], b[j]) == Eq) &&
    (i == |a| || Compare(a[i], b[i]) == Lt)
  }

  ghost predicate ItemsEqual(a: seq<Key>, b: seq<Key>) {
    |a| == |b| && forall i :: 0 <= i < |a| ==> Compare(a[i], b[i]) == Eq
  }

  lemma {:induction false} ItemsInOrder(a: seq<Key>, b: seq<Key>)
    ensures CompareItems(a, b) == Eq <==> ItemsEqual(a, b)
    ensures CompareItems(a, b) == Lt <==> exists i :: ItemsLessAt(a, b, i)
  {
    hide Compare;
    if a == [] || b == [] || Compare(a[0], b[0]) != Eq {
      if b != [] && CompareItems(a, b) == Lt {
        assert ItemsLessAt(a, b, 0);
      }
    } else {
      ItemsInOrder(a[1..], b[1..]);
      EqualTails(a, b);
      if i: nat :| ItemsLessAt(a[1..], b[1..], i) {
        LaterItem(a, b, i);
      }
      if i: nat :| ItemsLessAt(a, b, i) {
        assert i > 0 && ItemsLessAt(a[1..], b[1..], i - 1);
      }
    }
  }

  lemma EqualTails(a: seq<Key>, b: seq<Key>)
    requires a != [] && b != [] && Compare(a[0], b[0]) == Eq
    ensures ItemsEqual(a, b) <==> ItemsEqual(a[1..], b[1..])
  {
    hide Compare;
    if ItemsEqual(a[1..], b[1..]) {
      forall i | 0 <= i < |a|
        ensures Compare(a[i], b[i]) == Eq
      {
        if i > 0 {
          assert Compare(a[1..][i - 1], b[1..][i - 1]) == Eq;
        }
      }
    }
  }

  lemma LaterItem(a: seq<Key>, b: seq<Key>, i: nat)
    requires a != [] && b != [] && Compare(a[0], b[0]) == Eq && ItemsLessAt(a[1..], b[1..], i)
    ensures ItemsLessAt(a, b, i + 1)
  {
    hide Compare;
    forall j | 0 <= j < i + 1
      ensures Compare(a[j], b[j]) == Eq
    {
      if j > 0 {
        assert Compare(a[1..][j - 1], b[1..][j - 1]) == Eq;
      }
    }
  }

  /** Arrays by their first items that differ, a shorter one before what it begins. */
  lemma ArraysByItem(a: seq<Key>, b: seq<Key>)
    ensures Compare(Arr(a), Arr(b)) == Eq <==> ItemsEqual(a, b)
    ensures Compare(Arr(a), Arr(b)) == Lt <==> exists i :: ItemsLessAt(a, b, i)
  {
    ItemsInOrder(a, b);
  }

  // ---- ranges --------------------------------------------------------------------------------

  /** An encoded bound admits the keys from its own on, itself when it is closed. */
  lemma LowerByKeys(a: Key, k: Key)
    ensures AboveLower(Included(Encode(a)), Encode(k)) <==> Compare(a, k) != Gt
    ensures AboveLower(Excluded(Encode(a)), Encode(k)) <==> Compare(a, k) == Lt
  {
    hide Encode, Compare;
    OrderTheorem(a, k);
    OrderTheorem(k, a);
  }

  lemma UpperByKeys(b: Key, k: Key)
    ensures BelowUpper(Included(Encode(b)), Encode(k)) <==> Compare(k, b) != Gt
    ensures BelowUpper(Excluded(Encode(b)), Encode(k)) <==> Compare(k, b) == Lt
  {
    hide Encode, Compare;
    OrderTheorem(k, b);
    OrderTheorem(b, k);
  }

  /** A range of one key holds that key alone. */
  lemma OnlyOne(pk: Bytes, x: Bytes)
    ensures Contains(Range(Included(pk), Included(pk)), x) <==> x == pk
  {
    LessIsTotal(x, pk);
    LessIsStrict(x, pk);
    LessIsStrict(pk, pk);
  }
}
