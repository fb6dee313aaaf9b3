/** Where `continue` and `continuePrimaryKey` land: on the first row that is not
    before the target, with every later row still ahead. */
module CursorTargets {
  import opened ByteStrings
  import opened Options
  import opened Keys
  import opened Ranges
  import opened SortedSets
  import opened Spec
  import opened Cursors
  import opened CursorEngine
  import opened Reads

  /** In the direction of the cursor. */
  predicate Before(a: Bytes, b: Bytes, rev: bool) {
    if rev then Less(b, a) else Less(a, b)
  }

  /** A part of a set that has all that comes after its members is enumerated by the
      end of the enumeration of the set. */
  lemma EndOfRun(s: set<Bytes>, t: set<Bytes>, dir: Direction) returns (j: nat)
    requires t <= s && forall x, y :: x in t && y in s && Before(x, y, dir.Rev()) ==> y in t
    ensures var q := InDirection(s, dir);
            j <= |q| && InDirection(t, dir) == q[j..] && forall i :: 0 <= i < |q| ==> (q[i] in t <==> j <= i)
  {
    hide InDirection, Ascending;
    InDirectionOrder(s, dir);
    var q := InDirection(s, dir);
    j := 0;
    while j < |q| && q[j] !in t
      invariant j <= |q| && forall i :: 0 <= i < j ==> q[i] !in t
    {
      j := j + 1;
    }
    forall i | j <= i < |q|
      ensures q[i] in t
    {
      if j < i {
        assert q[j] in t && q[i] in q;
        assert Before(q[j], q[i], dir.Rev());
      }
    }
    forall e
      ensures e in q[j..] <==> e in t
    {
      if e in t {
        assert e in q;
        var i :| 0 <= i < |q| && q[i] == e;
        assert q[j..][i - j] == e;
      }
    }
    InDirectionUnique(q[j..], t, dir);
  }

  // ---- over a store ---------------------------------------------------------------------------

  lemma InKeySet(keys: set<Bytes>, range: Range, rev: bool, pos: Option<Bytes>, t: Bytes, k: Bytes)
    ensures k in KeySet(keys, range, rev, pos, Some(t)) <==> k in KeySet(keys, range, rev, pos, None) && !Before(k, t, rev)
  {
    hide Contains;
    LessIsTotal(k, t);
    LessIsStrict(k, t);
    LessIsStrict(t, t);
  }

  /** The keys ahead with a target are those ahead without one, from the first that
      is not before it. */
  lemma KeysFromTarget(keys: set<Bytes>, range: Range, rev: bool, pos: Option<Bytes>, t: Bytes) returns (j: nat)
    ensures var q := KeysAhead(keys, range, rev, pos, None);
            j <= |q| && KeysAhead(keys, range, rev, pos, Some(t)) == q[j..] &&
            forall i :: 0 <= i < |q| ==> (Before(q[i], t, rev) <==> i < j)
  {
    hide KeySet, InDirection;
    var dir := if rev then Prev else Next;
    var s, u := KeySet(keys, range, rev, pos, None), KeySet(keys, range, rev, pos, Some(t));
    forall k
      ensures k in u <==> k in s && !Before(k, t, rev)
    {
      InKeySet(keys, range, rev, pos, t, k);
    }
    forall x, y | x in u && y in s && Before(x, y, rev)
      ensures y in u
    {
      if rev { Squeeze(y, x, t); } else { Squeeze(x, y, t); }
    }
    j := EndOfRun(s, u, dir);
    InDirectionOrder(s, dir);
    var q := InDirection(s, dir);
    assert forall i :: 0 <= i < |q| ==> q[i] in q;
  }

  /** `continue(key)` lands on the record of that key when there is one ahead. */
  lemma ContinueLandsOnKey(keys: set<Bytes>, range: Range, rev: bool, pos: Option<Bytes>, t: Bytes)
    requires t in keys && Contains(range, t) && (pos.Some? ==> Before(pos.value, t, rev))
    ensures var r := KeysAhead(keys, range, rev, pos, Some(t)); r != [] && r[0] == t
  {
    hide InDirection, Contains;
    var dir := if rev then Prev else Next;
    var u := KeySet(keys, range, rev, pos, Some(t));
    InDirectionOrder(u, dir);
    var r := InDirection(u, dir);
    assert t in u;
    var i :| 0 <= i < |r| && r[i] == t;
    if i > 0 {
      assert r[0] in r;
      LessIsStrict(r[0], t);
    }
  }

  /** What a fresh cursor over a store visits: every record key in the range, in the
      cursor's order. */
  lemma RecordsOfRange(keys: set<Bytes>, range: Range, rev: bool)
    ensures var q := KeysAhead(keys, range, rev, None, None);
            (if rev then Descends(q) else Ascends(q)) && forall k :: k in q <==> k in keys && Contains(range, k)
  {
    hide InDirection, Contains;
    InDirectionOrder(KeySet(keys, range, rev, None, None), if rev then Prev else Next);
  }

  // ---- over an index ----------------------------------------------------------------------------

  /** The row is before the target: its key is, or, with a primary key in the target,
      the whole entry. */
  predicate Short(e: Bytes, dir: Direction, target: Target) {
    match target
    case NoTarget => false
    case KeyTarget(k) => Before(KeyOf(e), k, dir.Rev())
    case EntryTarget(k, p) => Before(e, k + p, dir.Rev())
  }

  lemma ShortOrReaches(e: Bytes, dir: Direction, target: Target)
    ensures Reaches(e, dir, target) <==> !Short(e, dir, target)
  {
    hide KeyOf;
    if target.KeyTarget? {
      LessIsTotal(KeyOf(e), target.key);
      LessIsStrict(KeyOf(e), target.key);
      LessIsStrict(target.key, target.key);
    }
    if target.EntryTarget? {
      var f := target.key + target.primary;
      LessIsTotal(e, f);
      LessIsStrict(e, f);
      LessIsStrict(f, f);
    }
  }

  lemma SameKeyShort(e: Bytes, f: Bytes, dir: Direction, target: Target)
    requires KeyOf(e) == KeyOf(f) && (e == f || !target.EntryTarget?)
    ensures Short(e, dir, target) <==> Short(f, dir, target)
  {
  }

  lemma EligibleFromTarget(entries: set<Bytes>, range: Range, dir: Direction, pos: Option<Row>, target: Target, e: Bytes)
    ensures e in Eligible(entries, range, dir, pos, target) <==>
            e in Eligible(entries, range, dir, pos, NoTarget) && !Short(e, dir, target)
  {
    hide Contains, Past, Reaches;
    ShortOrReaches(e, dir, target);
    ShortOrReaches(e, dir, NoTarget);
  }

  /** The rows of a pass with a target are those of the pass without that are not
      before it. */
  lemma VisitedFromTarget(entries: set<Bytes>, range: Range, dir: Direction, pos: Option<Row>, target: Target, e: Bytes)
    requires dir.Unique() ==> !target.EntryTarget?
    ensures e in Visited(entries, Eligible(entries, range, dir, pos, target), dir) <==>
            e in Visited(entries, Eligible(entries, range, dir, pos, NoTarget), dir) && !Short(e, dir, target)
  {
    hide Eligible, Short;
    var s, t := Eligible(entries, range, dir, pos, NoTarget), Eligible(entries, range, dir, pos, target);
    forall f
      ensures f in t <==> f in s && !Short(f, dir, target)
      ensures dir.Unique() && KeyOf(f) == KeyOf(e) ==> (Short(f, dir, target) <==> Short(e, dir, target))
    {
      EligibleFromTarget(entries, range, dir, pos, target, f);
      if dir.Unique() && KeyOf(f) == KeyOf(e) {
        SameKeyShort(f, e, dir, target);
      }
    }
    hide KeyOf;
    if dir == PrevUnique {
      if f :| f in s && KeyOf(f) == KeyOf(e) {
        assert f in t <==> !Short(e, dir, target);
      }
    }
  }

  lemma LaterReaches(x: Bytes, y: Bytes, dir: Direction, target: Target)
    requires IsEntry(x) && IsEntry(y) && Before(x, y, dir.Rev()) && !Short(x, dir, target)
    ensures !Short(y, dir, target)
  {
    ShortOrReaches(x, dir, target);
    ShortOrReaches(y, dir, target);
    EntryOrder(x, y);
    EntryOrder(y, x);
    hide KeyOf, IsEntry, Short, Split;
    if dir.Rev() {
      Beyond(y, x, KeyOf(y), KeyOf(x), None, target);
    } else {
      Beyond(x, y, KeyOf(x), KeyOf(y), None, target);
    }
  }

  /** The rows ahead with a target are those ahead without one, from the first that
      is not before it. `continuePrimaryKey` is for the directions that visit every
      entry. */
  lemma AheadFromTarget(entries: set<Bytes>, range: Range, dir: Direction, pos: Option<Row>, target: Target) returns (j: nat)
    requires AreEntries(entries) && (dir.Unique() ==> !target.EntryTarget?)
    ensures var q := Ahead(entries, range, dir, pos, NoTarget);
            j <= |q| && Ahead(entries, range, dir, pos, target) == q[j..] &&
            forall i :: 0 <= i < |q| ==> (Short(q[i], dir, target) <==> i < j)
  {
    hide Eligible, Visited, Short, InDirection, IsEntry;
    var s := Visited(entries, Eligible(entries, range, dir, pos, NoTarget), dir);
    var t := Visited(entries, Eligible(entries, range, dir, pos, target), dir);
    forall e
      ensures e in t <==> e in s && !Short(e, dir, target)
    {
      VisitedFromTarget(entries, range, dir, pos, target, e);
    }
    var q := InDirection(s, dir);
    InDirectionOrder(s, dir);
    forall e | e in s
      ensures IsEntry(e)
    {
      RowPart(entries, range, dir, pos, NoTarget, e);
    }
    forall x, y | x in t && y in s && Before(x, y, dir.Rev())
      ensures y in t
    {
      LaterReaches(x, y, dir, target);
    }
    j := EndOfRun(s, t, dir);
    assert forall i :: 0 <= i < |q| ==> q[i] in q;
  }

  // ---- over either ------------------------------------------------------------------------------

  /** `continue(key)` on either kind of cursor: the rows from the first one on whose
      key is not before that key. */
  lemma ContinueFrom(a: AStore, index: Option<string>, range: Range, dir: Direction, pos: Option<Row>, k: Bytes)
    returns (j: nat)
    requires HasIndex(a, index) && (index.Some? ==> AreEntries(EntriesIn(a, a.indexes[index.value])))
    ensures var q := RowsAhead(a, index, range, dir, pos, NoTarget);
            j <= |q| && RowsAhead(a, index, range, dir, pos, KeyTarget(k)) == q[j..] &&
            forall i :: 0 <= i < |q| ==> (Before(RowAt(index.Some?, q[i]).0, k, dir.Rev()) <==> i < j)
  {
    hide KeysAhead, Ahead, EntriesIn;
    if index.None? {
      j := KeysFromTarget(a.records.Keys, range, dir.Rev(), KeyOfRow(pos), k);
    } else {
      j := AheadFromTarget(EntriesIn(a, a.indexes[index.value]), range, dir, pos, KeyTarget(k));
    }
  }
}
