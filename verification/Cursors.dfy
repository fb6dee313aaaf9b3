/** Cursors over an index: which entry comes next, in four directions, from any
    position, to any target, past any number of skipped records. */
module Cursors {
  import opened ByteStrings
  import opened Options
  import opened Keys
  import opened Ranges
  import opened SortedSets

  datatype Direction = Next | NextUnique | Prev | PrevUnique {
    predicate Rev() {
      Prev? || PrevUnique?
    }

    predicate Unique() {
      NextUnique? || PrevUnique?
    }
  }

  /** Where `continue` or `continuePrimaryKey` wants to go. */
  datatype Target = NoTarget | KeyTarget(key: Bytes) | EntryTarget(key: Bytes, primary: Bytes)

  type Row = (Bytes, Bytes)

  function KeyOf(e: Bytes): Bytes {
    Split(e).0
  }

  /** The encodings of two keys, one after the other. */
  ghost predicate IsEntry(e: Bytes) {
    IsEncoding(Split(e).0) && IsEncoding(Split(e).1) && Split(e).0 + Split(e).1 == e
  }

  ghost predicate AreEntries(s: set<Bytes>) {
    forall e :: e in s ==> IsEntry(e)
  }

  ghost predicate EncodedTarget(t: Target) {
    match t
    case NoTarget => true
    case KeyTarget(k) => IsEncoding(k)
    case EntryTarget(k, p) => IsEncoding(k) && IsEncoding(p)
  }

  ghost predicate EncodedPosition(pos: Option<Row>) {
    pos.Some? ==> IsEncoding(pos.value.0) && IsEncoding(pos.value.1)
  }

  // ---- what a cursor may land on -------------------------------------------------------

  /** Past the cursor's position, in its direction: past the entry, or past the
      whole key for the unique directions. */
  predicate Past(e: Bytes, dir: Direction, pos: Option<Row>) {
    match pos
    case None => true
    case Some((k, p)) =>
      match dir
      case Next => Less(k + p, e)
      case NextUnique => Less(k, KeyOf(e))
      case Prev => Less(e, k + p)
      case PrevUnique => Less(KeyOf(e), k)
  }

  /** At the target or beyond it. */
  predicate Reaches(e: Bytes, dir: Direction, target: Target) {
    match target
    case NoTarget => true
    case KeyTarget(k) => if dir.Rev() then AtMost(KeyOf(e), k) else AtMost(k, KeyOf(e))
    case EntryTarget(k, p) => if dir.Rev() then AtMost(e, k + p) else AtMost(k + p, e)
  }

  function Eligible(entries: set<Bytes>, range: Range, dir: Direction, pos: Option<Row>, target: Target): set<Bytes> {
    set e | e in entries && Contains(range, KeyOf(e)) && Past(e, dir, pos) && Reaches(e, dir, target)
  }

  /** The first entry of its key in a set. */
  predicate IsFirst(e: Bytes, s: set<Bytes>) {
    e in s && forall f :: f in s && KeyOf(f) == KeyOf(e) ==> AtMost(e, f)
  }

  /** The entries to visit: all of them, or one per key. Backwards that one is
      the lowest of its key in the whole index. */
  function Visited(entries: set<Bytes>, s: set<Bytes>, dir: Direction): set<Bytes> {
    match dir
    case NextUnique => set e | e in s && IsFirst(e, s)
    case PrevUnique => set e | e in entries && IsFirst(e, entries) && exists f :: f in s && KeyOf(f) == KeyOf(e)
    case _ => s
  }

  function Reversed(q: seq<Bytes>): (r: seq<Bytes>)
    ensures |r| == |q|
    ensures forall i :: 0 <= i < |q| ==> r[i] == q[|q| - 1 - i]
  {
    seq(|q|, i requires 0 <= i < |q| => q[|q| - 1 - i])
  }

  function InDirection(s: set<Bytes>, dir: Direction): seq<Bytes> {
    if dir.Rev() then Reversed(Ascending(s)) else Ascending(s)
  }

  /** The rows a cursor has before it, in order. */
  function Ahead(entries: set<Bytes>, range: Range, dir: Direction, pos: Option<Row>, target: Target): seq<Bytes> {
    InDirection(Visited(entries, Eligible(entries, range, dir, pos, target), dir), dir)
  }

  /** Where the cursor lands after skipping `skip` rows. */
  function Landing(ahead: seq<Bytes>, skip: nat): Option<Row> {
    if skip < |ahead| then Some(Split(ahead[skip])) else None
  }

  // ---- the rows of a whole iteration -----------------------------------------------------

  predicate Descends(q: seq<Bytes>) {
    forall i, j :: 0 <= i < j < |q| ==> Less(q[j], q[i])
  }

  lemma InDirectionOrder(s: set<Bytes>, dir: Direction)
    ensures var q := InDirection(s, dir);
            (forall e :: e in q <==> e in s) &&
            if dir.Rev() then Descends(q) else Ascends(q)
  {
    var a, q := Ascending(s), InDirection(s, dir);
    if dir.Rev() {
      forall e | e in a
        ensures e in q
      {
        var i :| 0 <= i < |a| && a[i] == e;
        assert q[|a| - 1 - i] == e;
      }
    }
  }

  lemma SameReversed(q: seq<Bytes>, e: Bytes)
    ensures e in Reversed(q) <==> e in q
  {
    var r := Reversed(q);
    if e in q {
      var i :| 0 <= i < |q| && q[i] == e;
      assert r[|q| - 1 - i] == e;
    }
    if e in r {
      var i :| 0 <= i < |r| && r[i] == e;
      assert q[|q| - 1 - i] == e;
    }
  }

  lemma ReversedTwice(q: seq<Bytes>)
    ensures Reversed(Reversed(q)) == q
  {
  }

  /** A set has one enumeration in a direction. */
  lemma InDirectionUnique(q: seq<Bytes>, s: set<Bytes>, dir: Direction)
    requires forall e :: e in q <==> e in s
    requires if dir.Rev() then Descends(q) else Ascends(q)
    ensures q == InDirection(s, dir)
  {
    hide Ascending;
    if dir.Rev() {
      var r := Reversed(q);
      forall e
        ensures e in r <==> e in s
      {
        SameReversed(q, e);
      }
      AscendingUnique(r, s);
      ReversedTwice(q);
    } else {
      AscendingUnique(q, s);
    }
  }

  /** Entries sort by key, then by primary key. */
  lemma EntryOrder(e: Bytes, f: Bytes)
    requires IsEntry(e) && IsEntry(f)
    ensures Less(e, f) <==>
            Less(KeyOf(e), KeyOf(f)) || (KeyOf(e) == KeyOf(f) && Less(Split(e).1, Split(f).1))
    ensures Less(KeyOf(e), KeyOf(f)) ==> Less(e, f)
  {
    EncodingsDecide(KeyOf(e), KeyOf(f), Split(e).1, Split(f).1);
  }

  /** The rows ahead are entries of eligible keys. */
  lemma RowPart(entries: set<Bytes>, range: Range, dir: Direction, pos: Option<Row>, target: Target, e: Bytes)
    requires e in Ahead(entries, range, dir, pos, target)
    ensures e in Visited(entries, Eligible(entries, range, dir, pos, target), dir)
    ensures e in entries && Contains(range, KeyOf(e))
    ensures exists g :: g in Eligible(entries, range, dir, pos, target) && KeyOf(g) == KeyOf(e) &&
                        (dir != PrevUnique ==> g == e)
  {
    var s := Eligible(entries, range, dir, pos, target);
    InDirectionOrder(Visited(entries, s, dir), dir);
    if dir == PrevUnique {
      var g :| g in s && KeyOf(g) == KeyOf(e);
    } else {
      assert e in s;
    }
  }

  /** What lies beyond a row, and in the range, was eligible all along. */
  lemma BeyondIsEligible(entries: set<Bytes>, range: Range, dir: Direction, pos: Option<Row>, target: Target,
                         e: Bytes, h: Bytes)
    requires AreEntries(entries) && e in Ahead(entries, range, dir, pos, target)
    requires h in entries && Contains(range, KeyOf(h)) && Past(h, dir, Some(Split(e)))
    ensures h in Eligible(entries, range, dir, pos, target)
  {
    RowPart(entries, range, dir, pos, target, e);
    var g :| g in Eligible(entries, range, dir, pos, target) && KeyOf(g) == KeyOf(e) &&
             (dir != PrevUnique ==> g == e);
    BeyondEntry(dir, e, g, h);
    BeyondKeeps(dir, g, h, pos, target);
  }

  lemma BeyondKeeps(dir: Direction, g: Bytes, h: Bytes, pos: Option<Row>, target: Target)
    requires if dir.Rev() then Less(h, g) && AtMost(KeyOf(h), KeyOf(g)) else Less(g, h) && AtMost(KeyOf(g), KeyOf(h))
    requires Past(g, dir, pos) && Reaches(g, dir, target)
    ensures Past(h, dir, pos) && Reaches(h, dir, target)
  {
    if dir.Rev() {
      Beyond(h, g, KeyOf(h), KeyOf(g), pos, target);
    } else {
      Beyond(g, h, KeyOf(g), KeyOf(h), pos, target);
    }
  }

  /** Past a row is past every entry of its key that decided it. */
  lemma BeyondEntry(dir: Direction, e: Bytes, g: Bytes, h: Bytes)
    requires IsEntry(e) && IsEntry(g) && IsEntry(h) && KeyOf(g) == KeyOf(e) && (dir != PrevUnique ==> g == e)
    requires Past(h, dir, Some(Split(e)))
    ensures if dir.Rev() then Less(h, g) && AtMost(KeyOf(h), KeyOf(g)) else Less(g, h) && AtMost(KeyOf(g), KeyOf(h))
  {
    EntryOrder(g, h);
    EntryOrder(h, g);
  }

  /** Transitivity at every bound a cursor uses. */
  lemma Beyond(e: Bytes, f: Bytes, k: Bytes, l: Bytes, pos: Option<Row>, target: Target)
    requires Less(e, f) && AtMost(k, l)
    ensures pos.Some? ==>
              (Less(pos.value.0 + pos.value.1, e) ==> Less(pos.value.0 + pos.value.1, f)) &&
              (Less(f, pos.value.0 + pos.value.1) ==> Less(e, pos.value.0 + pos.value.1)) &&
              (Less(pos.value.0, k) ==> Less(pos.value.0, l)) &&
              (Less(l, pos.value.0) ==> Less(k, pos.value.0))
    ensures target.KeyTarget? ==>
              (AtMost(target.key, k) ==> AtMost(target.key, l)) && (AtMost(l, target.key) ==> AtMost(k, target.key))
    ensures target.EntryTarget? ==>
              (AtMost(target.key + target.primary, e) ==> AtMost(target.key + target.primary, f)) &&
              (AtMost(f, target.key + target.primary) ==> AtMost(e, target.key + target.primary))
  {
    if pos.Some? {
      var x := pos.value.0 + pos.value.1;
      Squeeze(e, f, x);
      Squeeze(k, l, pos.value.0);
    }
    if target.KeyTarget? {
      Squeeze(k, l, target.key);
    }
    if target.EntryTarget? {
      Squeeze(e, f, target.key + target.primary);
    }
  }

  lemma Squeeze(a: Bytes, b: Bytes, x: Bytes)
    requires AtMost(a, b)
    ensures Less(x, a) ==> Less(x, b)
    ensures Less(b, x) ==> Less(a, x)
    ensures AtMost(x, a) ==> AtMost(x, b)
    ensures AtMost(b, x) ==> AtMost(a, x)
  {
    if Less(x, a) && Less(a, b) {
      LessIsTransitive(x, a, b);
    }
    if Less(a, b) && Less(b, x) {
      LessIsTransitive(a, b, x);
    }
  }

  /** Past a row means after it, for rows of the same pass. */
  lemma PastIsAfter(dir: Direction, e: Bytes, f: Bytes)
    requires IsEntry(e) && IsEntry(f) && (dir.Unique() ==> KeyOf(e) != KeyOf(f) || e == f)
    ensures Past(f, dir, Some(Split(e))) <==> if dir.Rev() then Less(f, e) else Less(e, f)
  {
    assert KeyOf(e) + Split(e).1 == e;
    EntryOrder(e, f);
    EntryOrder(f, e);
    LessIsStrict(e, e);
    LessIsStrict(KeyOf(e), KeyOf(e));
  }

  /** Two rows of a unique pass have different keys. */
  lemma RowKeysDiffer(entries: set<Bytes>, range: Range, dir: Direction, pos: Option<Row>, target: Target, e: Bytes, f: Bytes)
    requires dir.Unique() && KeyOf(e) == KeyOf(f)
    requires e in Ahead(entries, range, dir, pos, target) && f in Ahead(entries, range, dir, pos, target)
    ensures e == f
  {
    RowPart(entries, range, dir, pos, target, e);
    RowPart(entries, range, dir, pos, target, f);
    LessIsStrict(e, f);
  }

  /** A later row is exactly a visited entry past the earlier one. */
  lemma LaterRow(entries: set<Bytes>, range: Range, dir: Direction, pos: Option<Row>, target: Target, i: nat, f: Bytes)
    requires AreEntries(entries) && i < |Ahead(entries, range, dir, pos, target)|
    ensures var q := Ahead(entries, range, dir, pos, target);
            f in q[i + 1..] <==> f in q && Past(f, dir, Some(Split(q[i])))
  {
    var q := Ahead(entries, range, dir, pos, target);
    var e := q[i];
    InDirectionOrder(Visited(entries, Eligible(entries, range, dir, pos, target), dir), dir);
    if f in q {
      RowPart(entries, range, dir, pos, target, e);
      RowPart(entries, range, dir, pos, target, f);
      if dir.Unique() && KeyOf(e) == KeyOf(f) {
        RowKeysDiffer(entries, range, dir, pos, target, e, f);
      }
      PastIsAfter(dir, e, f);
      AfterInRun(q, dir, i, f);
    }
  }

  lemma AfterInRun(q: seq<Bytes>, dir: Direction, i: nat, f: Bytes)
    requires (if dir.Rev() then Descends(q) else Ascends(q)) && i < |q| && f in q
    ensures f in q[i + 1..] <==> if dir.Rev() then Less(f, q[i]) else Less(q[i], f)
  {
    var j :| 0 <= j < |q| && q[j] == f;
    LessIsStrict(q[i], f);
    assert j > i ==> q[i + 1..][j - i - 1] == f;
  }

  /** Being past a row, a visited entry stays visited, and the others were not
      visited before. */
  lemma VisitedPast(entries: set<Bytes>, range: Range, dir: Direction, pos: Option<Row>, target: Target, e: Bytes, f: Bytes)
    requires AreEntries(entries) && e in Ahead(entries, range, dir, pos, target)
    ensures var s := Eligible(entries, range, dir, pos, target);
            var t := Eligible(entries, range, dir, Some(Split(e)), NoTarget);
            f in Visited(entries, t, dir) <==> f in Visited(entries, s, dir) && Past(f, dir, Some(Split(e)))
  {
    var s := Eligible(entries, range, dir, pos, target);
    var t := Eligible(entries, range, dir, Some(Split(e)), NoTarget);
    forall h | h in entries
      ensures h in t <==> h in s && Past(h, dir, Some(Split(e)))
    {
      if h in t {
        BeyondIsEligible(entries, range, dir, pos, target, e, h);
      }
    }
    if dir == PrevUnique {
      assert forall g :: g in t ==> (KeyOf(g) == KeyOf(f) ==> Past(f, dir, Some(Split(e))));
    }
  }

  /** From any row on, exactly the later rows are ahead: a cursor neither
      repeats nor misses one. */
  lemma AheadOfRow(entries: set<Bytes>, range: Range, dir: Direction, pos: Option<Row>, target: Target, i: nat)
    requires AreEntries(entries) && i < |Ahead(entries, range, dir, pos, target)|
    ensures var q := Ahead(entries, range, dir, pos, target);
            Ahead(entries, range, dir, Some(Split(q[i])), NoTarget) == q[i + 1..]
  {
    hide Visited, Eligible, Past;
    var q := Ahead(entries, range, dir, pos, target);
    var s := Eligible(entries, range, dir, pos, target);
    var t := Eligible(entries, range, dir, Some(Split(q[i])), NoTarget);
    InDirectionOrder(Visited(entries, s, dir), dir);
    forall f
      ensures f in q[i + 1..] <==> f in Visited(entries, t, dir)
    {
      LaterRow(entries, range, dir, pos, target, i, f);
      assert q[i] in q;
      VisitedPast(entries, range, dir, pos, target, q[i], f);
    }
    InDirectionUnique(q[i + 1..], Visited(entries, t, dir), dir);
  }

  /** One step of a cursor, skipping `skip` rows: `cursor_next`. */
  function CursorNext(entries: set<Bytes>, range: Range, dir: Direction, pos: Option<Row>, target: Target,
                      skip: nat): Option<Row> {
    Landing(Ahead(entries, range, dir, pos, target), skip)
  }

  /** Skipping n + 1 rows is one step and then skipping n. */
  lemma SkipIsSteps(entries: set<Bytes>, range: Range, dir: Direction, pos: Option<Row>, target: Target, skip: nat)
    requires AreEntries(entries)
    ensures var first := CursorNext(entries, range, dir, pos, target, 0);
            CursorNext(entries, range, dir, pos, target, skip + 1) ==
            if first.None? then None else CursorNext(entries, range, dir, first, NoTarget, skip)
  {
    var q := Ahead(entries, range, dir, pos, target);
    LandingLater(q, skip);
    if q != [] {
      AheadOfRow(entries, range, dir, pos, target, 0);
    }
  }

  lemma LandingLater(q: seq<Bytes>, skip: nat)
    ensures q == [] ==> Landing(q, 0) == None && Landing(q, skip + 1) == None
    ensures q != [] ==> Landing(q, 0) == Some(Split(q[0])) && Landing(q, skip + 1) == Landing(q[1..], skip)
  {
  }

  /** The rows a cursor yields, step by step until it is done. */
  function Iterate(entries: set<Bytes>, range: Range, dir: Direction, pos: Option<Row>, target: Target): seq<Row>
    requires AreEntries(entries)
    decreases |Ahead(entries, range, dir, pos, target)|
  {
    var next := CursorNext(entries, range, dir, pos, target, 0);
    if next.None? then []
    else
      AheadOfRow(entries, range, dir, pos, target, 0);
      [next.value] + Iterate(entries, range, dir, next, NoTarget)
  }

  function RowsOf(q: seq<Bytes>): (r: seq<Row>)
    ensures |r| == |q| && forall i :: 0 <= i < |q| ==> r[i] == Split(q[i])
  {
    if q == [] then [] else [Split(q[0])] + RowsOf(q[1..])
  }

  /** Iterating to the end yields each row ahead once, in order. */
  lemma {:induction false} IterateIsComplete(entries: set<Bytes>, range: Range, dir: Direction, pos: Option<Row>, target: Target)
    requires AreEntries(entries)
    ensures Iterate(entries, range, dir, pos, target) == RowsOf(Ahead(entries, range, dir, pos, target))
    decreases |Ahead(entries, range, dir, pos, target)|
  {
    hide Ahead, Visited, Eligible, Landing;
    var q := Ahead(entries, range, dir, pos, target);
    LandingLater(q, 0);
    if q != [] {
      AheadOfRow(entries, range, dir, pos, target, 0);
      IterateIsComplete(entries, range, dir, Some(Split(q[0])), NoTarget);
    }
  }

  /** What a fresh cursor visits: ascending for the forward directions and
      descending for the others, every entry whose key is in the range, or for
      the unique directions exactly one entry per key, the one with the lowest
      primary key. */
  lemma RowsOfRange(entries: set<Bytes>, range: Range, dir: Direction, e: Bytes)
    requires AreEntries(entries) && e in entries
    ensures var q := Ahead(entries, range, dir, None, NoTarget);
            (if dir.Rev() then Descends(q) else Ascends(q)) &&
            (!dir.Unique() ==> (e in q <==> Contains(range, KeyOf(e)))) &&
            (dir.Unique() ==> (e in q <==> Contains(range, KeyOf(e)) && IsFirst(e, entries)))
  {
    var s := Eligible(entries, range, dir, None, NoTarget);
    InDirectionOrder(Visited(entries, s, dir), dir);
    if dir == NextUnique && e in s {
      assert forall f :: f in entries && KeyOf(f) == KeyOf(e) ==> f in s;
    }
    if dir == PrevUnique && Contains(range, KeyOf(e)) {
      assert e in s && KeyOf(e) == KeyOf(e);
    }
  }

  /** Every key has a first entry, so a unique cursor leaves no key out. */
  lemma FirstOfKey(entries: set<Bytes>, e: Bytes) returns (f: Bytes)
    requires e in entries
    ensures KeyOf(f) == KeyOf(e) && IsFirst(f, entries)
  {
    var same := set g | g in entries && KeyOf(g) == KeyOf(e);
    assert e in same;
    f := Min(same);
    assert IsMin(f, same);
  }
}
