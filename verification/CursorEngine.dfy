/** `cursor_next` as the engine runs it: byte bounds tightened by position and
    target, one pass over the BTree range, and a second lookup for prevunique. */
module CursorEngine {
  import opened ByteStrings
  import opened Options
  import opened Keys
  import opened Ranges
  import opened SortedSets
  import opened Cursors

  // ---- bounds ----------------------------------------------------------------------

  /** The lower bound once position and target have tightened it. */
  function LowerFor(range: Range, dir: Direction, pos: Option<Row>, target: Target): Bound {
    var lo := IndexBounds(range).lower;
    if dir.Rev() then lo
    else
      var past := if pos.None? then lo
                  else if dir.Unique() then TighterLower(lo, Excluded(pos.value.0 + [AFTER]))
                  else TighterLower(lo, Excluded(pos.value.0 + pos.value.1));
      match target
      case NoTarget => past
      case KeyTarget(k) => TighterLower(past, Included(k))
      case EntryTarget(k, p) => TighterLower(past, Included(k + p))
  }

  function UpperFor(range: Range, dir: Direction, pos: Option<Row>, target: Target): Bound {
    var hi := IndexBounds(range).upper;
    if !dir.Rev() then hi
    else
      var past := if pos.None? then hi
                  else if dir.Unique() then TighterUpper(hi, Excluded(pos.value.0))
                  else TighterUpper(hi, Excluded(pos.value.0 + pos.value.1));
      match target
      case NoTarget => past
      case KeyTarget(k) => TighterUpper(past, Excluded(k + [AFTER]))
      case EntryTarget(k, p) => TighterUpper(past, Included(k + p))
  }

  /** The bounds say about an entry's bytes what the position says about its keys. */
  lemma PastBounds(e: Bytes, dir: Direction, pos: Option<Row>)
    requires IsEntry(e) && EncodedPosition(pos) && pos.Some?
    ensures dir == Next ==> (AboveLower(Excluded(pos.value.0 + pos.value.1), e) <==> Past(e, dir, pos))
    ensures dir == NextUnique ==> (AboveLower(Excluded(pos.value.0 + [AFTER]), e) <==> Past(e, dir, pos))
    ensures dir == Prev ==> (BelowUpper(Excluded(pos.value.0 + pos.value.1), e) <==> Past(e, dir, pos))
    ensures dir == PrevUnique ==> (BelowUpper(Excluded(pos.value.0), e) <==> Past(e, dir, pos))
  {
    EntryAgainstKey(Split(e).0, Split(e).1, pos.value.0);
  }

  lemma TargetBounds(e: Bytes, dir: Direction, target: Target)
    requires IsEntry(e) && EncodedTarget(target)
    ensures target.KeyTarget? && !dir.Rev() ==> (AboveLower(Included(target.key), e) <==> Reaches(e, dir, target))
    ensures target.KeyTarget? && dir.Rev() ==>
              (BelowUpper(Excluded(target.key + [AFTER]), e) <==> Reaches(e, dir, target))
    ensures target.EntryTarget? && !dir.Rev() ==>
              (AboveLower(Included(target.key + target.primary), e) <==> Reaches(e, dir, target))
    ensures target.EntryTarget? && dir.Rev() ==>
              (BelowUpper(Included(target.key + target.primary), e) <==> Reaches(e, dir, target))
  {
    if target.KeyTarget? {
      EntryAgainstKey(Split(e).0, Split(e).1, target.key);
    }
  }

  lemma LowerForExact(range: Range, dir: Direction, pos: Option<Row>, target: Target, e: Bytes)
    requires IsEntry(e) && EncodedPosition(pos) && EncodedTarget(target) && !dir.Rev()
    ensures AboveLower(LowerFor(range, dir, pos, target), e) <==>
            AboveLower(IndexBounds(range).lower, e) && Past(e, dir, pos) && Reaches(e, dir, target)
  {
    var lo := IndexBounds(range).lower;
    if pos.Some? {
      PastBounds(e, dir, pos);
      TighterLowerMeets(lo, Excluded(pos.value.0 + [AFTER]), e);
      TighterLowerMeets(lo, Excluded(pos.value.0 + pos.value.1), e);
    }
    TargetBounds(e, dir, target);
    var past := LowerFor(range, dir, pos, NoTarget);
    if target.KeyTarget? {
      TighterLowerMeets(past, Included(target.key), e);
    } else if target.EntryTarget? {
      TighterLowerMeets(past, Included(target.key + target.primary), e);
    }
  }

  lemma UpperForExact(range: Range, dir: Direction, pos: Option<Row>, target: Target, e: Bytes)
    requires IsEntry(e) && EncodedPosition(pos) && EncodedTarget(target) && dir.Rev()
    ensures BelowUpper(UpperFor(range, dir, pos, target), e) <==>
            BelowUpper(IndexBounds(range).upper, e) && Past(e, dir, pos) && Reaches(e, dir, target)
  {
    var hi := IndexBounds(range).upper;
    if pos.Some? {
      PastBounds(e, dir, pos);
      TighterUpperMeets(hi, Excluded(pos.value.0), e);
      TighterUpperMeets(hi, Excluded(pos.value.0 + pos.value.1), e);
    }
    TargetBounds(e, dir, target);
    var past := UpperFor(range, dir, pos, NoTarget);
    if target.KeyTarget? {
      TighterUpperMeets(past, Excluded(target.key + [AFTER]), e);
    } else if target.EntryTarget? {
      TighterUpperMeets(past, Included(target.key + target.primary), e);
    }
  }

  /** The tightened byte range holds exactly the entries the cursor may land on. */
  lemma BoundsAreExact(entries: set<Bytes>, range: Range, dir: Direction, pos: Option<Row>, target: Target)
    requires AreEntries(entries) && Encoded(range) && EncodedPosition(pos) && EncodedTarget(target)
    ensures Within(entries, Range(LowerFor(range, dir, pos, target), UpperFor(range, dir, pos, target))) ==
            Eligible(entries, range, dir, pos, target)
  {
    var r := Range(LowerFor(range, dir, pos, target), UpperFor(range, dir, pos, target));
    forall e | e in entries
      ensures Contains(r, e) <==>
              Contains(range, KeyOf(e)) && Past(e, dir, pos) && Reaches(e, dir, target)
    {
      IndexBoundsExact(range, Split(e).0, Split(e).1);
      if dir.Rev() {
        UpperForExact(range, dir, pos, target, e);
      } else {
        LowerForExact(range, dir, pos, target, e);
      }
    }
  }

  // ---- one entry per key -------------------------------------------------------------

  ghost predicate StartsKey(q: seq<Bytes>, j: nat)
    requires j < |q|
  {
    j == 0 || KeyOf(q[j - 1]) != KeyOf(q[j])
  }

  /** Of the first `n` entries, those whose key differs from the one before. */
  ghost function Starts(q: seq<Bytes>, n: nat): (r: seq<Bytes>)
    requires n <= |q|
    ensures |r| <= n
  {
    if n == 0 then []
    else if StartsKey(q, n - 1) then Starts(q, n - 1) + [q[n - 1]]
    else Starts(q, n - 1)
  }

  ghost function Firsts(q: seq<Bytes>): seq<Bytes> {
    Starts(q, |q|)
  }

  predicate InOrder(q: seq<Bytes>, rev: bool) {
    if rev then Descends(q) else Ascends(q)
  }

  lemma StartsStep(q: seq<Bytes>, n: nat)
    requires 0 < n <= |q|
    ensures Starts(q, n) == if StartsKey(q, n - 1) then Starts(q, n - 1) + [q[n - 1]] else Starts(q, n - 1)
  {
  }

  lemma NoStarts(q: seq<Bytes>)
    ensures Starts(q, 0) == []
  {
  }

  lemma {:induction false} StartsMembers(q: seq<Bytes>, n: nat, e: Bytes)
    requires n <= |q|
    ensures e in Starts(q, n) <==> exists j :: 0 <= j < n && q[j] == e && StartsKey(q, j)
  {
    if n > 0 {
      hide Starts, StartsKey;
      StartsMembers(q, n - 1, e);
      StartsStep(q, n);
    }
  }

  lemma FirstsMembers(q: seq<Bytes>, e: Bytes)
    ensures e in Firsts(q) <==> exists j :: 0 <= j < |q| && q[j] == e && StartsKey(q, j)
  {
    StartsMembers(q, |q|, e);
  }

  lemma {:induction false} StartsInOrder(q: seq<Bytes>, n: nat, rev: bool)
    requires n <= |q| && InOrder(q, rev)
    ensures InOrder(Starts(q, n), rev)
  {
    hide Starts, StartsKey;
    if n == 0 {
      NoStarts(q);
    } else {
      StartsInOrder(q, n - 1, rev);
      StartsStep(q, n);
      var front := Starts(q, n - 1);
      forall i | 0 <= i < |front|
        ensures if rev then Less(q[n - 1], front[i]) else Less(front[i], q[n - 1])
      {
        StartsMembers(q, n - 1, front[i]);
      }
    }
  }

  lemma FirstsInOrder(q: seq<Bytes>, rev: bool)
    requires InOrder(q, rev)
    ensures InOrder(Firsts(q), rev)
  {
    StartsInOrder(q, |q|, rev);
  }

  /** In a sorted run an entry starts its key when nothing before it has it. */
  lemma StartsAreFirst(q: seq<Bytes>, rev: bool, j: nat)
    requires InOrder(q, rev) && j < |q| && forall e :: e in q ==> IsEntry(e)
    ensures StartsKey(q, j) <==> forall i :: 0 <= i < j ==> KeyOf(q[i]) != KeyOf(q[j])
  {
    if StartsKey(q, j) && j > 0 {
      forall i | 0 <= i < j
        ensures KeyOf(q[i]) != KeyOf(q[j])
      {
        if i < j - 1 {
          assert q[i] in q && q[j] in q && q[j - 1] in q;
          KeysBetween(q[i], q[j - 1], q[j], rev);
        }
      }
    }
  }

  lemma KeysBetween(a: Bytes, b: Bytes, c: Bytes, rev: bool)
    requires IsEntry(a) && IsEntry(b) && IsEntry(c)
    requires if rev then Less(c, b) && (a == b || Less(b, a)) else Less(b, c) && (a == b || Less(a, b))
    ensures KeyOf(a) == KeyOf(c) ==> KeyOf(b) == KeyOf(c)
  {
    EntryOrder(a, b);
    EntryOrder(b, c);
    EntryOrder(b, a);
    EntryOrder(c, b);
    LessIsStrict(KeyOf(a), KeyOf(b));
    LessIsStrict(KeyOf(b), KeyOf(c));
  }

  /** Going up, the first entry seen of a key is the lowest. */
  lemma FirstsGoingUp(entries: set<Bytes>, s: set<Bytes>)
    requires AreEntries(s)
    ensures Firsts(Ascending(s)) == InDirection(Visited(entries, s, NextUnique), NextUnique)
  {
    hide Visited, Firsts, StartsKey;
    var q := Ascending(s);
    FirstsInOrder(q, false);
    forall e
      ensures e in Firsts(q) <==> e in Visited(entries, s, NextUnique)
    {
      FirstGoingUp(entries, s, q, e);
    }
    InDirectionUnique(Firsts(q), Visited(entries, s, NextUnique), NextUnique);
  }

  lemma FirstGoingUp(entries: set<Bytes>, s: set<Bytes>, q: seq<Bytes>, e: Bytes)
    requires AreEntries(s) && q == Ascending(s)
    ensures e in Firsts(q) <==> e in Visited(entries, s, NextUnique)
  {
    hide Firsts, StartsKey, IsFirst, KeyOf, Ascending, IsEntry;
    FirstsMembers(q, e);
    if e in s {
      var j :| 0 <= j < |q| && q[j] == e;
      StartsAreFirst(q, false, j);
      LowestInRun(q, s, j);
      forall k | 0 <= k < |q| && q[k] == e
        ensures k == j
      {
        LessIsStrict(e, e);
      }
    }
  }

  lemma LowestInRun(q: seq<Bytes>, s: set<Bytes>, j: nat)
    requires Ascends(q) && j < |q| && forall e :: e in q <==> e in s
    ensures (forall i :: 0 <= i < j ==> KeyOf(q[i]) != KeyOf(q[j])) <==> IsFirst(q[j], s)
  {
    if IsFirst(q[j], s) {
      forall i | 0 <= i < j
        ensures KeyOf(q[i]) != KeyOf(q[j])
      {
        assert q[i] in s;
        LessIsStrict(q[i], q[j]);
      }
    }
    if forall i :: 0 <= i < j ==> KeyOf(q[i]) != KeyOf(q[j]) {
      forall f | f in s && KeyOf(f) == KeyOf(q[j])
        ensures AtMost(q[j], f)
      {
        var i :| 0 <= i < |q| && q[i] == f;
      }
    }
  }

  /** The lowest entry of an entry's key. */
  function Lowest(entries: set<Bytes>, e: Bytes): (f: Bytes)
    requires e in entries
    ensures IsFirst(f, entries) && KeyOf(f) == KeyOf(e)
  {
    var same := set g | g in entries && KeyOf(g) == KeyOf(e);
    assert e in same;
    assert IsMin(Min(same), same);
    Min(same)
  }

  /** `range(k..).next()` from a key some entry has is that key's lowest entry. */
  lemma LookupIsLowest(entries: set<Bytes>, e: Bytes)
    requires AreEntries(entries) && e in entries
    ensures var q := Scan(entries, Range(Included(KeyOf(e)), Unbounded));
            q != [] && q[0] == Lowest(entries, e)
  {
    var k := KeyOf(e);
    var s := Within(entries, Range(Included(k), Unbounded));
    var f := Lowest(entries, e);
    forall g | g in entries
      ensures g in s <==> AtMost(k, KeyOf(g))
    {
      EntryAgainstKey(Split(g).0, Split(g).1, k);
    }
    assert e in s && f in s;
    forall g | g in s
      ensures AtMost(f, g)
    {
      EntryOrder(f, g);
    }
    assert IsMin(f, s);
    MinUnique(f, Min(s), s);
    MinIsHead(s);
  }

  ghost function LowestOf(entries: set<Bytes>, q: seq<Bytes>): (r: seq<Bytes>)
    requires forall e :: e in q ==> e in entries
    ensures |r| == |q| && forall i :: 0 <= i < |q| ==> r[i] == Lowest(entries, q[i])
  {
    seq(|q|, i requires 0 <= i < |q| => Lowest(entries, q[i]))
  }

  /** Going down, each key is seen once, and its lowest entry is the row. */
  lemma FirstsGoingDown(entries: set<Bytes>, s: set<Bytes>)
    requires AreEntries(entries) && s <= entries
    ensures var q := Reversed(Ascending(s));
            (forall e :: e in Firsts(q) ==> e in entries) &&
            LowestOf(entries, Firsts(q)) == InDirection(Visited(entries, s, PrevUnique), PrevUnique)
  {
    InDirectionOrder(s, Prev);
    var q := InDirection(s, Prev);
    FirstsInOrder(q, true);
    forall e | e in Firsts(q)
      ensures e in s
    {
      FirstsMembers(q, e);
    }
    var r := LowestOf(entries, Firsts(q));
    forall i, j | 0 <= i < j < |r|
      ensures Less(r[j], r[i])
    {
      DistinctFirsts(q, true, i, j);
      assert Firsts(q)[i] in Firsts(q) && Firsts(q)[j] in Firsts(q);
      EntryOrder(Firsts(q)[j], Firsts(q)[i]);
      EntryOrder(r[j], r[i]);
    }
    forall f
      ensures f in r <==> f in Visited(entries, s, PrevUnique)
    {
      DownRow(entries, s, q, r, f);
    }
    InDirectionUnique(r, Visited(entries, s, PrevUnique), PrevUnique);
  }

  /** No key is taken twice. */
  lemma DistinctFirsts(q: seq<Bytes>, rev: bool, i: nat, j: nat)
    requires InOrder(q, rev) && (forall e :: e in q ==> IsEntry(e)) && i < j < |Firsts(q)|
    ensures KeyOf(Firsts(q)[i]) != KeyOf(Firsts(q)[j])
  {
    var e, f := Firsts(q)[i], Firsts(q)[j];
    FirstsInOrder(q, rev);
    assert if rev then Less(f, e) else Less(e, f);
    FirstsMembers(q, e);
    FirstsMembers(q, f);
    var a :| 0 <= a < |q| && q[a] == e && StartsKey(q, a);
    var b :| 0 <= b < |q| && q[b] == f && StartsKey(q, b);
    StartsAreFirst(q, rev, a);
    StartsAreFirst(q, rev, b);
    LessIsStrict(e, f);
  }

  lemma DownRow(entries: set<Bytes>, s: set<Bytes>, q: seq<Bytes>, r: seq<Bytes>, f: Bytes)
    requires AreEntries(entries) && s <= entries && q == InDirection(s, Prev)
    requires (forall e :: e in Firsts(q) ==> e in s) && r == LowestOf(entries, Firsts(q))
    ensures f in r <==> f in Visited(entries, s, PrevUnique)
  {
    InDirectionOrder(s, Prev);
    if f in r {
      var i :| 0 <= i < |r| && r[i] == f;
      assert Firsts(q)[i] in Firsts(q);
    }
    if f in Visited(entries, s, PrevUnique) {
      var g :| g in s && KeyOf(g) == KeyOf(f);
      var h := SeenFirst(q, g);
      FirstsMembers(q, h);
      var i :| 0 <= i < |Firsts(q)| && Firsts(q)[i] == h;
      var l := Lowest(entries, h);
      LessIsStrict(l, f);
      assert r[i] == l;
    }
  }

  /** The first entry of a key in a run. */
  lemma SeenFirst(q: seq<Bytes>, g: Bytes) returns (h: Bytes)
    requires g in q
    ensures KeyOf(h) == KeyOf(g) && exists j :: 0 <= j < |q| && q[j] == h && StartsKey(q, j)
  {
    var j :| 0 <= j < |q| && q[j] == g;
    while j > 0 && KeyOf(q[j - 1]) == KeyOf(q[j])
      invariant 0 <= j < |q| && KeyOf(q[j]) == KeyOf(g)
    {
      j := j - 1;
    }
    h := q[j];
    assert StartsKey(q, j);
  }

  // ---- the method -------------------------------------------------------------------------

  /** Rows seen in the first `n` entries of a run: each entry, or one per key. */
  ghost function Seen(q: seq<Bytes>, n: nat, unique: bool): (r: seq<Bytes>)
    requires n <= |q|
    ensures |r| <= n
  {
    if unique then Starts(q, n) else q[..n]
  }

  lemma SeenGrows(q: seq<Bytes>, n: nat, unique: bool)
    requires n < |q|
    ensures Seen(q, n + 1, unique) ==
            if unique && !StartsKey(q, n) then Seen(q, n, unique) else Seen(q, n, unique) + [q[n]]
  {
  }

  lemma {:induction false} SeenIsPrefix(q: seq<Bytes>, n: nat, unique: bool)
    requires n <= |q|
    ensures |Seen(q, n, unique)| <= |Seen(q, |q|, unique)|
    ensures forall i :: 0 <= i < |Seen(q, n, unique)| ==> Seen(q, |q|, unique)[i] == Seen(q, n, unique)[i]
    decreases |q| - n
  {
    if n < |q| {
      SeenIsPrefix(q, n + 1, unique);
      SeenGrows(q, n, unique);
    }
  }

  /** The row a seen entry stands for. */
  function RowOf(entries: set<Bytes>, e: Bytes, dir: Direction): Row {
    if dir == PrevUnique && e in entries then Split(Lowest(entries, e)) else Split(e)
  }

  /** The row for an entry; going backwards over unique keys it is that of the
      key's first entry. */
  function LandAt(entries: set<Bytes>, e: Bytes, dir: Direction): (r: Row)
    requires AreEntries(entries) && e in entries
    ensures r == RowOf(entries, e, dir)
  {
    if dir == PrevUnique then
      LookupIsLowest(entries, e);
      (KeyOf(e), Split(Scan(entries, Range(Included(KeyOf(e)), Unbounded))[0]).1)
    else Split(e)
  }

  lemma EligibleIsWithin(entries: set<Bytes>, range: Range, dir: Direction, pos: Option<Row>, target: Target)
    ensures Eligible(entries, range, dir, pos, target) <= entries
  {
  }

  /** The pass over the range sees the rows ahead, in order. */
  lemma SeenAreAhead(entries: set<Bytes>, range: Range, dir: Direction, pos: Option<Row>, target: Target, it: seq<Bytes>)
    requires AreEntries(entries)
    requires it == InDirection(Eligible(entries, range, dir, pos, target), dir)
    ensures var seen, ahead := Seen(it, |it|, dir.Unique()), Ahead(entries, range, dir, pos, target);
            |seen| == |ahead| && forall n :: 0 <= n < |seen| ==> Split(ahead[n]) == RowOf(entries, seen[n], dir)
  {
    hide Eligible, Ascending, IsFirst;
    var s := Eligible(entries, range, dir, pos, target);
    EligibleIsWithin(entries, range, dir, pos, target);
    if dir == NextUnique {
      FirstsGoingUp(entries, s);
    } else if dir == PrevUnique {
      FirstsGoingDown(entries, s);
      forall n | 0 <= n < |Firsts(it)|
        ensures Firsts(it)[n] in entries
      {
        assert Firsts(it)[n] in Firsts(it);
      }
    }
  }

  /** A new row after `skip` others is the row to land on. */
  lemma LandsHere(it: seq<Bytes>, i: nat, unique: bool, skip: nat)
    requires i < |it| && |Seen(it, i, unique)| == skip && (unique ==> StartsKey(it, i))
    ensures skip < |Seen(it, |it|, unique)| && Seen(it, |it|, unique)[skip] == it[i]
  {
    SeenGrows(it, i, unique);
    SeenIsPrefix(it, i + 1, unique);
  }

  /** The lower and upper bounds, tightened step by step. */
  method TightenedBounds(range: Range, dir: Direction, pos: Option<Row>, target: Target) returns (lo: Bound, hi: Bound)
    ensures lo == LowerFor(range, dir, pos, target) && hi == UpperFor(range, dir, pos, target)
  {
    var bounds := IndexBounds(range);
    lo, hi := bounds.lower, bounds.upper;
    if !dir.Rev() {
      if pos.Some? {
        if dir.Unique() {
          lo := TighterLower(lo, Excluded(pos.value.0 + [AFTER]));
        } else {
          lo := TighterLower(lo, Excluded(pos.value.0 + pos.value.1));
        }
      }
      match target {
        case NoTarget =>
        case KeyTarget(k) => lo := TighterLower(lo, Included(k));
        case EntryTarget(k, p) => lo := TighterLower(lo, Included(k + p));
      }
    } else {
      if pos.Some? {
        if dir.Unique() {
          hi := TighterUpper(hi, Excluded(pos.value.0));
        } else {
          hi := TighterUpper(hi, Excluded(pos.value.0 + pos.value.1));
        }
      }
      match target {
        case NoTarget =>
        case KeyTarget(k) => hi := TighterUpper(hi, Excluded(k + [AFTER]));
        case EntryTarget(k, p) => hi := TighterUpper(hi, Included(k + p));
      }
    }
  }

  /** The pass over the range: skip, drop repeated keys, land. */
  method Walk(entries: set<Bytes>, it: seq<Bytes>, dir: Direction, skip: nat) returns (r: Option<Row>)
    requires AreEntries(entries) && forall e :: e in it ==> e in entries
    ensures var seen := Seen(it, |it|, dir.Unique());
            r == if skip < |seen| then Some(RowOf(entries, seen[skip], dir)) else None
  {
    var unique := dir.Unique();
    var left, lastKey := skip, None;
    for i := 0 to |it|
      invariant |Seen(it, i, unique)| + left == skip
      invariant lastKey == if i == 0 then None else Some(KeyOf(it[i - 1]))
    {
      var k := KeyOf(it[i]);
      SeenGrows(it, i, unique);
      if unique && lastKey == Some(k) {
        continue;
      }
      lastKey := Some(k);
      if left > 0 {
        left := left - 1;
        continue;
      }
      LandsHere(it, i, unique, skip);
      return Some(LandAt(entries, it[i], dir));
    }
    return None;
  }

  /** `cursor_next` on an index. No range it builds makes the BTree panic. */
  method IndexCursorNext(entries: set<Bytes>, range: Range, dir: Direction, pos: Option<Row>, target: Target, skip: nat)
    returns (r: Option<Row>)
    requires AreEntries(entries) && Encoded(range) && EncodedPosition(pos) && EncodedTarget(target)
    ensures r == CursorNext(entries, range, dir, pos, target, skip)
  {
    var lo, hi := TightenedBounds(range, dir, pos, target);
    BoundsAreExact(entries, range, dir, pos, target);
    ghost var s := Eligible(entries, range, dir, pos, target);
    if BoundsEmpty(lo, hi) {
      forall e
        ensures e !in s
      {
        BoundsEmptyIsExact(lo, hi, e);
      }
      NothingAhead(entries, range, dir, pos, target);
      return None;
    }
    BoundsEmptyIsExact(lo, hi, []);
    var it := Scan(entries, Range(lo, hi));
    if dir.Rev() {
      it := Reversed(it);
    }
    InDirectionOrder(s, dir);
    SeenAreAhead(entries, range, dir, pos, target, it);
    r := Walk(entries, it, dir, skip);
  }

  lemma NothingAhead(entries: set<Bytes>, range: Range, dir: Direction, pos: Option<Row>, target: Target)
    requires forall e :: e !in Eligible(entries, range, dir, pos, target)
    ensures Ahead(entries, range, dir, pos, target) == []
  {
    var s := Eligible(entries, range, dir, pos, target);
    assert s == {};
    assert Visited(entries, s, dir) == {};
  }

  // ---- cursors over a store -------------------------------------------------------------

  /** The record keys in the range, past the position, and at the target or beyond. */
  function KeySet(keys: set<Bytes>, range: Range, rev: bool, pos: Option<Bytes>, target: Option<Bytes>): set<Bytes> {
    set k | k in keys && Contains(range, k) &&
            (pos.None? || (if rev then Less(k, pos.value) else Less(pos.value, k))) &&
            (target.None? || (if rev then AtMost(k, target.value) else AtMost(target.value, k)))
  }

  /** The record keys a store cursor has before it: key and primary key are one,
      so the unique directions are no different. */
  function KeysAhead(keys: set<Bytes>, range: Range, rev: bool, pos: Option<Bytes>, target: Option<Bytes>): seq<Bytes> {
    InDirection(KeySet(keys, range, rev, pos, target), if rev then Prev else Next)
  }

  /** `cursor_next` without an index. */
  method StoreCursorNext(keys: set<Bytes>, range: Range, dir: Direction, pos: Option<Bytes>, target: Option<Bytes>,
                         skip: nat) returns (r: Option<Row>)
    ensures var q := KeysAhead(keys, range, dir.Rev(), pos, target);
            r == if skip < |q| then Some((q[skip], q[skip])) else None
  {
    var lower, upper := range.lower, range.upper;
    if !dir.Rev() {
      if pos.Some? {
        lower := TighterLower(lower, Excluded(pos.value));
      }
      if target.Some? {
        lower := TighterLower(lower, Included(target.value));
      }
    } else {
      if pos.Some? {
        upper := TighterUpper(upper, Excluded(pos.value));
      }
      if target.Some? {
        upper := TighterUpper(upper, Included(target.value));
      }
    }
    ghost var s := KeySet(keys, range, dir.Rev(), pos, target);
    forall k
      ensures k in Within(keys, Range(lower, upper)) <==> k in s
    {
      StoreBounds(range, dir, pos, target, k);
    }
    assert Within(keys, Range(lower, upper)) == s;
    if BoundsEmpty(lower, upper) {
      forall k
        ensures k !in s
      {
        BoundsEmptyIsExact(lower, upper, k);
      }
      assert s == {};
      return None;
    }
    BoundsEmptyIsExact(lower, upper, []);
    var it := Scan(keys, Range(lower, upper));
    if dir.Rev() {
      it := Reversed(it);
    }
    return if skip < |it| then Some((it[skip], it[skip])) else None;
  }

  lemma StoreBounds(range: Range, dir: Direction, pos: Option<Bytes>, target: Option<Bytes>, k: Bytes)
    ensures pos.Some? ==>
              (AboveLower(TighterLower(range.lower, Excluded(pos.value)), k) <==>
               AboveLower(range.lower, k) && Less(pos.value, k)) &&
              (BelowUpper(TighterUpper(range.upper, Excluded(pos.value)), k) <==>
               BelowUpper(range.upper, k) && Less(k, pos.value))
    ensures target.Some? ==>
              (forall lo :: AboveLower(TighterLower(lo, Included(target.value)), k) <==>
                            AboveLower(lo, k) && AtMost(target.value, k)) &&
              (forall hi :: BelowUpper(TighterUpper(hi, Included(target.value)), k) <==>
                            BelowUpper(hi, k) && AtMost(k, target.value))
  {
    if pos.Some? {
      TighterLowerMeets(range.lower, Excluded(pos.value), k);
      TighterUpperMeets(range.upper, Excluded(pos.value), k);
    }
    if target.Some? {
      forall lo
        ensures AboveLower(TighterLower(lo, Included(target.value)), k) <==>
                AboveLower(lo, k) && AtMost(target.value, k)
      {
        TighterLowerMeets(lo, Included(target.value), k);
      }
      forall hi
        ensures BelowUpper(TighterUpper(hi, Included(target.value)), k) <==>
                BelowUpper(hi, k) && AtMost(k, target.value)
      {
        TighterUpperMeets(hi, Included(target.value), k);
      }
    }
  }
}
