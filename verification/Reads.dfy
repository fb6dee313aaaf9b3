/** Reading: get, getAll, count and prefetching cursors, answered from the
    engine's vectors exactly as the standard's database would answer. */
module Reads {
  import opened ByteStrings
  import opened Options
  import opened Keys
  import opened Ranges
  import opened SortedSets
  import opened Values
  import opened Spec
  import opened Guarantees
  import opened Slots
  import opened StoreMethods
  import opened StoreVectors
  import opened Cursors
  import CursorEngine

  /** One result of a read. */
  datatype Hit = Hit(key: Bytes, primary: Bytes, value: Option<Js>)

  // ---- the standard's answers --------------------------------------------------------

  /** The entries of an index, from the records alone. */
  ghost function EntriesIn(a: AStore, def: IndexDef): set<Bytes> {
    set pk, k | pk in a.records && k in IndexKeys(a.records[pk], def) :: k + pk
  }

  ghost predicate HasIndex(a: AStore, index: Option<string>) {
    index.None? || index.value in a.indexes
  }

  /** What a query over a key range finds: record keys, or index entries. */
  ghost function InRange(a: AStore, index: Option<string>, range: Range): set<Bytes>
    requires HasIndex(a, index)
  {
    match index
    case None => Within(a.records.Keys, range)
    case Some(n) => set e | e in EntriesIn(a, a.indexes[n]) && Contains(range, KeyOf(e))
  }

  ghost function Queried(a: AStore, index: Option<string>, range: Range, reverse: bool): seq<Bytes>
    requires HasIndex(a, index)
  {
    InDirection(InRange(a, index, range), if reverse then Prev else Next)
  }

  lemma QueriedLength(a: AStore, index: Option<string>, range: Range)
    requires HasIndex(a, index)
    ensures |Queried(a, index, range, false)| == |InRange(a, index, range)|
  {
  }

  /** The hit an entry, or a record key, stands for. */
  ghost predicate IsHit(h: Hit, records: map<Bytes, Js>, indexed: bool, e: Bytes, values: bool) {
    (h.key, h.primary) == RowAt(indexed, e) && h.primary in records &&
    h.value == if values then Some(records[h.primary]) else None
  }

  /** The row an entry, or a record key, stands for. */
  function RowAt(indexed: bool, e: Bytes): Row {
    if indexed then Split(e) else (e, e)
  }

  /** The first `limit` of a run after `skip`, as hits; all of them when `limit` is 0. */
  ghost predicate Answers(hits: seq<Hit>, records: map<Bytes, Js>, indexed: bool, q: seq<Bytes>, skip: nat, limit: nat,
                          values: bool) {
    |hits| == Length(|q|, skip, limit) &&
    forall i :: 0 <= i < |hits| ==> IsHit(hits[i], records, indexed, q[skip + i], values)
  }

  function Length(n: nat, skip: nat, limit: nat): (l: nat)
    ensures l == 0 || skip + l <= n
  {
    if n <= skip then 0 else if limit == 0 || n - skip < limit then n - skip else limit
  }

  /** Index hits come sorted by key and then by primary key, in the order of
      section 2.4. */
  lemma HitsAreSorted(a: AStore, name: string, range: Range, i: nat, j: nat, k: Key, p: Key, l: Key, m: Key)
    requires name in a.indexes && i < j < |Queried(a, Some(name), range, false)|
    requires Queried(a, Some(name), range, false)[i] == Encode(k) + Encode(p)
    requires Queried(a, Some(name), range, false)[j] == Encode(l) + Encode(m)
    ensures Compare(k, l) == Lt || (Compare(k, l) == Eq && Compare(p, m) == Lt)
  {
    var q := Queried(a, Some(name), range, false);
    InDirectionOrder(InRange(a, Some(name), range), Next);
    assert Less(q[i], q[j]);
    EncodingsDecide(Encode(k), Encode(l), Encode(p), Encode(m));
    OrderTheorem(k, l);
    OrderTheorem(p, m);
  }

  // ---- the engine's indexes -----------------------------------------------------------

  ghost predicate Kept(s: StoreRow, top: nat) {
    Distinct(s.indexes) && IndexNamesDiffer(s) && Engine.StoreInv(StoreOf(s), top)
  }

  lemma IndexNamed(s: StoreRow, p: nat, top: nat)
    requires Kept(s, top) && p < |s.indexes|
    ensures var t, ix := StoreOf(s), s.indexes[p];
            ix.id in t.indexes && t.indexes[ix.id] == ix.body &&
            ix.body.name in AbsStore(t).indexes && AbsStore(t).indexes[ix.body.name] == ix.body.def
  {
    HasId(s.indexes, p);
    IndexNames(StoreOf(s), s.indexes[p].id);
  }

  lemma IndexIsEntriesIn(t: Engine.Store, i: nat, top: nat)
    requires Engine.StoreInv(t, top) && i in t.indexes
    ensures t.indexes[i].entries == EntriesIn(AbsStore(t), t.indexes[i].def)
  {
    forall e
      ensures e in t.indexes[i].entries <==> e in EntriesIn(AbsStore(t), t.indexes[i].def)
    {
      IndexIsView(t, i, top, e);
    }
  }

  lemma IndexEntriesSplit(t: Engine.Store, i: nat, top: nat)
    requires Engine.StoreInv(t, top) && i in t.indexes
    ensures AreEntries(t.indexes[i].entries) && forall e :: e in t.indexes[i].entries ==> Split(e).1 in t.records
  {
    forall e | e in t.indexes[i].entries
      ensures IsEntry(e) && Split(e).1 in t.records
    {
      HitHasRecord(t, i, top, e);
    }
  }

  /** A stored index is the view of the records, made of entries that split. */
  lemma IndexInVector(s: StoreRow, p: nat, top: nat)
    requires Kept(s, top) && p < |s.indexes|
    ensures var a, ix := AbsStore(StoreOf(s)), s.indexes[p].body;
            ix.name in a.indexes && a.indexes[ix.name] == ix.def && ix.entries == EntriesIn(a, ix.def) &&
            AreEntries(ix.entries) && forall e :: e in ix.entries ==> Split(e).1 in s.records
  {
    IndexNamed(s, p, top);
    IndexIsEntriesIn(StoreOf(s), s.indexes[p].id, top);
    IndexEntriesSplit(StoreOf(s), s.indexes[p].id, top);
  }

  lemma NoSuchIndex(s: StoreRow, name: string, top: nat)
    requires Kept(s, top)
    ensures name in AbsStore(StoreOf(s)).indexes <==> Schema.IndexId(StoreOf(s), name).Some?
  {
    FindIndex(StoreOf(s), name);
  }

  lemma IndexBoundsFind(entries: set<Bytes>, range: Range)
    requires AreEntries(entries) && Encoded(range)
    ensures Within(entries, IndexBounds(range)) == set e | e in entries && Contains(range, KeyOf(e))
  {
    forall e | e in entries
      ensures Contains(IndexBounds(range), e) <==> Contains(range, KeyOf(e))
    {
      IndexBoundsExact(range, Split(e).0, Split(e).1);
    }
  }

  // ---- reading ---------------------------------------------------------------------------

  /** The range can be given to the tree it is looked up in. */
  predicate RangeAllowed(range: Range, indexed: bool) {
    !Panics(if indexed then IndexBounds(range) else range)
  }

  /** The name of an index by its position. */
  ghost function NameAt(s: StoreRow, index: Option<nat>): Option<string>
    requires index.Some? ==> index.value < |s.indexes|
  {
    if index.None? then None else Some(s.indexes[index.value].body.name)
  }

  /** The position of the index a query names; nothing when it is gone. */
  method IndexFor(s: StoreRow, name: string, ghost top: nat) returns (p: Option<nat>)
    requires Kept(s, top)
    ensures p.None? <==> name !in AbsStore(StoreOf(s)).indexes
    ensures p.Some? ==> p.value < |s.indexes| && s.indexes[p.value].body.name == name
  {
    p := FindIndexName(s, name);
    NoSuchIndex(s, name, top);
    if p.Some? {
      HasId(s.indexes, p.value);
    }
  }

  /** The entries, or record keys, in a range, in order. */
  method Lookup(s: StoreRow, index: Option<nat>, range: Range, reverse: bool, ghost top: nat) returns (it: seq<Bytes>)
    requires Kept(s, top) && Encoded(range) && RangeAllowed(range, index.Some?)
    requires index.Some? ==> index.value < |s.indexes|
    ensures var a, name := AbsStore(StoreOf(s)), NameAt(s, index);
            HasIndex(a, name) && it == Queried(a, name, range, reverse) &&
            forall e :: e in it ==> RowAt(index.Some?, e).1 in s.records
  {
    hide InRange, AbsStore, StoreOf, Ascending;
    ghost var found;
    if index.None? {
      it := Scan(s.records.Keys, range);
      found := Within(s.records.Keys, range);
      KeysInRange(s, range);
    } else {
      EntriesInRange(s, index.value, range, top);
      it := Scan(s.indexes[index.value].body.entries, IndexBounds(range));
      found := Within(s.indexes[index.value].body.entries, IndexBounds(range));
    }
    InDirectionOrder(found, if reverse then Prev else Next);
    if reverse {
      it := Reversed(it);
    }
  }

  lemma KeysInRange(s: StoreRow, range: Range)
    requires Distinct(s.indexes)
    ensures Within(s.records.Keys, range) == InRange(AbsStore(StoreOf(s)), None, range)
  {
    assert s.records.Keys == AbsStore(StoreOf(s)).records.Keys;
  }

  lemma EntriesInRange(s: StoreRow, p: nat, range: Range, top: nat)
    requires Kept(s, top) && p < |s.indexes| && Encoded(range)
    ensures var a, ix := AbsStore(StoreOf(s)), s.indexes[p].body;
            ix.name in a.indexes && Within(ix.entries, IndexBounds(range)) == InRange(a, Some(ix.name), range) &&
            forall e :: e in Within(ix.entries, IndexBounds(range)) ==> Split(e).1 in s.records
  {
    hide AbsStore, EntriesIn, IndexBounds;
    IndexInVector(s, p, top);
    IndexBoundsFind(s.indexes[p].body.entries, range);
  }

  /** `read`: at most `limit` hits, 0 standing for no limit; nothing when the
      index is gone. */
  method ReadRow(s: StoreRow, index: Option<string>, range: Range, limit: nat, reverse: bool, values: bool,
                 ghost top: nat) returns (hits: Option<seq<Hit>>)
    requires Kept(s, top) && Encoded(range) && RangeAllowed(range, index.Some?)
    ensures var a := AbsStore(StoreOf(s));
            if HasIndex(a, index) then
              hits.Some? && Answers(hits.value, a.records, index.Some?, Queried(a, index, range, reverse), 0, limit, values)
            else hits.None?
  {
    var p := None;
    if index.Some? {
      p := IndexFor(s, index.value, top);
      if p.None? {
        return None;
      }
    }
    var it := Lookup(s, p, range, reverse, top);
    var found := Take(s.records, it, index.Some?, limit, values);
    hits := Some(found);
  }

  /** `take(want)` with the record of each entry. */
  method Take(records: map<Bytes, Engine.Record>, it: seq<Bytes>, indexed: bool, limit: nat, values: bool)
    returns (hits: seq<Hit>)
    requires forall e :: e in it ==> RowAt(indexed, e).1 in records
    ensures Answers(hits, Plain(records), indexed, it, 0, limit, values)
  {
    hits := [];
    while |hits| < |it| && (limit == 0 || |hits| < limit)
      invariant |hits| <= |it| && (limit == 0 || |hits| <= limit)
      invariant forall i :: 0 <= i < |hits| ==> IsHit(hits[i], Plain(records), indexed, it[i], values)
      decreases |it| - |hits|
    {
      assert it[|hits|] in it;
      hits := hits + [HitAt(records, RowAt(indexed, it[|hits|]), values)];
    }
  }

  /** A hit, with `s.records.get(pk).map(|r| r.value.clone())` when the value is
      wanted. */
  function HitAt(records: map<Bytes, Engine.Record>, row: Row, values: bool): (h: Hit)
    ensures (h.key, h.primary) == row
    ensures row.1 in records ==> h.value == if values then Some(Plain(records)[row.1]) else None
  {
    Hit(row.0, row.1, if values && row.1 in records then Some(records[row.1].value) else None)
  }

  /** `count`: how many a range holds. */
  method CountRow(s: StoreRow, index: Option<string>, range: Range, ghost top: nat) returns (n: Option<nat>)
    requires Kept(s, top) && Encoded(range) && RangeAllowed(range, index.Some?)
    ensures var a := AbsStore(StoreOf(s));
            n == if HasIndex(a, index) then Some(|InRange(a, index, range)|) else None
  {
    hide Queried, InRange, AbsStore, StoreOf;
    var p := None;
    if index.Some? {
      p := IndexFor(s, index.value, top);
      if p.None? {
        return None;
      }
    }
    var it := Lookup(s, p, range, false, top);
    QueriedLength(AbsStore(StoreOf(s)), index, range);
    n := Some(|it|);
  }

  // ---- cursors ---------------------------------------------------------------------------

  /** The rows before a cursor, over an index or over the store itself. */
  ghost function RowsAhead(a: AStore, index: Option<string>, range: Range, dir: Direction, pos: Option<Row>,
                           target: Target): seq<Bytes>
    requires HasIndex(a, index)
  {
    match index
    case None => CursorEngine.KeysAhead(a.records.Keys, range, dir.Rev(), KeyOfRow(pos), KeyOfTarget(target))
    case Some(n) => Ahead(EntriesIn(a, a.indexes[n]), range, dir, pos, target)
  }

  function KeyOfRow(pos: Option<Row>): Option<Bytes> {
    if pos.None? then None else Some(pos.value.0)
  }

  function KeyOfTarget(target: Target): Option<Bytes> {
    if target.NoTarget? then None else Some(target.key)
  }

  /** From any row on, the later rows are ahead. */
  lemma KeysAheadOfRow(keys: set<Bytes>, range: Range, rev: bool, pos: Option<Bytes>, target: Option<Bytes>, i: nat)
    requires i < |CursorEngine.KeysAhead(keys, range, rev, pos, target)|
    ensures var q := CursorEngine.KeysAhead(keys, range, rev, pos, target);
            CursorEngine.KeysAhead(keys, range, rev, Some(q[i]), None) == q[i + 1..]
  {
    var dir := if rev then Prev else Next;
    var s, q := CursorEngine.KeySet(keys, range, rev, pos, target), CursorEngine.KeysAhead(keys, range, rev, pos, target);
    InDirectionOrder(s, dir);
    var t := CursorEngine.KeySet(keys, range, rev, Some(q[i]), None);
    forall k
      ensures k in q[i + 1..] <==> k in t
    {
      assert q[i] in q;
      KeyBeyond(keys, range, rev, pos, target, q[i], k);
      if k in q {
        AfterInRun(q, dir, i, k);
      }
    }
    InDirectionUnique(q[i + 1..], t, dir);
  }

  lemma KeyBeyond(keys: set<Bytes>, range: Range, rev: bool, pos: Option<Bytes>, target: Option<Bytes>, e: Bytes, k: Bytes)
    requires e in CursorEngine.KeySet(keys, range, rev, pos, target)
    ensures k in CursorEngine.KeySet(keys, range, rev, Some(e), None) <==>
            k in CursorEngine.KeySet(keys, range, rev, pos, target) && if rev then Less(k, e) else Less(e, k)
  {
    if rev && Less(k, e) {
      if pos.Some? { Squeeze(k, e, pos.value); }
      if target.Some? { Squeeze(k, e, target.value); }
    }
    if !rev && Less(e, k) {
      if pos.Some? { Squeeze(e, k, pos.value); }
      if target.Some? { Squeeze(e, k, target.value); }
    }
  }

  /** One step on either kind of cursor. */
  method NextRow(s: StoreRow, index: Option<nat>, range: Range, dir: Direction, pos: Option<Row>, target: Target,
                 skip: nat, ghost top: nat) returns (r: Option<Row>)
    requires Kept(s, top) && Encoded(range) && EncodedPosition(pos) && EncodedTarget(target)
    requires index.Some? ==> index.value < |s.indexes|
    ensures var a := AbsStore(StoreOf(s));
            var name := NameAt(s, index);
            HasIndex(a, name) &&
            var q := RowsAhead(a, name, range, dir, pos, target);
            r == (if skip < |q| then Some(RowAt(index.Some?, q[skip])) else None)
  {
    if index.None? {
      assert s.records.Keys == AbsStore(StoreOf(s)).records.Keys;
      r := CursorEngine.StoreCursorNext(s.records.Keys, range, dir, KeyOfRow(pos), KeyOfTarget(target), skip);
    } else {
      IndexInVector(s, index.value, top);
      r := CursorEngine.IndexCursorNext(s.indexes[index.value].body.entries, range, dir, pos, target, skip);
    }
  }

  /** A row ahead is a record key, or an entry of the index, with its record. */
  lemma KeyHasRecord(s: StoreRow, range: Range, rev: bool, pos: Option<Bytes>, target: Option<Bytes>, e: Bytes, top: nat)
    requires Kept(s, top) && e in CursorEngine.KeysAhead(s.records.Keys, range, rev, pos, target)
    ensures e in s.records && IsEncoding(e)
  {
    InDirectionOrder(CursorEngine.KeySet(s.records.Keys, range, rev, pos, target), if rev then Prev else Next);
    assert Engine.RecordInv(e, StoreOf(s).records[e], top);
  }

  lemma EntryHasRecord(s: StoreRow, p: nat, range: Range, dir: Direction, pos: Option<Row>, target: Target, e: Bytes, top: nat)
    requires Kept(s, top) && p < |s.indexes| && e in Ahead(s.indexes[p].body.entries, range, dir, pos, target)
    ensures Split(e).1 in s.records && IsEntry(e)
  {
    IndexInVector(s, p, top);
    RowPart(s.indexes[p].body.entries, range, dir, pos, target, e);
  }

  lemma RowHasRecord(s: StoreRow, index: Option<nat>, range: Range, dir: Direction, pos: Option<Row>, target: Target,
                     e: Bytes, top: nat)
    requires Kept(s, top) && (index.Some? ==> index.value < |s.indexes|)
    requires var name := NameAt(s, index);
             HasIndex(AbsStore(StoreOf(s)), name) && e in RowsAhead(AbsStore(StoreOf(s)), name, range, dir, pos, target)
    ensures RowAt(index.Some?, e).1 in s.records && EncodedPosition(Some(RowAt(index.Some?, e)))
  {
    if index.None? {
      assert s.records.Keys == AbsStore(StoreOf(s)).records.Keys;
      KeyHasRecord(s, range, dir.Rev(), KeyOfRow(pos), KeyOfTarget(target), e, top);
    } else {
      IndexInVector(s, index.value, top);
      EntryHasRecord(s, index.value, range, dir, pos, target, e, top);
    }
  }

  /** The rows after a row, on either kind of cursor. */
  lemma RowsAfter(a: AStore, index: Option<string>, range: Range, dir: Direction, pos: Option<Row>, target: Target, i: nat)
    requires HasIndex(a, index) && i < |RowsAhead(a, index, range, dir, pos, target)|
    requires index.Some? ==> AreEntries(EntriesIn(a, a.indexes[index.value]))
    ensures var q := RowsAhead(a, index, range, dir, pos, target);
            RowsAhead(a, index, range, dir, Some(RowAt(index.Some?, q[i])), NoTarget) == q[i + 1..]
  {
    if index.None? {
      KeysAheadOfRow(a.records.Keys, range, dir.Rev(), KeyOfRow(pos), KeyOfTarget(target), i);
    } else {
      AheadOfRow(EntriesIn(a, a.indexes[index.value]), range, dir, pos, target, i);
    }
  }

  lemma IndexAtHand(s: StoreRow, index: Option<nat>, top: nat)
    requires Kept(s, top) && (index.Some? ==> index.value < |s.indexes|)
    ensures var a, name := AbsStore(StoreOf(s)), NameAt(s, index);
            HasIndex(a, name) && (name.Some? ==> AreEntries(EntriesIn(a, a.indexes[name.value])))
  {
    if index.Some? {
      IndexInVector(s, index.value, top);
    }
  }

  /** Where a cursor stands after `n` rows. */
  ghost predicate Position(pos: Option<Row>, indexed: bool, start: Option<Row>, q: seq<Bytes>, skip: nat, n: nat) {
    if n == 0 then pos == start else skip + n <= |q| && pos == Some(RowAt(indexed, q[skip + n - 1]))
  }

  /** The next step lands on the next of the rows that were ahead at the start. */
  lemma NextIsAhead(a: AStore, name: Option<string>, range: Range, dir: Direction, start: Option<Row>, target: Target,
                    i: nat, pos: Option<Row>)
    requires HasIndex(a, name) && (name.Some? ==> AreEntries(EntriesIn(a, a.indexes[name.value])))
    requires i < |RowsAhead(a, name, range, dir, start, target)|
    requires pos == Some(RowAt(name.Some?, RowsAhead(a, name, range, dir, start, target)[i]))
    ensures Continues(RowsAhead(a, name, range, dir, start, target), i + 1, RowsAhead(a, name, range, dir, pos, NoTarget), 0)
  {
    RowsAfter(a, name, range, dir, start, target, i);
    DropContinues(RowsAhead(a, name, range, dir, start, target), i + 1, RowsAhead(a, name, range, dir, pos, NoTarget));
  }

  /** The rest after `left` is the whole after `n`. */
  ghost predicate Continues(whole: seq<Bytes>, n: nat, rest: seq<Bytes>, left: nat) {
    (left < |rest| <==> n < |whole|) && (left < |rest| ==> rest[left] == whole[n])
  }

  lemma DropContinues(q: seq<Bytes>, n: nat, rest: seq<Bytes>)
    requires n <= |q| && rest == q[n..]
    ensures Continues(q, n, rest, 0)
  {
  }

  /** The rows of a run after `skip`, collected so far. */
  ghost predicate Collected(rows: seq<Hit>, records: map<Bytes, Js>, indexed: bool, q: seq<Bytes>, skip: nat, values: bool) {
    (rows != [] ==> skip + |rows| <= |q|) &&
    forall i :: 0 <= i < |rows| ==> IsHit(rows[i], records, indexed, q[skip + i], values)
  }

  lemma OneMore(rows: seq<Hit>, records: map<Bytes, Js>, indexed: bool, q: seq<Bytes>, skip: nat, values: bool, h: Hit,
                start: Option<Row>)
    requires Collected(rows, records, indexed, q, skip, values) && skip + |rows| < |q|
    requires IsHit(h, records, indexed, q[skip + |rows|], values)
    ensures Collected(rows + [h], records, indexed, q, skip, values)
    ensures Position(Some((h.key, h.primary)), indexed, start, q, skip, |rows + [h]|)
  {
  }

  lemma AllCollected(rows: seq<Hit>, records: map<Bytes, Js>, indexed: bool, q: seq<Bytes>, skip: nat, values: bool, count: nat)
    requires Collected(rows, records, indexed, q, skip, values) && |rows| <= count && count > 0
    requires |rows| == count || skip + |rows| >= |q|
    ensures Answers(rows, records, indexed, q, skip, count, values)
  {
  }

  /** `cursor`: up to `count` rows from a position on, one step at a time. They
      are the rows ahead after `skip` of them, none missed and none repeated. */
  method CollectRows(s: StoreRow, index: Option<nat>, range: Range, dir: Direction, start: Option<Row>, target: Target,
                     skip: nat, values: bool, count: nat, ghost top: nat) returns (rows: seq<Hit>)
    requires Kept(s, top) && Encoded(range) && EncodedPosition(start) && EncodedTarget(target) && count > 0
    requires index.Some? ==> index.value < |s.indexes|
    ensures var a, name := AbsStore(StoreOf(s)), NameAt(s, index);
            HasIndex(a, name) &&
            Answers(rows, a.records, index.Some?, RowsAhead(a, name, range, dir, start, target), skip, count, values)
  {
    hide RowsAhead, AbsStore, StoreOf, Answers;
    ghost var a, name := AbsStore(StoreOf(s)), NameAt(s, index);
    IndexAtHand(s, index, top);
    ghost var q := RowsAhead(a, name, range, dir, start, target);
    rows := [];
    var pos := start;
    while |rows| < count
      invariant |rows| <= count && EncodedPosition(pos)
      invariant Position(pos, index.Some?, start, q, skip, |rows|)
      invariant Collected(rows, a.records, index.Some?, q, skip, values)
      decreases count - |rows|
    {
      var hit := NextHit(s, index, range, dir, start, target, skip, pos, |rows|, values, top);
      if hit.None? {
        break;
      }
      OneMore(rows, a.records, index.Some?, q, skip, values, hit.value, start);
      pos := Some((hit.value.key, hit.value.primary));
      rows := rows + [hit.value];
    }
    AllCollected(rows, a.records, index.Some?, q, skip, values, count);
  }

  lemma PlainRecords(s: StoreRow)
    requires Distinct(s.indexes)
    ensures AbsStore(StoreOf(s)).records == Plain(s.records)
  {
  }

  /** One turn of the loop: the step, and the record of the row it lands on. */
  method NextHit(s: StoreRow, index: Option<nat>, range: Range, dir: Direction, ghost start: Option<Row>, target: Target,
                 skip: nat, pos: Option<Row>, n: nat, values: bool, ghost top: nat) returns (hit: Option<Hit>)
    requires Kept(s, top) && Encoded(range) && EncodedPosition(start) && EncodedPosition(pos) && EncodedTarget(target)
    requires index.Some? ==> index.value < |s.indexes|
    requires HasIndex(AbsStore(StoreOf(s)), NameAt(s, index)) &&
             Position(pos, index.Some?, start, RowsAhead(AbsStore(StoreOf(s)), NameAt(s, index), range, dir, start, target), skip, n)
    ensures var a, name := AbsStore(StoreOf(s)), NameAt(s, index);
            var q := RowsAhead(a, name, range, dir, start, target);
            if skip + n < |q| then hit.Some? && IsHit(hit.value, a.records, index.Some?, q[skip + n], values)
            else hit.None?
    ensures hit.Some? ==> EncodedPosition(Some((hit.value.key, hit.value.primary)))
  {
    hide RowsAhead, AbsStore, StoreOf, EncodedPosition;
    PlainRecords(s);
    IndexAtHand(s, index, top);
    ghost var a, name := AbsStore(StoreOf(s)), NameAt(s, index);
    ghost var q := RowsAhead(a, name, range, dir, start, target);
    if n > 0 {
      NextIsAhead(a, name, range, dir, start, target, skip + n - 1, pos);
    }
    var found := NextRow(s, index, range, dir, pos, if n == 0 then target else NoTarget, if n == 0 then skip else 0, top);
    if found.None? {
      return None;
    }
    RowHasRecord(s, index, range, dir, start, target, q[skip + n], top);
    hit := Some(HitAt(s.records, found.value, values));
    assert (hit.value.key, hit.value.primary) == RowAt(index.Some?, q[skip + n]);
  }

  // ---- by name ---------------------------------------------------------------------------

  lemma StoreInVector(version: nat, stores: seq<Slot<StoreRow>>, p: nat, store: string, top: nat)
    requires WellFormed(stores) && p < |stores| && Engine.Inv(Engine.Content(version, StoresOf(stores)), top)
    requires Schema.StoreId(Engine.Content(version, StoresOf(stores)), store) == Some(stores[p].id)
    ensures var a := Abs(Engine.Content(version, StoresOf(stores)));
            store in a.stores && a.stores[store] == AbsStore(StoreOf(stores[p].body)) && Kept(stores[p].body, top)
  {
    var c := Engine.Content(version, StoresOf(stores));
    InvNames(c, top);
    FindStore(c, store);
    StoresById(stores);
    InvIsTidy(version, stores, top);
  }

  /** The row of a store's name. */
  method RowFor(version: nat, stores: seq<Slot<StoreRow>>, store: string, ghost top: nat) returns (p: Option<nat>)
    requires WellFormed(stores) && Engine.Inv(Engine.Content(version, StoresOf(stores)), top)
    ensures var a := Abs(Engine.Content(version, StoresOf(stores)));
            p.None? <==> store !in a.stores
    ensures var a := Abs(Engine.Content(version, StoresOf(stores)));
            p.Some? ==> p.value < |stores| && Kept(stores[p.value].body, top) &&
                        a.stores[store] == AbsStore(StoreOf(stores[p.value].body))
  {
    InvIsTidy(version, stores, top);
    p := FindStoreName(version, stores, store);
    if p.Some? {
      StoreInVector(version, stores, p.value, store, top);
    } else {
      InvNames(Engine.Content(version, StoresOf(stores)), top);
      FindStore(Engine.Content(version, StoresOf(stores)), store);
    }
  }
}
