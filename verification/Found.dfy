/** What reads find, said of the records: `get` is a lookup, an index read finds
    every record under every key the index takes from it, and limits cut the end. */
module Found {
  import opened ByteStrings
  import opened Options
  import opened Keys
  import opened Ranges
  import opened SortedSets
  import opened Values
  import opened ValueKeys
  import opened Spec
  import opened Engine
  import opened Schema
  import opened StoreMethods
  import opened Cursors
  import opened Reads
  import opened KeyOrder

  /** Without a limit every row is answered; with one, the first so many. */
  lemma LimitCuts(hits: seq<Hit>, records: map<Bytes, Js>, indexed: bool, q: seq<Bytes>, limit: nat, values: bool)
    requires Answers(hits, records, indexed, q, 0, limit, values)
    ensures limit == 0 || |q| <= limit ==> |hits| == |q|
    ensures 0 < limit <= |q| ==> |hits| == limit
  {
  }

  /** Rows that are skipped are not answered, and all others are while the limit
      lasts. */
  lemma SkipDrops(hits: seq<Hit>, records: map<Bytes, Js>, indexed: bool, q: seq<Bytes>, skip: nat, limit: nat, values: bool)
    requires Answers(hits, records, indexed, q, skip, limit, values) && limit > 0
    ensures |q| <= skip ==> hits == []
    ensures skip < |q| && |q| - skip <= limit ==> |hits| == |q| - skip
    ensures skip < |q| && limit <= |q| - skip ==> |hits| == limit
  {
  }

  lemma OneKeyRun(keys: set<Bytes>, pk: Bytes, dir: Direction)
    ensures InDirection(Within(keys, Range(Included(pk), Included(pk))), dir) == if pk in keys then [pk] else []
  {
    hide Contains, InDirection, Ascending;
    var s := Within(keys, Range(Included(pk), Included(pk)));
    forall x
      ensures x in s <==> x in keys && x == pk
    {
      OnlyOne(pk, x);
    }
    InDirectionUnique(if pk in keys then [pk] else [], s, dir);
  }

  /** `get` of a key gives the record's value, and nothing when there is none. */
  lemma GetIsLookup(hits: seq<Hit>, a: AStore, pk: Bytes, reverse: bool, limit: nat, values: bool)
    requires Answers(hits, a.records, false, Queried(a, None, Range(Included(pk), Included(pk)), reverse), 0, limit, values)
    ensures hits == if pk in a.records then [Hit(pk, pk, if values then Some(a.records[pk]) else None)] else []
  {
    hide InDirection, Contains;
    OneKeyRun(a.records.Keys, pk, if reverse then Prev else Next);
  }

  /** The hit of a record under a key of the index. */
  ghost predicate IsFound(hits: seq<Hit>, b: Bytes, pk: Bytes, value: Option<Js>) {
    exists i :: 0 <= i < |hits| && hits[i] == Hit(b, pk, value)
  }

  /** Every record in the index is found once for each of its keys in the range, with
      its own value, and nothing else is. */
  ghost predicate AllFound(hits: seq<Hit>, a: AStore, name: string, range: Range, values: bool)
    requires name in a.indexes
  {
    (forall b, pk, v :: IsFound(hits, b, pk, v) <==>
       pk in a.records && b in IndexKeys(a.records[pk], a.indexes[name]) && Contains(range, b) &&
       v == if values then Some(a.records[pk]) else None) &&
    forall i, j :: 0 <= i < j < |hits| ==> hits[i] != hits[j]
  }

  lemma EntrySplits(a: AStore, def: IndexDef, pk: Bytes, b: Bytes)
    requires AreEntries(EntriesIn(a, def)) && RecordKeysEncoded(a)
    requires pk in a.records && b in IndexKeys(a.records[pk], def)
    ensures b + pk in EntriesIn(a, def) && Split(b + pk) == (b, pk)
  {
    hide IndexKeys, Split;
    IndexKeysEncoded(a.records[pk], def);
    SplitRecovers(b, pk);
  }

  ghost predicate RecordKeysEncoded(a: AStore) {
    forall pk :: pk in a.records ==> IsEncoding(pk)
  }

  lemma EntryOfHit(a: AStore, def: IndexDef, e: Bytes)
    requires AreEntries(EntriesIn(a, def)) && RecordKeysEncoded(a) && e in EntriesIn(a, def)
    ensures var (b, pk) := Split(e); pk in a.records && b in IndexKeys(a.records[pk], def)
  {
    hide IndexKeys, Split;
    var pk, b :| pk in a.records && b in IndexKeys(a.records[pk], def) && e == b + pk;
    EntrySplits(a, def, pk, b);
  }

  lemma FoundBackAndForth(hits: seq<Hit>, a: AStore, name: string, range: Range, reverse: bool, values: bool, b: Bytes,
                          pk: Bytes, v: Option<Js>)
    requires name in a.indexes && AreEntries(EntriesIn(a, a.indexes[name])) && RecordKeysEncoded(a)
    requires Answers(hits, a.records, true, Queried(a, Some(name), range, reverse), 0, 0, values)
    ensures IsFound(hits, b, pk, v) <==>
            pk in a.records && b in IndexKeys(a.records[pk], a.indexes[name]) && Contains(range, b) &&
            v == if values then Some(a.records[pk]) else None
  {
    hide IndexKeys, Contains, Split, EntriesIn, InDirection;
    var def, q := a.indexes[name], Queried(a, Some(name), range, reverse);
    InDirectionOrder(InRange(a, Some(name), range), if reverse then Prev else Next);
    if i :| 0 <= i < |hits| && hits[i] == Hit(b, pk, v) {
      assert q[i] in q;
      EntryOfHit(a, def, q[i]);
    }
    if pk in a.records && b in IndexKeys(a.records[pk], def) && Contains(range, b) {
      EntrySplits(a, def, pk, b);
      assert b + pk in q;
      var i :| 0 <= i < |q| && q[i] == b + pk;
      assert IsHit(hits[i], a.records, true, q[i], values);
    }
  }

  /** An unlimited read of an index. */
  lemma IndexReadFindsAll(hits: seq<Hit>, a: AStore, name: string, range: Range, reverse: bool, values: bool)
    requires name in a.indexes && AreEntries(EntriesIn(a, a.indexes[name])) && RecordKeysEncoded(a)
    requires Answers(hits, a.records, true, Queried(a, Some(name), range, reverse), 0, 0, values)
    ensures AllFound(hits, a, name, range, values)
  {
    hide Answers, Queried, IsFound, EntriesIn, IndexKeys, Contains;
    forall b, pk, v
      ensures IsFound(hits, b, pk, v) <==>
              pk in a.records && b in IndexKeys(a.records[pk], a.indexes[name]) && Contains(range, b) &&
              v == if values then Some(a.records[pk]) else None
    {
      FoundBackAndForth(hits, a, name, range, reverse, values, b, pk, v);
    }
    HitsDiffer(hits, a, name, range, reverse, values);
  }

  lemma HitsDiffer(hits: seq<Hit>, a: AStore, name: string, range: Range, reverse: bool, values: bool)
    requires name in a.indexes && AreEntries(EntriesIn(a, a.indexes[name]))
    requires Answers(hits, a.records, true, Queried(a, Some(name), range, reverse), 0, 0, values)
    ensures forall i, j :: 0 <= i < j < |hits| ==> hits[i] != hits[j]
  {
    hide EntriesIn, Contains, InDirection, Split;
    var q := Queried(a, Some(name), range, reverse);
    InDirectionOrder(InRange(a, Some(name), range), if reverse then Prev else Next);
    forall i, j | 0 <= i < j < |hits|
      ensures hits[i] != hits[j]
    {
      assert q[i] in q && q[j] in q;
      LessIsStrict(q[i], q[j]);
      LessIsStrict(q[j], q[i]);
      assert IsHit(hits[i], a.records, true, q[i], values) && IsHit(hits[j], a.records, true, q[j], values);
      assert KeyOf(q[i]) + Split(q[i]).1 == q[i] && KeyOf(q[j]) + Split(q[j]).1 == q[j];
    }
  }

  /** A record is found under every item of an array that a multi-entry index is on. */
  lemma ElementIsFound(hits: seq<Hit>, a: AStore, name: string, range: Range, values: bool, pk: Bytes, w: Js, i: nat, k: Key)
    requires name in a.indexes && AllFound(hits, a, name, range, values) && pk in a.records
    requires var def := a.indexes[name];
             def.multi && def.keyPath.Path? && EvalPath(a.records[pk], def.keyPath.path) == Some(w) && w.ArrayValue?
    requires i < w.length && Decimal(i) in w.props && ToKey(w.props[Decimal(i)]) == Some(k) && Contains(range, Encode(k))
    ensures IsFound(hits, Encode(k), pk, if values then Some(a.records[pk]) else None)
  {
    hide IndexKeys, IsFound, Contains, Encode;
    TagsAreFound(a.records[pk], a.indexes[name], w, i, k);
  }

  /** An unlimited read of a store finds every record in the range once, with its
      value, in key order, or the other way round. */
  lemma StoreReadFindsAll(hits: seq<Hit>, a: AStore, range: Range, reverse: bool, values: bool, pk: Bytes)
    requires Answers(hits, a.records, false, Queried(a, None, range, reverse), 0, 0, values)
    ensures (exists v :: IsFound(hits, pk, pk, v)) <==> pk in a.records && Contains(range, pk)
    ensures forall h :: h in hits ==>
              h.key == h.primary && h.primary in a.records && h.value == if values then Some(a.records[h.primary]) else None
    ensures forall i, j :: 0 <= i < j < |hits| ==>
              if reverse then Less(hits[j].key, hits[i].key) else Less(hits[i].key, hits[j].key)
  {
    hide InDirection, Contains;
    var q := Queried(a, None, range, reverse);
    InDirectionOrder(InRange(a, None, range), if reverse then Prev else Next);
    forall i | 0 <= i < |hits|
      ensures q[i] in q && q[i] in a.records
      ensures hits[i] == Hit(q[i], q[i], if values then Some(a.records[q[i]]) else None)
    {
      assert IsHit(hits[i], a.records, false, q[0 + i], values);
    }
    if pk in a.records && Contains(range, pk) {
      assert pk in q;
      var i :| 0 <= i < |q| && q[i] == pk;
      assert IsFound(hits, pk, pk, hits[i].value);
    }
  }

  /** Index hits are ordered by their entries, or the other way round. */
  lemma IndexReadInOrder(hits: seq<Hit>, a: AStore, name: string, range: Range, reverse: bool, values: bool)
    requires name in a.indexes && AreEntries(EntriesIn(a, a.indexes[name]))
    requires Answers(hits, a.records, true, Queried(a, Some(name), range, reverse), 0, 0, values)
    ensures forall i, j :: 0 <= i < j < |hits| ==>
              var e, f := hits[i].key + hits[i].primary, hits[j].key + hits[j].primary;
              if reverse then Less(f, e) else Less(e, f)
  {
    hide EntriesIn, Contains, InDirection, Split;
    var q := Queried(a, Some(name), range, reverse);
    InDirectionOrder(InRange(a, Some(name), range), if reverse then Prev else Next);
    forall i | 0 <= i < |hits|
      ensures hits[i].key + hits[i].primary == q[i]
    {
      assert q[i] in q;
      assert IsHit(hits[i], a.records, true, q[0 + i], values);
      assert KeyOf(q[i]) + Split(q[i]).1 == q[i];
    }
  }

  // ---- a row of the engine -------------------------------------------------------------------

  lemma RowIsEncoded(s: StoreRow, name: string, top: nat)
    requires Reads.Kept(s, top) && name in AbsStore(StoreOf(s)).indexes
    ensures var a := AbsStore(StoreOf(s)); AreEntries(EntriesIn(a, a.indexes[name])) && RecordKeysEncoded(a)
  {
    hide AreEntries, EntriesIn;
    var t := StoreOf(s);
    NoSuchIndex(s, name, top);
    FindIndex(t, name);
    var i := IndexId(t, name).value;
    IndexIsEntriesIn(t, i, top);
    IndexEntriesSplit(t, i, top);
    forall pk | pk in t.records
      ensures IsEncoding(pk)
    {
      assert RecordInv(pk, t.records[pk], top);
    }
  }
}
