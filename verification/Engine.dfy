/** The data of one database by id, every operation on it, and the undo log
    played back on abort. */
module Engine {
  import opened ByteStrings
  import opened Doubles
  import opened Options
  import opened Keys
  import opened Values

  datatype Index = Index(name: string, def: IndexDef, entries: set<Bytes>)

  /** `ikeys` holds the index keys of the record by index id. */
  datatype Record = Record(value: Js, ikeys: map<nat, seq<Bytes>>)

  /** The number a generator hands out next. */
  type Generator = n: nat | n >= 1 witness 1

  datatype Store = Store(name: string, keyPath: KeyPath, autoInc: bool, next: Generator,
                         records: map<Bytes, Record>, indexes: map<nat, Index>)

  /** What a transaction can change and an abort restores. */
  datatype Content = Content(version: nat, stores: map<nat, Store>)

  datatype Db = Db(content: Content, nextId: nat)

  datatype Undo =
    | RecordUndo(store: nat, key: Bytes, was: Option<Record>)
    | KeyGenUndo(store: nat, number: Generator)
    | ClearedUndo(store: nat, records: map<Bytes, Record>)
    | StoreCreatedUndo(store: nat)
    | StoreDeletedUndo(store: nat, body: Store)
    | StoreRenamedUndo(store: nat, name: string)
    | IndexCreatedUndo(store: nat, index: nat)
    | IndexDeletedUndo(store: nat, index: nat, gone: Index)
    | IndexRenamedUndo(store: nat, index: nat, name: string)
    | VersionUndo(version: nat)

  // ---- index entries ----------------------------------------------------------------

  /** The keys a record has in index `i`. */
  function KeysIn(rec: Record, i: nat): set<Bytes> {
    if i in rec.ikeys then set k | k in rec.ikeys[i] else {}
  }

  /** The entries a record has in index `i`. */
  function EntriesOf(rec: Record, i: nat, pk: Bytes): set<Bytes> {
    set k | k in KeysIn(rec, i) :: k + pk
  }

  /** What the entries of index `i` must be. */
  function AllEntries(records: map<Bytes, Record>, i: nat): set<Bytes> {
    set pk, k | pk in records && k in KeysIn(records[pk], i) :: k + pk
  }

  function Unindexed(indexes: map<nat, Index>, pk: Bytes, rec: Record): map<nat, Index> {
    map i | i in indexes :: indexes[i].(entries := indexes[i].entries - EntriesOf(rec, i, pk))
  }

  function Reindexed(indexes: map<nat, Index>, pk: Bytes, rec: Record): map<nat, Index> {
    map i | i in indexes :: indexes[i].(entries := indexes[i].entries + EntriesOf(rec, i, pk))
  }

  /** The store with the record under `pk` replaced, added or removed, and the
      indexes following. A put, a delete and the rollback of both are this step. */
  function Replace(s: Store, pk: Bytes, rec: Option<Record>): Store {
    var without := if pk in s.records then Unindexed(s.indexes, pk, s.records[pk]) else s.indexes;
    if rec.None? then s.(records := s.records - {pk}, indexes := without)
    else s.(records := s.records[pk := rec.value], indexes := Reindexed(without, pk, rec.value))
  }

  // ---- the invariant -------------------------------------------------------------------

  ghost predicate RecordInv(pk: Bytes, rec: Record, top: nat) {
    IsEncoding(pk) &&
    forall i :: i in rec.ikeys ==> i <= top && forall k :: k in rec.ikeys[i] ==> IsEncoding(k)
  }

  /** Every index holds exactly the entries of the records, and every record
      carries the keys its value has for every index. */
  ghost predicate IndexInv(records: map<Bytes, Record>, i: nat, ix: Index) {
    ix.entries == AllEntries(records, i) &&
    forall pk :: pk in records ==>
      i in records[pk].ikeys && records[pk].ikeys[i] == IndexKeys(records[pk].value, ix.def)
  }

  ghost predicate StoreInv(s: Store, top: nat) {
    (forall pk :: pk in s.records ==> RecordInv(pk, s.records[pk], top)) &&
    (forall i :: i in s.indexes ==> i <= top && IndexInv(s.records, i, s.indexes[i])) &&
    (forall i, j :: i in s.indexes && j in s.indexes && s.indexes[i].name == s.indexes[j].name ==> i == j) &&
    s.next <= TWO_53
  }

  ghost predicate Inv(c: Content, top: nat) {
    (forall i :: i in c.stores ==> i <= top && StoreInv(c.stores[i], top)) &&
    (forall i, j :: i in c.stores && j in c.stores && c.stores[i].name == c.stores[j].name ==> i == j)
  }

  lemma InvGrows(c: Content, top: nat, more: nat)
    requires Inv(c, top) && top <= more
    ensures Inv(c, more)
  {
  }

  // ---- rollback ------------------------------------------------------------------------

  /** One undo entry on the store it names. */
  function RollStore(s: Store, u: Undo): Store {
    match u
    case RecordUndo(_, key, was) => Replace(s, key, was)
    case KeyGenUndo(_, number) => s.(next := number)
    case ClearedUndo(_, records) =>
      s.(records := records,
         indexes := map i | i in s.indexes :: s.indexes[i].(entries := AllEntries(records, i)))
    case StoreRenamedUndo(_, name) => s.(name := name)
    case IndexCreatedUndo(_, index) =>
      s.(indexes := s.indexes - {index},
         records := map pk | pk in s.records :: s.records[pk].(ikeys := s.records[pk].ikeys - {index}))
    case IndexDeletedUndo(_, index, gone) => s.(indexes := s.indexes[index := gone])
    case IndexRenamedUndo(_, index, name) =>
      if index in s.indexes then s.(indexes := s.indexes[index := s.indexes[index].(name := name)]) else s
    case _ => s
  }

  function Rollback(c: Content, u: Undo): Content {
    match u
    case VersionUndo(v) => c.(version := v)
    case StoreCreatedUndo(i) => c.(stores := c.stores - {i})
    case StoreDeletedUndo(i, body) => c.(stores := c.stores[i := body])
    case _ => if u.store in c.stores then c.(stores := c.stores[u.store := RollStore(c.stores[u.store], u)]) else c
  }

  /** The log played backwards. */
  function RollAll(c: Content, log: seq<Undo>): Content
    decreases |log|
  {
    if log == [] then c else RollAll(Rollback(c, log[|log| - 1]), log[..|log| - 1])
  }

  /** What an entry puts back is gone: a store or index pushed back onto its
      list never makes a second one of its id. */
  predicate Pushable(c: Content, u: Undo) {
    match u
    case StoreDeletedUndo(i, _) => i !in c.stores
    case IndexDeletedUndo(sid, i, _) => sid in c.stores ==> i !in c.stores[sid].indexes
    case _ => true
  }

  /** Playing `log` backwards from `c` keeps the invariant at every step and
      arrives at `origin`. */
  ghost predicate Unwinds(c: Content, log: seq<Undo>, origin: Content, top: nat)
    decreases |log|
  {
    Inv(c, top) &&
    if log == [] then c == origin
    else
      Pushable(c, log[|log| - 1]) &&
      Unwinds(Rollback(c, log[|log| - 1]), log[..|log| - 1], origin, top)
  }

  lemma {:induction false} UnwindsReaches(c: Content, log: seq<Undo>, origin: Content, top: nat)
    requires Unwinds(c, log, origin, top)
    ensures RollAll(c, log) == origin && Inv(origin, top)
    decreases |log|
  {
    if log != [] {
      UnwindsReaches(Rollback(c, log[|log| - 1]), log[..|log| - 1], origin, top);
    }
  }

  lemma {:induction false} UnwindsChain(c: Content, late: seq<Undo>, mid: Content, early: seq<Undo>, origin: Content, top: nat, more: nat)
    requires Unwinds(c, late, mid, more) && Unwinds(mid, early, origin, top) && top <= more
    ensures Unwinds(c, early + late, origin, more)
    decreases |late|
  {
    if late == [] {
      assert early + late == early;
      UnwindsGrows(mid, early, origin, top, more);
    } else {
      var log := early + late;
      assert log[..|log| - 1] == early + late[..|late| - 1];
      UnwindsChain(Rollback(c, late[|late| - 1]), late[..|late| - 1], mid, early, origin, top, more);
    }
  }

  lemma {:induction false} UnwindsGrows(c: Content, log: seq<Undo>, origin: Content, top: nat, more: nat)
    requires Unwinds(c, log, origin, top) && top <= more
    ensures Unwinds(c, log, origin, more)
    decreases |log|
  {
    InvGrows(c, top, more);
    if log != [] {
      UnwindsGrows(Rollback(c, log[|log| - 1]), log[..|log| - 1], origin, top, more);
    }
  }

  // ---- replacing one record ------------------------------------------------------------

  /** What a record carries for each index is what the index takes from its value. */
  ghost predicate Fits(rec: Record, indexes: map<nat, Index>) {
    forall i :: i in indexes ==> i in rec.ikeys && rec.ikeys[i] == IndexKeys(rec.value, indexes[i].def)
  }

  /** Entries of different records never coincide: taking one record's entries
      out leaves exactly the others'. */
  lemma EntriesWithout(records: map<Bytes, Record>, pk: Bytes, i: nat, top: nat)
    requires forall q :: q in records ==> RecordInv(q, records[q], top)
    requires pk in records
    ensures AllEntries(records, i) - EntriesOf(records[pk], i, pk) == AllEntries(records - {pk}, i)
  {
    var rest := records - {pk};
    forall e | e in AllEntries(rest, i)
      ensures e in AllEntries(records, i) && e !in EntriesOf(records[pk], i, pk)
    {
      var q, k :| q in rest && k in KeysIn(rest[q], i) && e == k + q;
      assert q in records && RecordInv(q, records[q], top) && k in KeysIn(records[q], i);
      if e in EntriesOf(records[pk], i, pk) {
        var l :| l in KeysIn(records[pk], i) && e == l + pk;
        assert RecordInv(pk, records[pk], top);
        SplitUnique(k, q, l, pk);
      }
    }
    forall e | e in AllEntries(records, i) && e !in EntriesOf(records[pk], i, pk)
      ensures e in AllEntries(rest, i)
    {
      var q, k :| q in records && k in KeysIn(records[q], i) && e == k + q;
      assert q in rest && rest[q] == records[q];
    }
  }

  lemma EntriesWith(records: map<Bytes, Record>, pk: Bytes, rec: Record, i: nat)
    requires pk !in records
    ensures AllEntries(records, i) + EntriesOf(rec, i, pk) == AllEntries(records[pk := rec], i)
  {
    var more := records[pk := rec];
    forall e | e in AllEntries(more, i)
      ensures e in AllEntries(records, i) + EntriesOf(rec, i, pk)
    {
      var q, k :| q in more && k in KeysIn(more[q], i) && e == k + q;
      if q != pk {
        assert q in records && more[q] == records[q];
      }
    }
    forall e | e in AllEntries(records, i)
      ensures e in AllEntries(more, i)
    {
      var q, k :| q in records && k in KeysIn(records[q], i) && e == k + q;
      assert q in more && more[q] == records[q];
    }
    forall e | e in EntriesOf(rec, i, pk)
      ensures e in AllEntries(more, i)
    {
      var k :| k in KeysIn(rec, i) && e == k + pk;
      assert pk in more && more[pk] == rec;
    }
  }

  /** After a replacement each index holds exactly the new records' entries. */
  lemma EntriesAfterReplace(s: Store, pk: Bytes, rec: Option<Record>, i: nat, top: nat)
    requires forall q :: q in s.records ==> RecordInv(q, s.records[q], top)
    requires i in s.indexes && s.indexes[i].entries == AllEntries(s.records, i)
    ensures Replace(s, pk, rec).indexes[i].entries == AllEntries(Replace(s, pk, rec).records, i)
  {
    var rest := s.records - {pk};
    if pk in s.records {
      EntriesWithout(s.records, pk, i, top);
    } else {
      assert rest == s.records;
    }
    if rec.Some? {
      EntriesWith(rest, pk, rec.value, i);
      assert rest[pk := rec.value] == s.records[pk := rec.value];
    }
  }

  lemma ReplaceKeepsRest(s: Store, pk: Bytes, rec: Option<Record>)
    ensures var t := Replace(s, pk, rec);
            t == s.(records := t.records, indexes := t.indexes) && t.indexes.Keys == s.indexes.Keys &&
            t.records == (if rec.None? then s.records - {pk} else s.records[pk := rec.value]) &&
            forall i :: i in s.indexes ==> t.indexes[i] == s.indexes[i].(entries := t.indexes[i].entries)
  {
  }

  lemma ReplaceKeepsIndex(s: Store, pk: Bytes, rec: Option<Record>, i: nat, top: nat)
    requires StoreInv(s, top) && i in s.indexes
    requires rec.Some? ==> Fits(rec.value, s.indexes)
    ensures IndexInv(Replace(s, pk, rec).records, i, Replace(s, pk, rec).indexes[i])
  {
    var t := Replace(s, pk, rec);
    assert IndexInv(s.records, i, s.indexes[i]);
    EntriesAfterReplace(s, pk, rec, i, top);
    ReplaceKeepsRest(s, pk, rec);
    forall q | q in t.records
      ensures i in t.records[q].ikeys && t.records[q].ikeys[i] == IndexKeys(t.records[q].value, t.indexes[i].def)
    {
      assert q == pk || (q in s.records && t.records[q] == s.records[q]);
    }
  }

  lemma ReplaceKeepsInv(s: Store, pk: Bytes, rec: Option<Record>, top: nat)
    requires StoreInv(s, top)
    requires rec.Some? ==> RecordInv(pk, rec.value, top) && Fits(rec.value, s.indexes)
    ensures StoreInv(Replace(s, pk, rec), top)
  {
    var t := Replace(s, pk, rec);
    ReplaceKeepsRest(s, pk, rec);
    forall i | i in t.indexes
      ensures i <= top && IndexInv(t.records, i, t.indexes[i])
    {
      ReplaceKeepsIndex(s, pk, rec, i, top);
    }
    forall q | q in t.records
      ensures RecordInv(q, t.records[q], top)
    {
      assert q == pk || (q in s.records && t.records[q] == s.records[q]);
    }
    forall i, j | i in t.indexes && j in t.indexes && t.indexes[i].name == t.indexes[j].name
      ensures i == j
    {
      assert s.indexes[i].name == s.indexes[j].name;
    }
  }

  /** Replacing a record and putting the old one back is no change at all: the
      records are the same, and the entries follow from the records. */
  lemma ReplaceUndone(s: Store, pk: Bytes, rec: Option<Record>, top: nat)
    requires StoreInv(s, top)
    requires rec.Some? ==> RecordInv(pk, rec.value, top) && Fits(rec.value, s.indexes)
    ensures Replace(Replace(s, pk, rec), pk, if pk in s.records then Some(s.records[pk]) else None) == s
  {
    hide Replace, IndexKeys, RecordInv, Fits;
    var was := if pk in s.records then Some(s.records[pk]) else None;
    var t := Replace(s, pk, rec);
    var b := Replace(t, pk, was);
    ReplaceKeepsInv(s, pk, rec, top);
    ReplaceKeepsRest(s, pk, rec);
    ReplaceKeepsRest(t, pk, was);
    assert b.records == s.records;
    forall i | i in s.indexes
      ensures b.indexes[i] == s.indexes[i]
    {
      assert IndexInv(s.records, i, s.indexes[i]) && IndexInv(t.records, i, t.indexes[i]);
      EntriesAfterReplace(t, pk, was, i, top);
    }
    assert b.indexes == s.indexes;
  }
}
