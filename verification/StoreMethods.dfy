/** The per-store work of the engine as it runs: index upkeep, the uniqueness
    scan, put, delete, clear and index creation, each against its specification. */
module StoreMethods {
  import opened ByteStrings
  import opened Doubles
  import opened Options
  import opened Keys
  import opened KeyCodec
  import opened Ranges
  import opened SortedSets
  import opened Values
  import opened Engine
  import opened Operations
  import opened Schema
  import opened Slots

  /** A store with its indexes in a vector. */
  datatype StoreRow = StoreRow(name: string, keyPath: KeyPath, autoInc: bool, next: Generator,
                               records: map<Bytes, Record>, indexes: seq<Slot<Index>>)

  ghost function StoreOf(s: StoreRow): Store
    requires Distinct(s.indexes)
  {
    Store(s.name, s.keyPath, s.autoInc, s.next, s.records, ById(s.indexes))
  }

  // ---- index upkeep ------------------------------------------------------------------

  /** The entries of the given keys with one primary key. */
  ghost function Joined(keys: seq<Bytes>, pk: Bytes): set<Bytes> {
    set k | k in keys :: k + pk
  }

  lemma JoinedGrows(keys: seq<Bytes>, j: nat, pk: Bytes)
    requires j < |keys|
    ensures Joined(keys[..j + 1], pk) == Joined(keys[..j], pk) + {keys[j] + pk}
  {
    assert keys[..j + 1] == keys[..j] + [keys[j]];
  }

  lemma JoinedIsEntries(rec: Record, i: nat, pk: Bytes)
    ensures EntriesOf(rec, i, pk) == if i in rec.ikeys then Joined(rec.ikeys[i], pk) else {}
  {
  }

  method RemoveEntries(entries: set<Bytes>, keys: seq<Bytes>, pk: Bytes) returns (r: set<Bytes>)
    ensures r == entries - Joined(keys, pk)
  {
    r := entries;
    for j := 0 to |keys|
      invariant r == entries - Joined(keys[..j], pk)
    {
      JoinedGrows(keys, j, pk);
      r := r - {keys[j] + pk};
    }
    assert keys[..|keys|] == keys;
  }

  method InsertEntries(entries: set<Bytes>, keys: seq<Bytes>, pk: Bytes) returns (r: set<Bytes>)
    ensures r == entries + Joined(keys, pk)
  {
    r := entries;
    for j := 0 to |keys|
      invariant r == entries + Joined(keys[..j], pk)
    {
      JoinedGrows(keys, j, pk);
      r := r + {keys[j] + pk};
    }
    assert keys[..|keys|] == keys;
  }

  /** Indexes that differ in their entries only. */
  ghost predicate SameDefs(a: seq<Slot<Index>>, b: seq<Slot<Index>>) {
    |a| == |b| &&
    forall i :: 0 <= i < |a| ==> a[i].id == b[i].id && b[i].body == a[i].body.(entries := b[i].body.entries)
  }

  lemma SameDefsById(a: seq<Slot<Index>>, b: seq<Slot<Index>>, m: map<nat, Index>)
    requires Distinct(a) && SameDefs(a, b) && m.Keys == ById(a).Keys
    requires forall i :: 0 <= i < |a| ==> a[i].id in m && b[i].body == m[a[i].id]
    ensures Distinct(b) && ById(b) == m
  {
    assert Distinct(b);
    forall k | k in m
      ensures exists i :: 0 <= i < |b| && b[i].id == k
    {
      var i :| 0 <= i < |a| && a[i].id == k;
      assert b[i].id == k;
    }
    ByMembers(b, m);
  }

  /** `unindex`: the record's entries taken out of every index it has keys for. */
  method Unindex(indexes: seq<Slot<Index>>, pk: Bytes, rec: Record) returns (r: seq<Slot<Index>>)
    requires Distinct(indexes)
    ensures Distinct(r) && ById(r) == Unindexed(ById(indexes), pk, rec)
  {
    r := indexes;
    var todo := rec.ikeys.Keys;
    while todo != {}
      invariant todo <= rec.ikeys.Keys && SameDefs(indexes, r)
      invariant forall i :: 0 <= i < |r| ==>
                  r[i].body.entries == if r[i].id in todo then indexes[i].body.entries
                                       else indexes[i].body.entries - EntriesOf(rec, r[i].id, pk)
    {
      var id :| id in todo;
      var pos := FindId(r, id);
      if pos.Some? {
        var p := pos.value;
        var entries := RemoveEntries(r[p].body.entries, rec.ikeys[id], pk);
        JoinedIsEntries(rec, id, pk);
        r := r[p := Slot(id, r[p].body.(entries := entries))];
      }
      todo := todo - {id};
    }
    UpkeepDone(indexes, r, Unindexed(ById(indexes), pk, rec));
  }

  /** `reindex`: the record's entries put into every index it has keys for. */
  method Reindex(indexes: seq<Slot<Index>>, pk: Bytes, rec: Record) returns (r: seq<Slot<Index>>)
    requires Distinct(indexes)
    ensures Distinct(r) && ById(r) == Reindexed(ById(indexes), pk, rec)
  {
    r := indexes;
    var todo := rec.ikeys.Keys;
    while todo != {}
      invariant todo <= rec.ikeys.Keys && SameDefs(indexes, r)
      invariant forall i :: 0 <= i < |r| ==>
                  r[i].body.entries == if r[i].id in todo then indexes[i].body.entries
                                       else indexes[i].body.entries + EntriesOf(rec, r[i].id, pk)
    {
      var id :| id in todo;
      var pos := FindId(r, id);
      if pos.Some? {
        var p := pos.value;
        var entries := InsertEntries(r[p].body.entries, rec.ikeys[id], pk);
        JoinedIsEntries(rec, id, pk);
        r := r[p := Slot(id, r[p].body.(entries := entries))];
      }
      todo := todo - {id};
    }
    UpkeepDone(indexes, r, Reindexed(ById(indexes), pk, rec));
  }

  lemma UpkeepDone(a: seq<Slot<Index>>, b: seq<Slot<Index>>, m: map<nat, Index>)
    requires Distinct(a) && SameDefs(a, b) && m.Keys == ById(a).Keys
    requires forall k :: k in m ==> m[k] == ById(a)[k].(entries := m[k].entries)
    requires forall i :: 0 <= i < |a| && a[i].id in m ==> b[i].body.entries == m[a[i].id].entries
    ensures Distinct(b) && ById(b) == m
  {
    forall i | 0 <= i < |a|
      ensures a[i].id in m && b[i].body == m[a[i].id]
    {
      HasId(a, i);
    }
    SameDefsById(a, b, m);
  }

  /** The removal half and the insertion half of replacing a record, as `put`,
      `delete` and the rollback of both run them. */
  method ReplaceRecord(s: StoreRow, pk: Bytes, rec: Option<Record>) returns (r: StoreRow, was: Option<Record>)
    requires Distinct(s.indexes)
    ensures Distinct(r.indexes) && StoreOf(r) == Replace(StoreOf(s), pk, rec)
    ensures was == if pk in s.records then Some(s.records[pk]) else None
  {
    r := s;
    was := None;
    if pk in r.records {
      was := Some(r.records[pk]);
      var indexes := Unindex(r.indexes, pk, r.records[pk]);
      r := r.(records := r.records - {pk}, indexes := indexes);
    }
    if rec.Some? {
      var indexes := Reindex(r.indexes, pk, rec.value);
      r := r.(records := r.records[pk := rec.value], indexes := indexes);
      assert r.records == s.records[pk := rec.value];
    } else {
      assert r.records == s.records - {pk};
    }
  }

  // ---- the uniqueness scan --------------------------------------------------------------

  /** Strings between a prefix and one of its extensions have the prefix. */
  lemma {:induction false} PrefixRun(k: Bytes, e: Bytes, f: Bytes)
    requires AtMost(k, e) && AtMost(e, f) && k <= f
    ensures k <= e
  {
    if k != [] && e != [] {
      assert k[0] <= e[0] && e[0] <= f[0] && f[0] == k[0];
      assert k[1..] <= f[1..];
      assert k == [k[0]] + k[1..] && e == [e[0]] + e[1..] && f == [f[0]] + f[1..];
      PrefixRun(k[1..], e[1..], f[1..]);
    }
  }

  /** `range(k..).take_while(starts_with k).any(rest != pk)` */
  method UniqueClash(entries: set<Bytes>, k: Bytes, pk: Bytes) returns (clash: bool)
    ensures clash <==> EntryClash(entries, k, pk)
  {
    var it := Scan(entries, Range(Included(k), Unbounded));
    for i := 0 to |it|
      invariant forall j :: 0 <= j < i ==> k <= it[j] && it[j][|k|..] == pk
    {
      assert it[i] in it;
      if !(k <= it[i]) {
        forall e | e in entries && k <= e
          ensures e[|k|..] == pk
        {
          PrefixAtMost(k, e);
          assert e in it;
          var j :| 0 <= j < |it| && it[j] == e;
          if j >= i {
            PrefixRun(k, it[i], e);
          }
        }
        return false;
      }
      if it[i][|k|..] != pk {
        return true;
      }
    }
    forall e | e in entries && k <= e
      ensures e[|k|..] == pk
    {
      PrefixAtMost(k, e);
      assert e in it;
    }
    return false;
  }

  lemma PrefixAtMost(k: Bytes, e: Bytes)
    requires k <= e
    ensures AtMost(k, e)
  {
    assert e == k + e[|k|..];
    if k != e {
      PrefixIsLess(k, e[|k|..]);
    }
  }

  /** One unique index against the keys a record would have in it. */
  method AnyClash(entries: set<Bytes>, keys: seq<Bytes>, pk: Bytes) returns (clash: bool)
    ensures clash <==> exists k :: k in keys && EntryClash(entries, k, pk)
  {
    for i := 0 to |keys|
      invariant forall j :: 0 <= j < i ==> !EntryClash(entries, keys[j], pk)
    {
      clash := UniqueClash(entries, keys[i], pk);
      if clash {
        assert keys[i] in keys;
        return true;
      }
    }
    return false;
  }

  ghost predicate ClashIn(ix: Index, pk: Bytes, value: Js) {
    ix.def.unique && exists k :: k in IndexKeys(value, ix.def) && EntryClash(ix.entries, k, pk)
  }

  /** The keys of a value for one index, unless the index rejects one. */
  method KeysFor(ix: Index, pk: Bytes, value: Js) returns (r: Option<seq<Bytes>>)
    ensures r.None? <==> ClashIn(ix, pk, value)
    ensures r.Some? ==> r.value == IndexKeys(value, ix.def)
  {
    var keys := IndexKeys(value, ix.def);
    if ix.def.unique {
      var clash := AnyClash(ix.entries, keys, pk);
      if clash {
        return None;
      }
    }
    return Some(keys);
  }

  lemma ClashIsAt(s: StoreRow, pk: Bytes, value: Js)
    requires Distinct(s.indexes)
    ensures Clashes(StoreOf(s), pk, value) <==> exists j :: 0 <= j < |s.indexes| && ClashIn(s.indexes[j].body, pk, value)
  {
    hide IndexKeys, EntryClash;
    var t := StoreOf(s);
    if Clashes(t, pk, value) {
      var i, k :| i in t.indexes && t.indexes[i].def.unique && k in IndexKeys(value, t.indexes[i].def) &&
                  EntryClash(t.indexes[i].entries, k, pk);
      var j :| 0 <= j < |s.indexes| && s.indexes[j].id == i;
      HasId(s.indexes, j);
      assert ClashIn(s.indexes[j].body, pk, value);
    }
    if j :| 0 <= j < |s.indexes| && ClashIn(s.indexes[j].body, pk, value) {
      HasId(s.indexes, j);
      var k :| k in IndexKeys(value, s.indexes[j].body.def) && EntryClash(s.indexes[j].body.entries, k, pk);
      assert t.indexes[s.indexes[j].id] == s.indexes[j].body;
    }
  }

  /** `(m.id, keys)` collected for every index in order. */
  ghost predicate KeysOf(ikeys: seq<Slot<seq<Bytes>>>, indexes: seq<Slot<Index>>, value: Js) {
    |ikeys| <= |indexes| &&
    forall j :: 0 <= j < |ikeys| ==> ikeys[j] == Slot(indexes[j].id, IndexKeys(value, indexes[j].body.def))
  }

  lemma AllKeys(s: StoreRow, value: Js, ikeys: seq<Slot<seq<Bytes>>>)
    requires Distinct(s.indexes) && KeysOf(ikeys, s.indexes, value) && |ikeys| == |s.indexes|
    ensures Distinct(ikeys) && Record(value, ById(ikeys)) == NewRecord(StoreOf(s), value)
  {
    hide IndexKeys, ById;
    var m := NewRecord(StoreOf(s), value).ikeys;
    forall j | 0 <= j < |ikeys|
      ensures ikeys[j].id in m && m[ikeys[j].id] == ikeys[j].body
    {
      HasId(s.indexes, j);
    }
    forall id | id in m
      ensures exists j :: 0 <= j < |ikeys| && ikeys[j].id == id
    {
      var j := IdAt(s.indexes, id);
      assert ikeys[j].id == id;
    }
    ByMembers(ikeys, m);
  }

  /** One round of the loop below: the next index's keys, unless it rejects one. */
  method CollectNext(ikeys: seq<Slot<seq<Bytes>>>, indexes: seq<Slot<Index>>, pk: Bytes, value: Js)
    returns (r: Option<seq<Slot<seq<Bytes>>>>)
    requires KeysOf(ikeys, indexes, value) && |ikeys| < |indexes|
    ensures r.None? <==> ClashIn(indexes[|ikeys|].body, pk, value)
    ensures r.Some? ==> KeysOf(r.value, indexes, value) && |r.value| == |ikeys| + 1
  {
    var ix := indexes[|ikeys|];
    var keys := KeysFor(ix.body, pk, value);
    return if keys.None? then None else Some(ikeys + [Slot(ix.id, keys.value)]);
  }

  /** The index keys of a new record, or nothing when a unique index already has
      one of them. */
  method CollectKeys(indexes: seq<Slot<Index>>, pk: Bytes, value: Js) returns (r: Option<seq<Slot<seq<Bytes>>>>)
    ensures r.None? <==> exists j :: 0 <= j < |indexes| && ClashIn(indexes[j].body, pk, value)
    ensures r.Some? ==> KeysOf(r.value, indexes, value) && |r.value| == |indexes|
  {
    hide IndexKeys, ClashIn;
    r := Some([]);
    for i := 0 to |indexes|
      invariant r.Some? && |r.value| == i && KeysOf(r.value, indexes, value)
      invariant forall j :: 0 <= j < i ==> !ClashIn(indexes[j].body, pk, value)
    {
      r := CollectNext(r.value, indexes, pk, value);
      if r.None? {
        return;
      }
    }
  }

  // ---- put, delete, clear ------------------------------------------------------------------

  /** `store_put` once the store is found. */
  method PutRow(sid: nat, s: StoreRow, prep: Prepared, noOverwrite: bool)
    returns (r: StoreRow, log: seq<Undo>, outcome: Outcome)
    requires Distinct(s.indexes)
    ensures Distinct(r.indexes) && Effect(StoreOf(r), log, outcome) == PutEffect(sid, StoreOf(s), prep, noOverwrite)
    ensures !outcome.Stored? ==>
              r == s.(next := r.next) && (log == [] || log == [KeyGenUndo(sid, s.next)]) && (log == [] ==> r == s)
  {
    hide Clashes, NewRecord, Replace, OfNat, Bumped, Inject;
    r, log := s, [];
    var key;
    match prep.key {
      case Some(k) =>
        if s.autoInc && k.Num? && AtLeast(k.x, s.next) {
          log := log + [KeyGenUndo(sid, s.next)];
          r := r.(next := Bumped(k.x, s.next));
        }
        key := k;
      case None =>
        if s.next > TWO_53 {
          return r, log, GeneratorFull;
        }
        key := Num(OfNat(s.next));
        log := log + [KeyGenUndo(sid, s.next)];
        r := r.(next := PlusOne(s.next));
    }
    assert StoreOf(r) == StoreOf(s).(next := NextNumber(s.autoInc, s.next, prep.key));
    assert log == GeneratorLog(sid, StoreOf(s), prep.key);
    var value := Written(s.keyPath, prep, key);
    var pk := EncodeKey(key);
    if noOverwrite && pk in s.records {
      return r, log, KeyExists;
    }
    ClashIsAt(s, pk, value);
    var ikeys := CollectKeys(s.indexes, pk, value);
    if ikeys.None? {
      return r, log, NotUnique;
    }
    AllKeys(s, value, ikeys.value);
    var was;
    r, was := ReplaceRecord(r, pk, Some(Record(value, ById(ikeys.value))));
    log := log + [RecordUndo(sid, pk, was)];
    outcome := Stored(key);
  }

  lemma RemoveNothing(sid: nat, s: Store, keys: seq<Bytes>)
    ensures keys[..0] == [] && RemoveEffect(sid, s, []) == Effect(s, [], Done)
  {
  }

  lemma RemoveNext(sid: nat, s: Store, keys: seq<Bytes>, i: nat)
    requires i < |keys| && Ascends(keys) && forall k :: k in keys ==> k in s.records
    ensures (forall k :: k in keys[..i] ==> k in s.records) && (forall k :: k in keys[..i + 1] ==> k in s.records)
    ensures NoRepeats(keys[..i]) && NoRepeats(keys[..i + 1])
    ensures var before := RemoveEffect(sid, s, keys[..i]);
            keys[i] in before.store.records &&
            RemoveEffect(sid, s, keys[..i + 1]) ==
            Effect(Replace(before.store, keys[i], None),
                   before.log + [RecordUndo(sid, keys[i], Some(before.store.records[keys[i]]))], Done)
  {
    AscendingDistinct(keys);
    assert keys[..i + 1][..i] == keys[..i];
  }

  /** `delete_records` of a range, once the store is found. */
  method DeleteRow(sid: nat, s: StoreRow, range: Range) returns (r: StoreRow, log: seq<Undo>)
    requires Distinct(s.indexes) && !Panics(range)
    ensures Distinct(r.indexes) && Effect(StoreOf(r), log, Done) == DeleteEffect(sid, StoreOf(s), range)
  {
    hide RemoveEffect, Ascending, Replace;
    r, log := s, [];
    var keys := Scan(s.records.Keys, range);
    RemoveNothing(sid, StoreOf(s), keys);
    ghost var done := Effect(StoreOf(s), [], Done);
    for i := 0 to |keys|
      invariant Distinct(r.indexes) && Effect(StoreOf(r), log, Done) == done
      invariant NoRepeats(keys[..i]) && forall k :: k in keys[..i] ==> k in s.records
      invariant done == RemoveEffect(sid, StoreOf(s), keys[..i])
    {
      RemoveNext(sid, StoreOf(s), keys, i);
      var was;
      r, was := ReplaceRecord(r, keys[i], None);
      if was.Some? {
        log := log + [RecordUndo(sid, keys[i], was)];
      }
      done := RemoveEffect(sid, StoreOf(s), keys[..i + 1]);
    }
    assert keys[..|keys|] == keys;
  }

  /** `clear`: the records move into the undo log. */
  method ClearRow(sid: nat, s: StoreRow) returns (r: StoreRow, log: seq<Undo>)
    requires Distinct(s.indexes)
    ensures Distinct(r.indexes) && Effect(StoreOf(r), log, Done) == ClearEffect(sid, StoreOf(s))
  {
    var indexes := s.indexes;
    for i := 0 to |indexes|
      invariant SameDefs(s.indexes, indexes)
      invariant forall j :: 0 <= j < i ==> indexes[j].body.entries == {}
    {
      indexes := indexes[i := Slot(indexes[i].id, indexes[i].body.(entries := {}))];
    }
    UpkeepDone(s.indexes, indexes, ClearEffect(sid, StoreOf(s)).store.indexes);
    r := s.(records := map[], indexes := indexes);
    log := [ClearedUndo(sid, s.records)];
  }

  // ---- creating an index ---------------------------------------------------------------------

  /** Whether an entry starting with the key is there already. */
  method HasKey(entries: set<Bytes>, k: Bytes) returns (clash: bool)
    ensures clash <==> exists e :: e in entries && k <= e
  {
    var it := Scan(entries, Range(Included(k), Unbounded));
    clash := |it| > 0 && k <= it[0];
    if clash {
      assert it[0] in it;
    } else {
      forall e | e in entries
        ensures !(k <= e)
      {
        if k <= e {
          PrefixAtMost(k, e);
          assert e in it;
          var j :| 0 <= j < |it| && it[j] == e;
          assert it[0] in it;
          PrefixRun(k, it[0], e);
        }
      }
    }
  }

  /** Distinct encoded keys for each of some encoded primary keys. */
  ghost predicate KeyTable(ks: map<Bytes, seq<Bytes>>) {
    forall pk :: pk in ks ==>
      IsEncoding(pk) && (forall k :: k in ks[pk] ==> IsEncoding(k)) && NoRepeats(ks[pk])
  }

  /** The entries of the first `n` primary keys. */
  ghost function TableEntries(ks: map<Bytes, seq<Bytes>>, q: seq<Bytes>, n: nat): set<Bytes>
    requires n <= |q| && forall pk :: pk in q ==> pk in ks
  {
    if n == 0 then {}
    else
      assert q[n - 1] in q;
      TableEntries(ks, q, n - 1) + Joined(ks[q[n - 1]], q[n - 1])
  }

  lemma {:induction false} TableEntry(ks: map<Bytes, seq<Bytes>>, q: seq<Bytes>, n: nat, e: Bytes)
    requires n <= |q| && forall pk :: pk in q ==> pk in ks
    ensures e in TableEntries(ks, q, n) <==> exists j, k :: 0 <= j < n && k in ks[q[j]] && e == k + q[j]
  {
    if n > 0 {
      TableEntry(ks, q, n - 1, e);
      assert q[n - 1] in q;
    }
  }

  /** One of the first `n` primary keys has the key. */
  ghost predicate InTable(ks: map<Bytes, seq<Bytes>>, q: seq<Bytes>, n: nat, k: Bytes)
    requires n <= |q| && forall pk :: pk in q ==> pk in ks
  {
    exists j :: 0 <= j < n && k in ks[q[j]]
  }

  /** An entry starts with a key: the check index creation makes. */
  ghost predicate StartsEntry(entries: set<Bytes>, k: Bytes) {
    exists e :: e in entries && k <= e
  }

  /** A key is in the table exactly when an entry starts with it. */
  lemma TableHasKey(ks: map<Bytes, seq<Bytes>>, q: seq<Bytes>, n: nat, k: Bytes)
    requires KeyTable(ks) && IsEncoding(k) && n <= |q| && forall pk :: pk in q ==> pk in ks
    ensures StartsEntry(TableEntries(ks, q, n), k) <==> InTable(ks, q, n, k)
  {
    if StartsEntry(TableEntries(ks, q, n), k) {
      var e :| e in TableEntries(ks, q, n) && k <= e;
      TableEntry(ks, q, n, e);
      var j, l :| 0 <= j < n && l in ks[q[j]] && e == l + q[j];
      assert q[j] in q;
      assert k + e[|k|..] == e;
      SplitUnique(k, e[|k|..], l, q[j]);
    }
    if InTable(ks, q, n, k) {
      var j :| 0 <= j < n && k in ks[q[j]];
      assert q[j] in q;
      TableEntry(ks, q, n, k + q[j]);
      assert k <= k + q[j];
    }
  }

  /** One record's keys put into an index under construction. */
  method AddKeys(entries: set<Bytes>, keys: seq<Bytes>, pk: Bytes, unique: bool) returns (r: set<Bytes>, dup: bool)
    requires NoRepeats(keys) && forall k :: k in keys ==> IsEncoding(k)
    ensures r == entries + Joined(keys, pk)
    ensures dup <==> unique && exists k :: k in keys && StartsEntry(entries, k)
  {
    r, dup := entries, false;
    for j := 0 to |keys|
      invariant r == entries + Joined(keys[..j], pk)
      invariant dup <==> unique && exists i :: 0 <= i < j && StartsEntry(entries, keys[i])
    {
      if unique {
        var clash := HasKey(r, keys[j]);
        OwnKeysApart(entries, keys, j, pk);
        if clash {
          dup := true;
        }
      }
      JoinedGrows(keys, j, pk);
      r := r + {keys[j] + pk};
    }
    assert keys[..|keys|] == keys;
    assert forall i :: 0 <= i < |keys| ==> keys[i] in keys;
  }

  /** The record's own earlier keys never clash with a later one. */
  lemma OwnKeysApart(entries: set<Bytes>, keys: seq<Bytes>, j: nat, pk: Bytes)
    requires j < |keys| && NoRepeats(keys) && forall k :: k in keys ==> IsEncoding(k)
    ensures StartsEntry(entries + Joined(keys[..j], pk), keys[j]) <==> StartsEntry(entries, keys[j])
  {
    if e :| e in entries + Joined(keys[..j], pk) && keys[j] <= e {
      if e !in entries {
        var k :| k in keys[..j] && e == k + pk;
        var i :| 0 <= i < j && keys[i] == k;
        assert keys[i] in keys && keys[j] in keys;
        assert keys[j] + e[|keys[j]|..] == e;
        SplitUnique(keys[j], e[|keys[j]|..], k, pk);
      }
    }
    if e :| e in entries && keys[j] <= e {
      assert e in entries + Joined(keys[..j], pk);
    }
  }

  /** One of some keys is in the table. */
  ghost predicate Repeats(ks: map<Bytes, seq<Bytes>>, q: seq<Bytes>, n: nat, keys: seq<Bytes>)
    requires n <= |q| && forall pk :: pk in q ==> pk in ks
  {
    exists k :: k in keys && InTable(ks, q, n, k)
  }

  /** A record among the first `n` has a key that an earlier one has. */
  ghost predicate SharedBelow(ks: map<Bytes, seq<Bytes>>, q: seq<Bytes>, n: nat)
    requires n <= |q| && forall pk :: pk in q ==> pk in ks
  {
    n > 0 &&
    (SharedBelow(ks, q, n - 1) || (q[n - 1] in q && Repeats(ks, q, n - 1, ks[q[n - 1]])))
  }

  lemma ClashIsInTable(ks: map<Bytes, seq<Bytes>>, q: seq<Bytes>, n: nat)
    requires KeyTable(ks) && n < |q| && forall pk :: pk in q ==> pk in ks
    ensures q[n] in ks
    ensures (exists k :: k in ks[q[n]] && StartsEntry(TableEntries(ks, q, n), k)) <==>
            Repeats(ks, q, n, ks[q[n]])
  {
    assert q[n] in q;
    forall k | k in ks[q[n]]
      ensures StartsEntry(TableEntries(ks, q, n), k) <==> InTable(ks, q, n, k)
    {
      TableHasKey(ks, q, n, k);
    }
  }

  /** Two different records share a key. */
  ghost predicate Shared(ks: map<Bytes, seq<Bytes>>) {
    exists p, q, k :: p in ks && q in ks && p != q && k in ks[p] && k in ks[q]
  }

  ghost function Table(ks: map<Bytes, seq<Bytes>>): set<Bytes> {
    set pk, k | pk in ks && k in ks[pk] :: k + pk
  }

  /** The pass over the records, in key order. */
  method BuildIndex(ks: map<Bytes, seq<Bytes>>, unique: bool) returns (entries: set<Bytes>, dup: bool)
    requires KeyTable(ks)
    ensures entries == Table(ks)
    ensures dup <==> unique && Shared(ks)
  {
    hide Ascending, Table, TableEntries, SharedBelow;
    var q := Scan(ks.Keys, Range(Unbounded, Unbounded));
    entries, dup := {}, false;
    TableStarts(ks, q);
    for n := 0 to |q|
      invariant entries == TableEntries(ks, q, n)
      invariant dup <==> unique && SharedBelow(ks, q, n)
    {
      TableGrows(ks, q, n);
      var clash;
      entries, clash := AddKeys(entries, ks[q[n]], q[n], unique);
      dup := dup || clash;
    }
    WholeTable(ks, q);
    WholeShared(ks, q);
  }

  lemma TableStarts(ks: map<Bytes, seq<Bytes>>, q: seq<Bytes>)
    requires forall pk :: pk in q ==> pk in ks
    ensures TableEntries(ks, q, 0) == {} && !SharedBelow(ks, q, 0)
  {
  }

  lemma TableGrows(ks: map<Bytes, seq<Bytes>>, q: seq<Bytes>, n: nat)
    requires KeyTable(ks) && n < |q| && forall pk :: pk in q ==> pk in ks
    ensures q[n] in ks && TableEntries(ks, q, n + 1) == TableEntries(ks, q, n) + Joined(ks[q[n]], q[n])
    ensures SharedBelow(ks, q, n + 1) <==>
            SharedBelow(ks, q, n) || exists k :: k in ks[q[n]] && StartsEntry(TableEntries(ks, q, n), k)
  {
    ClashIsInTable(ks, q, n);
  }

  lemma WholeTable(ks: map<Bytes, seq<Bytes>>, q: seq<Bytes>)
    requires forall pk :: pk in q <==> pk in ks
    ensures TableEntries(ks, q, |q|) == Table(ks)
  {
    forall e
      ensures e in TableEntries(ks, q, |q|) <==> e in Table(ks)
    {
      TableEntry(ks, q, |q|, e);
      if e in TableEntries(ks, q, |q|) {
        var j, k :| 0 <= j < |q| && k in ks[q[j]] && e == k + q[j];
        assert q[j] in q;
      }
      if e in Table(ks) {
        var pk, k :| pk in ks && k in ks[pk] && e == k + pk;
        assert pk in q;
        var j :| 0 <= j < |q| && q[j] == pk;
      }
    }
  }

  lemma {:induction false} SharedPair(ks: map<Bytes, seq<Bytes>>, q: seq<Bytes>, n: nat)
    requires n <= |q| && forall pk :: pk in q ==> pk in ks
    ensures SharedBelow(ks, q, n) <==> exists i, j, k :: 0 <= i < j < n && k in ks[q[i]] && k in ks[q[j]]
  {
    if n > 0 {
      SharedPair(ks, q, n - 1);
      assert q[n - 1] in q;
      if i, j, k :| 0 <= i < j < n && k in ks[q[i]] && k in ks[q[j]] {
        if j == n - 1 {
          assert InTable(ks, q, n - 1, k);
        }
      }
      if Repeats(ks, q, n - 1, ks[q[n - 1]]) {
        var keys := ks[q[n - 1]];
        var k :| k in keys && InTable(ks, q, n - 1, k);
        var i :| 0 <= i < n - 1 && k in ks[q[i]];
      }
    }
  }

  lemma WholeShared(ks: map<Bytes, seq<Bytes>>, q: seq<Bytes>)
    requires Ascends(q) && forall pk :: pk in q <==> pk in ks
    ensures SharedBelow(ks, q, |q|) <==> Shared(ks)
  {
    AscendingDistinct(q);
    SharedPair(ks, q, |q|);
    if i, j, k :| 0 <= i < j < |q| && k in ks[q[i]] && k in ks[q[j]] {
      assert q[i] in q && q[j] in q;
    }
    if Shared(ks) {
      var p, r, k :| p in ks && r in ks && p != r && k in ks[p] && k in ks[r];
      assert p in q && r in q;
      var i :| 0 <= i < |q| && q[i] == p;
      var j :| 0 <= j < |q| && q[j] == r;
      assert k in ks[q[if i < j then i else j]] && k in ks[q[if i < j then j else i]];
    }
  }

  /** `createIndex` once the store is found: the records already there are
      indexed, and keys they share are reported. */
  method IndexRow(i: nat, s: StoreRow, name: string, def: IndexDef) returns (r: StoreRow, outcome: Outcome)
    requires Distinct(s.indexes) && i !in ById(s.indexes)
    requires forall pk :: pk in s.records ==> IsEncoding(pk)
    ensures Distinct(r.indexes) && StoreOf(r) == WithIndex(StoreOf(s), i, name, def)
    ensures outcome == IndexOutcome(StoreOf(s), def)
  {
    var ks := map pk | pk in s.records :: IndexKeys(s.records[pk].value, def);
    IndexTable(s.records, def);
    var entries, dup := BuildIndex(ks, def.unique);
    var records := map pk | pk in s.records :: s.records[pk].(ikeys := s.records[pk].ikeys[i := ks[pk]]);
    assert records == WithIndex(StoreOf(s), i, name, def).records;
    IndexedEntries(s.records, i, def);
    PushSlot(s.indexes, i, Index(name, def, entries));
    r := s.(records := records, indexes := s.indexes + [Slot(i, Index(name, def, entries))]);
    outcome := if dup then NotUnique else Done;
    SharedIsShares(s.records, def);
  }

  lemma IndexTable(records: map<Bytes, Record>, def: IndexDef)
    requires forall pk :: pk in records ==> IsEncoding(pk)
    ensures KeyTable(map pk | pk in records :: IndexKeys(records[pk].value, def))
  {
    forall pk | pk in records
      ensures (forall k :: k in IndexKeys(records[pk].value, def) ==> IsEncoding(k)) &&
              NoRepeats(IndexKeys(records[pk].value, def))
    {
      IndexKeysEncoded(records[pk].value, def);
    }
  }

  lemma IndexedEntries(records: map<Bytes, Record>, i: nat, def: IndexDef)
    ensures var ks := map pk | pk in records :: IndexKeys(records[pk].value, def);
            var more := map pk | pk in records :: records[pk].(ikeys := records[pk].ikeys[i := ks[pk]]);
            AllEntries(more, i) == Table(ks)
  {
  }

  lemma SharedIsShares(records: map<Bytes, Record>, def: IndexDef)
    ensures var ks := map pk | pk in records :: IndexKeys(records[pk].value, def);
            SharesKey(records, def) <==> Shared(ks)
  {
    var ks := map pk | pk in records :: IndexKeys(records[pk].value, def);
    if SharesKey(records, def) {
      var p, q, k :| p in records && q in records && p != q &&
                     k in IndexKeys(records[p].value, def) && k in IndexKeys(records[q].value, def);
      assert p in ks && q in ks && k in ks[p] && k in ks[q];
    }
    if Shared(ks) {
      var p, q, k :| p in ks && q in ks && p != q && k in ks[p] && k in ks[q];
      assert p in records && q in records;
    }
  }

  // ---- rolling one entry back ------------------------------------------------------------------

  /** One undo entry on the store it names. */
  method RollRow(s: StoreRow, u: Undo) returns (r: StoreRow)
    requires Distinct(s.indexes)
    requires u.IndexDeletedUndo? ==> u.index !in ById(s.indexes)
    ensures Distinct(r.indexes) && StoreOf(r) == RollStore(StoreOf(s), u)
  {
    hide Replace;
    match u {
      case RecordUndo(_, key, was) =>
        var cur;
        r, cur := ReplaceRecord(s, key, was);
      case KeyGenUndo(_, number) =>
        r := s.(next := number);
      case ClearedUndo(_, records) =>
        r := RestoreCleared(s, records);
      case StoreRenamedUndo(_, name) =>
        r := s.(name := name);
      case IndexCreatedUndo(_, index) =>
        r := DropNewIndex(s, index);
      case IndexDeletedUndo(_, index, gone) =>
        PushSlot(s.indexes, index, gone);
        r := s.(indexes := s.indexes + [Slot(index, gone)]);
      case IndexRenamedUndo(_, index, name) =>
        r := NameIndex(s, index, name);
      case _ =>
        r := s;
    }
  }

  method DropNewIndex(s: StoreRow, index: nat) returns (r: StoreRow)
    requires Distinct(s.indexes)
    ensures Distinct(r.indexes) && StoreOf(r) == RollStore(StoreOf(s), IndexCreatedUndo(0, index))
  {
    var indexes := Retain(s.indexes, index);
    r := s.(indexes := indexes,
            records := map pk | pk in s.records :: s.records[pk].(ikeys := s.records[pk].ikeys - {index}));
  }

  method NameIndex(s: StoreRow, index: nat, name: string) returns (r: StoreRow)
    requires Distinct(s.indexes)
    ensures Distinct(r.indexes) && StoreOf(r) == RollStore(StoreOf(s), IndexRenamedUndo(0, index, name))
  {
    var pos := FindId(s.indexes, index);
    r := s;
    if pos.Some? {
      var p := pos.value;
      HasId(s.indexes, p);
      SetSlot(s.indexes, p, s.indexes[p].body.(name := name));
      r := s.(indexes := s.indexes[p := Slot(index, s.indexes[p].body.(name := name))]);
    } else {
      NoId(s.indexes, index);
    }
  }

  /** The rollback of a clear: empty indexes, the records back, every one of
      them indexed again. */
  method RestoreCleared(s: StoreRow, records: map<Bytes, Record>) returns (r: StoreRow)
    requires Distinct(s.indexes)
    ensures Distinct(r.indexes) && StoreOf(r) == RollStore(StoreOf(s), ClearedUndo(0, records))
  {
    var cleared, log := ClearRow(0, s);
    var indexes := ReindexAll(cleared.indexes, records);
    ClearedRefilled(s, records);
    r := s.(records := records, indexes := indexes);
  }

  lemma ClearedRefilled(s: StoreRow, records: map<Bytes, Record>)
    requires Distinct(s.indexes)
    ensures RollStore(StoreOf(s), ClearedUndo(0, records)).indexes ==
            Refilled(ClearEffect(0, StoreOf(s)).store.indexes, records)
  {
  }

  method ReindexAll(indexes: seq<Slot<Index>>, records: map<Bytes, Record>) returns (r: seq<Slot<Index>>)
    requires Distinct(indexes) && forall i :: i in ById(indexes) ==> ById(indexes)[i].entries == {}
    ensures Distinct(r) && ById(r) == Refilled(ById(indexes), records)
  {
    r := indexes;
    ghost var bare := ById(indexes);
    NothingRefilled(bare);
    var todo := records.Keys;
    ghost var done: map<Bytes, Record> := map[];
    while todo != {}
      invariant todo <= records.Keys && Distinct(r)
      invariant done == map pk | pk in records && pk !in todo :: records[pk]
      invariant ById(r) == Refilled(bare, done)
    {
      var pk :| pk in todo;
      r := Reindex(r, pk, records[pk]);
      RefillNext(bare, done, pk, records[pk]);
      todo := todo - {pk};
      done := done[pk := records[pk]];
    }
    assert done == records;
  }

  /** Indexes filled with the entries of some records. */
  ghost function Refilled(indexes: map<nat, Index>, records: map<Bytes, Record>): map<nat, Index> {
    map i | i in indexes :: indexes[i].(entries := AllEntries(records, i))
  }

  lemma NothingRefilled(indexes: map<nat, Index>)
    requires forall i :: i in indexes ==> indexes[i].entries == {}
    ensures Refilled(indexes, map[]) == indexes
  {
    assert forall i :: AllEntries(map[], i) == {};
  }

  lemma RefillNext(indexes: map<nat, Index>, done: map<Bytes, Record>, pk: Bytes, rec: Record)
    requires pk !in done
    ensures Reindexed(Refilled(indexes, done), pk, rec) == Refilled(indexes, done[pk := rec])
  {
    forall i | i in indexes
      ensures AllEntries(done, i) + EntriesOf(rec, i, pk) == AllEntries(done[pk := rec], i)
    {
      EntriesWith(done, pk, rec, i);
    }
  }
}
