/** The database as the standard describes it: stores by name, plain values, and
    indexes that are nothing but a view of the records. The engine refines it. */
module Spec {
  import opened ByteStrings
  import opened Doubles
  import opened Options
  import opened Keys
  import opened Ranges
  import opened SortedSets
  import opened Values
  import opened Engine
  import opened Operations
  import opened Schema
  import opened ByName

  datatype AStore = AStore(keyPath: KeyPath, autoInc: bool, next: Generator,
                           records: map<Bytes, Js>, indexes: map<string, IndexDef>)

  datatype ADb = ADb(version: nat, stores: map<string, AStore>)

  datatype AEffect = AEffect(store: AStore, outcome: Outcome)

  datatype AResult = AResult(db: ADb, outcome: Outcome)

  // ---- operations --------------------------------------------------------------------

  /** Another record already has the key in a unique index (section 2.6). */
  ghost predicate Taken(a: AStore, pk: Bytes, value: Js) {
    exists n, k, q :: n in a.indexes && a.indexes[n].unique && k in IndexKeys(value, a.indexes[n]) &&
                      q in a.records && q != pk && k in IndexKeys(a.records[q], a.indexes[n])
  }

  ghost function APut(a: AStore, prep: Prepared, noOverwrite: bool): AEffect {
    if prep.key.None? && a.next > TWO_53 then AEffect(a, GeneratorFull)
    else
      var key := PutKey(a.next, prep);
      var moved := a.(next := NextNumber(a.autoInc, a.next, prep.key));
      var pk, value := Encode(key), Written(a.keyPath, prep, key);
      if noOverwrite && pk in a.records then AEffect(moved, KeyExists)
      else if Taken(a, pk, value) then AEffect(moved, NotUnique)
      else AEffect(moved.(records := a.records[pk := value]), Stored(key))
  }

  ghost function AStoreOp(a: AStore, op: StoreOp): AEffect {
    match op
    case Put(prep, noOverwrite) => APut(a, prep, noOverwrite)
    case Delete(range) =>
      AEffect(a.(records := map pk | pk in a.records && !Contains(range, pk) :: a.records[pk]), Done)
    case Clear => AEffect(a.(records := map[]), Done)
  }

  ghost predicate AShares(records: map<Bytes, Js>, def: IndexDef) {
    exists p, q, k :: p in records && q in records && p != q &&
                      k in IndexKeys(records[p], def) && k in IndexKeys(records[q], def)
  }

  ghost function AApply(a: ADb, op: Op): AResult {
    match op
    case Data(store, sop) =>
      if store !in a.stores then AResult(a, Missing)
      else
        var e := AStoreOp(a.stores[store], sop);
        AResult(a.(stores := a.stores[store := e.store]), e.outcome)
    case SetVersion(version) => AResult(a.(version := version), Done)
    case CreateStore(name, keyPath, autoInc) =>
      AResult(a.(stores := a.stores[name := AStore(keyPath, autoInc, 1, map[], map[])]), Done)
    case DeleteStore(name) => AResult(a.(stores := a.stores - {name}), Done)
    case RenameStore(name, to) =>
      if name !in a.stores then AResult(a, Done)
      else AResult(a.(stores := (a.stores - {name})[to := a.stores[name]]), Done)
    case CreateIndex(store, name, def) =>
      if store !in a.stores then AResult(a, Done)
      else
        var s := a.stores[store];
        AResult(a.(stores := a.stores[store := s.(indexes := s.indexes[name := def])]),
                if def.unique && AShares(s.records, def) then NotUnique else Done)
    case DeleteIndex(store, name) =>
      if store !in a.stores then AResult(a, Done)
      else
        var s := a.stores[store];
        AResult(a.(stores := a.stores[store := s.(indexes := s.indexes - {name})]), Done)
    case RenameIndex(store, name, to) =>
      if store !in a.stores || name !in a.stores[store].indexes then AResult(a, Done)
      else
        var s := a.stores[store];
        AResult(a.(stores := a.stores[store := s.(indexes := (s.indexes - {name})[to := s.indexes[name]])]), Done)
  }

  // ---- abstraction -------------------------------------------------------------------

  function NamedDefs(s: Store): map<nat, (string, IndexDef)> {
    map i | i in s.indexes :: (s.indexes[i].name, s.indexes[i].def)
  }

  function Plain(records: map<Bytes, Record>): map<Bytes, Js> {
    map pk | pk in records :: records[pk].value
  }

  ghost function AbsStore(s: Store): AStore {
    AStore(s.keyPath, s.autoInc, s.next, Plain(s.records), View(NamedDefs(s)))
  }

  ghost function NamedStores(c: Content): map<nat, (string, AStore)> {
    map i | i in c.stores :: (c.stores[i].name, AbsStore(c.stores[i]))
  }

  ghost function Abs(c: Content): ADb {
    ADb(c.version, View(NamedStores(c)))
  }

  /** Looking a store up by name is looking it up in the abstraction. */
  lemma FindStore(c: Content, name: string)
    requires Unique(NamedStores(c))
    ensures name in Abs(c).stores <==> StoreId(c, name).Some?
    ensures StoreId(c, name).Some? ==> Abs(c).stores[name] == AbsStore(c.stores[StoreId(c, name).value])
  {
    Present(NamedStores(c), name);
    if StoreId(c, name).Some? {
      Lookup(NamedStores(c), StoreId(c, name).value);
    }
    if name in Abs(c).stores {
      assert c.stores[IdOf(NamedStores(c), name).value].name == name;
    }
  }

  lemma FindIndex(s: Store, name: string)
    requires Unique(NamedDefs(s))
    ensures name in AbsStore(s).indexes <==> IndexId(s, name).Some?
    ensures IndexId(s, name).Some? ==> AbsStore(s).indexes[name] == s.indexes[IndexId(s, name).value].def
  {
    Present(NamedDefs(s), name);
    if IndexId(s, name).Some? {
      Lookup(NamedDefs(s), IndexId(s, name).value);
    }
    if name in AbsStore(s).indexes {
      assert s.indexes[IdOf(NamedDefs(s), name).value].name == name;
    }
  }

  lemma IndexNames(s: Store, i: nat)
    requires Unique(NamedDefs(s)) && i in s.indexes
    ensures s.indexes[i].name in AbsStore(s).indexes && AbsStore(s).indexes[s.indexes[i].name] == s.indexes[i].def
  {
    Lookup(NamedDefs(s), i);
  }

  lemma InvNames(c: Content, top: nat)
    requires Inv(c, top)
    ensures Unique(NamedStores(c))
    ensures forall i :: i in c.stores ==> Unique(NamedDefs(c.stores[i]))
  {
    forall i | i in c.stores
      ensures Unique(NamedDefs(c.stores[i]))
    {
      assert StoreInv(c.stores[i], top);
    }
  }

  lemma NamedWith(c: Content, sid: nat, t: Store)
    ensures NamedStores(With(c, sid, t)) == NamedStores(c)[sid := (t.name, AbsStore(t))]
  {
    var x, y := NamedStores(With(c, sid, t)), NamedStores(c)[sid := (t.name, AbsStore(t))];
    assert x.Keys == y.Keys;
    forall i | i in x
      ensures x[i] == y[i]
    {
    }
  }

  /** The content with one store changed, seen from outside. */
  lemma AbsWith(c: Content, sid: nat, t: Store)
    requires Unique(NamedStores(c)) && sid in c.stores && t.name == c.stores[sid].name
    ensures Abs(With(c, sid, t)) == Abs(c).(stores := Abs(c).stores[t.name := AbsStore(t)])
  {
    NamedWith(c, sid, t);
    assert NamedStores(c)[sid].0 == t.name;
    SetSame(NamedStores(c), sid, AbsStore(t));
  }

  // ---- one store -----------------------------------------------------------------------

  lemma AbsReplace(s: Store, pk: Bytes, rec: Option<Record>)
    ensures AbsStore(Replace(s, pk, rec)) ==
            AbsStore(s).(records := if rec.None? then Plain(s.records) - {pk}
                                    else Plain(s.records)[pk := rec.value.value])
  {
    hide Replace, View;
    var t := Replace(s, pk, rec);
    ReplaceKeepsRest(s, pk, rec);
    assert NamedDefs(t) == NamedDefs(s);
    if rec.None? {
      assert Plain(t.records) == Plain(s.records) - {pk};
    } else {
      assert Plain(t.records) == Plain(s.records)[pk := rec.value.value];
    }
  }

  /** The prefix scan of an index finds another primary key exactly when another
      record has that very index key. */
  lemma ScanIsExact(records: map<Bytes, Record>, i: nat, ix: Index, k: Bytes, pk: Bytes, top: nat)
    requires IndexInv(records, i, ix) && IsEncoding(k)
    requires forall q :: q in records ==> RecordInv(q, records[q], top)
    ensures EntryClash(ix.entries, k, pk) <==>
            exists q :: q in records && q != pk && k in IndexKeys(records[q].value, ix.def)
  {
    if EntryClash(ix.entries, k, pk) {
      var e :| e in ix.entries && k <= e && e[|k|..] != pk;
      var q, l :| q in records && l in KeysIn(records[q], i) && e == l + q;
      assert RecordInv(q, records[q], top);
      assert k + e[|k|..] == e;
      SplitUnique(k, e[|k|..], l, q);
      assert q != pk && k in IndexKeys(records[q].value, ix.def);
    }
    if q :| q in records && q != pk && k in IndexKeys(records[q].value, ix.def) {
      var e := k + q;
      assert k in KeysIn(records[q], i);
      assert e in AllEntries(records, i) && e[|k|..] == q;
    }
  }

  lemma ClashIsTaken(s: Store, pk: Bytes, value: Js, top: nat)
    requires StoreInv(s, top)
    ensures Clashes(s, pk, value) <==> Taken(AbsStore(s), pk, value)
  {
    hide IndexKeys, IndexInv, RecordInv;
    var a := AbsStore(s);
    if Clashes(s, pk, value) {
      var i, k :| i in s.indexes && s.indexes[i].def.unique && k in IndexKeys(value, s.indexes[i].def) &&
                  EntryClash(s.indexes[i].entries, k, pk);
      IndexKeysEncoded(value, s.indexes[i].def);
      ScanIsExact(s.records, i, s.indexes[i], k, pk, top);
      var q :| q in s.records && q != pk && k in IndexKeys(s.records[q].value, s.indexes[i].def);
      IndexNames(s, i);
      assert a.records[q] == s.records[q].value;
    }
    if Taken(a, pk, value) {
      var n, k, q :| n in a.indexes && a.indexes[n].unique && k in IndexKeys(value, a.indexes[n]) &&
                     q in a.records && q != pk && k in IndexKeys(a.records[q], a.indexes[n]);
      FindIndex(s, n);
      var i := IndexId(s, n).value;
      IndexKeysEncoded(value, s.indexes[i].def);
      ScanIsExact(s.records, i, s.indexes[i], k, pk, top);
    }
  }

  lemma PutRefines(s: Store, sid: nat, prep: Prepared, noOverwrite: bool, top: nat)
    requires StoreInv(s, top)
    ensures var e, f := PutEffect(sid, s, prep, noOverwrite), APut(AbsStore(s), prep, noOverwrite);
            AbsStore(e.store) == f.store && e.outcome == f.outcome
  {
    if prep.key.Some? || s.next <= TWO_53 {
      var key := PutKey(s.next, prep);
      var pk, value := Encode(key), Written(s.keyPath, prep, key);
      var moved := s.(next := NextNumber(s.autoInc, s.next, prep.key));
      MovedGenerator(s, moved.next);
      ClashIsTaken(s, pk, value, top);
      AbsReplace(moved, pk, Some(NewRecord(s, value)));
      assert pk in s.records <==> pk in Plain(s.records);
    }
  }

  lemma MovedGenerator(s: Store, n: Generator)
    ensures AbsStore(s.(next := n)) == AbsStore(s).(next := n)
  {
    assert NamedDefs(s.(next := n)) == NamedDefs(s);
  }

  lemma {:induction false} RemoveRefines(sid: nat, s: Store, keys: seq<Bytes>)
    requires forall k :: k in keys ==> k in s.records
    requires NoRepeats(keys)
    ensures AbsStore(RemoveEffect(sid, s, keys).store) ==
            AbsStore(s).(records := Plain(s.records) - SetOf(keys))
    ensures RemoveEffect(sid, s, keys).outcome == Done
    decreases |keys|
  {
    var m := Plain(s.records);
    if keys == [] {
      assert m - SetOf(keys) == m;
    } else {
      var k, front := keys[|keys| - 1], keys[..|keys| - 1];
      var before := RemoveEffect(sid, s, front).store;
      RemoveRefines(sid, s, front);
      AbsReplace(before, k, None);
      assert Plain(before.records) == m - SetOf(front);
      SetOfLast(keys);
      assert m - SetOf(front) - {k} == m - SetOf(keys);
    }
  }

  lemma MinusWithin(m: map<Bytes, Js>, range: Range)
    ensures m - SetOf(Ascending(Within(m.Keys, range))) == map pk | pk in m && !Contains(range, pk) :: m[pk]
  {
  }

  lemma DeleteRefines(sid: nat, s: Store, range: Range)
    ensures AbsStore(DeleteEffect(sid, s, range).store) == AStoreOp(AbsStore(s), Delete(range)).store
    ensures DeleteEffect(sid, s, range).outcome == Done
  {
    var keys := Ascending(Within(s.records.Keys, range));
    AscendingDistinct(keys);
    RemoveRefines(sid, s, keys);
    assert Plain(s.records).Keys == s.records.Keys;
    MinusWithin(Plain(s.records), range);
  }

  lemma ClearRefines(sid: nat, s: Store)
    ensures AbsStore(ClearEffect(sid, s).store) == AbsStore(s).(records := map[])
  {
    assert NamedDefs(ClearEffect(sid, s).store) == NamedDefs(s);
  }

  /** An operation on a store by the engine is the operation on its records. */
  lemma StoreOpRefines(sid: nat, s: Store, op: StoreOp, top: nat)
    requires StoreInv(s, top)
    ensures AbsStore(StoreEffect(sid, s, op).store) == AStoreOp(AbsStore(s), op).store
    ensures StoreEffect(sid, s, op).outcome == AStoreOp(AbsStore(s), op).outcome
  {
    hide RemoveEffect, PutEffect, StoreInv, APut, DeleteEffect;
    match op {
      case Put(prep, noOverwrite) => PutRefines(s, sid, prep, noOverwrite, top);
      case Delete(range) => DeleteRefines(sid, s, range);
      case Clear => ClearRefines(sid, s);
    }
  }

  // ---- the whole database -----------------------------------------------------------------

  lemma DataRefines(db: Db, store: string, sop: StoreOp)
    requires Inv(db.content, db.nextId)
    ensures var r, a := Apply(db, Data(store, sop)), AApply(Abs(db.content), Data(store, sop));
            Abs(r.db.content) == a.db && r.outcome == a.outcome
  {
    var c := db.content;
    InvNames(c, db.nextId);
    FindStore(c, store);
    if StoreId(c, store).Some? {
      var sid := StoreId(c, store).value;
      StoreOpUnwinds(c, sid, sop, db.nextId);
      StoreOpRefines(sid, c.stores[sid], sop, db.nextId);
      AbsWith(c, sid, StoreEffect(sid, c.stores[sid], sop).store);
    }
  }

  lemma DropStoreRefines(c: Content, sid: nat)
    requires Unique(NamedStores(c)) && sid in c.stores
    ensures Abs(c.(stores := c.stores - {sid})) == Abs(c).(stores := Abs(c).stores - {c.stores[sid].name})
  {
    assert NamedStores(c.(stores := c.stores - {sid})) == NamedStores(c) - {sid};
    DropEntry(NamedStores(c), sid);
  }

  lemma AddStoreRefines(c: Content, sid: nat, s: Store)
    requires Unique(NamedStores(c)) && sid !in c.stores && forall i :: i in c.stores ==> c.stores[i].name != s.name
    ensures Abs(With(c, sid, s)) == Abs(c).(stores := Abs(c).stores[s.name := AbsStore(s)])
  {
    NamedWith(c, sid, s);
    AddEntry(NamedStores(c), sid, s.name, AbsStore(s));
  }

  lemma AbsEmptyStore(name: string, keyPath: KeyPath, autoInc: bool)
    ensures AbsStore(Store(name, keyPath, autoInc, 1, map[], map[])) == AStore(keyPath, autoInc, 1, map[], map[])
  {
    var s := Store(name, keyPath, autoInc, 1, map[], map[]);
    assert NamedDefs(s) == map[] && Plain(s.records) == map[];
    EmptyView<IndexDef>();
  }

  lemma CreateStoreRefines(db: Db, name: string, keyPath: KeyPath, autoInc: bool)
    requires Unique(NamedStores(db.content)) && db.nextId + 1 !in db.content.stores
    requires Legal(db.content, CreateStore(name, keyPath, autoInc))
    ensures var op := CreateStore(name, keyPath, autoInc);
            Abs(Apply(db, op).db.content) == AApply(Abs(db.content), op).db
  {
    AddStoreRefines(db.content, db.nextId + 1, Store(name, keyPath, autoInc, 1, map[], map[]));
    AbsEmptyStore(name, keyPath, autoInc);
    CreatedStore(db, name, keyPath, autoInc);
  }

  lemma CreatedStore(db: Db, name: string, keyPath: KeyPath, autoInc: bool)
    ensures Apply(db, CreateStore(name, keyPath, autoInc)).db.content ==
            With(db.content, db.nextId + 1, Store(name, keyPath, autoInc, 1, map[], map[]))
  {
  }

  lemma DeleteStoreRefines(db: Db, name: string)
    requires Inv(db.content, db.nextId)
    ensures Abs(Apply(db, DeleteStore(name)).db.content) == AApply(Abs(db.content), DeleteStore(name)).db
  {
    hide StoreInv, AbsStore, View;
    var c := db.content;
    InvNames(c, db.nextId);
    FindStore(c, name);
    if StoreId(c, name).Some? {
      DropStoreRefines(c, StoreId(c, name).value);
    } else {
      assert Abs(c).stores - {name} == Abs(c).stores;
    }
  }

  lemma RenameStoreAt(c: Content, sid: nat, to: string)
    requires Unique(NamedStores(c)) && sid in c.stores
    requires to == c.stores[sid].name || StoreId(c, to).None?
    ensures var s := c.stores[sid];
            Abs(With(c, sid, s.(name := to))) == Abs(c).(stores := (Abs(c).stores - {s.name})[to := AbsStore(s)])
  {
    var s := c.stores[sid];
    var m := NamedStores(c);
    NamedWith(c, sid, s.(name := to));
    assert NamedDefs(s.(name := to)) == NamedDefs(s);
    forall j | j in m && m[j].0 == to
      ensures j == sid
    {
      assert c.stores[j].name == to && m[sid].0 == s.name;
    }
    SetEntry(m, sid, to, AbsStore(s));
  }

  lemma RenameStoreRefines(db: Db, name: string, to: string)
    requires Unique(NamedStores(db.content)) && Legal(db.content, RenameStore(name, to))
    ensures Abs(Apply(db, RenameStore(name, to)).db.content) == AApply(Abs(db.content), RenameStore(name, to)).db
  {
    FindStore(db.content, name);
    if StoreId(db.content, name).Some? {
      RenameStoreAt(db.content, StoreId(db.content, name).value, to);
    }
  }

  lemma StoreChangeRefines(db: Db, op: Op)
    requires Inv(db.content, db.nextId) && Legal(db.content, op)
    requires op.CreateStore? || op.DeleteStore? || op.RenameStore? || op.SetVersion?
    ensures Abs(Apply(db, op).db.content) == AApply(Abs(db.content), op).db
    ensures Apply(db, op).outcome == AApply(Abs(db.content), op).outcome
  {
    var c := db.content;
    match op {
      case CreateStore(name, keyPath, autoInc) =>
        InvNames(c, db.nextId);
        CreateStoreRefines(db, name, keyPath, autoInc);
      case DeleteStore(name) =>
        DeleteStoreRefines(db, name);
      case RenameStore(name, to) =>
        InvNames(c, db.nextId);
        RenameStoreRefines(db, name, to);
      case SetVersion(version) =>
        assert NamedStores(c.(version := version)) == NamedStores(c);
    }
  }

  lemma SharesIsAShares(s: Store, def: IndexDef)
    ensures SharesKey(s.records, def) <==> AShares(Plain(s.records), def)
  {
    if SharesKey(s.records, def) {
      var p, q, k :| p in s.records && q in s.records && p != q &&
                     k in IndexKeys(s.records[p].value, def) && k in IndexKeys(s.records[q].value, def);
      assert p in Plain(s.records) && q in Plain(s.records);
      assert k in IndexKeys(Plain(s.records)[p], def) && k in IndexKeys(Plain(s.records)[q], def);
    }
    if AShares(Plain(s.records), def) {
      var p, q, k :| p in Plain(s.records) && q in Plain(s.records) && p != q &&
                     k in IndexKeys(Plain(s.records)[p], def) && k in IndexKeys(Plain(s.records)[q], def);
      assert k in IndexKeys(s.records[p].value, def) && k in IndexKeys(s.records[q].value, def);
    }
  }

  lemma WithIndexRefines(s: Store, i: nat, name: string, def: IndexDef)
    requires Unique(NamedDefs(s)) && i !in s.indexes && forall j :: j in s.indexes ==> s.indexes[j].name != name
    ensures AbsStore(WithIndex(s, i, name, def)) == AbsStore(s).(indexes := AbsStore(s).indexes[name := def])
  {
    IndexedNames(s, i, name, def);
    AddEntry(NamedDefs(s), i, name, def);
  }

  lemma IndexedNames(s: Store, i: nat, name: string, def: IndexDef)
    ensures NamedDefs(WithIndex(s, i, name, def)) == NamedDefs(s)[i := (name, def)]
    ensures Plain(WithIndex(s, i, name, def).records) == Plain(s.records)
  {
  }

  lemma IndexedRefines(db: Db, sid: nat, name: string, def: IndexDef)
    requires Unique(NamedStores(db.content)) && sid in db.content.stores
    requires Unique(NamedDefs(db.content.stores[sid])) && db.nextId + 1 !in db.content.stores[sid].indexes
    requires IndexId(db.content.stores[sid], name).None?
    ensures var c, s := db.content, db.content.stores[sid];
            Abs(CreateIndexResult(db, sid, name, def).db.content) ==
            Abs(c).(stores := Abs(c).stores[s.name := AbsStore(s).(indexes := AbsStore(s).indexes[name := def])])
  {
    var s, i := db.content.stores[sid], db.nextId + 1;
    NoIndexNamed(s, name);
    WithIndexRefines(s, i, name, def);
    AbsWith(db.content, sid, WithIndex(s, i, name, def));
    IndexedStore(db, sid, name, def);
  }

  lemma IndexedStore(db: Db, sid: nat, name: string, def: IndexDef)
    requires sid in db.content.stores
    ensures CreateIndexResult(db, sid, name, def).db.content ==
            With(db.content, sid, WithIndex(db.content.stores[sid], db.nextId + 1, name, def))
  {
  }

  lemma CreateIndexRefines(db: Db, store: string, name: string, def: IndexDef)
    requires Inv(db.content, db.nextId) && Legal(db.content, CreateIndex(store, name, def))
    ensures var op := CreateIndex(store, name, def); var r, a := Apply(db, op), AApply(Abs(db.content), op);
            Abs(r.db.content) == a.db && r.outcome == a.outcome
  {
    var c := db.content;
    InvNames(c, db.nextId);
    FindStore(c, store);
    if StoreId(c, store).Some? {
      assert StoreInv(c.stores[StoreId(c, store).value], db.nextId);
      IndexedRefines(db, StoreId(c, store).value, name, def);
      SharesIsAShares(c.stores[StoreId(c, store).value], def);
    }
  }

  lemma DropIndexRefines(s: Store, i: nat)
    requires Unique(NamedDefs(s)) && i in s.indexes
    ensures AbsStore(s.(indexes := s.indexes - {i})) ==
            AbsStore(s).(indexes := AbsStore(s).indexes - {s.indexes[i].name})
  {
    assert NamedDefs(s.(indexes := s.indexes - {i})) == NamedDefs(s) - {i};
    DropEntry(NamedDefs(s), i);
  }

  lemma NameIndexRefines(s: Store, i: nat, to: string)
    requires Unique(NamedDefs(s)) && i in s.indexes
    requires forall j :: j in s.indexes && s.indexes[j].name == to ==> j == i
    ensures AbsStore(s.(indexes := s.indexes[i := s.indexes[i].(name := to)])) ==
            AbsStore(s).(indexes := (AbsStore(s).indexes - {s.indexes[i].name})[to := s.indexes[i].def])
  {
    assert NamedDefs(s.(indexes := s.indexes[i := s.indexes[i].(name := to)])) ==
           NamedDefs(s)[i := (to, s.indexes[i].def)];
    SetEntry(NamedDefs(s), i, to, s.indexes[i].def);
  }

  /** Deleting and renaming an index, on a store found by name. */
  lemma DeleteIndexAt(db: Db, sid: nat, name: string)
    requires Unique(NamedStores(db.content)) && sid in db.content.stores
    requires Unique(NamedDefs(db.content.stores[sid]))
    ensures var c, s := db.content, db.content.stores[sid];
            Abs(DeleteIndexResult(db, sid, name).db.content) ==
            Abs(c).(stores := Abs(c).stores[s.name := AbsStore(s).(indexes := AbsStore(s).indexes - {name})])
  {
    var c, s := db.content, db.content.stores[sid];
    FindIndex(s, name);
    if IndexId(s, name).Some? {
      var i := IndexId(s, name).value;
      DropIndexRefines(s, i);
      AbsWith(c, sid, s.(indexes := s.indexes - {i}));
    } else {
      assert AbsStore(s).indexes - {name} == AbsStore(s).indexes;
      assert With(c, sid, s) == c;
      AbsWith(c, sid, s);
    }
  }

  lemma RenameIndexAt(db: Db, sid: nat, name: string, to: string)
    requires Unique(NamedStores(db.content)) && sid in db.content.stores
    requires Unique(NamedDefs(db.content.stores[sid]))
    requires to == name || IndexId(db.content.stores[sid], to).None?
    ensures var c, s := db.content, db.content.stores[sid];
            var x := AbsStore(s).indexes;
            Abs(RenameIndexResult(db, sid, name, to).db.content) ==
            if name !in x then Abs(c)
            else Abs(c).(stores := Abs(c).stores[s.name := AbsStore(s).(indexes := (x - {name})[to := x[name]])])
  {
    var c, s := db.content, db.content.stores[sid];
    FindIndex(s, name);
    if IndexId(s, name).Some? {
      var i := IndexId(s, name).value;
      Lookup(NamedDefs(s), i);
      forall j | j in s.indexes && s.indexes[j].name == to
        ensures j == i
      {
        Lookup(NamedDefs(s), j);
      }
      NameIndexRefines(s, i, to);
      AbsWith(c, sid, s.(indexes := s.indexes[i := s.indexes[i].(name := to)]));
    }
  }

  lemma IndexChangeRefines(db: Db, op: Op)
    requires Inv(db.content, db.nextId) && Legal(db.content, op)
    requires op.DeleteIndex? || op.RenameIndex?
    ensures Abs(Apply(db, op).db.content) == AApply(Abs(db.content), op).db
    ensures Apply(db, op).outcome == AApply(Abs(db.content), op).outcome
  {
    var c := db.content;
    InvNames(c, db.nextId);
    FindStore(c, op.store);
    if StoreId(c, op.store).Some? {
      var sid := StoreId(c, op.store).value;
      if op.DeleteIndex? {
        DeleteIndexAt(db, sid, op.name);
      } else {
        RenameIndexAt(db, sid, op.name, op.to);
      }
    }
  }

  /** The engine refines the standard's database: every operation changes the
      records, the schema and the generator as the standard has it and gives
      the same outcome, whatever its indexes and ids look like inside. */
  lemma OpRefines(db: Db, op: Op)
    requires Inv(db.content, db.nextId) && Legal(db.content, op)
    ensures Abs(Apply(db, op).db.content) == AApply(Abs(db.content), op).db
    ensures Apply(db, op).outcome == AApply(Abs(db.content), op).outcome
  {
    hide Apply, AApply, Abs, Inv;
    match op {
      case Data(store, sop) => DataRefines(db, store, sop);
      case CreateIndex(store, name, def) => CreateIndexRefines(db, store, name, def);
      case DeleteIndex(_, _) => IndexChangeRefines(db, op);
      case RenameIndex(_, _, _) => IndexChangeRefines(db, op);
      case _ => StoreChangeRefines(db, op);
    }
  }
}
