/** Operations of a transaction by name, the schema changes of a version change,
    and exact rollback of whole transactions. */
module Schema {
  import opened ByteStrings
  import opened Options
  import opened Values
  import opened Engine
  import opened Operations
  import opened ByName

  datatype Op =
    | Data(store: string, op: StoreOp)
    | SetVersion(version: nat)
    | CreateStore(name: string, keyPath: KeyPath, autoInc: bool)
    | DeleteStore(name: string)
    | RenameStore(name: string, to: string)
    | CreateIndex(store: string, name: string, def: IndexDef)
    | DeleteIndex(store: string, name: string)
    | RenameIndex(store: string, name: string, to: string)

  datatype Result = Result(db: Db, log: seq<Undo>, outcome: Outcome)

  /** The store of a name. */
  ghost function StoreId(c: Content, name: string): (r: Option<nat>)
    ensures r.Some? <==> exists i :: i in c.stores && c.stores[i].name == name
    ensures r.Some? ==> r.value in c.stores && c.stores[r.value].name == name
  {
    var m := map i | i in c.stores :: (c.stores[i].name, c.stores[i]);
    assert forall i :: i in c.stores ==> i in m && m[i].0 == c.stores[i].name;
    IdOf(m, name)
  }

  ghost function IndexId(s: Store, name: string): (r: Option<nat>)
    ensures r.Some? <==> exists i :: i in s.indexes && s.indexes[i].name == name
    ensures r.Some? ==> r.value in s.indexes && s.indexes[r.value].name == name
  {
    var m := map i | i in s.indexes :: (s.indexes[i].name, s.indexes[i]);
    assert forall i :: i in s.indexes ==> i in m && m[i].0 == s.indexes[i].name;
    IdOf(m, name)
  }

  /** What the page-facing objects check before they ask for a change: a new
      name is not taken by another store or index. */
  ghost predicate Legal(c: Content, op: Op) {
    match op
    case CreateStore(name, _, _) => StoreId(c, name).None?
    case RenameStore(name, to) => to == name || StoreId(c, to).None?
    case CreateIndex(store, name, _) =>
      StoreId(c, store).Some? ==> IndexId(c.stores[StoreId(c, store).value], name).None?
    case RenameIndex(store, name, to) =>
      StoreId(c, store).Some? ==> to == name || IndexId(c.stores[StoreId(c, store).value], to).None?
    case _ => true
  }

  /** Two records share an index key. */
  ghost predicate SharesKey(records: map<Bytes, Record>, def: IndexDef) {
    exists p, q, k :: p in records && q in records && p != q &&
                      k in IndexKeys(records[p].value, def) && k in IndexKeys(records[q].value, def)
  }

  /** The store with a new index over the records already there. */
  function WithIndex(s: Store, i: nat, name: string, def: IndexDef): Store {
    var records := map pk | pk in s.records ::
      s.records[pk].(ikeys := s.records[pk].ikeys[i := IndexKeys(s.records[pk].value, def)]);
    s.(records := records, indexes := s.indexes[i := Index(name, def, AllEntries(records, i))])
  }

  ghost function IndexOutcome(s: Store, def: IndexDef): Outcome {
    if def.unique && SharesKey(s.records, def) then NotUnique else Done
  }

  ghost function CreateIndexResult(db: Db, sid: nat, name: string, def: IndexDef): Result
    requires sid in db.content.stores
  {
    var s, i := db.content.stores[sid], db.nextId + 1;
    Result(Db(With(db.content, sid, WithIndex(s, i, name, def)), i), [IndexCreatedUndo(sid, i)],
           IndexOutcome(s, def))
  }

  ghost function DeleteIndexResult(db: Db, sid: nat, name: string): Result
    requires sid in db.content.stores
  {
    var s := db.content.stores[sid];
    match IndexId(s, name)
    case None => Result(db, [], Done)
    case Some(i) =>
      Result(db.(content := With(db.content, sid, s.(indexes := s.indexes - {i}))),
             [IndexDeletedUndo(sid, i, s.indexes[i])], Done)
  }

  ghost function RenameIndexResult(db: Db, sid: nat, name: string, to: string): Result
    requires sid in db.content.stores
  {
    var s := db.content.stores[sid];
    match IndexId(s, name)
    case None => Result(db, [], Done)
    case Some(i) =>
      Result(db.(content := With(db.content, sid, s.(indexes := s.indexes[i := s.indexes[i].(name := to)]))),
             [IndexRenamedUndo(sid, i, s.indexes[i].name)], Done)
  }

  ghost function DataResult(db: Db, store: string, sop: StoreOp): Result {
    match StoreId(db.content, store)
    case None => Result(db, [], Missing)
    case Some(sid) =>
      var e := StoreEffect(sid, db.content.stores[sid], sop);
      Result(db.(content := With(db.content, sid, e.store)), e.log, e.outcome)
  }

  ghost function CreateStoreResult(db: Db, name: string, keyPath: KeyPath, autoInc: bool): Result {
    var sid := db.nextId + 1;
    Result(Db(With(db.content, sid, Store(name, keyPath, autoInc, 1, map[], map[])), sid), [StoreCreatedUndo(sid)], Done)
  }

  ghost function DeleteStoreResult(db: Db, name: string): Result {
    var c := db.content;
    match StoreId(c, name)
    case None => Result(db, [], Done)
    case Some(sid) =>
      Result(db.(content := c.(stores := c.stores - {sid})), [StoreDeletedUndo(sid, c.stores[sid])], Done)
  }

  ghost function RenameStoreResult(db: Db, name: string, to: string): Result {
    var c := db.content;
    match StoreId(c, name)
    case None => Result(db, [], Done)
    case Some(sid) =>
      Result(db.(content := With(c, sid, c.stores[sid].(name := to))), [StoreRenamedUndo(sid, c.stores[sid].name)], Done)
  }

  /** An index change on the store of a name; creating one uses up an id even
      when the store is missing. */
  ghost function IndexResult(db: Db, op: Op): Result
    requires op.CreateIndex? || op.DeleteIndex? || op.RenameIndex?
  {
    match StoreId(db.content, op.store)
    case None => Result(if op.CreateIndex? then db.(nextId := db.nextId + 1) else db, [], Done)
    case Some(sid) =>
      if op.CreateIndex? then CreateIndexResult(db, sid, op.name, op.def)
      else if op.DeleteIndex? then DeleteIndexResult(db, sid, op.name)
      else RenameIndexResult(db, sid, op.name, op.to)
  }

  ghost function Apply(db: Db, op: Op): Result {
    match op
    case Data(store, sop) => DataResult(db, store, sop)
    case SetVersion(version) =>
      Result(db.(content := db.content.(version := version)), [VersionUndo(db.content.version)], Done)
    case CreateStore(name, keyPath, autoInc) => CreateStoreResult(db, name, keyPath, autoInc)
    case DeleteStore(name) => DeleteStoreResult(db, name)
    case RenameStore(name, to) => RenameStoreResult(db, name, to)
    case _ => IndexResult(db, op)
  }

  /** The result keeps the invariant, and playing its log backwards is exactly
      its inverse, the invariant holding at each step on the way. */
  ghost predicate Undoable(db: Db, r: Result) {
    Inv(r.db.content, r.db.nextId) && db.nextId <= r.db.nextId &&
    Unwinds(r.db.content, r.log, db.content, r.db.nextId)
  }

  // ---- every schema change keeps the invariant, and its entry undoes it ------------------

  lemma SchemaStep(c: Content, d: Content, u: Undo, top: nat)
    requires Inv(c, top) && Inv(d, top) && Rollback(d, u) == c && Pushable(d, u)
    ensures Unwinds(d, [u], c, top)
  {
    assert [u][..0] == [];
  }

  /** A change of one store that keeps its name. */
  lemma ChangeStep(c: Content, sid: nat, t: Store, u: Undo, top: nat, more: nat)
    requires Inv(c, top) && sid in c.stores && top <= more
    requires StoreInv(t, more) && t.name == c.stores[sid].name
    requires !u.VersionUndo? && !u.StoreCreatedUndo? && !u.StoreDeletedUndo?
    requires u.store == sid && RollStore(t, u) == c.stores[sid]
    requires u.IndexDeletedUndo? ==> u.index !in t.indexes
    ensures Inv(With(c, sid, t), more) && Unwinds(With(c, sid, t), [u], c, more)
  {
    InvGrows(c, top, more);
    WithKeepsInv(c, sid, t, more);
    assert With(c, sid, t).stores[sid := c.stores[sid]] == c.stores;
    SchemaStep(c, With(c, sid, t), u, more);
  }

  lemma EmptyStoreInv(name: string, keyPath: KeyPath, autoInc: bool, top: nat)
    ensures StoreInv(Store(name, keyPath, autoInc, 1, map[], map[]), top)
  {
  }

  lemma NamesStayApart(c: Content, sid: nat, s: Store)
    requires sid !in c.stores && StoreId(c, s.name).None?
    requires forall i, j :: i in c.stores && j in c.stores && c.stores[i].name == c.stores[j].name ==> i == j
    ensures var m := c.stores[sid := s]; forall i, j :: i in m && j in m && m[i].name == m[j].name ==> i == j
  {
    var m := c.stores[sid := s];
    forall i, j | i in m && j in m && m[i].name == m[j].name
      ensures i == j
    {
      assert i == sid || m[i] == c.stores[i];
      assert j == sid || m[j] == c.stores[j];
    }
  }

  lemma CreateStoreUnwinds(db: Db, name: string, keyPath: KeyPath, autoInc: bool)
    requires Inv(db.content, db.nextId) && Legal(db.content, CreateStore(name, keyPath, autoInc))
    ensures var r := Apply(db, CreateStore(name, keyPath, autoInc));
            Inv(r.db.content, r.db.nextId) && Unwinds(r.db.content, r.log, db.content, r.db.nextId)
  {
    hide StoreInv;
    var c, sid := db.content, db.nextId + 1;
    var d := Apply(db, CreateStore(name, keyPath, autoInc)).db.content;
    assert sid !in c.stores;
    InvGrows(c, db.nextId, sid);
    EmptyStoreInv(name, keyPath, autoInc, sid);
    NamesStayApart(c, sid, d.stores[sid]);
    assert d.stores - {sid} == c.stores;
    hide Unwinds;
    SchemaStep(c, d, StoreCreatedUndo(sid), sid);
  }

  lemma DeleteStoreUnwinds(db: Db, sid: nat)
    requires Inv(db.content, db.nextId) && sid in db.content.stores
    ensures var d := db.content.(stores := db.content.stores - {sid});
            Inv(d, db.nextId) &&
            Unwinds(d, [StoreDeletedUndo(sid, db.content.stores[sid])], db.content, db.nextId)
  {
    var c := db.content;
    var d := c.(stores := c.stores - {sid});
    assert d.stores[sid := c.stores[sid]] == c.stores;
    SchemaStep(c, d, StoreDeletedUndo(sid, c.stores[sid]), db.nextId);
  }

  lemma RenameStoreUnwinds(db: Db, sid: nat, to: string)
    requires Inv(db.content, db.nextId) && sid in db.content.stores
    requires forall i :: i in db.content.stores && db.content.stores[i].name == to ==> i == sid
    ensures var d := With(db.content, sid, db.content.stores[sid].(name := to));
            Inv(d, db.nextId) &&
            Unwinds(d, [StoreRenamedUndo(sid, db.content.stores[sid].name)], db.content, db.nextId)
  {
    var c := db.content;
    var d := With(c, sid, c.stores[sid].(name := to));
    forall i, j | i in d.stores && j in d.stores && d.stores[i].name == d.stores[j].name
      ensures i == j
    {
      assert i == sid || d.stores[i] == c.stores[i];
      assert j == sid || d.stores[j] == c.stores[j];
    }
    assert d.stores[sid := c.stores[sid]] == c.stores;
    SchemaStep(c, d, StoreRenamedUndo(sid, c.stores[sid].name), db.nextId);
  }

  lemma WithIndexEntries(s: Store, i: nat, name: string, def: IndexDef, j: nat)
    requires j != i
    ensures AllEntries(WithIndex(s, i, name, def).records, j) == AllEntries(s.records, j)
  {
    var t := WithIndex(s, i, name, def);
    forall pk | pk in s.records
      ensures KeysIn(t.records[pk], j) == KeysIn(s.records[pk], j)
    {
    }
  }

  lemma WithIndexKeepsInv(s: Store, i: nat, name: string, def: IndexDef, top: nat)
    requires StoreInv(s, top) && i == top + 1 && forall j :: j in s.indexes ==> s.indexes[j].name != name
    ensures StoreInv(WithIndex(s, i, name, def), i)
  {
    var t := WithIndex(s, i, name, def);
    forall pk | pk in t.records
      ensures RecordInv(pk, t.records[pk], i)
    {
      assert RecordInv(pk, s.records[pk], top);
      IndexKeysEncoded(s.records[pk].value, def);
    }
    forall j | j in t.indexes
      ensures j <= i && IndexInv(t.records, j, t.indexes[j])
    {
      if j != i {
        assert IndexInv(s.records, j, s.indexes[j]);
        WithIndexEntries(s, i, name, def, j);
      }
    }
  }

  lemma KeysDropped(rec: Record, i: nat, keys: seq<Bytes>)
    requires i !in rec.ikeys
    ensures rec.(ikeys := rec.ikeys[i := keys] - {i}) == rec
  {
    assert rec.ikeys[i := keys] - {i} == rec.ikeys;
  }

  lemma WithIndexUndone(s: Store, sid: nat, i: nat, name: string, def: IndexDef, top: nat)
    requires StoreInv(s, top) && i > top
    ensures RollStore(WithIndex(s, i, name, def), IndexCreatedUndo(sid, i)) == s
  {
    hide IndexKeys, AllEntries, IndexInv;
    var t := WithIndex(s, i, name, def);
    var b := RollStore(t, IndexCreatedUndo(sid, i));
    assert i !in s.indexes;
    assert b.indexes == s.indexes;
    forall pk | pk in s.records
      ensures b.records[pk] == s.records[pk]
    {
      assert RecordInv(pk, s.records[pk], top);
      KeysDropped(s.records[pk], i, IndexKeys(s.records[pk].value, def));
    }
    assert b.records == s.records;
  }

  lemma CreateIndexUnwinds(db: Db, sid: nat, name: string, def: IndexDef)
    requires Inv(db.content, db.nextId) && sid in db.content.stores
    requires forall j :: j in db.content.stores[sid].indexes ==> db.content.stores[sid].indexes[j].name != name
    ensures var t := WithIndex(db.content.stores[sid], db.nextId + 1, name, def);
            var d := With(db.content, sid, t);
            Inv(d, db.nextId + 1) &&
            Unwinds(d, [IndexCreatedUndo(sid, db.nextId + 1)], db.content, db.nextId + 1)
  {
    var s, i := db.content.stores[sid], db.nextId + 1;
    WithIndexKeepsInv(s, i, name, def, db.nextId);
    WithIndexUndone(s, sid, i, name, def, db.nextId);
    ChangeStep(db.content, sid, WithIndex(s, i, name, def), IndexCreatedUndo(sid, i), db.nextId, i);
  }

  lemma DropIndexKeepsInv(s: Store, i: nat, top: nat)
    requires StoreInv(s, top) && i in s.indexes
    ensures StoreInv(s.(indexes := s.indexes - {i}), top)
  {
  }

  lemma NameIndexKeepsInv(s: Store, i: nat, to: string, top: nat)
    requires StoreInv(s, top) && i in s.indexes
    requires forall j :: j in s.indexes && s.indexes[j].name == to ==> j == i
    ensures StoreInv(s.(indexes := s.indexes[i := s.indexes[i].(name := to)]), top)
  {
    var t := s.(indexes := s.indexes[i := s.indexes[i].(name := to)]);
    forall j | j in t.indexes
      ensures j <= top && IndexInv(t.records, j, t.indexes[j])
    {
      assert IndexInv(s.records, j, s.indexes[j]);
    }
    forall j, k | j in t.indexes && k in t.indexes && t.indexes[j].name == t.indexes[k].name
      ensures j == k
    {
      assert j == i || t.indexes[j] == s.indexes[j];
      assert k == i || t.indexes[k] == s.indexes[k];
    }
  }

  lemma DeleteIndexUnwinds(db: Db, sid: nat, i: nat)
    requires Inv(db.content, db.nextId) && sid in db.content.stores && i in db.content.stores[sid].indexes
    ensures var s := db.content.stores[sid];
            var d := With(db.content, sid, s.(indexes := s.indexes - {i}));
            Inv(d, db.nextId) && Unwinds(d, [IndexDeletedUndo(sid, i, s.indexes[i])], db.content, db.nextId)
  {
    var s := db.content.stores[sid];
    DropIndexKeepsInv(s, i, db.nextId);
    assert (s.indexes - {i})[i := s.indexes[i]] == s.indexes;
    ChangeStep(db.content, sid, s.(indexes := s.indexes - {i}), IndexDeletedUndo(sid, i, s.indexes[i]),
               db.nextId, db.nextId);
  }

  lemma RenameIndexUnwinds(db: Db, sid: nat, i: nat, to: string)
    requires Inv(db.content, db.nextId) && sid in db.content.stores && i in db.content.stores[sid].indexes
    requires forall j :: j in db.content.stores[sid].indexes && db.content.stores[sid].indexes[j].name == to ==> j == i
    ensures var s := db.content.stores[sid];
            var d := With(db.content, sid, s.(indexes := s.indexes[i := s.indexes[i].(name := to)]));
            Inv(d, db.nextId) && Unwinds(d, [IndexRenamedUndo(sid, i, s.indexes[i].name)], db.content, db.nextId)
  {
    var s := db.content.stores[sid];
    var t := s.(indexes := s.indexes[i := s.indexes[i].(name := to)]);
    NameIndexKeepsInv(s, i, to, db.nextId);
    assert t.indexes[i := t.indexes[i].(name := s.indexes[i].name)] == s.indexes;
    ChangeStep(db.content, sid, t, IndexRenamedUndo(sid, i, s.indexes[i].name), db.nextId, db.nextId);
  }

  lemma DataUndoable(db: Db, store: string, sop: StoreOp)
    requires Inv(db.content, db.nextId)
    ensures Undoable(db, Apply(db, Data(store, sop)))
  {
    var c := db.content;
    NothingUnwinds(c, db.nextId);
    if StoreId(c, store).Some? {
      var sid := StoreId(c, store).value;
      StoreOpUnwinds(c, sid, sop, db.nextId);
      WithKeepsInv(c, sid, StoreEffect(sid, c.stores[sid], sop).store, db.nextId);
    }
  }

  lemma StoreChangeUndoable(db: Db, op: Op)
    requires Inv(db.content, db.nextId) && Legal(db.content, op)
    requires op.CreateStore? || op.DeleteStore? || op.RenameStore? || op.SetVersion?
    ensures Undoable(db, Apply(db, op))
  {
    hide StoreInv, Unwinds;
    var c := db.content;
    NothingUnwinds(c, db.nextId);
    match op {
      case CreateStore(name, keyPath, autoInc) =>
        CreateStoreUnwinds(db, name, keyPath, autoInc);
      case DeleteStore(name) =>
        if StoreId(c, name).Some? {
          DeleteStoreUnwinds(db, StoreId(c, name).value);
        }
      case RenameStore(name, to) =>
        if StoreId(c, name).Some? {
          RenameStoreUnwinds(db, StoreId(c, name).value, to);
        }
      case SetVersion(version) =>
        SchemaStep(c, c.(version := version), VersionUndo(c.version), db.nextId);
    }
  }

  lemma NoIndexNamed(s: Store, name: string)
    requires IndexId(s, name).None?
    ensures forall j :: j in s.indexes ==> s.indexes[j].name != name
  {
  }

  lemma IndexedUndoable(db: Db, sid: nat, name: string, def: IndexDef)
    requires Inv(db.content, db.nextId) && sid in db.content.stores
    requires IndexId(db.content.stores[sid], name).None?
    ensures Undoable(db, CreateIndexResult(db, sid, name, def))
  {
    var s, i := db.content.stores[sid], db.nextId + 1;
    NoIndexNamed(s, name);
    ghost var r := CreateIndexResult(db, sid, name, def);
    ghost var d := With(db.content, sid, WithIndex(s, i, name, def));
    assert r.db.content == d && r.db.nextId == i;
    assert r.log == [IndexCreatedUndo(sid, i)];
    CreateIndexUnwinds(db, sid, name, def);
    assert Inv(r.db.content, r.db.nextId);
    assert Unwinds(r.db.content, r.log, db.content, r.db.nextId);
  }

  lemma CreateIndexUndoable(db: Db, store: string, name: string, def: IndexDef)
    requires Inv(db.content, db.nextId) && Legal(db.content, CreateIndex(store, name, def))
    ensures Undoable(db, Apply(db, CreateIndex(store, name, def)))
  {
    hide StoreInv, Unwinds, CreateIndexResult;
    var c, op := db.content, CreateIndex(store, name, def);
    if StoreId(c, store).Some? {
      IndexedUndoable(db, StoreId(c, store).value, name, def);
      assert Apply(db, op) == CreateIndexResult(db, StoreId(c, store).value, name, def);
    } else {
      assert Apply(db, op) == Result(Db(c, db.nextId + 1), [], Done);
      InvGrows(c, db.nextId, db.nextId + 1);
      NothingUnwinds(c, db.nextId + 1);
    }
  }

  lemma IndexChangeUndoable(db: Db, op: Op)
    requires Inv(db.content, db.nextId) && Legal(db.content, op)
    requires op.DeleteIndex? || op.RenameIndex?
    ensures Undoable(db, Apply(db, op))
  {
    var c := db.content;
    NothingUnwinds(c, db.nextId);
    if StoreId(c, op.store).Some? && IndexId(c.stores[StoreId(c, op.store).value], op.name).Some? {
      var sid := StoreId(c, op.store).value;
      var i := IndexId(c.stores[sid], op.name).value;
      if op.DeleteIndex? {
        DeleteIndexUnwinds(db, sid, i);
      } else {
        RenameIndexUnwinds(db, sid, i, op.to);
      }
    }
  }

  /** Every operation can be undone from its log. */
  lemma OpUndoable(db: Db, op: Op)
    requires Inv(db.content, db.nextId) && Legal(db.content, op)
    ensures Undoable(db, Apply(db, op))
  {
    if op.Data? {
      DataUndoable(db, op.store, op.op);
    } else if op.CreateIndex? {
      CreateIndexUndoable(db, op.store, op.name, op.def);
    } else if op.DeleteIndex? || op.RenameIndex? {
      IndexChangeUndoable(db, op);
    } else {
      StoreChangeUndoable(db, op);
    }
  }

  // ---- whole transactions -----------------------------------------------------------------

  ghost predicate LegalRun(db: Db, ops: seq<Op>)
    decreases |ops|
  {
    ops == [] ||
    (LegalRun(db, ops[..|ops| - 1]) && Legal(Run(db, ops[..|ops| - 1]).db.content, ops[|ops| - 1]))
  }

  /** The operations of one transaction in order, their logs appended. */
  ghost function Run(db: Db, ops: seq<Op>): Result
    decreases |ops|
  {
    if ops == [] then Result(db, [], Done)
    else
      var before := Run(db, ops[..|ops| - 1]);
      var r := Apply(before.db, ops[|ops| - 1]);
      Result(r.db, before.log + r.log, r.outcome)
  }

  /** Rollback is exact: whatever data and schema operations a transaction ran,
      its log played backwards restores the content it began with, and the
      index invariant holds after every operation and every undo entry. */
  lemma {:induction false} RollbackIsExact(db: Db, ops: seq<Op>)
    requires Inv(db.content, db.nextId) && LegalRun(db, ops)
    ensures Undoable(db, Run(db, ops))
    ensures RollAll(Run(db, ops).db.content, Run(db, ops).log) == db.content
    decreases |ops|
  {
    var r := Run(db, ops);
    if ops == [] {
      NothingUnwinds(db.content, db.nextId);
    } else {
      var before := Run(db, ops[..|ops| - 1]);
      var step := Apply(before.db, ops[|ops| - 1]);
      RollbackIsExact(db, ops[..|ops| - 1]);
      OpUndoable(before.db, ops[|ops| - 1]);
      UnwindsChain(r.db.content, step.log, before.db.content, before.log, db.content, before.db.nextId, r.db.nextId);
    }
    UnwindsReaches(r.db.content, r.log, db.content, r.db.nextId);
  }
}
