/** The store vector of a database: operations by name and rollback by id, each
    against its specification. */
module StoreVectors {
  import opened Options
  import opened Ranges
  import opened Values
  import opened Engine
  import opened Operations
  import opened Schema
  import opened Slots
  import opened StoreMethods

  ghost predicate WellFormed(stores: seq<Slot<StoreRow>>) {
    Distinct(stores) && forall i :: 0 <= i < |stores| ==> Distinct(stores[i].body.indexes)
  }

  ghost function StoresOf(stores: seq<Slot<StoreRow>>): map<nat, Store>
    requires WellFormed(stores)
  {
    map i | 0 <= i < |stores| :: stores[i].id := StoreOf(stores[i].body)
  }

  lemma StoresById(stores: seq<Slot<StoreRow>>)
    requires WellFormed(stores)
    ensures StoresOf(stores).Keys == ById(stores).Keys
    ensures forall i :: 0 <= i < |stores| ==>
              stores[i].id in StoresOf(stores) && StoresOf(stores)[stores[i].id] == StoreOf(stores[i].body)
  {
  }

  /** The specification's stores from the vector's members. */
  lemma SameStores(stores: seq<Slot<StoreRow>>, m: map<nat, Store>)
    requires WellFormed(stores)
    requires forall i :: 0 <= i < |stores| ==> stores[i].id in m && m[stores[i].id] == StoreOf(stores[i].body)
    requires forall k :: k in m ==> exists i :: 0 <= i < |stores| && stores[i].id == k
    ensures StoresOf(stores) == m
  {
    var n := StoresOf(stores);
    forall k
      ensures (k in m <==> k in n) && (k in m ==> m[k] == n[k])
    {
      if k in m || k in n {
        var i :| 0 <= i < |stores| && stores[i].id == k;
      }
    }
  }

  lemma SetStore(stores: seq<Slot<StoreRow>>, p: nat, s: StoreRow)
    requires WellFormed(stores) && p < |stores| && Distinct(s.indexes)
    ensures WellFormed(stores[p := Slot(stores[p].id, s)])
    ensures StoresOf(stores[p := Slot(stores[p].id, s)]) == StoresOf(stores)[stores[p].id := StoreOf(s)]
  {
    var t, m := stores[p := Slot(stores[p].id, s)], StoresOf(stores)[stores[p].id := StoreOf(s)];
    assert Distinct(t);
    forall i | 0 <= i < |t|
      ensures t[i].id in m && m[t[i].id] == StoreOf(t[i].body)
    {
      assert t[i].id == stores[i].id;
    }
    forall k | k in m
      ensures exists i :: 0 <= i < |t| && t[i].id == k
    {
      var i :| 0 <= i < |stores| && stores[i].id == k;
      assert t[i].id == k;
    }
    SameStores(t, m);
  }

  lemma PushStore(stores: seq<Slot<StoreRow>>, id: nat, s: StoreRow)
    requires WellFormed(stores) && id !in StoresOf(stores) && Distinct(s.indexes)
    ensures WellFormed(stores + [Slot(id, s)])
    ensures StoresOf(stores + [Slot(id, s)]) == StoresOf(stores)[id := StoreOf(s)]
  {
    var t, m := stores + [Slot(id, s)], StoresOf(stores)[id := StoreOf(s)];
    assert forall i :: 0 <= i < |stores| ==> stores[i].id in StoresOf(stores);
    assert Distinct(t);
    forall k | k in m
      ensures exists i :: 0 <= i < |t| && t[i].id == k
    {
      if k == id {
        assert t[|stores|].id == k;
      } else {
        var i :| 0 <= i < |stores| && stores[i].id == k;
        assert t[i].id == k;
      }
    }
    SameStores(t, m);
  }

  lemma RemoveStore(stores: seq<Slot<StoreRow>>, p: nat)
    requires WellFormed(stores) && p < |stores|
    ensures WellFormed(Without(stores, p))
    ensures StoresOf(Without(stores, p)) == StoresOf(stores) - {stores[p].id}
  {
    var t, m := Without(stores, p), StoresOf(stores) - {stores[p].id};
    RemoveSlot(stores, p);
    StoresById(stores);
    forall j | 0 <= j < |t|
      ensures Distinct(t[j].body.indexes) && t[j].id in m && m[t[j].id] == StoreOf(t[j].body)
    {
      var o := if j < p then j else j + 1;
      assert t[j] == stores[o] && o != p;
    }
    KeptStores(stores, p);
    SameStores(t, m);
  }

  lemma KeptStores(stores: seq<Slot<StoreRow>>, p: nat)
    requires WellFormed(stores) && p < |stores|
    ensures forall k :: k in StoresOf(stores) - {stores[p].id} ==>
              exists i :: 0 <= i < |Without(stores, p)| && Without(stores, p)[i].id == k
  {
    var t := Without(stores, p);
    RemoveSlot(stores, p);
    StoresById(stores);
    forall k | k in StoresOf(stores) - {stores[p].id}
      ensures exists i :: 0 <= i < |t| && t[i].id == k
    {
      assert k in ById(t);
    }
  }

  // ---- by name ------------------------------------------------------------------------

  /** `iter().find(|s| s.name == name)` */
  method FindStoreName(version: nat, stores: seq<Slot<StoreRow>>, name: string) returns (pos: Option<nat>)
    requires WellFormed(stores)
    requires forall i, j :: 0 <= i < j < |stores| ==> stores[i].body.name != stores[j].body.name
    ensures var c := Content(version, StoresOf(stores));
            match pos
            case None => StoreId(c, name) == None
            case Some(p) => p < |stores| && StoreId(c, name) == Some(stores[p].id)
  {
    for i := 0 to |stores|
      invariant forall j :: 0 <= j < i ==> stores[j].body.name != name
    {
      if stores[i].body.name == name {
        StoreAt(version, stores, i);
        return Some(i);
      }
    }
    NoStore(version, stores, name);
    return None;
  }

  lemma StoreAt(version: nat, stores: seq<Slot<StoreRow>>, p: nat)
    requires WellFormed(stores) && p < |stores|
    requires forall i, j :: 0 <= i < j < |stores| ==> stores[i].body.name != stores[j].body.name
    ensures StoreId(Content(version, StoresOf(stores)), stores[p].body.name) == Some(stores[p].id)
  {
    var c := Content(version, StoresOf(stores));
    assert c.stores[stores[p].id].name == stores[p].body.name;
    var id := StoreId(c, stores[p].body.name).value;
    var j :| 0 <= j < |stores| && stores[j].id == id;
    assert stores[j].body.name == stores[p].body.name;
  }

  lemma NoIndex(s: StoreRow, name: string)
    requires Distinct(s.indexes) && forall j :: 0 <= j < |s.indexes| ==> s.indexes[j].body.name != name
    ensures IndexId(StoreOf(s), name) == None
  {
  }

  lemma IndexAt(s: StoreRow, p: nat)
    requires Distinct(s.indexes) && p < |s.indexes| && IndexNamesDiffer(s)
    ensures IndexId(StoreOf(s), s.indexes[p].body.name) == Some(s.indexes[p].id)
  {
    hide IndexId, ById;
    HasId(s.indexes, p);
    var t := StoreOf(s);
    assert t.indexes[s.indexes[p].id].name == s.indexes[p].body.name;
    var j := IdAt(s.indexes, IndexId(t, s.indexes[p].body.name).value);
    HasId(s.indexes, j);
  }

  lemma NoStore(version: nat, stores: seq<Slot<StoreRow>>, name: string)
    requires WellFormed(stores) && forall j :: 0 <= j < |stores| ==> stores[j].body.name != name
    ensures StoreId(Content(version, StoresOf(stores)), name) == None
  {
  }

  method FindIndexName(s: StoreRow, name: string) returns (pos: Option<nat>)
    requires Distinct(s.indexes) && IndexNamesDiffer(s)
    ensures match pos
            case None => IndexId(StoreOf(s), name) == None
            case Some(p) => p < |s.indexes| && IndexId(StoreOf(s), name) == Some(s.indexes[p].id)
  {
    for i := 0 to |s.indexes|
      invariant forall j :: 0 <= j < i ==> s.indexes[j].body.name != name
    {
      if s.indexes[i].body.name == name {
        IndexAt(s, i);
        return Some(i);
      }
    }
    NoIndex(s, name);
    return None;
  }

  /** The invariant as the vectors have it: unique names, valid stores, ids
      already given out. */
  ghost predicate Tidy(stores: seq<Slot<StoreRow>>, top: nat)
    requires WellFormed(stores)
  {
    (forall i, j :: 0 <= i < j < |stores| ==> stores[i].body.name != stores[j].body.name) &&
    forall p :: 0 <= p < |stores| ==>
      stores[p].id <= top && IndexNamesDiffer(stores[p].body) && StoreInv(StoreOf(stores[p].body), top)
  }

  lemma InvIsTidy(version: nat, stores: seq<Slot<StoreRow>>, top: nat)
    requires WellFormed(stores) && Inv(Content(version, StoresOf(stores)), top)
    ensures Tidy(stores, top)
  {
    var c := Content(version, StoresOf(stores));
    forall i, j | 0 <= i < j < |stores|
      ensures stores[i].body.name != stores[j].body.name
    {
      assert c.stores[stores[i].id].name == stores[i].body.name && c.stores[stores[j].id].name == stores[j].body.name;
    }
    forall p | 0 <= p < |stores|
      ensures stores[p].id <= top && StoreInv(StoreOf(stores[p].body), top) && IndexNamesDiffer(stores[p].body)
    {
      assert c.stores[stores[p].id] == StoreOf(stores[p].body);
      RowNames(stores[p].body, top);
    }
  }

  ghost predicate IndexNamesDiffer(s: StoreRow) {
    forall i, j :: 0 <= i < j < |s.indexes| ==> s.indexes[i].body.name != s.indexes[j].body.name
  }

  lemma RowNames(s: StoreRow, top: nat)
    requires Distinct(s.indexes) && StoreInv(StoreOf(s), top)
    ensures IndexNamesDiffer(s)
  {
    forall i, j | 0 <= i < j < |s.indexes|
      ensures s.indexes[i].body.name != s.indexes[j].body.name
    {
      HasId(s.indexes, i);
      HasId(s.indexes, j);
    }
  }

  // ---- rollback -------------------------------------------------------------------------

  /** A log whose entries can be played back in turn. */
  ghost predicate Rollable(c: Content, log: seq<Undo>)
    decreases |log|
  {
    log == [] ||
    (Pushable(c, log[|log| - 1]) && Rollable(Rollback(c, log[|log| - 1]), log[..|log| - 1]))
  }

  lemma {:induction false} UnwindsIsRollable(c: Content, log: seq<Undo>, origin: Content, top: nat)
    requires Unwinds(c, log, origin, top)
    ensures Rollable(c, log)
    decreases |log|
  {
    if log != [] {
      UnwindsIsRollable(Rollback(c, log[|log| - 1]), log[..|log| - 1], origin, top);
    }
  }

  lemma {:induction false} DataLogIsRollable(c: Content, log: seq<Undo>)
    requires forall i :: 0 <= i < |log| ==> !log[i].StoreDeletedUndo? && !log[i].IndexDeletedUndo?
    ensures Rollable(c, log)
    decreases |log|
  {
    if log != [] {
      DataLogIsRollable(Rollback(c, log[|log| - 1]), log[..|log| - 1]);
    }
  }

  /** A deleted store as a row again. */
  method RowOf(s: Store) returns (r: StoreRow)
    ensures Distinct(r.indexes) && StoreOf(r) == s
  {
    var indexes: seq<Slot<Index>> := [];
    var todo := s.indexes.Keys;
    ghost var done: map<nat, Index> := map[];
    while todo != {}
      invariant todo <= s.indexes.Keys && Distinct(indexes) && ById(indexes) == done
      invariant done == map i | i in s.indexes && i !in todo :: s.indexes[i]
    {
      var i :| i in todo;
      PushSlot(indexes, i, s.indexes[i]);
      indexes := indexes + [Slot(i, s.indexes[i])];
      todo := todo - {i};
      done := done[i := s.indexes[i]];
    }
    assert done == s.indexes;
    r := StoreRow(s.name, s.keyPath, s.autoInc, s.next, s.records, indexes);
  }

  /** `stores.retain(|s| s.id != id)` */
  method RetainStores(stores: seq<Slot<StoreRow>>, id: nat) returns (r: seq<Slot<StoreRow>>)
    requires WellFormed(stores)
    ensures WellFormed(r) && StoresOf(r) == StoresOf(stores) - {id}
  {
    r := Retain(stores, id);
    forall i | 0 <= i < |r|
      ensures Distinct(r[i].body.indexes)
    {
      assert r[i] in r && r[i] in stores;
      var j :| 0 <= j < |stores| && stores[j] == r[i];
    }
    ghost var m := StoresOf(stores) - {id};
    forall i | 0 <= i < |r|
      ensures r[i].id in m && m[r[i].id] == StoreOf(r[i].body)
    {
      assert r[i] in r && r[i] in stores;
      ghost var j :| 0 <= j < |stores| && stores[j] == r[i];
      HasId(r, i);
    }
    forall k | k in m
      ensures exists i :: 0 <= i < |r| && r[i].id == k
    {
      StoresById(stores);
      assert k in ById(r);
    }
    SameStores(r, m);
  }

  /** `rollback`: one undo entry. A deleted store comes back at the end of the
      vector. */
  method RollbackEntry(version: nat, stores: seq<Slot<StoreRow>>, u: Undo) returns (v: nat, r: seq<Slot<StoreRow>>)
    requires WellFormed(stores) && Pushable(Content(version, StoresOf(stores)), u)
    ensures WellFormed(r) && Content(v, StoresOf(r)) == Rollback(Content(version, StoresOf(stores)), u)
  {
    v, r := version, stores;
    match u {
      case VersionUndo(old_version) =>
        v := old_version;
      case StoreCreatedUndo(id) =>
        r := RetainStores(stores, id);
      case StoreDeletedUndo(id, body) =>
        var row := RowOf(body);
        PushStore(stores, id, row);
        r := stores + [Slot(id, row)];
      case _ =>
        var pos := FindId(stores, u.store);
        if pos.Some? {
          var p := pos.value;
          StoresById(stores);
          var row := RollRow(stores[p].body, u);
          SetStore(stores, p, row);
          r := stores[p := Slot(stores[p].id, row)];
        } else {
          NoId(stores, u.store);
          StoresById(stores);
        }
    }
  }

  /** The log played back, last entry first. */
  method RollbackLog(version: nat, stores: seq<Slot<StoreRow>>, log: seq<Undo>) returns (v: nat, r: seq<Slot<StoreRow>>)
    requires WellFormed(stores) && Rollable(Content(version, StoresOf(stores)), log)
    ensures WellFormed(r) && Content(v, StoresOf(r)) == RollAll(Content(version, StoresOf(stores)), log)
  {
    v, r := version, stores;
    var i := |log|;
    ghost var left := log;
    assert log == log[..i];
    while i > 0
      invariant 0 <= i <= |log| && left == log[..i]
      invariant WellFormed(r) && Rollable(Content(v, StoresOf(r)), left)
      invariant RollAll(Content(v, StoresOf(r)), left) == RollAll(Content(version, StoresOf(stores)), log)
    {
      i := i - 1;
      v, r := RollbackEntry(v, r, log[i]);
      left := left[..i];
    }
  }

  // ---- operations by name -----------------------------------------------------------------

  /** A data operation on the store of a name. */
  method DataOp(version: nat, stores: seq<Slot<StoreRow>>, nextId: nat, name: string, op: StoreOp)
    returns (r: seq<Slot<StoreRow>>, log: seq<Undo>, outcome: Outcome)
    requires WellFormed(stores) && Tidy(stores, nextId)
    requires op.Delete? ==> !Panics(op.range)
    ensures WellFormed(r)
    ensures Result(Db(Content(version, StoresOf(r)), nextId), log, outcome) ==
            DataResult(Db(Content(version, StoresOf(stores)), nextId), name, op)
  {
    var pos := FindStoreName(version, stores, name);
    if pos.None? {
      return stores, [], Missing;
    }
    r, log, outcome := DataAt(version, stores, pos.value, op);
  }

  method DataAt(version: nat, stores: seq<Slot<StoreRow>>, p: nat, op: StoreOp)
    returns (r: seq<Slot<StoreRow>>, log: seq<Undo>, outcome: Outcome)
    requires WellFormed(stores) && p < |stores|
    requires op.Delete? ==> !Panics(op.range)
    ensures WellFormed(r)
    ensures var c := Content(version, StoresOf(stores));
            var e := StoreEffect(stores[p].id, StoreOf(stores[p].body), op);
            stores[p].id in c.stores && c.stores[stores[p].id] == StoreOf(stores[p].body) &&
            Content(version, StoresOf(r)) == With(c, stores[p].id, e.store) && log == e.log && outcome == e.outcome
  {
    StoresById(stores);
    var row;
    row, log, outcome := RowOp(stores[p].id, stores[p].body, op);
    SetStore(stores, p, row);
    r := stores[p := Slot(stores[p].id, row)];
  }

  method RowOp(sid: nat, s: StoreRow, op: StoreOp) returns (r: StoreRow, log: seq<Undo>, outcome: Outcome)
    requires Distinct(s.indexes) && (op.Delete? ==> !Panics(op.range))
    ensures Distinct(r.indexes) && Effect(StoreOf(r), log, outcome) == StoreEffect(sid, StoreOf(s), op)
  {
    outcome := Done;
    match op {
      case Put(prep, noOverwrite) =>
        r, log, outcome := PutRow(sid, s, prep, noOverwrite);
      case Delete(range) =>
        r, log := DeleteRow(sid, s, range);
      case Clear =>
        r, log := ClearRow(sid, s);
    }
  }

  /** The undo entry of a deleted store: the store itself. */
  function DeletedStore(slot: Slot<StoreRow>): Undo
    requires Distinct(slot.body.indexes)
  {
    var s := slot.body;
    StoreDeletedUndo(slot.id, Store(s.name, s.keyPath, s.autoInc, s.next, s.records, ById(s.indexes)))
  }

  lemma EmptyRow(name: string, keyPath: KeyPath, autoInc: bool)
    ensures StoreOf(StoreRow(name, keyPath, autoInc, 1, map[], [])) == Store(name, keyPath, autoInc, 1, map[], map[])
  {
  }

  method CreateStoreRow(version: nat, stores: seq<Slot<StoreRow>>, nextId: nat, name: string, keyPath: KeyPath, autoInc: bool)
    returns (r: seq<Slot<StoreRow>>, next: nat, log: seq<Undo>)
    requires WellFormed(stores) && Tidy(stores, nextId)
    ensures WellFormed(r)
    ensures Result(Db(Content(version, StoresOf(r)), next), log, Done) ==
            CreateStoreResult(Db(Content(version, StoresOf(stores)), nextId), name, keyPath, autoInc)
  {
    hide StoreInv, IndexNamesDiffer, StoreOf;
    next := nextId + 1;
    StoresById(stores);
    var row := StoreRow(name, keyPath, autoInc, 1, map[], []);
    EmptyRow(name, keyPath, autoInc);
    PushStore(stores, next, row);
    r := stores + [Slot(next, row)];
    log := [StoreCreatedUndo(next)];
  }

  method DeleteStoreRow(version: nat, stores: seq<Slot<StoreRow>>, nextId: nat, name: string)
    returns (r: seq<Slot<StoreRow>>, log: seq<Undo>)
    requires WellFormed(stores) && Tidy(stores, nextId)
    ensures WellFormed(r)
    ensures Result(Db(Content(version, StoresOf(r)), nextId), log, Done) ==
            DeleteStoreResult(Db(Content(version, StoresOf(stores)), nextId), name)
  {
    r, log := stores, [];
    var pos := FindStoreName(version, stores, name);
    if pos.Some? {
      StoresById(stores);
      RemoveStore(stores, pos.value);
      log := [DeletedStore(stores[pos.value])];
      r := Without(stores, pos.value);
    }
  }

  method RenameStoreRow(version: nat, stores: seq<Slot<StoreRow>>, nextId: nat, name: string, to: string)
    returns (r: seq<Slot<StoreRow>>, log: seq<Undo>)
    requires WellFormed(stores) && Tidy(stores, nextId)
    ensures WellFormed(r)
    ensures Result(Db(Content(version, StoresOf(r)), nextId), log, Done) ==
            RenameStoreResult(Db(Content(version, StoresOf(stores)), nextId), name, to)
  {
    r, log := stores, [];
    var pos := FindStoreName(version, stores, name);
    if pos.Some? {
      r, log := RenameAt(version, stores, pos.value, to);
    }
  }

  method RenameAt(version: nat, stores: seq<Slot<StoreRow>>, p: nat, to: string)
    returns (r: seq<Slot<StoreRow>>, log: seq<Undo>)
    requires WellFormed(stores) && p < |stores|
    ensures WellFormed(r)
    ensures var c, sid := Content(version, StoresOf(stores)), stores[p].id;
            sid in c.stores && Content(version, StoresOf(r)) == With(c, sid, c.stores[sid].(name := to)) &&
            log == [StoreRenamedUndo(sid, c.stores[sid].name)]
  {
    var slot := stores[p];
    StoresById(stores);
    SetStore(stores, p, slot.body.(name := to));
    log := [StoreRenamedUndo(slot.id, slot.body.name)];
    r := stores[p := Slot(slot.id, slot.body.(name := to))];
  }

  method CreateIndexRow(version: nat, stores: seq<Slot<StoreRow>>, nextId: nat, store: string, name: string, def: IndexDef)
    returns (r: seq<Slot<StoreRow>>, log: seq<Undo>, outcome: Outcome)
    requires WellFormed(stores) && Tidy(stores, nextId)
    ensures WellFormed(r)
    ensures Result(Db(Content(version, StoresOf(r)), nextId + 1), log, outcome) ==
            IndexResult(Db(Content(version, StoresOf(stores)), nextId), CreateIndex(store, name, def))
  {
    r, log, outcome := stores, [], Done;
    var pos := FindStoreName(version, stores, store);
    if pos.Some? {
      r, log, outcome := CreateIndexAt(version, stores, nextId, pos.value, name, def);
    }
  }

  method CreateIndexAt(version: nat, stores: seq<Slot<StoreRow>>, nextId: nat, p: nat, name: string, def: IndexDef)
    returns (r: seq<Slot<StoreRow>>, log: seq<Undo>, outcome: Outcome)
    requires WellFormed(stores) && p < |stores| && StoreInv(StoreOf(stores[p].body), nextId)
    ensures WellFormed(r) && stores[p].id in StoresOf(stores)
    ensures Result(Db(Content(version, StoresOf(r)), nextId + 1), log, outcome) ==
            CreateIndexResult(Db(Content(version, StoresOf(stores)), nextId), stores[p].id, name, def)
  {
    FreshIndexId(stores[p].body, nextId);
    var row;
    row, outcome := IndexRow(nextId + 1, stores[p].body, name, def);
    log := [IndexCreatedUndo(stores[p].id, nextId + 1)];
    r := stores[p := Slot(stores[p].id, row)];
    IndexedStores(version, stores, nextId, p, name, def, row);
  }

  lemma IndexedStores(version: nat, stores: seq<Slot<StoreRow>>, nextId: nat, p: nat, name: string, def: IndexDef, row: StoreRow)
    requires WellFormed(stores) && p < |stores| && Distinct(row.indexes)
    requires StoreOf(row) == WithIndex(StoreOf(stores[p].body), nextId + 1, name, def)
    ensures var c, sid, r := Content(version, StoresOf(stores)), stores[p].id, stores[p := Slot(stores[p].id, row)];
            WellFormed(r) && sid in c.stores && c.stores[sid] == StoreOf(stores[p].body) &&
            Content(version, StoresOf(r)) == With(c, sid, WithIndex(c.stores[sid], nextId + 1, name, def))
  {
    StoresById(stores);
    SetStore(stores, p, row);
  }

  method ChangeIndexRow(version: nat, stores: seq<Slot<StoreRow>>, nextId: nat, op: Op)
    returns (r: seq<Slot<StoreRow>>, log: seq<Undo>)
    requires WellFormed(stores) && Tidy(stores, nextId)
    requires op.DeleteIndex? || op.RenameIndex?
    ensures WellFormed(r)
    ensures Result(Db(Content(version, StoresOf(r)), nextId), log, Done) ==
            IndexResult(Db(Content(version, StoresOf(stores)), nextId), op)
  {
    r, log := stores, [];
    var pos := FindStoreName(version, stores, op.store);
    if pos.Some? {
      r, log := ChangeIndexAt(version, stores, nextId, pos.value, op);
    }
  }

  method ChangeIndexAt(version: nat, stores: seq<Slot<StoreRow>>, nextId: nat, p: nat, op: Op)
    returns (r: seq<Slot<StoreRow>>, log: seq<Undo>)
    requires WellFormed(stores) && p < |stores| && IndexNamesDiffer(stores[p].body)
    requires op.DeleteIndex? || op.RenameIndex?
    ensures WellFormed(r) && stores[p].id in StoresOf(stores)
    ensures var db := Db(Content(version, StoresOf(stores)), nextId);
            Result(Db(Content(version, StoresOf(r)), nextId), log, Done) ==
            if op.DeleteIndex? then DeleteIndexResult(db, stores[p].id, op.name)
            else RenameIndexResult(db, stores[p].id, op.name, op.to)
  {
    var slot := stores[p];
    StoresById(stores);
    var row;
    row, log := IndexGoneOrNamed(slot.id, slot.body, op);
    if log == [] {
      return stores, log;
    }
    SetStore(stores, p, row);
    r := stores[p := Slot(slot.id, row)];
  }

  lemma FreshIndexId(s: StoreRow, top: nat)
    requires Distinct(s.indexes) && StoreInv(StoreOf(s), top)
    ensures top + 1 !in ById(s.indexes) && forall pk :: pk in s.records ==> Keys.IsEncoding(pk)
  {
    forall pk | pk in s.records
      ensures Keys.IsEncoding(pk)
    {
      assert RecordInv(pk, StoreOf(s).records[pk], top);
    }
  }

  method IndexGoneOrNamed(sid: nat, s: StoreRow, op: Op) returns (r: StoreRow, log: seq<Undo>)
    requires Distinct(s.indexes) && IndexNamesDiffer(s) && (op.DeleteIndex? || op.RenameIndex?)
    ensures Distinct(r.indexes)
    ensures var t := StoreOf(s);
            match IndexId(t, op.name)
            case None => r == s && log == []
            case Some(i) =>
              if op.DeleteIndex? then
                StoreOf(r) == t.(indexes := t.indexes - {i}) && log == [IndexDeletedUndo(sid, i, t.indexes[i])]
              else
                StoreOf(r) == t.(indexes := t.indexes[i := t.indexes[i].(name := op.to)]) &&
                log == [IndexRenamedUndo(sid, i, t.indexes[i].name)]
  {
    r, log := s, [];
    var pos := FindIndexName(s, op.name);
    if pos.Some? {
      var p := pos.value;
      var ix := s.indexes[p];
      HasId(s.indexes, p);
      if op.DeleteIndex? {
        RemoveSlot(s.indexes, p);
        r := s.(indexes := Without(s.indexes, p));
        log := [IndexDeletedUndo(sid, ix.id, ix.body)];
      } else {
        SetSlot(s.indexes, p, ix.body.(name := op.to));
        r := s.(indexes := s.indexes[p := Slot(ix.id, ix.body.(name := op.to))]);
        log := [IndexRenamedUndo(sid, ix.id, ix.body.name)];
      }
    }
  }

  /** `schema`: a version-change operation. */
  method SchemaOp(version: nat, stores: seq<Slot<StoreRow>>, nextId: nat, op: Op)
    returns (v: nat, r: seq<Slot<StoreRow>>, next: nat, log: seq<Undo>, outcome: Outcome)
    requires WellFormed(stores) && Tidy(stores, nextId) && !op.Data?
    ensures WellFormed(r)
    ensures Result(Db(Content(v, StoresOf(r)), next), log, outcome) ==
            Apply(Db(Content(version, StoresOf(stores)), nextId), op)
  {
    hide Tidy, CreateStoreResult, DeleteStoreResult, RenameStoreResult, IndexResult;
    v, r, next, log, outcome := version, stores, nextId, [], Done;
    if op.SetVersion? {
      log := [VersionUndo(version)];
      v := op.version;
    } else if op.CreateStore? {
      r, next, log := CreateStoreRow(version, stores, nextId, op.name, op.keyPath, op.autoInc);
    } else if op.DeleteStore? {
      r, log := DeleteStoreRow(version, stores, nextId, op.name);
    } else if op.RenameStore? {
      r, log := RenameStoreRow(version, stores, nextId, op.name, op.to);
    } else if op.CreateIndex? {
      r, log, outcome := CreateIndexRow(version, stores, nextId, op.store, op.name, op.def);
      next := nextId + 1;
    } else {
      r, log := ChangeIndexRow(version, stores, nextId, op);
    }
  }
}
