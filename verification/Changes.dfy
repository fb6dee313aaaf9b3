/** What deletions and schema changes do to the standard's database, name by name,
    and which of them undo one another. */
module Changes {
  import opened Options
  import opened Keys
  import opened Ranges
  import opened KeyOrder
  import opened Values
  import opened Operations
  import opened Schema
  import opened Spec
  import opened Transactions

  // ---- deleting records ----------------------------------------------------------------------

  /** Deleting a range takes the records with a key in it and leaves every other one,
      with the store's definition and its generator. */
  lemma DeleteTakesRange(a: AStore, range: Range, k: Key)
    ensures var b := AStoreOp(a, Delete(range)).store;
            b == a.(records := b.records) && b.records.Keys <= a.records.Keys &&
            (Encode(k) in b.records <==> Encode(k) in a.records && !Contains(range, Encode(k))) &&
            (Encode(k) in b.records ==> b.records[Encode(k)] == a.records[Encode(k)])
  {
    hide Encode, Contains;
  }

  /** The same for a range between two keys, in the order of keys. */
  lemma DeleteBetween(a: AStore, lo: Key, hi: Key, k: Key)
    ensures var b := AStoreOp(a, Delete(Range(Included(Encode(lo)), Excluded(Encode(hi))))).store;
            Encode(k) in b.records <==> Encode(k) in a.records && (Compare(k, lo) == Lt || Compare(k, hi) != Lt)
  {
    hide Encode, Compare;
    var range := Range(Included(Encode(lo)), Excluded(Encode(hi)));
    DeleteTakesRange(a, range, k);
    LowerByKeys(lo, k);
    UpperByKeys(hi, k);
    OrderTheorem(k, lo);
    OrderTheorem(lo, k);
  }

  lemma ClearTakesAll(a: AStore)
    ensures AStoreOp(a, Clear).store == a.(records := map[])
  {
  }

  // ---- stores by name -----------------------------------------------------------------------

  /** What a schema change does to the store of every name. */
  lemma StoresByName(a: ADb, op: Op, n: string)
    requires op.SetVersion? || op.CreateStore? || op.DeleteStore? || op.RenameStore?
    ensures var b := AApply(a, op).db;
            b.version == (if op.SetVersion? then op.version else a.version) &&
            At(b, n) ==
            if op.CreateStore? && n == op.name then Some(AStore(op.keyPath, op.autoInc, 1, map[], map[]))
            else if op.DeleteStore? && n == op.name then None
            else if op.RenameStore? && op.name in a.stores && n == op.to then At(a, op.name)
            else if op.RenameStore? && op.name in a.stores && n == op.name then None
            else At(a, n)
  {
  }

  /** The definition of an index by name. */
  ghost function IndexAt(a: ADb, m: string, n: string): Option<IndexDef> {
    if m in a.stores && n in a.stores[m].indexes then Some(a.stores[m].indexes[n]) else None
  }

  /** What an index change does to the index of every name, and that it leaves the
      records and all other stores. */
  lemma IndexesByName(a: ADb, op: Op, m: string, n: string)
    requires op.CreateIndex? || op.DeleteIndex? || op.RenameIndex?
    ensures var b := AApply(a, op).db;
            b.version == a.version && (m != op.store ==> At(b, m) == At(a, m)) &&
            (m in b.stores <==> m in a.stores) && (m in a.stores ==> b.stores[m] == a.stores[m].(indexes := b.stores[m].indexes)) &&
            IndexAt(b, m, n) ==
            if m != op.store || m !in a.stores then IndexAt(a, m, n)
            else if op.CreateIndex? && n == op.name then Some(op.def)
            else if op.DeleteIndex? && n == op.name then None
            else if op.RenameIndex? && op.name in a.stores[m].indexes && n == op.to then IndexAt(a, m, op.name)
            else if op.RenameIndex? && op.name in a.stores[m].indexes && n == op.name then None
            else IndexAt(a, m, n)
  {
  }

  // ---- changes that undo one another ---------------------------------------------------------

  lemma CreateThenDelete(a: ADb, name: string, keyPath: KeyPath, autoInc: bool)
    requires name !in a.stores
    ensures AApply(AApply(a, CreateStore(name, keyPath, autoInc)).db, DeleteStore(name)).db == a
  {
    var b := AApply(AApply(a, CreateStore(name, keyPath, autoInc)).db, DeleteStore(name)).db;
    assert b.stores == a.stores;
  }

  lemma RenameBack(a: ADb, name: string, to: string)
    requires name in a.stores && (to == name || to !in a.stores)
    ensures AApply(AApply(a, RenameStore(name, to)).db, RenameStore(to, name)).db == a
  {
    var b := AApply(AApply(a, RenameStore(name, to)).db, RenameStore(to, name)).db;
    assert b.stores == a.stores;
  }

  lemma CreateThenDeleteIndex(a: ADb, m: string, name: string, def: IndexDef)
    requires m in a.stores && name !in a.stores[m].indexes
    ensures AApply(AApply(a, CreateIndex(m, name, def)).db, DeleteIndex(m, name)).db == a
  {
    var b := AApply(AApply(a, CreateIndex(m, name, def)).db, DeleteIndex(m, name)).db;
    assert b.stores[m].indexes == a.stores[m].indexes;
    assert b.stores == a.stores;
  }

  lemma RenameIndexBack(a: ADb, m: string, name: string, to: string)
    requires m in a.stores && name in a.stores[m].indexes && (to == name || to !in a.stores[m].indexes)
    ensures AApply(AApply(a, RenameIndex(m, name, to)).db, RenameIndex(m, to, name)).db == a
  {
    var b := AApply(AApply(a, RenameIndex(m, name, to)).db, RenameIndex(m, to, name)).db;
    assert b.stores[m].indexes == a.stores[m].indexes;
    assert b.stores == a.stores;
  }
}
