/** The database object: its store vector and transaction table updated in
    place, every method one turn under the locks. */
module Database {
  import opened Keys
  import opened Options
  import opened Ranges
  import opened Engine
  import opened Operations
  import opened Schema
  import opened ByName
  import opened Spec
  import opened Transactions
  import opened Isolation
  import opened Endings
  import opened Guarantees
  import opened UniqueIndexes
  import opened Puts
  import opened Slots
  import opened StoreMethods
  import opened StoreVectors
  import opened Cursors
  import opened Reads
  import opened Found

  datatype ReadResult = Inactive | NoStore | NoIndex | Hits(hits: seq<Hit>)

  datatype CountResult = NoCount | Count(n: nat)

  /** A database nobody has used yet. */
  ghost function Start(): Locked {
    Opened(Db(Content(0, map[]), 0))
  }

  class Database {
    var version: nat
    var stores: seq<Slot<StoreRow>>
    var nextId: nat
    var txs: map<nat, Tx>
    var nextTx: nat
    /** Transactions out of the table whose log some call of `end` still has. */
    ghost var ending: map<nat, Tx>
    ghost var acts: seq<(nat, Op)>
    ghost var aborted: set<nat>
    ghost var history: seq<Turn>

    /** The state as the locks have it. */
    ghost function State(): Locked
      requires WellFormed(stores)
      reads this
    {
      Locked(Db(Content(version, StoresOf(stores)), nextId), txs, ending, nextTx, acts, aborted)
    }

    /** The object is where its history of turns leads, and nobody overtook a
        rollback in it. `OrderlyRunsAreIsolated` and, over the steps these turns
        are, the guarantees speak of every such state. */
    ghost predicate Valid()
      reads this
    {
      WellFormed(stores) && PermittedRun(Start(), history) && Orderly(Start(), history) &&
      State() == AfterTurns(Start(), history)
    }

    constructor ()
      ensures Valid() && history == []
    {
      version, stores, nextId, txs, nextTx := 0, [], 0, map[], 1;
      ending, acts, aborted, history := map[], [], {}, [];
      new;
      assert StoresOf(stores) == map[];
    }

    /** An id, or 0 where the table has a transaction in the way. One whose log is
        still to be played back is not in the table: after overtaking it nothing
        more is promised. */
    method Begin(mode: Mode, scope: seq<string>) returns (id: nat)
      requires Valid()
      modifies this
      ensures WellFormed(stores) && history == old(history) + [Admit(mode, scope)]
      ensures State() == TakeTurn(old(State()), Admit(mode, scope))
      ensures id == if Admits(old(txs), mode, scope) then old(nextTx) else 0
      ensures id == 0 <==>
              exists i :: i in old(txs) &&
                          (old(txs)[i].mode.VersionChange? || mode.VersionChange? ||
                           ((old(txs)[i].mode.ReadWrite? || mode.ReadWrite?) &&
                            exists s :: s in old(txs)[i].stores && s in scope))
      ensures Valid() <==> !OvertakesRollback(old(State()), Admit(mode, scope))
    {
      hide Conflicts, OvertakesRollback, Admits;
      AdmitsExactly(txs, mode, scope);
      NumbersFromOne(history);
      var conflict := AnyConflict(txs, mode, scope);
      Extend(history, Admit(mode, scope));
      history := history + [Admit(mode, scope)];
      if conflict {
        return 0;
      }
      id := nextTx;
      nextTx := nextTx + 1;
      txs := txs[id := Tx(mode, scope, [])];
    }

    /** The first half of `end`: out of the table, with the log when there is
        something to play back. */
    method ReleaseTx(id: nat, commit: bool) returns (tx: Option<Tx>)
      requires Valid()
      modifies this
      ensures Valid() && history == old(history) + [Release(id, commit)]
      ensures State() == TakeTurn(old(State()), Release(id, commit))
      ensures tx == if id in old(txs) && !commit && old(txs)[id].undo != [] then Some(old(txs)[id]) else None
      ensures tx.Some? ==> id in ending && ending[id] == tx.value
    {
      Extend(history, Release(id, commit));
      history := history + [Release(id, commit)];
      if id !in txs {
        return None;
      }
      var found := txs[id];
      txs := txs - {id};
      if commit {
        return None;
      }
      if found.undo == [] {
        aborted := aborted + {id};
        return None;
      }
      ending := ending[id := found];
      return Some(found);
    }

    /** The second half, under the lock of the data. */
    method PlayBackLog(id: nat, tx: Tx)
      requires Valid() && id in ending && ending[id] == tx
      modifies this
      ensures Valid() && history == old(history) + [PlayBack(id)]
      ensures State() == TakeTurn(old(State()), PlayBack(id))
    {
      Extend(history, PlayBack(id));
      PendingLogRolls(history, id);
      history := history + [PlayBack(id)];
      version, stores := RollbackLog(version, stores, tx.undo);
      ending := ending - {id};
      aborted := aborted + {id};
    }

    /** `end` with nothing in between: one step of the transaction system. */
    method End(id: nat, commit: bool)
      requires Valid()
      modifies this
      ensures Valid()
      ensures if id in old(txs) then AsWorld(State()) == Step(old(AsWorld(State())), Event.End(id, commit))
              else State() == old(State())
      ensures history == old(history) + [Release(id, commit)] +
                         if id in old(txs) && !commit && old(txs)[id].undo != [] then [PlayBack(id)] else []
    {
      hide TakeTurn, Step, AsWorld, Valid;
      EndIsStep(this, id, commit);
      var tx := ReleaseTx(id, commit);
      if tx.Some? {
        PlayBackLog(id, tx.value);
      }
    }

    /** `__pt_idbStore` on a live transaction; nothing for a finished one. */
    method StorePut(id: nat, store: string, prep: Prepared, noOverwrite: bool) returns (outcome: Option<Outcome>)
      requires Valid() && Permitted(State(), Operate(id, Data(store, Put(prep, noOverwrite))))
      modifies this
      ensures Valid() && history == old(history) + [Operate(id, Data(store, Put(prep, noOverwrite)))]
      ensures State() == TakeTurn(old(State()), Operate(id, Data(store, Put(prep, noOverwrite))))
      ensures outcome == if id !in old(txs) then None
                         else Some(Apply(old(State()).db, Data(store, Put(prep, noOverwrite))).outcome)
      ensures outcome.Some? && !outcome.value.Stored? ==>
                OnlyGeneratorsMoved(old(State()).db.content, State().db.content)
      ensures outcome.Some? && outcome.value.Stored? ==>
                var was, now := Abs(old(State()).db.content).stores, Abs(State().db.content).stores;
                var k := outcome.value.key;
                store in was && store in now && (Injectable(was[store], prep) ==> StoredAs(now[store], k, prep)) &&
                now[store].records - {Encode(k)} == was[store].records - {Encode(k)}
    {
      hide StoredAs, Injectable, Encode, Abs;
      ReachedInv(this);
      DatabaseStoresValue(State().db, store, prep, noOverwrite);
      PutIsAllOrNothing(State().db, store, prep, noOverwrite);
      outcome := Write(id, store, Put(prep, noOverwrite));
    }

    /** `__pt_idbRemove`: the records in a range, or all of them. */
    method DeleteRecords(id: nat, store: string, range: Range, clear: bool)
      requires Valid() && !Panics(range)
      requires Permitted(State(), Operate(id, Data(store, if clear then Clear else Delete(range))))
      modifies this
      ensures Valid() && history == old(history) + [Operate(id, Data(store, if clear then Clear else Delete(range)))]
      ensures State() == TakeTurn(old(State()), Operate(id, Data(store, if clear then Clear else Delete(range))))
    {
      var outcome := Write(id, store, if clear then Clear else Delete(range));
    }

    method Write(id: nat, store: string, op: StoreOp) returns (outcome: Option<Outcome>)
      requires Valid() && Permitted(State(), Operate(id, Data(store, op)))
      requires op.Delete? ==> !Panics(op.range)
      modifies this
      ensures Valid() && history == old(history) + [Operate(id, Data(store, op))]
      ensures State() == TakeTurn(old(State()), Operate(id, Data(store, op)))
      ensures outcome == if id !in old(txs) then None else Some(Apply(old(State()).db, Data(store, op)).outcome)
    {
      hide PermittedRun, Orderly, AfterTurns, Tidy, Permitted;
      Extend(history, Operate(id, Data(store, op)));
      ReachedIsTidy(this);
      history := history + [Operate(id, Data(store, op))];
      if id !in txs {
        return None;
      }
      var log, result;
      stores, log, result := DataOp(version, stores, nextId, store, op);
      Log(id, Data(store, op), log);
      outcome := Some(result);
    }

    /** The tail of `with_write`: the undo entries join the transaction's log. */
    method Log(id: nat, op: Op, log: seq<Undo>)
      requires id in txs
      modifies this`txs, this`acts
      ensures txs == old(txs)[id := old(txs)[id].(undo := old(txs)[id].undo + log)]
      ensures acts == old(acts) + [(id, op)]
    {
      txs := txs[id := txs[id].(undo := txs[id].undo + log)];
      acts := acts + [(id, op)];
    }

    /** `__pt_idbSchema`: a version-change operation. */
    method ChangeSchema(id: nat, op: Op) returns (outcome: Option<Outcome>)
      requires Valid() && Permitted(State(), Operate(id, op)) && !op.Data?
      modifies this
      ensures Valid() && history == old(history) + [Operate(id, op)]
      ensures State() == TakeTurn(old(State()), Operate(id, op))
      ensures outcome == if id !in old(txs) then None else Some(Apply(old(State()).db, op).outcome)
    {
      hide PermittedRun, Orderly, AfterTurns, Apply, Tidy, Permitted;
      Extend(history, Operate(id, op));
      ReachedIsTidy(this);
      history := history + [Operate(id, op)];
      if id !in txs {
        return None;
      }
      var log, result;
      version, stores, nextId, log, result := SchemaOp(version, stores, nextId, op);
      Log(id, op, log);
      outcome := Some(result);
    }

    /** `__pt_idbRead` for get, getKey, getAll, getAllKeys and getAllRecords: a
        single result is a limit of 1. It sees the standard's database. */
    method Read(id: nat, store: string, index: Option<string>, range: Range, limit: nat, reverse: bool, values: bool)
      returns (r: ReadResult)
      requires Valid() && Encoded(range) && RangeAllowed(range, index.Some?)
      ensures var a := Abs(State().db.content).stores;
              if id !in txs then r == Inactive
              else if store !in a then r == NoStore
              else if !HasIndex(a[store], index) then r == NoIndex
              else r.Hits? && Answers(r.hits, a[store].records, index.Some?,
                                      Queried(a[store], index, range, reverse), 0, limit, values)
      ensures r.Hits? && index.Some? && limit == 0 ==>
                var a := Abs(State().db.content).stores;
                store in a && index.value in a[store].indexes && AllFound(r.hits, a[store], index.value, range, values)
    {
      hide AllFound;
      if id !in txs {
        return Inactive;
      }
      ReachedInv(this);
      var p := RowFor(version, stores, store, nextId);
      if p.None? {
        return NoStore;
      }
      var hits := ReadRow(stores[p.value].body, index, range, limit, reverse, values, nextId);
      if hits.None? {
        return NoIndex;
      }
      if index.Some? && limit == 0 {
        RowIsEncoded(stores[p.value].body, index.value, nextId);
        IndexReadFindsAll(hits.value, AbsStore(StoreOf(stores[p.value].body)), index.value, range, reverse, values);
      }
      return Hits(hits.value);
    }

    /** `__pt_idbRead` for count. */
    method CountRecords(id: nat, store: string, index: Option<string>, range: Range) returns (r: CountResult)
      requires Valid() && Encoded(range) && RangeAllowed(range, index.Some?)
      ensures var a := Abs(State().db.content).stores;
              if id in txs && store in a && HasIndex(a[store], index) then r == Count(|InRange(a[store], index, range)|)
              else r == NoCount
    {
      if id !in txs {
        return NoCount;
      }
      ReachedInv(this);
      var p := RowFor(version, stores, store, nextId);
      if p.None? {
        return NoCount;
      }
      var n := CountRow(stores[p.value].body, index, range, nextId);
      return if n.None? then NoCount else Count(n.value);
    }

    /** `__pt_idbCursor`: up to `count` rows from a position on. */
    method Cursor(id: nat, store: string, index: Option<string>, range: Range, dir: Direction, pos: Option<Row>,
                  target: Target, skip: nat, values: bool, count: nat) returns (r: ReadResult)
      requires Valid() && Encoded(range) && EncodedPosition(pos) && EncodedTarget(target)
      ensures var a := Abs(State().db.content).stores;
              var limit := if count < 1 then 1 else if count > 1024 then 1024 else count;
              if id !in txs then r == Inactive
              else if store !in a then r == NoStore
              else if !HasIndex(a[store], index) then r == NoIndex
              else r.Hits? && Answers(r.hits, a[store].records, index.Some?,
                                      RowsAhead(a[store], index, range, dir, pos, target), skip, limit, values)
    {
      if id !in txs {
        return Inactive;
      }
      ReachedInv(this);
      var p := RowFor(version, stores, store, nextId);
      if p.None? {
        return NoStore;
      }
      var limit := if count < 1 then 1 else if count > MAX_ROWS then MAX_ROWS else count;
      var i := None;
      if index.Some? {
        i := IndexFor(stores[p.value].body, index.value, nextId);
        if i.None? {
          return NoIndex;
        }
      }
      var rows := CollectRows(stores[p.value].body, i, range, dir, pos, target, skip, values, limit, nextId);
      return Hits(rows);
    }
  }

  /** What a cursor prefetches at most. */
  const MAX_ROWS := 1024

  /** One more turn of a history. */
  lemma Extend(h: seq<Turn>, e: Turn)
    requires PermittedRun(Start(), h) && Orderly(Start(), h) && Permitted(AfterTurns(Start(), h), e)
    ensures PermittedRun(Start(), h + [e]) && AfterTurns(Start(), h + [e]) == TakeTurn(AfterTurns(Start(), h), e)
    ensures Orderly(Start(), h + [e]) <==> !OvertakesRollback(AfterTurns(Start(), h), e)
  {
    hide TakeTurn, Permitted, OvertakesRollback;
    assert (h + [e])[..|h|] == h;
  }

  /** Transaction numbers start at 1: 0 is no transaction. */
  lemma {:induction false} NumbersFromOne(h: seq<Turn>)
    ensures AfterTurns(Start(), h).nextTx >= 1
    decreases |h|
  {
    if h != [] {
      NumbersFromOne(h[..|h| - 1]);
    }
  }

  lemma ReachedInv(d: Database)
    requires d.Valid()
    ensures Inv(Content(d.version, StoresOf(d.stores)), d.nextId)
  {
    StartIsEmpty();
    OrderlyRunsAreIsolated(Start().db, d.history);
  }

  lemma ReachedIsTidy(d: Database)
    requires d.Valid()
    ensures Tidy(d.stores, d.nextId)
  {
    ReachedInv(d);
    InvIsTidy(d.version, d.stores, d.nextId);
  }

  lemma StartIsEmpty()
    ensures Inv(Start().db.content, 0) && AllFresh(Abs(Start().db.content)) && AllHonest(Abs(Start().db.content))
    ensures Abs(Start().db.content) == ADb(0, map[])
  {
    assert NamedStores(Content(0, map[])) == map[];
    EmptyView<AStore>();
  }

  /** `txs.values().any(conflict)` */
  method AnyConflict(txs: map<nat, Tx>, mode: Mode, scope: seq<string>) returns (conflict: bool)
    ensures conflict <==> !Admits(txs, mode, scope)
  {
    var todo := txs.Keys;
    while todo != {}
      invariant todo <= txs.Keys
      invariant forall id :: id in txs && id !in todo ==> !Conflicts(txs[id], mode, scope)
    {
      var id :| id in todo;
      if Conflicts(txs[id], mode, scope) {
        return true;
      }
      todo := todo - {id};
    }
    return false;
  }

  /** A log that is still to be played back can be. */
  lemma PendingLogRolls(h: seq<Turn>, id: nat)
    requires PermittedRun(Start(), h) && Orderly(Start(), h) && id in AfterTurns(Start(), h).ending
    ensures var s := AfterTurns(Start(), h); Rollable(s.db.content, s.ending[id].undo)
  {
    var s := AfterTurns(Start(), h);
    StartIsEmpty();
    OrderlyRunsAreIsolated(Start().db, h);
    LiveTxRolls(Abs(Start().db.content), AsWorld(s), id);
  }

  lemma LiveTxRolls(a: ADb, w: World, id: nat)
    requires Safe(a, w) && id in w.txs
    ensures Rollable(w.db.content, w.txs[id].undo)
  {
    hide Serial, KeptToScope, RollAll, Inv, Unwinds, Rollable, Abs, Numbered, Apart;
    var t := w.txs[id];
    assert TxOk(a, w.db, w.acts, w.aborted, id, t);
    if t.mode.VersionChange? {
      UnwindsIsRollable(w.db.content, t.undo, RollAll(w.db.content, t.undo), w.db.nextId);
    } else {
      DataLogIsRollable(w.db.content, t.undo);
    }
  }

  /** The two halves of `end`, one after the other, are its step. */
  lemma EndIsStep(d: Database, id: nat, commit: bool)
    requires d.Valid()
    ensures var s := d.State(); var t := TakeTurn(s, Release(id, commit));
            if id !in s.txs then t == s
            else if !commit && s.txs[id].undo != []
            then AsWorld(TakeTurn(t, PlayBack(id))) == Step(AsWorld(s), Event.End(id, false))
            else AsWorld(t) == Step(AsWorld(s), Event.End(id, commit))
  {
    TurnsAreSteps(Start().db, d.history);
    HalvesAreStep(d.State(), id, commit);
  }

  lemma HalvesAreStep(s: Locked, id: nat, commit: bool)
    requires Separate(s)
    ensures var t := TakeTurn(s, Release(id, commit));
            if id !in s.txs then t == s
            else if !commit && s.txs[id].undo != []
            then AsWorld(TakeTurn(t, PlayBack(id))) == Step(AsWorld(s), Event.End(id, false))
            else AsWorld(t) == Step(AsWorld(s), Event.End(id, commit))
  {
    var t := TakeTurn(s, Release(id, commit));
    TakeKeepsSeparate(s, Release(id, commit));
    ReleaseIsStep(s, id, commit);
    if id in s.txs && !commit && s.txs[id].undo != [] {
      PlayBackIsStep(t, id);
      assert (s.txs + s.ending)[id] == s.txs[id];
    }
  }
}
