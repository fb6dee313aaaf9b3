/** Isolation over whole runs: in every reachable state conflicting transactions
    are never live together, aborting any of them now would leave exactly what
    the others did, and the data is what the surviving operations give. */
module Isolation {
  import opened ByteStrings
  import opened SortedSets
  import opened Engine
  import opened Operations
  import opened Schema
  import opened Spec
  import opened Transactions

  // ---- the invariant -----------------------------------------------------------------

  /** What aborting transaction `id` now would leave, where it may write, is the
      serial run without it. */
  ghost predicate TxOk(a: ADb, db: Db, acts: seq<(nat, Op)>, aborted: set<nat>, id: nat, t: Tx) {
    var back := RollAll(db.content, t.undo);
    match t.mode
    case ReadOnly => t.undo == [] && forall i :: 0 <= i < |acts| ==> acts[i].0 != id
    case ReadWrite =>
      KeptToScope(acts, id, t.stores) && DataLog(db.content, t.undo, t.stores) && Inv(back, db.nextId) &&
      forall n :: n in t.stores ==> At(Abs(back), n) == At(Serial(a, acts, aborted + {id}), n)
    case VersionChange =>
      Unwinds(db.content, t.undo, back, db.nextId) && Abs(back) == Serial(a, acts, aborted + {id})
  }

  /** A version change is alone, and of two transactions that are not both
      read-only neither has a store of the other's. */
  ghost predicate Apart(txs: map<nat, Tx>) {
    forall i, j :: i in txs && j in txs && i != j ==> !Conflicts(txs[i], txs[j].mode, txs[j].stores)
  }

  ghost predicate Safe(a: ADb, w: World) {
    Inv(w.db.content, w.db.nextId) &&
    Abs(w.db.content) == Serial(a, w.acts, w.aborted) &&
    Apart(w.txs) && Numbered(w) && TxsOk(a, w)
  }

  /** Transaction ids are never reused. */
  ghost predicate Numbered(w: World) {
    (forall i :: 0 <= i < |w.acts| ==> w.acts[i].0 < w.nextTx) && (forall id :: id in w.txs ==> id < w.nextTx)
  }

  ghost predicate TxsOk(a: ADb, w: World) {
    forall id :: id in w.txs ==> TxOk(a, w.db, w.acts, w.aborted, id, w.txs[id])
  }

  // ---- begin and commit ----------------------------------------------------------------

  lemma ConflictsBothWays(t: Tx, u: Tx)
    ensures Conflicts(t, u.mode, u.stores) <==> Conflicts(u, t.mode, t.stores)
  {
    if Overlap(t.stores, u.stores) {
      var s :| s in t.stores && s in u.stores;
      assert s in u.stores && s in t.stores;
    }
    if Overlap(u.stores, t.stores) {
      var s :| s in u.stores && s in t.stores;
      assert s in t.stores && s in u.stores;
    }
  }

  lemma FreshTxOk(a: ADb, db: Db, acts: seq<(nat, Op)>, aborted: set<nat>, id: nat, mode: Mode, stores: seq<string>)
    requires Inv(db.content, db.nextId) && Abs(db.content) == Serial(a, acts, aborted)
    requires forall i :: 0 <= i < |acts| ==> acts[i].0 != id
    ensures TxOk(a, db, acts, aborted, id, Tx(mode, stores, []))
  {
    SkipAbsent(a, acts, aborted, id);
  }

  lemma BeginKeepsSafe(a: ADb, w: World, mode: Mode, stores: seq<string>)
    requires Safe(a, w)
    ensures Safe(a, Step(w, Begin(mode, stores)))
  {
    if Admits(w.txs, mode, stores) {
      var x := Step(w, Begin(mode, stores));
      FreshTxOk(a, w.db, w.acts, w.aborted, w.nextTx, mode, stores);
      forall i, j | i in x.txs && j in x.txs && i != j
        ensures !Conflicts(x.txs[i], x.txs[j].mode, x.txs[j].stores)
      {
        ConflictsBothWays(x.txs[i], x.txs[j]);
      }
    }
  }

  lemma CommitKeepsSafe(a: ADb, w: World, id: nat)
    requires Safe(a, w)
    ensures Safe(a, Step(w, End(id, true)))
  {
  }

  // ---- operations ------------------------------------------------------------------------

  lemma {:induction false} RollAppended(c: Content, early: seq<Undo>, late: seq<Undo>)
    ensures RollAll(c, early + late) == RollAll(RollAll(c, late), early)
    decreases |late|
  {
    if late == [] {
      assert early + late == early;
    } else {
      var log := early + late;
      assert log[..|log| - 1] == early + late[..|late| - 1];
      RollAppended(Rollback(c, late[|late| - 1]), early, late[..|late| - 1]);
    }
  }

  /** Rolling a transaction back right after an operation of it is rolling it
      back before. */
  lemma OwnActUndone(db: Db, undo: seq<Undo>, op: Op)
    requires Inv(db.content, db.nextId) && Legal(db.content, op)
    ensures var r := Apply(db, op);
            Inv(r.db.content, r.db.nextId) && db.nextId <= r.db.nextId &&
            RollAll(r.db.content, undo + r.log) == RollAll(db.content, undo)
  {
    var r := Apply(db, op);
    OpUndoable(db, op);
    UnwindsReaches(r.db.content, r.log, db.content, r.db.nextId);
    RollAppended(r.db.content, undo, r.log);
  }

  lemma {:induction false} RemoveLogOnStore(sid: nat, s: Store, keys: seq<Bytes>)
    requires forall k :: k in keys ==> k in s.records
    requires NoRepeats(keys)
    ensures forall u :: u in RemoveEffect(sid, s, keys).log ==> OnStore(u, sid)
    decreases |keys|
  {
    if keys != [] {
      RemoveLogOnStore(sid, s, keys[..|keys| - 1]);
    }
  }

  lemma StoreLogOnStore(sid: nat, s: Store, op: StoreOp)
    ensures forall u :: u in StoreEffect(sid, s, op).log ==> OnStore(u, sid)
  {
    if op.Delete? {
      var keys := Ascending(Within(s.records.Keys, op.range));
      AscendingDistinct(keys);
      RemoveLogOnStore(sid, s, keys);
    }
  }

  /** A data operation changes one store's content, not its name, and logs only
      entries of it. */
  lemma DataActShape(db: Db, op: Op)
    requires Inv(db.content, db.nextId) && op.Data?
    ensures var r := Apply(db, op);
            r.db.nextId == db.nextId && SameNames(db.content, r.db.content) &&
            (forall i :: i in db.content.stores && db.content.stores[i].name != op.store ==>
               r.db.content.stores[i] == db.content.stores[i]) &&
            DataLog(db.content, r.log, [op.store])
  {
    hide StoreInv, Unwinds, StoreEffect;
    var c := db.content;
    if StoreId(c, op.store).Some? {
      var sid := StoreId(c, op.store).value;
      StoreOpUnwinds(c, sid, op.op, db.nextId);
      StoreLogIsData(c, sid, op.op);
    }
  }

  lemma StoreLogIsData(c: Content, sid: nat, op: StoreOp)
    requires sid in c.stores
    ensures DataLog(c, StoreEffect(sid, c.stores[sid], op).log, [c.stores[sid].name])
  {
    var log := StoreEffect(sid, c.stores[sid], op).log;
    StoreLogOnStore(sid, c.stores[sid], op);
    forall i | 0 <= i < |log|
      ensures OnStore(log[i], sid)
    {
      assert log[i] in log;
    }
  }

  lemma KeptToScopeGrows(acts: seq<(nat, Op)>, id: nat, stores: seq<string>, actor: nat, op: Op)
    requires KeptToScope(acts, id, stores) && op.Data?
    requires actor == id ==> op.store in stores
    ensures KeptToScope(acts + [(actor, op)], id, stores)
  {
    var more := acts + [(actor, op)];
    forall i, j | 0 <= i <= j < |more| && more[i].0 == id
      ensures more[j].1.Data?
    {
      if j < |acts| {
        assert acts[i].0 == id && acts[j] == more[j];
      }
    }
    forall i | 0 <= i < |more| && more[i].0 == id && more[i].1.Data?
      ensures more[i].1.store in stores
    {
      assert i < |acts| ==> acts[i] == more[i];
    }
  }

  lemma OwnActSkipped(a: ADb, acts: seq<(nat, Op)>, aborted: set<nat>, id: nat, op: Op)
    ensures Serial(a, acts + [(id, op)], aborted + {id}) == Serial(a, acts, aborted + {id})
  {
    assert (acts + [(id, op)])[..|acts|] == acts;
  }

  /** The acting transaction: what its abort would leave does not change. */
  lemma OwnTxOk(a: ADb, db: Db, acts: seq<(nat, Op)>, aborted: set<nat>, id: nat, t: Tx, op: Op)
    requires Inv(db.content, db.nextId) && Legal(db.content, op)
    requires TxOk(a, db, acts, aborted, id, t) && !t.mode.ReadOnly?
    requires t.mode.ReadWrite? ==> op.Data? && op.store in t.stores
    ensures var r := Apply(db, op);
            TxOk(a, r.db, acts + [(id, op)], aborted, id, t.(undo := t.undo + r.log))
  {
    OwnActUndone(db, t.undo, op);
    OwnActSkipped(a, acts, aborted, id, op);
    if t.mode.ReadWrite? {
      InvGrows(RollAll(db.content, t.undo), db.nextId, Apply(db, op).db.nextId);
      DataActShape(db, op);
      KeptToScopeGrows(acts, id, t.stores, id, op);
      JoinedLog(db.content, Apply(db, op).db.content, t.undo, Apply(db, op).log, t.stores, op.store);
    } else {
      OwnUnwinds(db, t.undo, op);
    }
  }

  lemma OwnUnwinds(db: Db, undo: seq<Undo>, op: Op)
    requires Inv(db.content, db.nextId) && Legal(db.content, op)
    requires Unwinds(db.content, undo, RollAll(db.content, undo), db.nextId)
    ensures var r := Apply(db, op);
            Unwinds(r.db.content, undo + r.log, RollAll(db.content, undo), r.db.nextId)
  {
    var r := Apply(db, op);
    OpUndoable(db, op);
    UnwindsChain(r.db.content, r.log, db.content, undo, RollAll(db.content, undo), db.nextId, r.db.nextId);
  }

  lemma JoinedLog(c: Content, d: Content, log: seq<Undo>, more: seq<Undo>, stores: seq<string>, store: string)
    requires DataLog(c, log, stores) && DataLog(c, more, [store]) && store in stores && SameNames(c, d)
    ensures DataLog(d, log + more, stores)
  {
    forall i | 0 <= i < |log + more|
      ensures var u := (log + more)[i];
              (u.RecordUndo? || u.KeyGenUndo? || u.ClearedUndo?) &&
              u.store in d.stores && d.stores[u.store].name in stores
    {
      if i >= |log| {
        assert (log + more)[i] == more[i - |log|];
      }
    }
  }

  /** Rolling back after the stores outside the log changed. */
  lemma RollBeside(c: Content, d: Content, log: seq<Undo>, stores: seq<string>, top: nat)
    requires DataLog(c, log, stores) && SameNames(c, d)
    requires forall i :: i in c.stores && c.stores[i].name in stores ==> c.stores[i] == d.stores[i]
    requires Inv(d, top) && Inv(RollAll(c, log), top)
    ensures DataLog(d, log, stores) && Inv(RollAll(d, log), top) && SameNames(RollAll(c, log), RollAll(d, log))
    ensures forall n :: n in stores ==> At(Abs(RollAll(c, log)), n) == At(Abs(RollAll(d, log)), n)
  {
    var x, y := RollAll(c, log), RollAll(d, log);
    DataLogSameNames(c, d, log, stores);
    RollIsLocal(c, log, stores);
    RollIsLocal(d, log, stores);
    forall i | i in y.stores
      ensures y.stores[i] == d.stores[i] || y.stores[i] == x.stores[i]
      ensures d.stores[i].name in stores ==> y.stores[i] == x.stores[i]
    {
      assert d.stores[i].name == c.stores[i].name;
      if d.stores[i].name in stores {
        RollByStore(c, d, log, stores, i);
      }
    }
    MixedInv(d, x, y, top);
    InvNames(x, top);
    InvNames(y, top);
    forall n | n in stores
      ensures At(Abs(x), n) == At(Abs(y), n)
    {
      AtSameStore(x, y, n);
    }
  }

  /** A transaction that is not acting, while another works on other stores. */
  lemma OtherTxOk(a: ADb, db: Db, acts: seq<(nat, Op)>, aborted: set<nat>, id: nat, t: Tx, actor: nat, op: Op)
    requires Inv(db.content, db.nextId) && TxOk(a, db, acts, aborted, id, t) && actor != id && actor !in aborted
    requires op.Data? && !t.mode.VersionChange?
    requires t.mode.ReadWrite? ==> op.store !in t.stores
    ensures TxOk(a, Apply(db, op).db, acts + [(actor, op)], aborted, id, t)
  {
    if t.mode.ReadWrite? {
      KeptToScopeGrows(acts, id, t.stores, actor, op);
      RollBesideAct(db, t.undo, t.stores, op);
      forall n | n in t.stores
        ensures At(Serial(a, acts + [(actor, op)], aborted + {id}), n) == At(Serial(a, acts, aborted + {id}), n)
      {
        SerialBeside(a, acts, aborted + {id}, actor, op, n);
      }
    }
  }

  lemma RollBesideAct(db: Db, undo: seq<Undo>, stores: seq<string>, op: Op)
    requires Inv(db.content, db.nextId) && op.Data? && op.store !in stores
    requires DataLog(db.content, undo, stores) && Inv(RollAll(db.content, undo), db.nextId)
    ensures var d, back := Apply(db, op).db, RollAll(Apply(db, op).db.content, undo);
            DataLog(d.content, undo, stores) && Inv(back, d.nextId) &&
            forall n :: n in stores ==> At(Abs(back), n) == At(Abs(RollAll(db.content, undo)), n)
  {
    DataActShape(db, op);
    OpUndoable(db, op);
    RollBeside(db.content, Apply(db, op).db.content, undo, stores, db.nextId);
  }

  lemma SerialBeside(a: ADb, acts: seq<(nat, Op)>, skip: set<nat>, actor: nat, op: Op, n: string)
    requires op.Data? && op.store != n
    ensures At(Serial(a, acts + [(actor, op)], skip), n) == At(Serial(a, acts, skip), n)
  {
    var before := Serial(a, acts, skip);
    assert (acts + [(actor, op)])[..|acts|] == acts;
    DataIsLocal(before, before, op, n);
  }

  /** A change of the undo log changes no conflict. */
  lemma ApartAfterAct(txs: map<nat, Tx>, id: nat, t: Tx)
    requires Apart(txs) && id in txs && t.mode == txs[id].mode && t.stores == txs[id].stores
    ensures Apart(txs[id := t])
  {
    var x := txs[id := t];
    forall i, j | i in x && j in x && i != j
      ensures !Conflicts(x[i], x[j].mode, x[j].stores)
    {
      assert !Conflicts(txs[i], txs[j].mode, txs[j].stores);
    }
  }

  lemma OthersAfterAct(a: ADb, w: World, id: nat, op: Op, j: nat)
    requires Safe(a, w) && Allowed(w, Act(id, op)) && id in w.txs && id !in w.aborted
    requires j in w.txs && j != id
    ensures TxOk(a, Apply(w.db, op).db, w.acts + [(id, op)], w.aborted, j, w.txs[j])
  {
    assert !Conflicts(w.txs[j], w.txs[id].mode, w.txs[id].stores);
    assert TxOk(a, w.db, w.acts, w.aborted, j, w.txs[j]);
    OtherTxOk(a, w.db, w.acts, w.aborted, j, w.txs[j], id, op);
  }

  lemma OwnAfterAct(a: ADb, w: World, id: nat, op: Op)
    requires Safe(a, w) && Allowed(w, Act(id, op)) && id in w.txs
    ensures var r, t := Apply(w.db, op), w.txs[id];
            TxOk(a, r.db, w.acts + [(id, op)], w.aborted, id, t.(undo := t.undo + r.log))
  {
    assert TxOk(a, w.db, w.acts, w.aborted, id, w.txs[id]);
    OwnTxOk(a, w.db, w.acts, w.aborted, id, w.txs[id], op);
  }

  lemma DataAfterAct(a: ADb, w: World, id: nat, op: Op)
    requires Safe(a, w) && Allowed(w, Act(id, op)) && id in w.txs && id !in w.aborted
    ensures var d, more := Apply(w.db, op).db, w.acts + [(id, op)];
            Inv(d.content, d.nextId) && Abs(d.content) == Serial(a, more, w.aborted)
  {
    hide Apply, AApply, Abs, StoreInv;
    OpUndoable(w.db, op);
    OpRefines(w.db, op);
    assert (w.acts + [(id, op)])[..|w.acts|] == w.acts;
  }

  lemma TxAfterAct(a: ADb, w: World, id: nat, op: Op, j: nat)
    requires Safe(a, w) && Allowed(w, Act(id, op)) && id in w.txs && id !in w.aborted
    requires j in w.txs
    ensures var x := Acted(w, id, op); TxOk(a, x.db, x.acts, x.aborted, j, x.txs[j])
  {
    if j == id {
      OwnAfterAct(a, w, id, op);
    } else {
      OthersAfterAct(a, w, id, op, j);
    }
  }

  lemma TxsAfterAct(a: ADb, w: World, id: nat, op: Op)
    requires Safe(a, w) && Allowed(w, Act(id, op)) && id in w.txs && id !in w.aborted
    ensures TxsOk(a, Acted(w, id, op))
  {
    var x := Acted(w, id, op);
    forall j | j in x.txs
      ensures TxOk(a, x.db, x.acts, x.aborted, j, x.txs[j])
    {
      TxAfterAct(a, w, id, op, j);
    }
  }

  lemma ActKeepsSafe(a: ADb, w: World, id: nat, op: Op)
    requires Safe(a, w) && Allowed(w, Act(id, op)) && id in w.txs && id !in w.aborted
    ensures Safe(a, Acted(w, id, op))
  {
    DataAfterAct(a, w, id, op);
    TxsAfterAct(a, w, id, op);
    ShapeAfterAct(w, id, op);
  }

  lemma ShapeAfterAct(w: World, id: nat, op: Op)
    requires Apart(w.txs) && Numbered(w) && id in w.txs
    ensures var x := Acted(w, id, op);
            Apart(x.txs) && Numbered(x) && x.aborted == w.aborted && x.acts == w.acts + [(id, op)] &&
            x.db == Apply(w.db, op).db
  {
    ApartAfterAct(w.txs, id, Acted(w, id, op).txs[id]);
  }

  // ---- abort -------------------------------------------------------------------------------

  /** The data after an abort is the serial run without the aborted transaction. */
  lemma AbortIsSerial(a: ADb, w: World, id: nat)
    requires Safe(a, w) && id in w.txs
    ensures var back := RollAll(w.db.content, w.txs[id].undo);
            Inv(back, w.db.nextId) && Abs(back) == Serial(a, w.acts, w.aborted + {id})
  {
    var t, c := w.txs[id], w.db.content;
    assert TxOk(a, w.db, w.acts, w.aborted, id, t);
    if t.mode.ReadOnly? {
      SkipAbsent(a, w.acts, w.aborted, id);
    } else if t.mode.ReadWrite? {
      WriterAborted(a, w.db, w.acts, w.aborted, id, t);
    } else {
      UnwindsReaches(c, t.undo, RollAll(c, t.undo), w.db.nextId);
    }
  }

  lemma WriterAborted(a: ADb, db: Db, acts: seq<(nat, Op)>, aborted: set<nat>, id: nat, t: Tx)
    requires t.mode.ReadWrite? && TxOk(a, db, acts, aborted, id, t)
    requires Inv(db.content, db.nextId) && Abs(db.content) == Serial(a, acts, aborted)
    ensures Abs(RollAll(db.content, t.undo)) == Serial(a, acts, aborted + {id})
  {
    var c, back, left := db.content, RollAll(db.content, t.undo), Serial(a, acts, aborted + {id});
    RollIsLocal(c, t.undo, t.stores);
    InvNames(c, db.nextId);
    InvNames(back, db.nextId);
    forall n
      ensures At(Abs(back), n) == At(left, n)
    {
      if n !in t.stores {
        AtSameStore(c, back, n);
        SkipIsLocal(a, acts, aborted, id, t.stores, n);
      }
    }
    VersionKept(a, acts, aborted, id, t.stores);
    SameDb(Abs(back), left);
  }

  lemma VersionKept(a: ADb, acts: seq<(nat, Op)>, skip: set<nat>, id: nat, stores: seq<string>)
    requires KeptToScope(acts, id, stores)
    ensures Serial(a, acts, skip + {id}).version == Serial(a, acts, skip).version
  {
    var n := Outside(stores);
    SkipIsLocal(a, acts, skip, id, stores, n);
  }

  /** Some name not in the list: one longer than all of them. */
  lemma {:induction false} Outside(stores: seq<string>) returns (n: string)
    ensures n !in stores
    ensures forall s :: s in stores ==> |s| < |n|
  {
    if stores == [] {
      n := "";
    } else {
      var m := Outside(stores[1..]);
      n := m + stores[0] + "x";
      forall s | s in stores
        ensures |s| < |n|
      {
        assert s == stores[0] || s in stores[1..];
      }
    }
  }

  /** A live transaction while another on other stores is aborted. */
  lemma BesideAbort(a: ADb, w: World, id: nat, j: nat)
    requires Safe(a, w) && id in w.txs && j in w.txs && id != j
    ensures var back := w.db.(content := RollAll(w.db.content, w.txs[id].undo));
            TxOk(a, back, w.acts, w.aborted + {id}, j, w.txs[j])
  {
    var t, u, c := w.txs[id], w.txs[j], w.db.content;
    assert TxOk(a, w.db, w.acts, w.aborted, id, t) && TxOk(a, w.db, w.acts, w.aborted, j, u);
    assert !Conflicts(t, u.mode, u.stores);
    if u.mode.ReadWrite? {
      AbortIsSerial(a, w, id);
      assert w.aborted + {id} + {j} == w.aborted + {j} + {id};
      if t.mode.ReadOnly? {
        SkipAbsent(a, w.acts, w.aborted + {j}, id);
      } else {
        var back := RollAll(c, t.undo);
        RollIsLocal(c, t.undo, t.stores);
        forall i | i in c.stores && c.stores[i].name in u.stores
          ensures c.stores[i] == back.stores[i]
        {
          assert c.stores[i].name !in t.stores;
        }
        RollBeside(c, back, u.undo, u.stores, w.db.nextId);
        forall n | n in u.stores
          ensures At(Serial(a, w.acts, w.aborted + {id} + {j}), n) == At(Serial(a, w.acts, w.aborted + {j}), n)
        {
          assert n !in t.stores;
          SkipIsLocal(a, w.acts, w.aborted + {j}, id, t.stores, n);
        }
      }
    }
  }

  lemma AbortKeepsSafe(a: ADb, w: World, id: nat)
    requires Safe(a, w)
    ensures Safe(a, Step(w, End(id, false)))
  {
    if id in w.txs {
      var x := Step(w, End(id, false));
      AbortIsSerial(a, w, id);
      forall j | j in x.txs
        ensures j < x.nextTx && TxOk(a, x.db, x.acts, x.aborted, j, x.txs[j])
      {
        BesideAbort(a, w, id, j);
      }
    }
  }

  // ---- every run ------------------------------------------------------------------------------

  lemma StepKeepsSafe(a: ADb, w: World, e: Event)
    requires Safe(a, w) && Allowed(w, e) && w.aborted !! w.txs.Keys && forall i :: i in w.aborted ==> i < w.nextTx
    ensures Safe(a, Step(w, e))
    ensures Step(w, e).aborted !! Step(w, e).txs.Keys && forall i :: i in Step(w, e).aborted ==> i < Step(w, e).nextTx
  {
    match e {
      case Begin(mode, stores) => BeginKeepsSafe(a, w, mode, stores);
      case Act(id, op) =>
        if id in w.txs {
          ActKeepsSafe(a, w, id, op);
        }
      case End(id, commit) =>
        if commit {
          CommitKeepsSafe(a, w, id);
        } else {
          AbortKeepsSafe(a, w, id);
        }
    }
  }

  /** A database with no transaction yet. */
  ghost function Quiet(db: Db): World {
    World(db, map[], 1, [], {})
  }

  /** Isolation: after any interleaving of begin, operation, commit and abort
      steps, the data is what the operations of the transactions not aborted
      give when run alone in the same order, and conflicting transactions are
      never live together. */
  lemma {:induction false} RunsAreIsolated(db: Db, h: seq<Event>)
    requires Inv(db.content, db.nextId) && AllowedRun(Quiet(db), h)
    ensures var w := Behave(Quiet(db), h);
            Abs(w.db.content) == Serial(Abs(db.content), w.acts, w.aborted) && Apart(w.txs) &&
            Inv(w.db.content, w.db.nextId)
    ensures var txs := Behave(Quiet(db), h).txs;
            forall i, j :: i in txs && j in txs && i != j ==>
              !txs[i].mode.VersionChange? &&
              ((txs[i].mode.ReadOnly? && txs[j].mode.ReadOnly?) || forall s :: s in txs[i].stores ==> s !in txs[j].stores)
    ensures Safe(Abs(db.content), Behave(Quiet(db), h))
    ensures var w := Behave(Quiet(db), h);
            w.aborted !! w.txs.Keys && forall i :: i in w.aborted ==> i < w.nextTx
    decreases |h|
  {
    if h != [] {
      RunsAreIsolated(db, h[..|h| - 1]);
      StepKeepsSafe(Abs(db.content), Behave(Quiet(db), h[..|h| - 1]), h[|h| - 1]);
    }
  }
}
