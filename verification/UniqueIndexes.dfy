/** Unique indexes over whole runs: a key shared by two records of a unique index is
    always the work of an index creation that reported it, and of no other index. */
module UniqueIndexes {
  import opened ByteStrings
  import opened Keys
  import opened Values
  import opened Engine
  import opened Operations
  import opened Schema
  import opened Spec
  import opened Transactions
  import opened Isolation

  /** A unique index, by the name of its store and its own, has one key for two
      records. */
  ghost predicate Bad(a: ADb, m: string, n: string) {
    m in a.stores && BadIn(a.stores[m], n)
  }

  ghost predicate BadIn(a: AStore, n: string) {
    n in a.indexes && a.indexes[n].unique && AShares(a.records, a.indexes[n])
  }

  ghost predicate AllHonest(a: ADb) {
    forall m, n :: !Bad(a, m, n)
  }

  // ---- one operation ----------------------------------------------------------------------

  /** A shared key after a put was shared before, or was taken. */
  lemma StillShared(a: AStore, pk: Bytes, value: Js, n: string, p: Bytes, q: Bytes, k: Bytes)
    requires n in a.indexes && a.indexes[n].unique && p != q
    requires var r := a.records[pk := value];
             p in r && q in r && k in IndexKeys(r[p], a.indexes[n]) && k in IndexKeys(r[q], a.indexes[n])
    ensures AShares(a.records, a.indexes[n]) || Taken(a, pk, value)
  {
    if p == pk {
      assert q in a.records;
    } else if q == pk {
      assert p in a.records;
    } else {
      assert p in a.records && q in a.records;
    }
  }

  lemma PutMakesNoneBad(a: AStore, prep: Prepared, noOverwrite: bool, n: string)
    requires BadIn(APut(a, prep, noOverwrite).store, n)
    ensures BadIn(a, n)
  {
    var e := APut(a, prep, noOverwrite);
    if e.outcome.Stored? {
      var pk, r := Encode(PutKey(a.next, prep)), e.store.records;
      var p, q, k :| p in r && q in r && p != q && k in IndexKeys(r[p], a.indexes[n]) && k in IndexKeys(r[q], a.indexes[n]);
      StillShared(a, pk, r[pk], n, p, q, k);
    }
  }

  lemma SharesGrows(few: map<Bytes, Js>, many: map<Bytes, Js>, def: IndexDef)
    requires forall pk :: pk in few ==> pk in many && many[pk] == few[pk]
    ensures AShares(few, def) ==> AShares(many, def)
  {
    if AShares(few, def) {
      var p, q, k :| p in few && q in few && p != q && k in IndexKeys(few[p], def) && k in IndexKeys(few[q], def);
      assert p in many && q in many && k in IndexKeys(many[p], def) && k in IndexKeys(many[q], def);
    }
  }

  lemma DataMakesNoneBad(a: AStore, op: StoreOp, n: string)
    requires BadIn(AStoreOp(a, op).store, n)
    ensures BadIn(a, n)
  {
    match op {
      case Put(prep, noOverwrite) => PutMakesNoneBad(a, prep, noOverwrite, n);
      case Delete(range) => SharesGrows(AStoreOp(a, op).store.records, a.records, a.indexes[n]);
      case Clear =>
    }
  }

  /** An index creation leaves the index bad exactly when it says so. */
  lemma CreationReports(a: ADb, store: string, name: string, def: IndexDef)
    ensures var r := AApply(a, CreateIndex(store, name, def)); Bad(r.db, store, name) <==> r.outcome == NotUnique
  {
    hide AShares;
  }

  // ---- which indexes may be bad -------------------------------------------------------------

  /** The names of bad indexes as a caller follows them: an index creation that
      reports ConstraintError adds one, renaming moves it, deleting drops it. */
  function After(f: set<(string, string)>, op: Op, outcome: Outcome): set<(string, string)> {
    match op
    case CreateIndex(m, n, _) => if outcome == NotUnique then f + {(m, n)} else f - {(m, n)}
    case DeleteIndex(m, n) => f - {(m, n)}
    case DeleteStore(m) => Elsewhere(f, m)
    case RenameIndex(m, n, to) => if (m, n) in f then f - {(m, n)} + {(m, to)} else f
    case RenameStore(m, to) => Elsewhere(f, m) + set x | x in f && x.0 == m :: (to, x.1)
    case _ => f
  }

  function Elsewhere(f: set<(string, string)>, m: string): set<(string, string)> {
    set x | x in f && x.0 != m
  }

  ghost predicate Covers(f: set<(string, string)>, a: ADb) {
    forall m, n :: Bad(a, m, n) ==> (m, n) in f
  }

  /** No operation makes another index bad. */
  lemma OpCovers(a: ADb, op: Op, f: set<(string, string)>)
    requires Covers(f, a)
    ensures Covers(After(f, op, AApply(a, op).outcome), AApply(a, op).db)
  {
    hide After, AApply, Bad;
    forall m, n | Bad(AApply(a, op).db, m, n)
      ensures (m, n) in After(f, op, AApply(a, op).outcome)
    {
      BadIsCovered(a, op, f, m, n);
    }
  }

  lemma BadIsCovered(a: ADb, op: Op, f: set<(string, string)>, m: string, n: string)
    requires Covers(f, a) && Bad(AApply(a, op).db, m, n)
    ensures (m, n) in After(f, op, AApply(a, op).outcome)
  {
    hide AShares, BadIn, AStoreOp;
    match op {
      case Data(store, sop) =>
        if m == store {
          DataMakesNoneBad(a.stores[m], sop, n);
        }
        assert Bad(a, m, n);
      case CreateIndex(store, name, def) => CreatedElsewhere(a, store, name, def, m, n);
      case DeleteIndex(store, name) => DeletedElsewhere(a, store, name, m, n);
      case RenameIndex(store, name, to) => RenamedElsewhere(a, store, name, to, m, n);
      case RenameStore(name, to) =>
        assert Bad(a, if m == to && name in a.stores then name else m, n);
      case CreateStore(name, _, _) =>
        NewStoreHonest(a, op, m, n);
      case _ =>
        assert Bad(a, m, n);
    }
  }

  lemma NewStoreHonest(a: ADb, op: Op, m: string, n: string)
    requires op.CreateStore? && Bad(AApply(a, op).db, m, n)
    ensures Bad(a, m, n)
  {
  }

  lemma CreatedElsewhere(a: ADb, store: string, name: string, def: IndexDef, m: string, n: string)
    requires Bad(AApply(a, CreateIndex(store, name, def)).db, m, n)
    ensures Bad(a, m, n) || ((m, n) == (store, name) && AApply(a, CreateIndex(store, name, def)).outcome == NotUnique)
    ensures (m, n) == (store, name) ==> AApply(a, CreateIndex(store, name, def)).outcome == NotUnique
  {
    hide AShares;
  }

  lemma DeletedElsewhere(a: ADb, store: string, name: string, m: string, n: string)
    requires Bad(AApply(a, DeleteIndex(store, name)).db, m, n)
    ensures Bad(a, m, n) && (m, n) != (store, name)
  {
    hide AShares;
  }

  lemma RenamedElsewhere(a: ADb, store: string, name: string, to: string, m: string, n: string)
    requires Bad(AApply(a, RenameIndex(store, name, to)).db, m, n)
    ensures if m == store && n == to && store in a.stores && name in a.stores[store].indexes then Bad(a, m, name)
            else Bad(a, m, n) && (m, n) != (store, name)
  {
    hide AShares;
  }

  lemma AfterNone(op: Op, outcome: Outcome)
    ensures After({}, op, outcome) != {} <==> op.CreateIndex? && outcome == NotUnique
  {
    if op.CreateIndex? && outcome == NotUnique {
      assert (op.store, op.name) in After({}, op, outcome);
    }
  }

  /** Where no index is bad, an operation makes one bad exactly when it is an index
      creation that reports ConstraintError. */
  lemma OpKeepsHonest(a: ADb, op: Op)
    requires AllHonest(a)
    ensures AllHonest(AApply(a, op).db) <==> !(op.CreateIndex? && AApply(a, op).outcome == NotUnique)
  {
    hide After, AApply, Bad;
    OpCovers(a, op, {});
    AfterNone(op, AApply(a, op).outcome);
    if op.CreateIndex? {
      CreationReports(a, op.store, op.name, op.def);
    }
  }

  // ---- whole runs ------------------------------------------------------------------------------

  /** What the callers of a run's operations were told, one outcome each. */
  ghost function Seen(w: World, h: seq<Event>): seq<Outcome>
    decreases |h|
  {
    if h == [] then []
    else
      var front, last := h[..|h| - 1], h[|h| - 1];
      var v := Behave(w, front);
      Seen(w, front) + if last.Act? && last.tx in v.txs then [Apply(v.db, last.op).outcome] else []
  }

  lemma {:induction false} SeenAll(w: World, h: seq<Event>)
    requires w.acts == []
    ensures |Seen(w, h)| == |Behave(w, h).acts|
    decreases |h|
  {
    hide Apply;
    if h != [] {
      SeenAll(w, h[..|h| - 1]);
    }
  }

  /** The bad names after the operations of the transactions not in `skip`. */
  ghost function Faulty(acts: seq<(nat, Op)>, outcomes: seq<Outcome>, skip: set<nat>): set<(string, string)>
    requires |outcomes| == |acts|
    decreases |acts|
  {
    if acts == [] then {}
    else
      var n := |acts| - 1;
      var f := Faulty(acts[..n], outcomes[..n], skip);
      if acts[n].0 in skip then f else After(f, acts[n].1, outcomes[n])
  }

  /** An index is on the list only if some creation that survived reported it. */
  lemma {:induction false} FaultIsReported(acts: seq<(nat, Op)>, outcomes: seq<Outcome>, skip: set<nat>)
    requires |outcomes| == |acts| && Faulty(acts, outcomes, skip) != {}
    ensures exists i :: 0 <= i < |acts| && acts[i].0 !in skip && acts[i].1.CreateIndex? && outcomes[i] == NotUnique
    decreases |acts|
  {
    var n := |acts| - 1;
    var f := Faulty(acts[..n], outcomes[..n], skip);
    if f != {} {
      FaultIsReported(acts[..n], outcomes[..n], skip);
      var i :| 0 <= i < n && acts[..n][i].0 !in skip && acts[..n][i].1.CreateIndex? && outcomes[..n][i] == NotUnique;
      assert acts[i].0 !in skip && acts[i].1.CreateIndex? && outcomes[i] == NotUnique;
    } else {
      AfterNone(acts[n].1, outcomes[n]);
      assert acts[n].1.CreateIndex? && outcomes[n] == NotUnique;
    }
  }

  /** What the serial run of the surviving operations says of their index creations
      is what their callers were told. */
  ghost predicate Replays(a: ADb, acts: seq<(nat, Op)>, outcomes: seq<Outcome>, skip: set<nat>)
    requires |outcomes| == |acts|
  {
    forall i :: 0 <= i < |acts| ==> ReplaysAt(a, acts, outcomes, skip, i)
  }

  ghost predicate ReplaysAt(a: ADb, acts: seq<(nat, Op)>, outcomes: seq<Outcome>, skip: set<nat>, i: nat)
    requires |outcomes| == |acts| && i < |acts|
  {
    acts[i].0 !in skip && acts[i].1.CreateIndex? ==> outcomes[i] == AApply(Serial(a, acts[..i], skip), acts[i].1).outcome
  }

  /** Only the outcome of an index creation matters to what comes after. */
  lemma OutcomeMatters(f: set<(string, string)>, op: Op, x: Outcome, y: Outcome)
    requires op.CreateIndex? ==> x == y
    ensures After(f, op, x) == After(f, op, y)
  {
  }

  lemma {:induction false} SerialCovers(a: ADb, acts: seq<(nat, Op)>, outcomes: seq<Outcome>, skip: set<nat>)
    requires AllHonest(a) && |outcomes| == |acts| && Replays(a, acts, outcomes, skip)
    ensures Covers(Faulty(acts, outcomes, skip), Serial(a, acts, skip))
    decreases |acts|
  {
    hide After, AApply, Bad;
    if acts != [] {
      var n := |acts| - 1;
      FrontReplays(a, acts, outcomes, skip);
      SerialCovers(a, acts[..n], outcomes[..n], skip);
      if acts[n].0 !in skip {
        var before, f := Serial(a, acts[..n], skip), Faulty(acts[..n], outcomes[..n], skip);
        assert ReplaysAt(a, acts, outcomes, skip, n);
        OpCovers(before, acts[n].1, f);
        OutcomeMatters(f, acts[n].1, outcomes[n], AApply(before, acts[n].1).outcome);
      }
    }
  }

  lemma FrontReplays(a: ADb, acts: seq<(nat, Op)>, outcomes: seq<Outcome>, skip: set<nat>)
    requires |outcomes| == |acts| > 0 && Replays(a, acts, outcomes, skip)
    ensures Replays(a, acts[..|acts| - 1], outcomes[..|acts| - 1], skip)
  {
    hide AApply, Serial;
    var n := |acts| - 1;
    forall i | 0 <= i < n
      ensures ReplaysAt(a, acts[..n], outcomes[..n], skip, i)
    {
      assert ReplaysAt(a, acts, outcomes, skip, i);
      assert acts[..n][..i] == acts[..i];
    }
  }

  // ---- the callers were told the same -------------------------------------------------------------

  /** From its first operation on, a live version change is the only one to act. */
  ghost predicate ActsAlone(w: World) {
    forall id :: id in w.txs && w.txs[id].mode.VersionChange? ==> AloneSince(w.acts, id)
  }

  ghost predicate AloneSince(acts: seq<(nat, Op)>, id: nat) {
    forall k, i :: 0 <= k <= i < |acts| && acts[k].0 == id ==> acts[i].0 == id
  }

  lemma AloneGrows(acts: seq<(nat, Op)>, id: nat, op: Op)
    requires AloneSince(acts, id)
    ensures AloneSince(acts + [(id, op)], id)
  {
    var more := acts + [(id, op)];
    forall k, i | 0 <= k <= i < |more| && more[k].0 == id
      ensures more[i].0 == id
    {
      if i < |acts| {
        assert acts[k].0 == id && acts[i] == more[i];
      }
    }
  }

  lemma OneLive(txs: map<nat, Tx>, id: nat, other: nat)
    requires Apart(txs) && id in txs && other in txs && txs[id].mode.VersionChange?
    ensures other == id
  {
  }

  lemma StepKeepsAlone(a: ADb, w: World, e: Event)
    requires Safe(a, w) && Allowed(w, e) && ActsAlone(w)
    ensures ActsAlone(Step(w, e))
  {
    hide Inv, Serial, TxsOk, RollAll, Apply;
    var x := Step(w, e);
    forall id | id in x.txs && x.txs[id].mode.VersionChange?
      ensures AloneSince(x.acts, id)
    {
      if e.Act? && e.tx in w.txs {
        OneLive(w.txs, id, e.tx);
        AloneGrows(w.acts, id, e.op);
      }
    }
  }

  lemma NotBeforeAlone(acts: seq<(nat, Op)>, id: nat, k: nat, i: nat)
    requires AloneSince(acts, id) && k < i < |acts| && acts[i].0 != id
    ensures acts[k].0 != id
  {
  }

  lemma NotBeforeSchema(acts: seq<(nat, Op)>, id: nat, stores: seq<string>, k: nat, i: nat)
    requires KeptToScope(acts, id, stores) && k < i < |acts| && !acts[i].1.Data?
    ensures acts[k].0 != id
  {
  }

  /** An abort changes nothing for an index creation that survives it: the aborted
      transaction had done nothing yet when the creation ran. */
  lemma BeforeAborted(a: ADb, w: World, id: nat, i: nat)
    requires Safe(a, w) && ActsAlone(w) && id in w.txs
    requires i < |w.acts| && w.acts[i].1.CreateIndex? && w.acts[i].0 != id
    ensures Serial(a, w.acts[..i], w.aborted + {id}) == Serial(a, w.acts[..i], w.aborted)
  {
    hide Inv, Serial, RollAll, DataLog, Unwinds, Abs, Apart, Numbered;
    assert TxOk(a, w.db, w.acts, w.aborted, id, w.txs[id]);
    forall k | 0 <= k < i
      ensures w.acts[..i][k].0 != id
    {
      if w.txs[id].mode.VersionChange? {
        NotBeforeAlone(w.acts, id, k, i);
      } else if w.txs[id].mode.ReadWrite? {
        NotBeforeSchema(w.acts, id, w.txs[id].stores, k, i);
      }
    }
    SkipAbsent(a, w.acts[..i], w.aborted, id);
  }

  lemma AbortReplays(a: ADb, w: World, id: nat, outcomes: seq<Outcome>)
    requires Safe(a, w) && ActsAlone(w) && id in w.txs
    requires |outcomes| == |w.acts| && Replays(a, w.acts, outcomes, w.aborted)
    ensures Replays(a, w.acts, outcomes, w.aborted + {id})
  {
    hide Safe, ActsAlone, AApply, Serial;
    forall i | 0 <= i < |w.acts|
      ensures ReplaysAt(a, w.acts, outcomes, w.aborted + {id}, i)
    {
      assert ReplaysAt(a, w.acts, outcomes, w.aborted, i);
      if w.acts[i].1.CreateIndex? && w.acts[i].0 != id {
        BeforeAborted(a, w, id, i);
      }
    }
  }

  /** The caller of an operation is told what the serial run says. */
  lemma ActTold(a: ADb, w: World, id: nat, op: Op)
    requires Safe(a, w) && Allowed(w, Act(id, op)) && id in w.txs
    ensures Apply(w.db, op).outcome == AApply(Serial(a, w.acts, w.aborted), op).outcome
  {
    hide AApply, Serial, Apply, TxsOk, Abs, Apart;
    OpRefines(w.db, op);
  }

  lemma ActReplays(a: ADb, acts: seq<(nat, Op)>, outcomes: seq<Outcome>, skip: set<nat>, id: nat, op: Op, outcome: Outcome)
    requires |outcomes| == |acts| && Replays(a, acts, outcomes, skip)
    requires outcome == AApply(Serial(a, acts, skip), op).outcome
    ensures Replays(a, acts + [(id, op)], outcomes + [outcome], skip)
  {
    hide AApply, Serial;
    var more, told := acts + [(id, op)], outcomes + [outcome];
    forall i | 0 <= i < |more|
      ensures ReplaysAt(a, more, told, skip, i)
    {
      if i < |acts| {
        assert ReplaysAt(a, acts, outcomes, skip, i);
        assert more[..i] == acts[..i];
      } else {
        assert more[..i] == acts;
      }
    }
  }

  lemma SeenGrows(w: World, h: seq<Event>)
    requires h != [] && w.acts == [] && |Seen(w, h[..|h| - 1])| == |Behave(w, h[..|h| - 1]).acts|
    ensures var front, last := h[..|h| - 1], h[|h| - 1];
            var v, x := Behave(w, front), Behave(w, h);
            if last.Act? && last.tx in v.txs
            then Seen(w, h) == Seen(w, front) + [Apply(v.db, last.op).outcome] && x.acts == v.acts + [(last.tx, last.op)] &&
                 x.aborted == v.aborted
            else Seen(w, h) == Seen(w, front) && x.acts == v.acts &&
                 x.aborted == v.aborted + if last.End? && last.tx in v.txs && !last.commit then {last.tx} else {}
  {
    hide Apply, RollAll;
  }

  /** In every reachable state the callers of the surviving index creations were
      told what the serial run says. */
  lemma {:induction false} RunReplays(db: Db, h: seq<Event>)
    requires Inv(db.content, db.nextId) && AllowedRun(Quiet(db), h)
    ensures var w := Behave(Quiet(db), h);
            |Seen(Quiet(db), h)| == |w.acts| && Replays(Abs(db.content), w.acts, Seen(Quiet(db), h), w.aborted) && ActsAlone(w)
    decreases |h|
  {
    hide Inv, Abs, Safe, Allowed, Step, Apply, Replays, ActsAlone;
    if h == [] {
      NothingYet(db);
    } else {
      var front, last := h[..|h| - 1], h[|h| - 1];
      var w, a := Behave(Quiet(db), front), Abs(db.content);
      RunReplays(db, front);
      RunsAreIsolated(db, front);
      SeenAll(Quiet(db), h);
      SeenGrows(Quiet(db), h);
      StepKeepsAlone(a, w, last);
      if last.Act? && last.tx in w.txs {
        ActTold(a, w, last.tx, last.op);
        ActReplays(a, w.acts, Seen(Quiet(db), front), w.aborted, last.tx, last.op, Apply(w.db, last.op).outcome);
      } else if last.End? && last.tx in w.txs && !last.commit {
        AbortReplays(a, w, last.tx, Seen(Quiet(db), front));
      } else {
        assert w.aborted + {} == w.aborted;
      }
    }
  }

  lemma NothingYet(db: Db)
    ensures ActsAlone(Quiet(db)) && Replays(Abs(db.content), [], [], {})
  {
  }

  /** In every reachable state, an index that is unique and yet has one key for two
      records is one whose creation told its caller so and has not been aborted,
      under the name it has now. No other index ever is. */
  lemma UniqueIndexesStayUnique(db: Db, h: seq<Event>, m: string, n: string)
    requires Inv(db.content, db.nextId) && AllHonest(Abs(db.content)) && AllowedRun(Quiet(db), h)
    requires Bad(Abs(Behave(Quiet(db), h).db.content), m, n)
    ensures var w, told := Behave(Quiet(db), h), Seen(Quiet(db), h);
            |told| == |w.acts| && (m, n) in Faulty(w.acts, told, w.aborted) &&
            exists i :: 0 <= i < |w.acts| && w.acts[i].0 !in w.aborted && w.acts[i].1.CreateIndex? && told[i] == NotUnique
  {
    hide Inv, Abs, Bad, Replays, Faulty;
    var w, a := Behave(Quiet(db), h), Abs(db.content);
    RunsAreIsolated(db, h);
    RunReplays(db, h);
    SerialCovers(a, w.acts, Seen(Quiet(db), h), w.aborted);
    FaultIsReported(w.acts, Seen(Quiet(db), h), w.aborted);
  }
}
