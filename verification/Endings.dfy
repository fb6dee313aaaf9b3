/** Transactions as the locks have them. Ending one lets go of the transaction
    table before the data is locked to play its log back, and between the two
    anyone may begin. Where nobody that overlaps does, this is the transaction
    system; where one does, isolation is lost. */
module Endings {
  import opened ByteStrings
  import opened Options
  import opened Keys
  import opened Values
  import opened Engine
  import opened Operations
  import opened Schema
  import opened Spec
  import opened Transactions
  import opened Isolation
  import opened Guarantees

  /** What is done in one hold of the locks. */
  datatype Turn =
    | Admit(mode: Mode, stores: seq<string>)
    | Operate(tx: nat, op: Op)
    | Release(tx: nat, commit: bool)
    | PlayBack(tx: nat)

  /** The database, the transactions in the table, and those taken out of it whose
      log has not been played back yet. */
  datatype Locked = Locked(db: Db, txs: map<nat, Tx>, ending: map<nat, Tx>, nextTx: nat, acts: seq<(nat, Op)>,
                           aborted: set<nat>)

  ghost function TakeTurn(s: Locked, e: Turn): Locked {
    match e
    case Admit(mode, stores) =>
      if Admits(s.txs, mode, stores) then s.(txs := s.txs[s.nextTx := Tx(mode, stores, [])], nextTx := s.nextTx + 1)
      else s
    case Operate(id, op) =>
      if id !in s.txs then s
      else
        var r, t := Apply(s.db, op), s.txs[id];
        s.(db := r.db, txs := s.txs[id := t.(undo := t.undo + r.log)], acts := s.acts + [(id, op)])
    case Release(id, commit) =>
      if id !in s.txs then s
      else if commit then s.(txs := s.txs - {id})
      else if s.txs[id].undo == [] then s.(txs := s.txs - {id}, aborted := s.aborted + {id})
      else s.(txs := s.txs - {id}, ending := s.ending[id := s.txs[id]])
    case PlayBack(id) =>
      if id !in s.ending then s
      else s.(db := s.db.(content := RollAll(s.db.content, s.ending[id].undo)), ending := s.ending - {id},
              aborted := s.aborted + {id})
  }

  ghost function AfterTurns(s: Locked, h: seq<Turn>): Locked
    decreases |h|
  {
    if h == [] then s else TakeTurn(AfterTurns(s, h[..|h| - 1]), h[|h| - 1])
  }

  /** A database with no transaction yet. */
  ghost function Opened(db: Db): Locked {
    Locked(db, map[], map[], 1, [], {})
  }

  // ---- as the transaction system has it -------------------------------------------------------

  /** A transaction counts as live until its log has been played back. */
  ghost function AsWorld(s: Locked): World {
    World(s.db, s.txs + s.ending, s.nextTx, s.acts, s.aborted)
  }

  /** The page-facing objects let the transaction do it. */
  ghost predicate Permitted(s: Locked, e: Turn) {
    e.Operate? && e.tx in s.txs ==> Allowed(AsWorld(s), Act(e.tx, e.op))
  }

  /** A transaction begins although its stores are still to be rolled back. */
  predicate OvertakesRollback(s: Locked, e: Turn) {
    e.Admit? && Admits(s.txs, e.mode, e.stores) && !Admits(s.ending, e.mode, e.stores)
  }

  ghost predicate PermittedRun(s: Locked, h: seq<Turn>)
    decreases |h|
  {
    h == [] ||
    var front, last := h[..|h| - 1], h[|h| - 1];
    PermittedRun(s, front) && Permitted(AfterTurns(s, front), last)
  }

  ghost predicate Orderly(s: Locked, h: seq<Turn>)
    decreases |h|
  {
    h == [] ||
    var front, last := h[..|h| - 1], h[|h| - 1];
    Orderly(s, front) && !OvertakesRollback(AfterTurns(s, front), last)
  }

  /** The step a turn is, if it is one: an abort that has something to play back
      happens when it is played back. */
  function StepOf(s: Locked, e: Turn): Option<Event> {
    match e
    case Admit(mode, stores) => Some(Begin(mode, stores))
    case Operate(id, op) => if id in s.txs then Some(Act(id, op)) else None
    case Release(id, commit) => if id in s.txs && (commit || s.txs[id].undo == []) then Some(End(id, commit)) else None
    case PlayBack(id) => if id in s.ending then Some(End(id, false)) else None
  }

  ghost function Steps(s: Locked, h: seq<Turn>): seq<Event>
    decreases |h|
  {
    if h == [] then []
    else
      var e := StepOf(AfterTurns(s, h[..|h| - 1]), h[|h| - 1]);
      Steps(s, h[..|h| - 1]) + if e.Some? then [e.value] else []
  }

  /** No transaction is in two places, and numbers are not given twice. */
  ghost predicate Separate(s: Locked) {
    s.txs.Keys !! s.ending.Keys && forall id :: id in s.txs || id in s.ending ==> id < s.nextTx
  }

  lemma TakeKeepsSeparate(s: Locked, e: Turn)
    requires Separate(s)
    ensures Separate(TakeTurn(s, e))
  {
    hide Apply, RollAll, Admits;
  }

  lemma AdmitIsStep(s: Locked, mode: Mode, stores: seq<string>)
    requires Separate(s) && !OvertakesRollback(s, Admit(mode, stores))
    ensures AsWorld(TakeTurn(s, Admit(mode, stores))) == Step(AsWorld(s), Begin(mode, stores))
  {
    hide Conflicts;
    var all := s.txs + s.ending;
    assert Admits(all, mode, stores) <==> Admits(s.txs, mode, stores) && Admits(s.ending, mode, stores) by {
      assert forall id :: id in s.txs ==> id in all && all[id] == s.txs[id];
      assert forall id :: id in s.ending ==> id in all && all[id] == s.ending[id];
    }
    if Admits(s.txs, mode, stores) {
      var t := Tx(mode, stores, []);
      assert s.txs[s.nextTx := t] + s.ending == all[s.nextTx := t];
    }
  }

  lemma OperateIsStep(s: Locked, id: nat, op: Op)
    requires Separate(s) && id in s.txs
    ensures AsWorld(TakeTurn(s, Operate(id, op))) == Step(AsWorld(s), Act(id, op))
  {
    hide Apply;
    var t := TakeTurn(s, Operate(id, op));
    assert t.txs + t.ending == (s.txs + s.ending)[id := t.txs[id]];
  }

  lemma ReleaseIsStep(s: Locked, id: nat, commit: bool)
    requires Separate(s)
    ensures var x := AsWorld(TakeTurn(s, Release(id, commit)));
            x == if StepOf(s, Release(id, commit)).Some? then Step(AsWorld(s), End(id, commit)) else AsWorld(s)
  {
    hide Apply;
    if id in s.txs {
      var all := s.txs + s.ending;
      if commit || s.txs[id].undo == [] {
        assert s.txs - {id} + s.ending == all - {id};
      } else {
        assert s.txs - {id} + s.ending[id := s.txs[id]] == all;
      }
    }
  }

  lemma PlayBackIsStep(s: Locked, id: nat)
    requires Separate(s) && id in s.ending
    ensures AsWorld(TakeTurn(s, PlayBack(id))) == Step(AsWorld(s), End(id, false))
  {
    hide RollAll;
    assert s.txs + (s.ending - {id}) == s.txs + s.ending - {id};
  }

  /** Without overtaking every turn is a step, or none. */
  lemma TurnIsStep(s: Locked, e: Turn)
    requires Separate(s) && Permitted(s, e) && !OvertakesRollback(s, e)
    ensures var x := StepOf(s, e);
            if x.Some? then AsWorld(TakeTurn(s, e)) == Step(AsWorld(s), x.value) && Allowed(AsWorld(s), x.value)
            else AsWorld(TakeTurn(s, e)) == AsWorld(s)
  {
    hide TakeTurn, AsWorld, Step, OvertakesRollback;
    match e {
      case Admit(mode, stores) => AdmitIsStep(s, mode, stores);
      case Operate(id, op) =>
        if id in s.txs {
          OperateIsStep(s, id, op);
        } else {
          Idle(s, e);
        }
      case Release(id, commit) => ReleaseIsStep(s, id, commit);
      case PlayBack(id) =>
        if id in s.ending {
          PlayBackIsStep(s, id);
        } else {
          Idle(s, e);
        }
    }
  }

  lemma Idle(s: Locked, e: Turn)
    requires (e.Operate? && e.tx !in s.txs) || (e.PlayBack? && e.tx !in s.ending)
    ensures TakeTurn(s, e) == s
  {
  }

  lemma {:induction false} TurnsAreSteps(db: Db, h: seq<Turn>)
    requires PermittedRun(Opened(db), h) && Orderly(Opened(db), h)
    ensures var s, g := AfterTurns(Opened(db), h), Steps(Opened(db), h);
            AllowedRun(Quiet(db), g) && AsWorld(s) == Behave(Quiet(db), g) && Separate(s)
    decreases |h|
  {
    hide TakeTurn, AsWorld, Step, OvertakesRollback, Permitted, Separate, StepOf, Allowed;
    if h == [] {
      AtFirst(db);
    } else {
      var front, last := h[..|h| - 1], h[|h| - 1];
      TurnsAreSteps(db, front);
      var s, g := AfterTurns(Opened(db), front), Steps(Opened(db), front);
      TurnIsStep(s, last);
      TakeKeepsSeparate(s, last);
      var e := StepOf(s, last);
      if e.Some? {
        assert (g + [e.value])[..|g|] == g;
      } else {
        assert g + [] == g;
      }
    }
  }

  lemma AtFirst(db: Db)
    ensures AsWorld(Opened(db)) == Quiet(db) && Separate(Opened(db))
  {
    var none: map<nat, Tx> := map[];
    assert none + none == none;
  }

  /** Isolation under the locks: where no transaction begins over stores that are
      still to be rolled back, the data is what the operations of the transactions
      not yet rolled back give alone, and the index invariant holds. */
  lemma OrderlyRunsAreIsolated(db: Db, h: seq<Turn>)
    requires Inv(db.content, db.nextId) && PermittedRun(Opened(db), h) && Orderly(Opened(db), h)
    ensures var s := AfterTurns(Opened(db), h);
            Abs(s.db.content) == Serial(Abs(db.content), s.acts, s.aborted) && Inv(s.db.content, s.db.nextId) &&
            Apart(s.txs + s.ending) && Safe(Abs(db.content), AsWorld(s))
  {
    hide Inv, Safe, Abs, Apart, Behave, AllowedRun;
    TurnsAreSteps(db, h);
    RunsAreIsolated(db, Steps(Opened(db), h));
  }

  /** And while a transaction is in the table, nobody else's turn changes a store in
      its scope. */
  lemma OrderlyReadsAreStable(db: Db, h: seq<Turn>, e: Turn, id: nat, n: string)
    requires Inv(db.content, db.nextId) && PermittedRun(Opened(db), h + [e]) && Orderly(Opened(db), h + [e])
    requires var s := AfterTurns(Opened(db), h); id in s.txs && !s.txs[id].mode.VersionChange? && n in s.txs[id].stores
    requires e.Admit? || e.tx != id
    ensures var s := AfterTurns(Opened(db), h);
            At(Abs(TakeTurn(s, e).db.content), n) == At(Abs(s.db.content), n)
  {
    hide Inv, Abs, At, Step, TakeTurn, OvertakesRollback, Permitted, Allowed;
    assert (h + [e])[..|h|] == h;
    TurnsAreSteps(db, h);
    var s, g := AfterTurns(Opened(db), h), Steps(Opened(db), h);
    TurnIsStep(s, e);
    if StepOf(s, e).Some? {
      var x := StepOf(s, e).value;
      assert (g + [x])[..|g|] == g;
      ReadsAreStable(db, g, x, id, n);
    }
  }

  // ---- overtaking ------------------------------------------------------------------------------

  const KEY := Bin([])

  /** A put without a generator, an index or a record in the way. */
  function KeyPut(n: string): Op {
    Data(n, Put(Prepared(Some(KEY), Null, false), false))
  }

  function OneStore(n: string, records: map<Bytes, Record>): Db {
    Db(Content(0, map[0 := Store(n, NoPath, false, 1, records, map[])]), 0)
  }

  function OneRecord(): map<Bytes, Record> {
    map[Encode(KEY) := Record(Null, map[])]
  }

  lemma OneStoreInv(n: string, records: map<Bytes, Record>)
    requires records == map[] || records == OneRecord()
    ensures var db := OneStore(n, records); Inv(db.content, 0) && StoreId(db.content, n) == Some(0)
  {
    hide Encode;
    assert IsEncoding(Encode(KEY));
    var c := OneStore(n, records).content;
    assert 0 in c.stores && c.stores[0].name == n;
  }

  lemma KeyPutEffect(s: Store)
    requires s.indexes == map[] && s.keyPath == NoPath && !s.autoInc
    ensures var e := PutEffect(0, s, Prepared(Some(KEY), Null, false), false);
            e.store == s.(records := s.records[Encode(KEY) := Record(Null, map[])]) && |e.log| == 1
  {
    hide Encode;
    assert NewRecord(s, Null).ikeys == map[];
    assert forall pk, r: Record :: Unindexed(s.indexes, pk, r) == map[];
    assert Reindexed(map[], Encode(KEY), Record(Null, map[])) == map[];
  }

  /** The put stores the record, can be undone when it was the first, and changes
      nothing when it is the second. */
  lemma KeyPutApplied(n: string, again: bool)
    ensures var db := OneStore(n, if again then OneRecord() else map[]);
            var r := Apply(db, KeyPut(n));
            r.db == OneStore(n, OneRecord()) && r.log != [] && Inv(db.content, db.nextId) &&
            (!again ==> RollAll(r.db.content, r.log) == db.content)
  {
    hide Encode, PutEffect, RollAll, Inv, Undoable, Unwinds;
    var db := OneStore(n, if again then OneRecord() else map[]);
    OneStoreInv(n, if again then OneRecord() else map[]);
    KeyPutEffect(db.content.stores[0]);
    OpUndoable(db, KeyPut(n));
    KeyPutUnwinds(db, n);
    var s := db.content.stores[0];
    assert s.records[Encode(KEY) := Record(Null, map[])] == OneRecord();
    assert db.content.stores[0 := s.(records := OneRecord())] == OneStore(n, OneRecord()).content.stores;
  }

  lemma KeyPutUnwinds(db: Db, n: string)
    requires Inv(db.content, db.nextId)
    ensures var r := Apply(db, KeyPut(n)); RollAll(r.db.content, r.log) == db.content
  {
    hide Apply, RollAll, Unwinds;
    OpUndoable(db, KeyPut(n));
    var r := Apply(db, KeyPut(n));
    UnwindsReaches(r.db.content, r.log, db.content, r.db.nextId);
  }

  /** The record can be seen. */
  lemma RecordShows(n: string)
    ensures At(Abs(OneStore(n, map[]).content), n) != At(Abs(OneStore(n, OneRecord()).content), n)
  {
    hide Encode;
    OneStoreInv(n, map[]);
    OneStoreInv(n, OneRecord());
    var c, d := OneStore(n, map[]).content, OneStore(n, OneRecord()).content;
    InvNames(c, 0);
    InvNames(d, 0);
    FindStore(c, n);
    FindStore(d, n);
    assert Encode(KEY) in AbsStore(d.stores[0]).records && Encode(KEY) !in AbsStore(c.stores[0]).records;
  }

  lemma OneMoreTurn(s: Locked, h: seq<Turn>, e: Turn)
    requires PermittedRun(s, h) && Permitted(AfterTurns(s, h), e)
    ensures PermittedRun(s, h + [e]) && AfterTurns(s, h + [e]) == TakeTurn(AfterTurns(s, h), e)
  {
    hide TakeTurn, Permitted;
    assert (h + [e])[..|h|] == h;
  }

  /** What a transaction of a mode may read, and write unless it is read-only. */
  predicate Sees(mode: Mode, stores: seq<string>, n: string) {
    mode.VersionChange? || n in stores
  }

  lemma KeyPutPermitted(s: Locked, id: nat, n: string)
    requires id in s.txs && id !in s.ending && !s.txs[id].mode.ReadOnly? && Sees(s.txs[id].mode, s.txs[id].stores, n)
    ensures Permitted(s, Operate(id, KeyPut(n)))
  {
  }

  ghost function FirstLog(n: string): seq<Undo> {
    Apply(OneStore(n, map[]), KeyPut(n)).log
  }

  /** A transaction stores the record. */
  lemma Wrote(m: Mode, scope: seq<string>, n: string) returns (h: seq<Turn>)
    requires !m.ReadOnly? && Sees(m, scope, n)
    ensures PermittedRun(Opened(OneStore(n, map[])), h)
    ensures AfterTurns(Opened(OneStore(n, map[])), h) ==
            Locked(OneStore(n, OneRecord()), map[1 := Tx(m, scope, FirstLog(n))], map[], 2, [(1, KeyPut(n))], {})
  {
    hide Apply, KeyPut, OneStore, OneRecord, AfterTurns, PermittedRun;
    var s := Opened(OneStore(n, map[]));
    NoTurns(s);
    KeyPutApplied(n, false);
    h := [];
    OneMoreTurn(s, h, Admit(m, scope));
    h := h + [Admit(m, scope)];
    KeyPutPermitted(AfterTurns(s, h), 1, n);
    OneMoreTurn(s, h, Operate(1, KeyPut(n)));
    h := h + [Operate(1, KeyPut(n))];
    assert [] + FirstLog(n) == FirstLog(n);
  }

  /** A transaction stores the record, is to be aborted, and before its log is played
      back another one begins that sees the same store. */
  lemma Overtaken(m1: Mode, s1: seq<string>, m2: Mode, s2: seq<string>, n: string) returns (h: seq<Turn>)
    requires !m1.ReadOnly? && Sees(m1, s1, n)
    ensures PermittedRun(Opened(OneStore(n, map[])), h)
    ensures AfterTurns(Opened(OneStore(n, map[])), h) ==
            Locked(OneStore(n, OneRecord()), map[2 := Tx(m2, s2, [])], map[1 := Tx(m1, s1, FirstLog(n))], 3,
                   [(1, KeyPut(n))], {})
  {
    hide Apply, KeyPut, OneStore, OneRecord, AfterTurns, PermittedRun, FirstLog;
    var s := Opened(OneStore(n, map[]));
    FirstLogged(n);
    h := Wrote(m1, s1, n);
    OneMoreTurn(s, h, Release(1, false));
    h := h + [Release(1, false)];
    OneMoreTurn(s, h, Admit(m2, s2));
    h := h + [Admit(m2, s2)];
  }

  lemma FirstLogged(n: string)
    ensures FirstLog(n) != []
  {
    hide Apply;
    KeyPutApplied(n, false);
  }

  lemma NoTurns(s: Locked)
    ensures PermittedRun(s, []) && AfterTurns(s, []) == s
  {
  }

  lemma OvertakenLoses(m1: Mode, s1: seq<string>, m2: Mode, s2: seq<string>, n: string) returns (h: seq<Turn>)
    requires !m1.ReadOnly? && Sees(m1, s1, n) && Sees(m2, s2, n)
    ensures var db := OneStore(n, map[]); var s := AfterTurns(Opened(db), h);
            Inv(db.content, db.nextId) && PermittedRun(Opened(db), h) &&
            if m2.ReadOnly? then
              2 in s.txs && s.txs[2].mode == m2 && s.txs[2].stores == s2 &&
              At(Abs(TakeTurn(s, PlayBack(1)).db.content), n) != At(Abs(s.db.content), n)
            else
              s.txs == map[] && s.ending == map[] && s.aborted == {1} &&
              Abs(s.db.content) != Serial(Abs(db.content), s.acts, s.aborted)
  {
    hide Apply, KeyPut, OneStore, OneRecord, AfterTurns, PermittedRun, RollAll, Abs, Inv, Serial, At;
    h := Overtaken(m1, s1, m2, s2, n);
    KeyPutApplied(n, false);
    RecordShows(n);
    if !m2.ReadOnly? {
      var s := Opened(OneStore(n, map[]));
      KeyPutApplied(n, true);
      KeyPutPermitted(AfterTurns(s, h), 2, n);
      OneMoreTurn(s, h, Operate(2, KeyPut(n)));
      h := h + [Operate(2, KeyPut(n))];
      OneMoreTurn(s, h, Release(2, true));
      h := h + [Release(2, true)];
      OneMoreTurn(s, h, PlayBack(1));
      h := h + [PlayBack(1)];
      SecondAlone(n);
    }
  }

  /** The serial run of the second put alone has the record. */
  lemma SecondAlone(n: string)
    ensures var a := Abs(OneStore(n, map[]).content);
            Serial(a, [(1, KeyPut(n))] + [(2, KeyPut(n))], {1}) == Abs(OneStore(n, OneRecord()).content)
  {
    hide Apply, AApply, OneStore, OneRecord, Abs, Inv;
    var a, acts := Abs(OneStore(n, map[]).content), [(1, KeyPut(n))] + [(2, KeyPut(n))];
    KeyPutApplied(n, false);
    OpRefines(OneStore(n, map[]), KeyPut(n));
    assert acts[..1] == [(1, KeyPut(n))];
    assert Serial(a, acts[..1], {1}) == a;
  }

  /** A scope, which only a version change may leave empty. */
  predicate Scoped(mode: Mode, stores: seq<string>) {
    mode.VersionChange? || stores != []
  }

  lemma ConflictIsShared(t: Tx, mode: Mode, stores: seq<string>) returns (n: string)
    requires Scoped(t.mode, t.stores) && Scoped(mode, stores) && Conflicts(t, mode, stores)
    ensures Sees(t.mode, t.stores, n) && Sees(mode, stores, n)
  {
    if t.mode.VersionChange? && mode.VersionChange? {
      n := "";
    } else if t.mode.VersionChange? {
      n := stores[0];
    } else if mode.VersionChange? {
      n := t.stores[0];
    } else {
      n :| n in t.stores && n in stores;
    }
  }

  /** And nothing weaker will do. For any writer and any transaction that conflicts
      with it there is a run in which the second begins while the log of the first
      is still to be played back, and isolation is lost: a reader sees a store
      change under it, what a writer wrote and committed is gone. */
  lemma OvertakingBreaks(t: Tx, mode: Mode, stores: seq<string>) returns (n: string, h: seq<Turn>)
    requires !t.mode.ReadOnly? && Scoped(t.mode, t.stores) && Scoped(mode, stores) && Conflicts(t, mode, stores)
    ensures var db := OneStore(n, map[]); var s := AfterTurns(Opened(db), h);
            Inv(db.content, db.nextId) && PermittedRun(Opened(db), h) && Sees(mode, stores, n) &&
            if mode.ReadOnly? then
              2 in s.txs && s.txs[2].mode == mode && s.txs[2].stores == stores &&
              At(Abs(TakeTurn(s, PlayBack(1)).db.content), n) != At(Abs(s.db.content), n)
            else
              s.txs == map[] && s.ending == map[] && s.aborted == {1} &&
              Abs(s.db.content) != Serial(Abs(db.content), s.acts, s.aborted)
  {
    n := ConflictIsShared(t, mode, stores);
    h := OvertakenLoses(t.mode, t.stores, mode, stores, n);
  }
}
