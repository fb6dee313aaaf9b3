/** What the standard's database keeps over any run of operations, and with it
    the engine: fresh generated keys, unique indexes, and puts that do all or
    nothing. */
module Guarantees {
  import opened ByteStrings
  import opened Doubles
  import opened Options
  import opened Keys
  import opened Values
  import opened Engine
  import opened Operations
  import opened Schema
  import opened ByName
  import opened Spec
  import opened Transactions
  import opened Isolation

  // ---- indexes are views -------------------------------------------------------------

  /** An index holds exactly the key and primary key pairs of the records' own
      values. */
  lemma IndexIsView(s: Store, i: nat, top: nat, e: Bytes)
    requires StoreInv(s, top) && i in s.indexes
    ensures e in s.indexes[i].entries <==>
            exists pk, k :: pk in AbsStore(s).records &&
                            k in IndexKeys(AbsStore(s).records[pk], s.indexes[i].def) && e == k + pk
  {
    assert IndexInv(s.records, i, s.indexes[i]);
    if e in s.indexes[i].entries {
      var pk, k :| pk in s.records && k in KeysIn(s.records[pk], i) && e == k + pk;
      assert pk in AbsStore(s).records && AbsStore(s).records[pk] == s.records[pk].value;
    }
    if pk, k :| pk in AbsStore(s).records && k in IndexKeys(AbsStore(s).records[pk], s.indexes[i].def) && e == k + pk {
      assert pk in s.records && k in KeysIn(s.records[pk], i);
    }
  }

  /** Every index hit finds its record: the lookup by the primary key split off
      an entry never fails. */
  lemma HitHasRecord(s: Store, i: nat, top: nat, e: Bytes)
    requires StoreInv(s, top) && i in s.indexes && e in s.indexes[i].entries
    ensures var (k, pk) := Split(e);
            IsEncoding(k) && IsEncoding(pk) && k + pk == e &&
            pk in s.records && k in IndexKeys(s.records[pk].value, s.indexes[i].def)
  {
    assert IndexInv(s.records, i, s.indexes[i]);
    var pk, k :| pk in s.records && k in KeysIn(s.records[pk], i) && e == k + pk;
    assert RecordInv(pk, s.records[pk], top);
    SplitRecovers(k, pk);
  }

  // ---- put is all or nothing -----------------------------------------------------------

  /** The two contents differ in key generators at most. */
  ghost predicate OnlyGeneratorsMoved(c: Content, d: Content) {
    c.version == d.version && c.stores.Keys == d.stores.Keys &&
    forall i :: i in c.stores ==> d.stores[i] == c.stores[i].(next := d.stores[i].next)
  }

  /** A put that fails leaves the whole database alone: every record and every
      index entry. Only the generator may have moved, with the undo entry for it. */
  lemma PutIsAllOrNothing(db: Db, store: string, prep: Prepared, noOverwrite: bool)
    ensures var r := Apply(db, Data(store, Put(prep, noOverwrite)));
            !r.outcome.Stored? ==> OnlyGeneratorsMoved(db.content, r.db.content) && |r.log| <= 1
  {
    hide PutEffect;
    var c := db.content;
    if StoreId(c, store).Some? {
      var sid := StoreId(c, store).value;
      FailedPut(sid, c.stores[sid], prep, noOverwrite);
    }
  }

  lemma FailedPut(sid: nat, s: Store, prep: Prepared, noOverwrite: bool)
    ensures var e := PutEffect(sid, s, prep, noOverwrite);
            !e.outcome.Stored? ==> e.store == s.(next := e.store.next) && |e.log| <= 1
  {
    hide Clashes, Replace, NewRecord, Written, PutKey, NextNumber;
  }

  /** A put under a key says what is stored: that record and no other. */
  lemma PutStoresOne(a: AStore, prep: Prepared, noOverwrite: bool)
    requires APut(a, prep, noOverwrite).outcome.Stored?
    ensures var e := APut(a, prep, noOverwrite); var pk := Encode(e.outcome.key);
            (prep.key.Some? ==> e.outcome.key == prep.key.value) &&
            (noOverwrite ==> pk !in a.records) && pk in e.store.records &&
            e.store.records - {pk} == a.records - {pk} && e.store.indexes == a.indexes
  {
    var e := APut(a, prep, noOverwrite);
    var pk := Encode(e.outcome.key);
    assert e.store.records == a.records[pk := e.store.records[pk]];
  }

  // ---- generated keys -------------------------------------------------------------------

  /** Every number among the keys of a generator's store is below its next
      number, until that has reached 2^53. */
  ghost predicate Fresh(a: AStore) {
    a.autoInc && a.next < TWO_53 ==>
      forall x :: Encode(Num(x)) in a.records ==> Value(x) < a.next * Unit()
  }

  ghost predicate AllFresh(a: ADb) {
    forall n :: n in a.stores ==> Fresh(a.stores[n]) && a.stores[n].next <= TWO_53
  }

  lemma SameNumberSameValue(x: Double, k: Key)
    requires Encode(Num(x)) == Encode(k)
    ensures k.Num? && Value(k.x) == Value(x)
  {
    OrderTheorem(Num(x), k);
  }

  /** The whole part of a number, plus one, is above it. */
  lemma BelowFloorPlusOne(x: Double)
    requires Value(x) >= 0
    ensures Value(x) < (Floor(x) + 1) * Unit()
  {
    Remainder(Value(x), Unit());
  }

  lemma Remainder(v: nat, u: nat)
    requires u > 0
    ensures v < (v / u + 1) * u
  {
    assert v == (v / u) * u + v % u;
  }

  /** A put key is below the generator it leaves behind. */
  lemma PutKeyBelow(a: AStore, prep: Prepared, x: Double)
    requires a.autoInc && a.next <= TWO_53
    requires NextNumber(a.autoInc, a.next, prep.key) < TWO_53
    requires Encode(Num(x)) == Encode(PutKey(a.next, prep))
    ensures Value(x) < NextNumber(a.autoInc, a.next, prep.key) * Unit()
  {
    hide OfNat, Value, Encode, Floor;
    var key := PutKey(a.next, prep);
    SameNumberSameValue(x, key);
    PlusOneSaturates(a.next);
    if prep.key.None? {
      OfNatExact(a.next);
      BelowNext(a.next, Unit());
    } else if Overtakes(a.autoInc, a.next, key) {
      BumpedNumber(key.x, a.next);
      BelowFloorPlusOne(key.x);
    }
  }

  lemma BelowNext(n: nat, u: nat)
    requires u > 0
    ensures n * u < (n + 1) * u
  {
  }

  lemma PutKeepsFresh(a: AStore, prep: Prepared, noOverwrite: bool)
    requires Fresh(a) && a.next <= TWO_53
    ensures var b := APut(a, prep, noOverwrite).store; Fresh(b) && b.next <= TWO_53
  {
    var e := APut(a, prep, noOverwrite);
    var b := e.store;
    NextNumberInRange(a.autoInc, a.next, prep.key);
    if b.autoInc && b.next < TWO_53 {
      forall x | Encode(Num(x)) in b.records
        ensures Value(x) < b.next * Unit()
      {
        if Encode(Num(x)) in a.records {
          Scale(a.next, b.next, Unit());
        } else {
          PutKeyBelow(a, prep, x);
        }
      }
    }
  }

  lemma OpKeepsFresh(a: ADb, op: Op)
    requires AllFresh(a)
    ensures AllFresh(AApply(a, op).db)
  {
    if op.Data? && op.store in a.stores && op.op.Put? {
      PutKeepsFresh(a.stores[op.store], op.op.prep, op.op.noOverwrite);
    }
  }

  lemma {:induction false} SerialIsFresh(a: ADb, acts: seq<(nat, Op)>, skip: set<nat>)
    requires AllFresh(a)
    ensures AllFresh(Serial(a, acts, skip))
    decreases |acts|
  {
    if acts != [] {
      SerialIsFresh(a, acts[..|acts| - 1], skip);
      OpKeepsFresh(Serial(a, acts[..|acts| - 1], skip), acts[|acts| - 1].1);
    }
  }

  /** A generated key is new while the generator is below 2^53, and the
      generator is never found used up. */
  lemma FreshStoreFreshKey(a: AStore, prep: Prepared)
    requires Fresh(a) && a.autoInc && a.next <= TWO_53 && prep.key.None?
    ensures APut(a, prep, true).outcome != GeneratorFull
    ensures Encode(PutKey(a.next, prep)) in a.records ==> a.next == TWO_53
  {
    if a.next < TWO_53 {
      OfNatExact(a.next);
    }
  }

  lemma ReachableIsFresh(db: Db, h: seq<Event>)
    requires Inv(db.content, db.nextId) && AllFresh(Abs(db.content)) && AllowedRun(Quiet(db), h)
    ensures AllFresh(Abs(Behave(Quiet(db), h).db.content))
  {
    var w := Behave(Quiet(db), h);
    RunsAreIsolated(db, h);
    SerialIsFresh(Abs(db.content), w.acts, w.aborted);
  }

  /** In every reachable state, across explicit keys, failed puts, deletes and
      aborts, a generated key is new while the generator is below 2^53. */
  lemma GeneratedKeysAreFresh(db: Db, h: seq<Event>, n: string, prep: Prepared)
    requires Inv(db.content, db.nextId) && AllFresh(Abs(db.content)) && AllowedRun(Quiet(db), h)
    requires var a := Abs(Behave(Quiet(db), h).db.content);
             n in a.stores && a.stores[n].autoInc && prep.key.None?
    ensures var a := Abs(Behave(Quiet(db), h).db.content).stores[n];
            a.next <= TWO_53 && APut(a, prep, true).outcome != GeneratorFull &&
            (Encode(PutKey(a.next, prep)) in a.records ==> a.next == TWO_53)
  {
    ReachableIsFresh(db, h);
    FreshStoreFreshKey(Abs(Behave(Quiet(db), h).db.content).stores[n], prep);
  }

  /** At 2^53 the generator stays where it is, since 2^53 + 1 is no double: it
      hands out the same key again, and the error for a used-up generator
      (section 2.11) never comes. */
  lemma SaturatedGeneratorRepeats(a: AStore, first: Prepared, again: Prepared, noOverwrite: bool)
    requires a.next == TWO_53 && first.key.None? && again.key.None?
    requires APut(a, first, noOverwrite).outcome.Stored?
    ensures var b := APut(a, first, noOverwrite).store;
            b.next == TWO_53 && Encode(PutKey(b.next, again)) in b.records &&
            APut(b, again, true).outcome == KeyExists
  {
    PlusOneSaturates(TWO_53);
  }

  // ---- a run to the end of the numbers -------------------------------------------------

  /** One more operation of a version-change transaction, seen from outside. */
  lemma OneAct(db: Db, h: seq<Event>, id: nat, op: Op)
    requires Inv(db.content, db.nextId) && AllowedRun(Quiet(db), h)
    requires var w := Behave(Quiet(db), h);
             id in w.txs && w.txs[id].mode.VersionChange? && id !in w.aborted && Legal(w.db.content, op)
    ensures var w, x := Behave(Quiet(db), h), Behave(Quiet(db), h + [Act(id, op)]);
            AllowedRun(Quiet(db), h + [Act(id, op)]) && id in x.txs && x.txs[id].mode.VersionChange? &&
            x.aborted == w.aborted && Abs(x.db.content) == AApply(Abs(w.db.content), op).db &&
            Apply(w.db, op).outcome == AApply(Abs(w.db.content), op).outcome
  {
    hide Abs, AApply, Apply;
    assert (h + [Act(id, op)])[..|h|] == h;
    RunsAreIsolated(db, h);
    OpRefines(Behave(Quiet(db), h).db, op);
  }

  function PutOf(key: Option<Key>, noOverwrite: bool): Op {
    Data("s", Put(Prepared(key, Null, false), noOverwrite))
  }

  /** The stores after a put into a store without indexes. */
  lemma PlainPut(a: ADb, key: Option<Key>, noOverwrite: bool)
    requires "s" in a.stores && a.stores["s"].indexes == map[] && a.stores["s"].autoInc && a.stores["s"].next <= TWO_53
    requires !noOverwrite
    ensures var r := AApply(a, PutOf(key, noOverwrite));
            "s" in r.db.stores && r.db.stores["s"].indexes == map[] && r.db.stores["s"].autoInc &&
            r.db.stores["s"].next == NextNumber(true, a.stores["s"].next, key) && r.outcome.Stored? &&
            r.db.stores["s"] == APut(a.stores["s"], Prepared(key, Null, false), noOverwrite).store
  {
    assert !Taken(a.stores["s"], Encode(PutKey(a.stores["s"].next, Prepared(key, Null, false))), Null);
  }

  lemma LastNumber()
    ensures NextNumber(true, 1, Some(Num(OfNat(TWO_53 - 1)))) == TWO_53
    ensures NextNumber(true, TWO_53, None) == TWO_53
  {
    OfNatExact(TWO_53 - 1);
    var x, u := OfNat(TWO_53 - 1), Unit();
    WholePart(TWO_53 - 1, u);
    assert AtLeast(x, 1);
    BumpedNumber(x, 1);
    PlusOneSaturates(TWO_53);
  }

  lemma WholePart(n: nat, u: nat)
    requires u > 0 && n > 0
    ensures n * u / u == n && n * u >= u
  {
    assert n * u == u + (n - 1) * u;
    NonNegative(n - 1, u);
  }

  lemma FirstStore()
    ensures var a := Abs(Content(0, map[])); var op := CreateStore("s", NoPath, true);
            Legal(Content(0, map[]), op) && AApply(a, op).db.stores == map["s" := AStore(NoPath, true, 1, map[], map[])]
  {
    assert NamedStores(Content(0, map[])) == map[];
    EmptyView<AStore>();
  }

  /** It is reached from an empty database: after an explicit key of 2^53 - 1 the
      generator gives 2^53, and then 2^53 again, which `add` finds taken. */
  lemma GeneratorGetsStuck() returns (h: seq<Event>)
    ensures var db := Db(Content(0, map[]), 0); var w := Behave(Quiet(db), h); var op := PutOf(None, true);
            AllowedRun(Quiet(db), h + [Act(1, op)]) && 1 in w.txs && Apply(w.db, op).outcome == KeyExists
  {
    var db := Db(Content(0, map[]), 0);
    var create, first, second := CreateStore("s", NoPath, true), PutOf(Some(Num(OfNat(TWO_53 - 1))), false), PutOf(None, false);
    BeginsAlone(db);
    FirstStore();
    LastNumber();
    hide Behave, AllowedRun, AApply, Apply, Abs, Legal, NextNumber, PutOf;
    h := [Begin(VersionChange, [])];
    OneAct(db, h, 1, create);
    h := h + [Act(1, create)];
    var a := Abs(Behave(Quiet(db), h).db.content);
    DataIsLegal(Behave(Quiet(db), h).db.content, Some(Num(OfNat(TWO_53 - 1))), false);
    PlainPut(a, Some(Num(OfNat(TWO_53 - 1))), false);
    OneAct(db, h, 1, first);
    h := h + [Act(1, first)];
    a := Abs(Behave(Quiet(db), h).db.content);
    DataIsLegal(Behave(Quiet(db), h).db.content, None, false);
    PlainPut(a, None, false);
    OneAct(db, h, 1, second);
    h := h + [Act(1, second)];
    DataIsLegal(Behave(Quiet(db), h).db.content, None, true);
    StuckPut(a);
    OneAct(db, h, 1, PutOf(None, true));
  }

  lemma BeginsAlone(db: Db)
    requires db == Db(Content(0, map[]), 0)
    ensures var h := [Begin(VersionChange, [])]; var w := Behave(Quiet(db), h);
            AllowedRun(Quiet(db), h) && 1 in w.txs && w.txs[1].mode == VersionChange && w.aborted == {} && w.db == db &&
            Inv(db.content, db.nextId)
  {
    var h := [Begin(VersionChange, [])];
    assert h[..0] == [];
    assert Behave(Quiet(db), h) == Step(Behave(Quiet(db), []), h[0]);
  }

  lemma DataIsLegal(c: Content, key: Option<Key>, noOverwrite: bool)
    ensures Legal(c, PutOf(key, noOverwrite))
  {
  }

  /** After a generated put at the last number, an add finds the key taken. */
  lemma StuckPut(a: ADb)
    requires "s" in a.stores && a.stores["s"].indexes == map[] && a.stores["s"].autoInc && a.stores["s"].next == TWO_53
    ensures AApply(AApply(a, PutOf(None, false)).db, PutOf(None, true)).outcome == KeyExists
  {
    PlainPut(a, None, false);
    SaturatedGeneratorRepeats(a.stores["s"], Prepared(None, Null, false), Prepared(None, Null, false), false);
  }

  // ---- stable reads ---------------------------------------------------------------------

  /** While a transaction is live, nobody else's step changes a store in its
      scope: what it reads is what it began with and what it wrote. */
  lemma ReadsAreStable(db: Db, h: seq<Event>, e: Event, id: nat, n: string)
    requires Inv(db.content, db.nextId) && AllowedRun(Quiet(db), h + [e])
    requires var w := Behave(Quiet(db), h); id in w.txs && !w.txs[id].mode.VersionChange? && n in w.txs[id].stores
    requires e.Act? ==> e.tx != id
    requires e.End? ==> e.tx != id
    ensures At(Abs(Step(Behave(Quiet(db), h), e).db.content), n) == At(Abs(Behave(Quiet(db), h).db.content), n)
  {
    var w := Behave(Quiet(db), h);
    assert (h + [e])[..|h|] == h;
    RunsAreIsolated(db, h);
    if !e.Begin? && e.tx in w.txs {
      var t := w.txs[e.tx];
      assert !Conflicts(t, w.txs[id].mode, w.txs[id].stores);
      assert TxOk(Abs(db.content), w.db, w.acts, w.aborted, e.tx, t);
      if e.Act? {
        OtherActElsewhere(w, e.tx, e.op, n);
      } else if !e.commit && t.mode.ReadWrite? {
        RollIsLocal(w.db.content, t.undo, t.stores);
        AbortIsSerial(Abs(db.content), w, e.tx);
        InvNames(w.db.content, w.db.nextId);
        InvNames(RollAll(w.db.content, t.undo), w.db.nextId);
        AtSameStore(w.db.content, RollAll(w.db.content, t.undo), n);
      }
    }
  }

  lemma OtherActElsewhere(w: World, id: nat, op: Op, n: string)
    requires Inv(w.db.content, w.db.nextId) && id in w.txs && op.Data? && op.store != n
    ensures At(Abs(Acted(w, id, op).db.content), n) == At(Abs(w.db.content), n)
  {
    OpRefines(w.db, op);
    DataIsLocal(Abs(w.db.content), Abs(w.db.content), op, n);
  }
}
