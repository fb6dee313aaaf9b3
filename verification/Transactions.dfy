/** Transactions side by side on one database: admission, commit and abort, and
    the proof that an interleaved run leaves what its surviving operations
    leave on their own. */
module Transactions {
  import opened Options
  import opened Engine
  import opened Schema
  import opened Spec
  import opened ByName

  datatype Mode = ReadOnly | ReadWrite | VersionChange

  datatype Tx = Tx(mode: Mode, stores: seq<string>, undo: seq<Undo>)

  datatype Event =
    | Begin(mode: Mode, stores: seq<string>)
    | Act(tx: nat, op: Op)
    | End(tx: nat, commit: bool)

  /** The database and its live transactions, and beside them what happened: the
      operations that ran, by transaction, and the transactions aborted. */
  datatype World = World(db: Db, txs: map<nat, Tx>, nextTx: nat, acts: seq<(nat, Op)>, aborted: set<nat>)

  // ---- steps --------------------------------------------------------------------------

  predicate Overlap(a: seq<string>, b: seq<string>) {
    exists s :: s in a && s in b
  }

  /** Whether a live transaction keeps a new one waiting. */
  predicate Conflicts(t: Tx, mode: Mode, stores: seq<string>) {
    if t.mode.VersionChange? || mode.VersionChange? then true
    else if t.mode.ReadOnly? && mode.ReadOnly? then false
    else Overlap(t.stores, stores)
  }

  predicate Admits(txs: map<nat, Tx>, mode: Mode, stores: seq<string>) {
    forall id :: id in txs ==> !Conflicts(txs[id], mode, stores)
  }

  /** A transaction has to wait exactly when one in the table is a version change, when
      it is one itself and the table is not empty, or when one in the table shares a
      store with it and they are not both readers: readers run side by side. */
  lemma AdmitsExactly(txs: map<nat, Tx>, mode: Mode, stores: seq<string>)
    ensures !Admits(txs, mode, stores) <==>
            exists i :: i in txs &&
                        (txs[i].mode.VersionChange? || mode.VersionChange? ||
                         ((txs[i].mode.ReadWrite? || mode.ReadWrite?) && exists s :: s in txs[i].stores && s in stores))
  {
  }

  /** `with_write`: the operation runs and its log joins the transaction's. */
  ghost function Acted(w: World, id: nat, op: Op): World
    requires id in w.txs
  {
    var r, t := Apply(w.db, op), w.txs[id];
    w.(db := r.db, txs := w.txs[id := t.(undo := t.undo + r.log)], acts := w.acts + [(id, op)])
  }

  ghost function Step(w: World, e: Event): World {
    match e
    case Begin(mode, stores) =>
      if Admits(w.txs, mode, stores) then
        w.(txs := w.txs[w.nextTx := Tx(mode, stores, [])], nextTx := w.nextTx + 1)
      else w
    case Act(id, op) =>
      if id !in w.txs then w else Acted(w, id, op)
    case End(id, commit) =>
      if id !in w.txs then w
      else if commit then w.(txs := w.txs - {id})
      else w.(db := w.db.(content := RollAll(w.db.content, w.txs[id].undo)), txs := w.txs - {id},
              aborted := w.aborted + {id})
  }

  /** What the page-facing objects let a transaction do: nothing in read-only
      mode, data of its own stores in read-write mode, anything legal in a
      version change. */
  ghost predicate Allowed(w: World, e: Event) {
    e.Act? && e.tx in w.txs ==>
      var t := w.txs[e.tx];
      !t.mode.ReadOnly? && Legal(w.db.content, e.op) &&
      (t.mode.ReadWrite? ==> e.op.Data? && e.op.store in t.stores)
  }

  ghost function Behave(w: World, h: seq<Event>): World
    decreases |h|
  {
    if h == [] then w else Step(Behave(w, h[..|h| - 1]), h[|h| - 1])
  }

  ghost predicate AllowedRun(w: World, h: seq<Event>)
    decreases |h|
  {
    h == [] || (AllowedRun(w, h[..|h| - 1]) && Allowed(Behave(w, h[..|h| - 1]), h[|h| - 1]))
  }

  // ---- the serial database ---------------------------------------------------------------

  /** The operations in order, those of the transactions in `skip` left out. */
  ghost function Serial(a: ADb, acts: seq<(nat, Op)>, skip: set<nat>): ADb
    decreases |acts|
  {
    if acts == [] then a
    else
      var before := Serial(a, acts[..|acts| - 1], skip);
      var (id, op) := acts[|acts| - 1];
      if id in skip then before else AApply(before, op).db
  }

  ghost function At(a: ADb, n: string): Option<AStore> {
    if n in a.stores then Some(a.stores[n]) else None
  }

  lemma SameDb(a: ADb, b: ADb)
    requires a.version == b.version && forall n :: At(a, n) == At(b, n)
    ensures a == b
  {
    forall n
      ensures n in a.stores <==> n in b.stores
      ensures n in a.stores ==> a.stores[n] == b.stores[n]
    {
      assert At(a, n) == At(b, n);
    }
    assert a.stores == b.stores;
  }

  /** A data operation touches one store, by what that store holds. */
  lemma DataIsLocal(a: ADb, b: ADb, op: Op, n: string)
    requires op.Data?
    ensures AApply(a, op).db.version == a.version
    ensures n != op.store ==> At(AApply(a, op).db, n) == At(a, n)
    ensures At(a, n) == At(b, n) ==> At(AApply(a, op).db, n) == At(AApply(b, op).db, n)
  {
  }

  lemma {:induction false} SkipAbsent(a: ADb, acts: seq<(nat, Op)>, skip: set<nat>, id: nat)
    requires forall i :: 0 <= i < |acts| ==> acts[i].0 != id
    ensures Serial(a, acts, skip + {id}) == Serial(a, acts, skip)
    decreases |acts|
  {
    if acts != [] {
      SkipAbsent(a, acts[..|acts| - 1], skip, id);
    }
  }

  /** From a transaction's first operation on, only data operations ran, and its
      own were all on its stores. */
  ghost predicate KeptToScope(acts: seq<(nat, Op)>, id: nat, stores: seq<string>) {
    (forall i, j :: 0 <= i <= j < |acts| && acts[i].0 == id ==> acts[j].1.Data?) &&
    (forall i :: 0 <= i < |acts| && acts[i].0 == id && acts[i].1.Data? ==> acts[i].1.store in stores)
  }

  /** Leaving such a transaction out changes nothing outside its stores. */
  lemma {:induction false} SkipIsLocal(a: ADb, acts: seq<(nat, Op)>, skip: set<nat>, id: nat, stores: seq<string>, n: string)
    requires KeptToScope(acts, id, stores) && n !in stores
    ensures At(Serial(a, acts, skip + {id}), n) == At(Serial(a, acts, skip), n)
    ensures Serial(a, acts, skip + {id}).version == Serial(a, acts, skip).version
    decreases |acts|
  {
    if i :| 0 <= i < |acts| && acts[i].0 == id {
      var front, last := acts[..|acts| - 1], acts[|acts| - 1];
      assert last.1.Data?;
      forall i, j | 0 <= i <= j < |front| && front[i].0 == id
        ensures front[j].1.Data?
      {
        assert acts[i].0 == id && acts[j] == front[j];
      }
      forall i | 0 <= i < |front| && front[i].0 == id && front[i].1.Data?
        ensures front[i].1.store in stores
      {
        assert acts[i] == front[i];
      }
      SkipIsLocal(a, front, skip, id, stores, n);
      DataIsLocal(Serial(a, front, skip), Serial(a, front, skip + {id}), last.1, n);
      DataIsLocal(Serial(a, front, skip + {id}), Serial(a, front, skip), last.1, n);
    } else {
      SkipAbsent(a, acts, skip, id);
    }
  }

  // ---- rolling back one transaction among others -----------------------------------------

  /** A log of data changes to stores with the given names. */
  ghost predicate DataLog(c: Content, log: seq<Undo>, stores: seq<string>) {
    forall i :: 0 <= i < |log| ==>
      (log[i].RecordUndo? || log[i].KeyGenUndo? || log[i].ClearedUndo?) &&
      log[i].store in c.stores && c.stores[log[i].store].name in stores
  }

  /** Two contents with the same stores under the same names. */
  ghost predicate SameNames(c: Content, d: Content) {
    c.version == d.version && c.stores.Keys == d.stores.Keys &&
    forall i :: i in c.stores ==> c.stores[i].name == d.stores[i].name
  }

  lemma RollStep(c: Content, u: Undo)
    requires u.RecordUndo? || u.KeyGenUndo? || u.ClearedUndo?
    ensures SameNames(c, Rollback(c, u))
    ensures forall i :: i in c.stores && i != u.store ==> Rollback(c, u).stores[i] == c.stores[i]
    ensures u.store in c.stores ==> Rollback(c, u).stores[u.store] == RollStore(c.stores[u.store], u)
  {
  }

  /** Rolling a data log back changes only its stores. */
  lemma {:induction false} RollIsLocal(c: Content, log: seq<Undo>, stores: seq<string>)
    requires DataLog(c, log, stores)
    ensures SameNames(c, RollAll(c, log))
    ensures forall i :: i in c.stores && c.stores[i].name !in stores ==> RollAll(c, log).stores[i] == c.stores[i]
    decreases |log|
  {
    if log != [] {
      var u, front := log[|log| - 1], log[..|log| - 1];
      RollStep(c, u);
      assert DataLog(Rollback(c, u), front, stores) by {
        forall i | 0 <= i < |front|
          ensures front[i].store in Rollback(c, u).stores && Rollback(c, u).stores[front[i].store].name in stores
          ensures front[i].RecordUndo? || front[i].KeyGenUndo? || front[i].ClearedUndo?
        {
          assert front[i] == log[i];
        }
      }
      RollIsLocal(Rollback(c, u), front, stores);
    }
  }

  /** Rolling a data log back restores a store by what that store holds. */
  lemma {:induction false} RollByStore(c: Content, d: Content, log: seq<Undo>, stores: seq<string>, i: nat)
    requires DataLog(c, log, stores) && SameNames(c, d)
    requires i in c.stores && c.stores[i] == d.stores[i]
    ensures i in RollAll(c, log).stores && i in RollAll(d, log).stores
    ensures RollAll(c, log).stores[i] == RollAll(d, log).stores[i]
    decreases |log|
  {
    if log != [] {
      var u, front := log[|log| - 1], log[..|log| - 1];
      RollStep(c, u);
      RollStep(d, u);
      assert DataLog(Rollback(c, u), front, stores) by {
        forall i | 0 <= i < |front|
          ensures front[i].store in Rollback(c, u).stores && Rollback(c, u).stores[front[i].store].name in stores
          ensures front[i].RecordUndo? || front[i].KeyGenUndo? || front[i].ClearedUndo?
        {
          assert front[i] == log[i];
        }
      }
      RollByStore(Rollback(c, u), Rollback(d, u), front, stores, i);
    }
  }

  lemma DataLogSameNames(c: Content, d: Content, log: seq<Undo>, stores: seq<string>)
    requires DataLog(c, log, stores) && SameNames(c, d)
    ensures DataLog(d, log, stores)
  {
  }

  /** Mixing the stores of two valid contents is valid. */
  lemma MixedInv(c: Content, d: Content, m: Content, top: nat)
    requires Inv(c, top) && Inv(d, top) && SameNames(c, d) && SameNames(c, m)
    requires forall i :: i in m.stores ==> m.stores[i] == c.stores[i] || m.stores[i] == d.stores[i]
    ensures Inv(m, top)
  {
    hide StoreInv;
    forall i, j | i in m.stores && j in m.stores && m.stores[i].name == m.stores[j].name
      ensures i == j
    {
      assert c.stores[i].name == c.stores[j].name;
    }
  }

  /** Contents with one store in common look the same at its name. */
  lemma AtSameStore(c: Content, d: Content, n: string)
    requires Unique(NamedStores(c)) && Unique(NamedStores(d)) && SameNames(c, d)
    requires forall i :: i in c.stores && c.stores[i].name == n ==> c.stores[i] == d.stores[i]
    ensures At(Abs(c), n) == At(Abs(d), n)
  {
    FindStore(c, n);
    FindStore(d, n);
    if StoreId(c, n).Some? {
      var i := StoreId(c, n).value;
      assert d.stores[i].name == n;
      Lookup(NamedStores(c), i);
      Lookup(NamedStores(d), i);
    }
    if StoreId(d, n).Some? {
      assert c.stores[StoreId(d, n).value].name == n;
    }
  }
}
