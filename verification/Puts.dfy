/** What a put stores, when it is refused, and the numbers a generator hands out:
    each said of the records before and after, not of how a put is computed. */
module Puts {
  import opened Doubles
  import opened Options
  import opened Keys
  import opened Values
  import opened Engine
  import opened Operations
  import opened Schema
  import opened Spec
  import opened Guarantees
  import opened UniqueIndexes
  import opened Injection

  // ---- what is let through -------------------------------------------------------------------

  /** Which calls of `put` and `add` fail with DataError before anything is stored: a
      key argument that is no key, one beside a key path, none where the store has
      neither key path nor generator, and a value that yields no key at the key path
      unless the generator can put one there. What is let through carries the value as
      it is, and its key when that is known. */
  lemma PreparedExactly(keyPath: KeyPath, autoInc: bool, value: Js, given: Given)
    ensures var r, at := Prepare(keyPath, autoInc, value, given), KeyAtPath(value, keyPath);
            (r.None? <==>
             given.BadKey? || (given.GoodKey? && !keyPath.NoPath?) ||
             (given.NoKey? && keyPath.NoPath? && !autoInc) ||
             (!keyPath.NoPath? && !at.Found? &&
              !(at.NoValue? && autoInc && keyPath.Path? && CanInject(value, Idents(keyPath.path))))) &&
            (r.Some? ==>
               r.value.value == value && (r.value.inject <==> !keyPath.NoPath? && !at.Found?) &&
               forall k :: r.value.key == Some(k) <==> given == GoodKey(k) || at == Found(k))
  {
    hide KeyAtPath, CanInject, Idents;
    NoPathNoKey(value);
  }

  lemma NoPathNoKey(value: Js)
    ensures KeyAtPath(value, NoPath) == NoValue
  {
  }

  // ---- what is stored ----------------------------------------------------------------------

  /** The record under a key is the value that was put, or, where a generated key
      was put into it, yields that key at the store's key path and on every other
      path what the value yields. */
  ghost predicate StoredAs(a: AStore, k: Key, prep: Prepared) {
    Encode(k) in a.records &&
    (!prep.inject ==> a.records[Encode(k)] == prep.value) &&
    (prep.inject && a.keyPath.Path? ==>
       EvalPath(a.records[Encode(k)], a.keyPath.path) == Some(KeyToValue(k)) &&
       forall other :: Parts(Idents(a.keyPath.path), other) && Identifiers(Idents(a.keyPath.path)) ==>
         EvalIdents(a.records[Encode(k)], other) == EvalIdents(prep.value, other))
  }

  /** A key is only to be put into a value that has nothing at the key path and
      takes one there, as `prepare` found. */
  ghost predicate Injectable(a: AStore, prep: Prepared) {
    prep.inject ==>
      a.keyPath.Path? && EvalPath(prep.value, a.keyPath.path) == None && CanInject(prep.value, Idents(a.keyPath.path))
  }

  lemma PreparedIsInjectable(a: AStore, prep: Prepared)
    requires PreparedFor(a, prep)
    ensures Injectable(a, prep)
  {
    var value, given :| Prepare(a.keyPath, a.autoInc, value, given) == Some(prep);
  }

  lemma InjectedAsSaid(v: Js, path: string, w: Js)
    requires EvalPath(v, path) == None && CanInject(v, Idents(path))
    ensures EvalPath(Inject(v, Idents(path), w), path) == Some(w)
    ensures forall other :: Parts(Idents(path), other) && Identifiers(Idents(path)) ==>
              EvalIdents(Inject(v, Idents(path), w), other) == EvalIdents(v, other)
  {
    hide Inject, CanInject, EvalIdents, Parts, Identifiers;
    EvalNothing(v, path);
    InjectedIsFound(v, Idents(path), w);
    forall other | Parts(Idents(path), other) && Identifiers(Idents(path))
      ensures EvalIdents(Inject(v, Idents(path), w), other) == EvalIdents(v, other)
    {
      InjectionIsLocal(v, path, w, other);
    }
  }

  /** A put that succeeds stores the value it was given. */
  lemma PutStoresValue(a: AStore, prep: Prepared, noOverwrite: bool)
    requires APut(a, prep, noOverwrite).outcome.Stored? && Injectable(a, prep)
    ensures var e := APut(a, prep, noOverwrite); StoredAs(e.store, e.outcome.key, prep)
  {
    hide Encode, Inject, CanInject, EvalPath, EvalIdents, Parts, Identifiers, Taken, KeyToValue, Idents;
    if prep.inject {
      InjectedAsSaid(prep.value, a.keyPath.path, KeyToValue(PutKey(a.next, prep)));
    }
  }

  /** The key it is stored under: the one that came with it, or the generator's
      number. */
  lemma PutUnderKey(a: AStore, prep: Prepared, noOverwrite: bool)
    requires APut(a, prep, noOverwrite).outcome.Stored? && a.next <= TWO_53
    ensures var k := APut(a, prep, noOverwrite).outcome.key;
            if prep.key.Some? then k == prep.key.value else k.Num? && Value(k.x) == a.next * Unit()
  {
    hide Taken, Encode, Value;
    if prep.key.None? {
      OfNatExact(a.next);
    }
  }

  /** The same of a whole database. */
  lemma DatabaseStoresValue(db: Db, store: string, prep: Prepared, noOverwrite: bool)
    requires Inv(db.content, db.nextId)
    ensures var r := Apply(db, Data(store, Put(prep, noOverwrite)));
            var was, now := Abs(db.content).stores, Abs(r.db.content).stores;
            r.outcome.Stored? ==>
              store in was && store in now && (Injectable(was[store], prep) ==> StoredAs(now[store], r.outcome.key, prep)) &&
              now[store].records - {Encode(r.outcome.key)} == was[store].records - {Encode(r.outcome.key)}
  {
    hide Apply, Abs, Inv, APut, StoredAs, Injectable, Encode;
    var op := Data(store, Put(prep, noOverwrite));
    LegalPut(db.content, store, prep, noOverwrite);
    OpRefines(db, op);
    PutApplied(Abs(db.content), store, prep, noOverwrite);
    if Apply(db, op).outcome.Stored? {
      var a := Abs(db.content).stores[store];
      PutStoresOne(a, prep, noOverwrite);
      if Injectable(a, prep) {
        PutStoresValue(a, prep, noOverwrite);
      }
    }
  }

  lemma LegalPut(c: Content, store: string, prep: Prepared, noOverwrite: bool)
    ensures Legal(c, Data(store, Put(prep, noOverwrite)))
  {
  }

  lemma PutApplied(a: ADb, store: string, prep: Prepared, noOverwrite: bool)
    ensures var r := AApply(a, Data(store, Put(prep, noOverwrite)));
            if store !in a.stores then r.outcome == Missing
            else r.outcome == APut(a.stores[store], prep, noOverwrite).outcome && store in r.db.stores &&
                 r.db.stores[store] == APut(a.stores[store], prep, noOverwrite).store
  {
    hide APut;
  }

  // ---- what is refused ------------------------------------------------------------------------

  /** The store with the value put under the key, whatever that breaks. */
  ghost function Forced(a: AStore, k: Key, value: Js): AStore {
    a.(records := a.records[Encode(k) := value])
  }

  lemma TakenIsBad(a: AStore, k: Key, value: Js)
    requires Taken(a, Encode(k), value)
    ensures exists n :: BadIn(Forced(a, k, value), n)
  {
    hide Encode, IndexKeys;
    var pk := Encode(k);
    var n, b, q :| n in a.indexes && a.indexes[n].unique && b in IndexKeys(value, a.indexes[n]) &&
                   q in a.records && q != pk && b in IndexKeys(a.records[q], a.indexes[n]);
    var r := Forced(a, k, value).records;
    assert pk in r && q in r && r[pk] == value && r[q] == a.records[q];
    assert AShares(r, a.indexes[n]);
    assert BadIn(Forced(a, k, value), n);
  }

  lemma BadIsTaken(a: AStore, k: Key, value: Js, n: string)
    requires !BadIn(a, n) && BadIn(Forced(a, k, value), n)
    ensures Taken(a, Encode(k), value)
  {
    hide Encode, IndexKeys;
    var r := Forced(a, k, value).records;
    var p, q, b :| p in r && q in r && p != q && b in IndexKeys(r[p], a.indexes[n]) && b in IndexKeys(r[q], a.indexes[n]);
    StillShared(a, Encode(k), value, n, p, q, b);
  }

  /** Where every unique index is unique, `add` is refused for a key that is there,
      and a put exactly when storing it anyway would give a unique index one key for
      two records. */
  lemma PutRefusedExactly(a: AStore, prep: Prepared, noOverwrite: bool)
    requires (forall n :: !BadIn(a, n)) && (prep.key.None? ==> a.next <= TWO_53)
    ensures var outcome := APut(a, prep, noOverwrite).outcome;
            var k := PutKey(a.next, prep);
            var forced := Forced(a, k, Written(a.keyPath, prep, k));
            (outcome == KeyExists <==> noOverwrite && Encode(k) in a.records) &&
            (outcome == NotUnique <==> outcome != KeyExists && exists n :: BadIn(forced, n)) &&
            (outcome == KeyExists || outcome == NotUnique || outcome == Stored(k))
  {
    hide Encode, BadIn, Taken, Written, Forced;
    var k := PutKey(a.next, prep);
    var value := Written(a.keyPath, prep, k);
    if Taken(a, Encode(k), value) {
      TakenIsBad(a, k, value);
    }
    if n :| BadIn(Forced(a, k, value), n) {
      BadIsTaken(a, k, value, n);
    }
  }

  // ---- the generator ----------------------------------------------------------------------------

  /** A generated key takes one number, whether the put succeeds or not. */
  lemma GeneratedIsNext(a: AStore, prep: Prepared, noOverwrite: bool)
    requires prep.key.None? && a.next < TWO_53
    ensures APut(a, prep, noOverwrite).store.next == a.next + 1
  {
    PlusOneSaturates(a.next);
  }

  ghost function PutAll(a: AStore, preps: seq<Prepared>, noOverwrite: bool): AStore {
    if preps == [] then a else APut(PutAll(a, preps[..|preps| - 1], noOverwrite), preps[|preps| - 1], noOverwrite).store
  }

  /** The i-th of a run of generated keys is the i-th number from the first. */
  lemma {:induction false} SuccessiveNumbers(a: AStore, preps: seq<Prepared>, noOverwrite: bool)
    requires (forall p :: p in preps ==> p.key.None?) && a.next + |preps| <= TWO_53
    ensures PutAll(a, preps, noOverwrite).next == a.next + |preps|
  {
    hide APut;
    if preps != [] {
      SuccessiveNumbers(a, preps[..|preps| - 1], noOverwrite);
      GeneratedIsNext(PutAll(a, preps[..|preps| - 1], noOverwrite), preps[|preps| - 1], noOverwrite);
    }
  }

  /** An explicit key moves the generator only when it is a number, in a store with
      a generator, at or above the next one; then to the least whole number above
      it, or to 2^53. */
  lemma ExplicitMovesGenerator(a: AStore, prep: Prepared, noOverwrite: bool)
    requires prep.key.Some? && a.next <= TWO_53
    ensures var k, n := prep.key.value, APut(a, prep, noOverwrite).store.next;
            if a.autoInc && k.Num? && Value(k.x) >= a.next * Unit() then
              if Value(k.x) < TWO_53 * Unit() then (n - 1) * Unit() <= Value(k.x) < n * Unit() else n == TWO_53
            else n == a.next
  {
    hide Value, Encode, Taken, Written, NextNumber, Overtakes, Unit;
    NumberAfter(a.autoInc, a.next, prep.key.value);
  }

  lemma NumberAfter(autoInc: bool, next: Generator, k: Key)
    requires next <= TWO_53
    ensures var n := NextNumber(autoInc, next, Some(k));
            if autoInc && k.Num? && Value(k.x) >= next * Unit() then
              if Value(k.x) < TWO_53 * Unit() then (n - 1) * Unit() <= Value(k.x) < n * Unit() else n == TWO_53
            else n == next
  {
    hide Value, Bumped, Unit;
    if autoInc && k.Num? && AtLeast(k.x, next) {
      BumpedNumber(k.x, next);
      UnitPositive();
      WholePartOf(Value(k.x), Unit(), TWO_53);
    }
  }

  lemma UnitPositive()
    ensures Unit() > 0
  {
  }

  lemma WholePartOf(v: nat, u: nat, top: nat)
    requires u > 0
    ensures (v / u) * u <= v < (v / u + 1) * u
    ensures v / u < top <==> v < top * u
  {
    var q := v / u;
    assert v == q * u + v % u;
    if q < top {
      assert top * u == (q + 1) * u + (top - q - 1) * u;
      NonNegative(top - q - 1, u);
    } else {
      assert q * u == top * u + (q - top) * u;
      NonNegative(q - top, u);
    }
  }
}
