/** Every operation of a transaction on the data of a database, the undo entries
    it logs, and the theorem that the log undoes it exactly. */
module Operations {
  import opened ByteStrings
  import opened Doubles
  import opened Options
  import opened Keys
  import opened Ranges
  import opened SortedSets
  import opened Values
  import opened Engine

  // ---- the key generator's arithmetic ------------------------------------------------

  /** The double nearest to an integer below 2^54, ties to the even one. */
  function Nearest(n: nat): nat
    requires n <= 2 * TWO_53
  {
    if n <= TWO_53 || n % 2 == 0 then n
    else if n / 2 % 2 == 0 then n - 1
    else n + 1
  }

  /** `n + 1.0` for an integer-valued double. */
  function PlusOne(n: nat): nat {
    if n < 2 * TWO_53 then Nearest(n + 1) else n
  }

  function Floor(x: Double): nat
    requires Value(x) >= 0
  {
    FloorNonNegative(Value(x), Unit());
    Value(x) / Unit()
  }

  lemma FloorNonNegative(v: int, u: int)
    requires v >= 0 && u > 0
    ensures v / u >= 0
  {
  }

  /** `x >= n` */
  predicate AtLeast(x: Double, n: nat) {
    Value(x) >= n * Unit()
  }

  function Least(a: nat, b: nat): nat {
    if a < b then a else b
  }

  // ---- operations on one store ---------------------------------------------------------

  /** What a put brings along: the key if it is known already, the clone, and whether
      a generated key is to be put into it. */
  datatype Prepared = Prepared(key: Option<Key>, value: Js, inject: bool)

  datatype Outcome = Done | Stored(key: Key) | Missing | GeneratorFull | KeyExists | NotUnique

  datatype StoreOp =
    | Put(prep: Prepared, noOverwrite: bool)
    | Delete(range: Range)
    | Clear

  datatype Effect = Effect(store: Store, log: seq<Undo>, outcome: Outcome)

  /** Whether an explicit key moves the generator on. */
  predicate Overtakes(autoInc: bool, next: Generator, k: Key) {
    autoInc && k.Num? && AtLeast(k.x, next)
  }

  lemma NonNegative(n: nat, u: nat)
    ensures n * u >= 0
  {
  }

  /** `(x.floor() + 1.0).min(2^53 + 1.0)` */
  function Bumped(x: Double, n: nat): Generator
    requires AtLeast(x, n)
  {
    NonNegative(n, Unit());
    Least(PlusOne(Floor(x)), PlusOne(TWO_53))
  }

  /** The store's generator after it gave or met a key. */
  function NextNumber(autoInc: bool, next: Generator, key: Option<Key>): Generator {
    match key
    case None => PlusOne(next)
    case Some(k) => if Overtakes(autoInc, next, k) then Bumped(k.x, next) else next
  }

  /** The generator's undo entry, when it moved. */
  function GeneratorLog(sid: nat, s: Store, key: Option<Key>): seq<Undo> {
    if key.None? || Overtakes(s.autoInc, s.next, key.value) then [KeyGenUndo(sid, s.next)] else []
  }

  /** The key a put writes under: its own, or the generator's number. */
  function PutKey(next: Generator, prep: Prepared): Key
    requires prep.key.None? ==> next <= TWO_53
  {
    if prep.key.Some? then prep.key.value else Num(OfNat(next))
  }

  /** The value as it is written: with the generated key where it belongs. */
  function Written(keyPath: KeyPath, prep: Prepared, key: Key): Js {
    if prep.inject && keyPath.Path? then Inject(prep.value, Idents(keyPath.path), KeyToValue(key))
    else prep.value
  }

  function NewRecord(s: Store, value: Js): Record {
    Record(value, map i | i in s.indexes :: IndexKeys(value, s.indexes[i].def))
  }

  /** The scan of a unique index for a key: an entry that starts with it and
      goes on with another primary key. */
  ghost predicate EntryClash(entries: set<Bytes>, k: Bytes, pk: Bytes) {
    exists e :: e in entries && k <= e && e[|k|..] != pk
  }

  ghost predicate Clashes(s: Store, pk: Bytes, value: Js) {
    exists i, k :: i in s.indexes && s.indexes[i].def.unique && k in IndexKeys(value, s.indexes[i].def) &&
                   EntryClash(s.indexes[i].entries, k, pk)
  }

  ghost function PutEffect(sid: nat, s: Store, prep: Prepared, noOverwrite: bool): Effect {
    if prep.key.None? && s.next > TWO_53 then Effect(s, [], GeneratorFull)
    else
      var key := PutKey(s.next, prep);
      var pk, value := Encode(key), Written(s.keyPath, prep, key);
      var moved, log := s.(next := NextNumber(s.autoInc, s.next, prep.key)), GeneratorLog(sid, s, prep.key);
      if noOverwrite && pk in s.records then Effect(moved, log, KeyExists)
      else if Clashes(s, pk, value) then Effect(moved, log, NotUnique)
      else
        var was := if pk in s.records then Some(s.records[pk]) else None;
        Effect(Replace(moved, pk, Some(NewRecord(s, value))), log + [RecordUndo(sid, pk, was)], Stored(key))
  }

  /** The records under `keys` removed one by one. */
  function RemoveEffect(sid: nat, s: Store, keys: seq<Bytes>): (e: Effect)
    requires forall k :: k in keys ==> k in s.records
    requires NoRepeats(keys)
    ensures forall k :: k in s.records && k !in keys ==> k in e.store.records && e.store.records[k] == s.records[k]
  {
    if keys == [] then Effect(s, [], Done)
    else
      var k := keys[|keys| - 1];
      var before := RemoveEffect(sid, s, keys[..|keys| - 1]);
      Effect(Replace(before.store, k, None), before.log + [RecordUndo(sid, k, Some(before.store.records[k]))], Done)
  }

  function DeleteEffect(sid: nat, s: Store, range: Range): Effect {
    var keys := Ascending(Within(s.records.Keys, range));
    AscendingDistinct(keys);
    RemoveEffect(sid, s, keys)
  }

  function ClearEffect(sid: nat, s: Store): Effect {
    Effect(s.(records := map[], indexes := map i | i in s.indexes :: s.indexes[i].(entries := {})),
           [ClearedUndo(sid, s.records)], Done)
  }

  ghost function StoreEffect(sid: nat, s: Store, op: StoreOp): Effect {
    match op
    case Put(prep, noOverwrite) => PutEffect(sid, s, prep, noOverwrite)
    case Delete(range) => DeleteEffect(sid, s, range)
    case Clear => ClearEffect(sid, s)
  }

  // ---- one store: invariant and undoing --------------------------------------------------

  /** The content with one store put in place. */
  function With(c: Content, sid: nat, s: Store): Content {
    c.(stores := c.stores[sid := s])
  }

  lemma WithKeepsInv(c: Content, sid: nat, s: Store, top: nat)
    requires Inv(c, top) && sid in c.stores
    requires StoreInv(s, top) && s.name == c.stores[sid].name
    ensures Inv(With(c, sid, s), top)
  {
    var d := With(c, sid, s);
    forall i, j | i in d.stores && j in d.stores && d.stores[i].name == d.stores[j].name
      ensures i == j
    {
      assert c.stores[i].name == c.stores[j].name;
    }
  }

  predicate OnStore(u: Undo, sid: nat) {
    (u.RecordUndo? || u.KeyGenUndo? || u.ClearedUndo?) && u.store == sid
  }

  /** One logged step on a store: playing the entry back is playing it on the store. */
  lemma StepUnwinds(c: Content, sid: nat, s: Store, t: Store, u: Undo, top: nat)
    requires Inv(c, top) && sid in c.stores
    requires StoreInv(s, top) && StoreInv(t, top) && s.name == t.name == c.stores[sid].name
    requires OnStore(u, sid) && RollStore(t, u) == s
    ensures Unwinds(With(c, sid, t), [u], With(c, sid, s), top)
  {
    hide StoreInv;
    WithKeepsInv(c, sid, s, top);
    WithKeepsInv(c, sid, t, top);
    assert With(c, sid, t).stores[sid := s] == With(c, sid, s).stores;
    assert Rollback(With(c, sid, t), u) == With(c, sid, s);
    assert [u][..0] == [];
  }

  lemma NothingUnwinds(c: Content, top: nat)
    requires Inv(c, top)
    ensures Unwinds(c, [], c, top)
  {
  }

  /** At 2^53 the next integer is no double: the generator stays there. */
  lemma PlusOneSaturates(n: nat)
    ensures n < TWO_53 ==> PlusOne(n) == n + 1
    ensures n >= TWO_53 ==> PlusOne(n) >= TWO_53
    ensures PlusOne(TWO_53) == TWO_53
  {
  }

  lemma BumpedNumber(x: Double, next: Generator)
    requires AtLeast(x, next) && next <= TWO_53
    ensures Value(x) >= 0 && Floor(x) >= next
    ensures Bumped(x, next) == if Floor(x) < TWO_53 then Floor(x) + 1 else TWO_53
  {
    FloorAtLeast(x, next);
    PlusOneSaturates(Floor(x));
  }

  lemma NextNumberInRange(autoInc: bool, next: Generator, key: Option<Key>)
    requires next <= TWO_53
    ensures next <= NextNumber(autoInc, next, key) <= TWO_53
  {
    PlusOneSaturates(next);
    if key.Some? && Overtakes(autoInc, next, key.value) {
      BumpedNumber(key.value.x, next);
    }
  }

  /** `x >= n` for an integer `n` is decided by the whole part of `x`. */
  lemma FloorAtLeast(x: Double, n: nat)
    ensures AtLeast(x, n) <==> Value(x) >= 0 && Floor(x) >= n
  {
    NonNegative(n, Unit());
    if Value(x) >= 0 {
      Quotient(Value(x), Unit(), n);
    }
  }

  lemma Quotient(v: nat, u: nat, n: nat)
    requires u > 0
    ensures v >= n * u <==> v / u >= n
  {
    var q, r := v / u, v % u;
    assert v == q * u + r;
    if q >= n {
      Scale(n, q, u);
    } else {
      Scale(q + 1, n, u);
    }
  }

  lemma Scale(a: nat, b: nat, u: nat)
    requires a <= b
    ensures a * u <= b * u
  {
    assert b * u == a * u + (b - a) * u;
  }

  lemma NewRecordFits(s: Store, pk: Bytes, value: Js, top: nat)
    requires StoreInv(s, top) && IsEncoding(pk)
    ensures RecordInv(pk, NewRecord(s, value), top) && Fits(NewRecord(s, value), s.indexes)
  {
    forall i | i in s.indexes
      ensures forall k :: k in NewRecord(s, value).ikeys[i] ==> IsEncoding(k)
    {
      IndexKeysEncoded(value, s.indexes[i].def);
    }
  }

  lemma GeneratorUnwinds(c: Content, sid: nat, key: Option<Key>, top: nat)
    requires Inv(c, top) && sid in c.stores
    ensures var s := c.stores[sid]; var moved := s.(next := NextNumber(s.autoInc, s.next, key));
            StoreInv(moved, top) && Unwinds(With(c, sid, moved), GeneratorLog(sid, s, key), c, top)
  {
    var s := c.stores[sid];
    var moved := s.(next := NextNumber(s.autoInc, s.next, key));
    NextNumberInRange(s.autoInc, s.next, key);
    assert With(c, sid, s) == c;
    if key.None? || Overtakes(s.autoInc, s.next, key.value) {
      StepUnwinds(c, sid, s, moved, KeyGenUndo(sid, s.next), top);
    } else {
      assert moved == s;
    }
  }

  lemma PutUnwinds(c: Content, sid: nat, prep: Prepared, noOverwrite: bool, top: nat)
    requires Inv(c, top) && sid in c.stores
    ensures var e := PutEffect(sid, c.stores[sid], prep, noOverwrite);
            StoreInv(e.store, top) && e.store.name == c.stores[sid].name &&
            Unwinds(With(c, sid, e.store), e.log, c, top)
  {
    var s := c.stores[sid];
    var e := PutEffect(sid, s, prep, noOverwrite);
    assert With(c, sid, s) == c;
    if e.outcome.GeneratorFull? {
      NothingUnwinds(c, top);
    } else {
      var key := PutKey(s.next, prep);
      var pk, value := Encode(key), Written(s.keyPath, prep, key);
      var moved, log := s.(next := NextNumber(s.autoInc, s.next, prep.key)), GeneratorLog(sid, s, prep.key);
      GeneratorUnwinds(c, sid, prep.key, top);
      if e.outcome.Stored? {
        var rec := NewRecord(s, value);
        var was := if pk in s.records then Some(s.records[pk]) else None;
        NewRecordFits(s, pk, value, top);
        ReplaceUndone(moved, pk, Some(rec), top);
        ReplaceKeepsInv(moved, pk, Some(rec), top);
        StepUnwinds(c, sid, moved, e.store, RecordUndo(sid, pk, was), top);
        UnwindsChain(With(c, sid, e.store), [RecordUndo(sid, pk, was)], With(c, sid, moved), log, c, top, top);
      }
    }
  }

  lemma {:induction false} RemoveUnwinds(c: Content, sid: nat, keys: seq<Bytes>, top: nat)
    requires Inv(c, top) && sid in c.stores
    requires forall k :: k in keys ==> k in c.stores[sid].records
    requires NoRepeats(keys)
    ensures var e := RemoveEffect(sid, c.stores[sid], keys);
            StoreInv(e.store, top) && e.store.name == c.stores[sid].name &&
            Unwinds(With(c, sid, e.store), e.log, c, top)
    decreases |keys|
  {
    var s := c.stores[sid];
    if keys == [] {
      assert With(c, sid, s) == c;
      NothingUnwinds(c, top);
    } else {
      var k, front := keys[|keys| - 1], keys[..|keys| - 1];
      var before := RemoveEffect(sid, s, front);
      RemoveUnwinds(c, sid, front, top);
      var t := Replace(before.store, k, None);
      var u := RecordUndo(sid, k, Some(before.store.records[k]));
      ReplaceUndone(before.store, k, None, top);
      ReplaceKeepsInv(before.store, k, None, top);
      StepUnwinds(c, sid, before.store, t, u, top);
      UnwindsChain(With(c, sid, t), [u], With(c, sid, before.store), before.log, c, top, top);
    }
  }

  lemma ClearUnwinds(c: Content, sid: nat, top: nat)
    requires Inv(c, top) && sid in c.stores
    ensures var e := ClearEffect(sid, c.stores[sid]);
            StoreInv(e.store, top) && e.store.name == c.stores[sid].name &&
            Unwinds(With(c, sid, e.store), e.log, c, top)
  {
    var s := c.stores[sid];
    var e := ClearEffect(sid, s);
    assert With(c, sid, s) == c;
    forall i | i in s.indexes
      ensures IndexInv(e.store.records, i, e.store.indexes[i])
      ensures s.indexes[i] == e.store.indexes[i].(entries := AllEntries(s.records, i))
    {
      assert IndexInv(s.records, i, s.indexes[i]);
    }
    assert RollStore(e.store, e.log[0]).indexes == s.indexes;
    StepUnwinds(c, sid, s, e.store, e.log[0], top);
  }

  /** Every operation on a store keeps the invariant, and its log undoes it. */
  lemma StoreOpUnwinds(c: Content, sid: nat, op: StoreOp, top: nat)
    requires Inv(c, top) && sid in c.stores
    ensures var e := StoreEffect(sid, c.stores[sid], op);
            StoreInv(e.store, top) && e.store.name == c.stores[sid].name &&
            Unwinds(With(c, sid, e.store), e.log, c, top)
  {
    hide StoreInv, Unwinds, With, Inv;
    match op {
      case Put(prep, noOverwrite) =>
        PutUnwinds(c, sid, prep, noOverwrite, top);
      case Delete(range) =>
        var keys := Ascending(Within(c.stores[sid].records.Keys, range));
        AscendingDistinct(keys);
        RemoveUnwinds(c, sid, keys, top);
      case Clear =>
        ClearUnwinds(c, sid, top);
    }
  }
}
