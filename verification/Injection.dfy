/** Keys put into values: a generated key injected at a key path is what the
    path yields afterwards, and no other path notices. */
module Injection {
  import opened ByteStrings
  import opened Doubles
  import opened Options
  import opened Keys
  import opened Values
  import opened Engine
  import opened Operations
  import opened Schema
  import opened Spec
  import opened Transactions
  import opened Isolation

  // ---- a key as a value ----------------------------------------------------------------

  lemma {:induction false} DecimalInjective(a: nat, b: nat)
    requires Decimal(a) == Decimal(b)
    ensures a == b
    decreases a
  {
    var x, y := Decimal(a), Decimal(b);
    DecimalLength(a);
    DecimalLength(b);
    assert x[|x| - 1] == '0' + (a % 10) as char && y[|y| - 1] == '0' + (b % 10) as char;
    if a >= 10 && b >= 10 {
      assert x[..|x| - 1] == Decimal(a / 10) && y[..|y| - 1] == Decimal(b / 10);
      DecimalInjective(a / 10, b / 10);
    }
  }

  lemma DecimalLength(n: nat)
    ensures |Decimal(n)| == 1 <==> n < 10
    ensures |Decimal(n)| > 0
  {
    if n >= 10 {
      assert |Decimal(n / 10)| > 0;
    }
  }

  /** No NaN anywhere: what `to_key` lets through. */
  predicate Proper(k: Key) {
    match k
    case Num(x) => !IsNaN(x)
    case Date(x) => !IsNaN(x)
    case Arr(items) => forall i :: 0 <= i < |items| ==> Proper(items[i])
    case _ => true
  }

  lemma {:induction false} ItemPropsHold(k: Key, n: nat, i: nat)
    requires k.Arr? && n <= |k.items| && i < |k.items|
    ensures Decimal(i) in ItemProps(k, n) <==> i < n
    ensures i < n ==> ItemProps(k, n)[Decimal(i)] == KeyToValue(k.items[i])
    decreases n
  {
    if n > 0 {
      ItemPropsHold(k, n - 1, i);
      if Decimal(i) == Decimal(n - 1) {
        DecimalInjective(i, n - 1);
      }
    }
  }

  /** A key turned into a value is that key again. */
  lemma {:induction false} KeyValueRoundTrip(k: Key)
    requires Proper(k)
    ensures ToKey(KeyToValue(k)) == Some(k)
    decreases k, 1, 0
  {
    if k.Arr? {
      ItemKeysRoundTrip(k, |k.items|);
      assert k.items[..|k.items|] == k.items;
    }
  }

  lemma {:induction false} ItemKeysRoundTrip(k: Key, n: nat)
    requires k.Arr? && Proper(k) && n <= |k.items|
    ensures ItemKeys(KeyToValue(k), n) == Some(k.items[..n])
    decreases k, 0, n
  {
    if n > 0 {
      ItemKeysRoundTrip(k, n - 1);
      ItemPropsHold(k, |k.items|, n - 1);
      KeyValueRoundTrip(k.items[n - 1]);
      assert k.items[..n] == k.items[..n - 1] + [k.items[n - 1]];
    }
  }

  // ---- the walks along a path ----------------------------------------------------------

  /** `eval_path` */
  method WalkPath(value: Js, path: string) returns (r: Option<Js>)
    ensures r == EvalPath(value, path)
  {
    if path == "" {
      return Some(value);
    }
    var idents, cur := Idents(path), value;
    for i := 0 to |idents|
      invariant EvalIdents(value, idents) == EvalIdents(cur, idents[i..])
    {
      var ident := idents[i];
      if ident == "length" && (cur.Text? || cur.ArrayValue?) {
        cur := LengthNumber(if cur.Text? then |cur.units| else cur.length);
        continue;
      }
      if !cur.IsObject() || ident !in cur.props {
        return None;
      }
      cur := cur.props[ident];
    }
    return Some(cur);
  }

  /** `can_inject` */
  method WalkCanInject(value: Js, path: string) returns (can: bool)
    ensures can == CanInject(value, Idents(path))
  {
    var idents, cur := Idents(path), value;
    for i := 0 to |idents| - 1
      invariant CanInject(value, idents) == CanInject(cur, idents[i..])
    {
      if !cur.IsObject() {
        return false;
      }
      if !IsOwn(cur, idents[i]) {
        return true;
      }
      cur := OwnValue(cur, idents[i]);
    }
    return cur.IsObject();
  }

  // ---- the injected path -----------------------------------------------------------------

  /** Where the path yields nothing, injection makes it yield the value exactly
      when the check beforehand said it could, and otherwise changes nothing. */
  lemma {:induction false} InjectedIsFound(v: Js, idents: seq<string>, w: Js)
    requires idents != [] && EvalIdents(v, idents) == None
    ensures CanInject(v, idents) <==> EvalIdents(Inject(v, idents, w), idents) == Some(w)
    ensures !CanInject(v, idents) ==> Inject(v, idents, w) == v
    decreases |idents|
  {
    if v.IsObject() && |idents| == 1 {
      CreatedIsFound(v, idents[0], w);
    } else if v.IsObject() && !IsOwn(v, idents[0]) {
      var o := ObjectValue(map[]);
      InjectedIsFound(o, idents[1..], w);
      CreatedIsFound(v, idents[0], Inject(o, idents[1..], w));
    } else if v.IsObject() && idents[0] in v.props && !(v.ArrayValue? && idents[0] == "length") {
      InjectedIsFound(v.props[idents[0]], idents[1..], w);
      if !CanInject(v, idents) {
        SameProp(v, idents[0]);
      }
    }
  }

  lemma CreatedIsFound(v: Js, name: string, w: Js)
    requires v.IsObject() && !(v.ArrayValue? && name == "length")
    ensures forall rest :: EvalIdents(CreateProp(v, name, w), [name] + rest) == EvalIdents(w, rest)
  {
    forall rest
      ensures EvalIdents(CreateProp(v, name, w), [name] + rest) == EvalIdents(w, rest)
    {
      assert ([name] + rest)[1..] == rest;
    }
  }

  lemma SameProp(v: Js, name: string)
    requires v.IsObject() && name in v.props
    ensures SetProp(v, name, v.props[name]) == v
  {
    assert v.props[name := v.props[name]] == v.props;
  }

  /** A step of the walk: an object and the name it went through, and whether it
      created the property there. */
  datatype Frame = Frame(obj: Js, name: string, created: bool)

  /** The outermost value once the innermost has become `x`. */
  function Plugged(trail: seq<Frame>, x: Js): Js
    requires forall f :: f in trail ==> f.obj.IsObject()
  {
    if trail == [] then x
    else
      var f := trail[|trail| - 1];
      assert f in trail;
      var outer := if f.created then CreateProp(f.obj, f.name, x)
                   else if f.obj.ArrayValue? && f.name == "length" then f.obj
                   else SetProp(f.obj, f.name, x);
      Plugged(trail[..|trail| - 1], outer)
  }

  lemma PluggedMore(trail: seq<Frame>, f: Frame, x: Js)
    requires (forall g :: g in trail ==> g.obj.IsObject()) && f.obj.IsObject()
    ensures forall g :: g in trail + [f] ==> g.obj.IsObject()
    ensures Plugged(trail + [f], x) ==
            Plugged(trail, if f.created then CreateProp(f.obj, f.name, x)
                           else if f.obj.ArrayValue? && f.name == "length" then f.obj
                           else SetProp(f.obj, f.name, x))
  {
    assert (trail + [f])[..|trail|] == trail;
  }

  /** `inject_key`, where the path yields nothing yet: it walks down, making the
      objects that are missing, and succeeds exactly when the check beforehand said
      it could. */
  method WalkInject(value: Js, path: string, key: Key) returns (ok: bool, r: Js)
    requires EvalPath(value, path) == None
    ensures ok == CanInject(value, Idents(path))
    ensures r == Inject(value, Idents(path), KeyToValue(key))
  {
    hide Inject, CanInject, KeyToValue, CreateProp, SetProp;
    var idents, cur := Idents(path), value;
    ghost var w := KeyToValue(key);
    var trail: seq<Frame> := [];
    var i := 0;
    while i + 1 < |idents|
      invariant i < |idents| && forall f :: f in trail ==> f.obj.IsObject()
      invariant CanInject(value, idents) == CanInject(cur, idents[i..])
      invariant Inject(value, idents, w) == Plugged(trail, Inject(cur, idents[i..], w))
    {
      InjectStep(cur, idents[i..], w);
      if !cur.IsObject() {
        return false, Plugged(trail, cur);
      }
      var own := IsOwn(cur, idents[i]);
      var frame := Frame(cur, idents[i], !own);
      cur := if own then OwnValue(cur, idents[i]) else ObjectValue(map[]);
      PluggedMore(trail, frame, Inject(cur, idents[i + 1..], w));
      assert idents[i..][1..] == idents[i + 1..];
      trail := trail + [frame];
      i := i + 1;
    }
    InjectStep(cur, idents[i..], w);
    if !cur.IsObject() {
      return false, Plugged(trail, cur);
    }
    return true, Plugged(trail, CreateProp(cur, idents[i], KeyToValue(key)));
  }

  lemma InjectStep(v: Js, idents: seq<string>, w: Js)
    requires idents != []
    ensures Inject(v, idents, w) ==
            if !v.IsObject() then v
            else if |idents| == 1 then CreateProp(v, idents[0], w)
            else if !IsOwn(v, idents[0]) then CreateProp(v, idents[0], Inject(ObjectValue(map[]), idents[1..], w))
            else if v.ArrayValue? && idents[0] == "length" then v
            else SetProp(v, idents[0], Inject(OwnValue(v, idents[0]), idents[1..], w))
    ensures CanInject(v, idents) ==
            (v.IsObject() &&
             (|idents| == 1 || CanInject(if IsOwn(v, idents[0]) then OwnValue(v, idents[0]) else ObjectValue(map[]), idents[1..])))
  {
    if |idents| > 1 {
      FreshCanInject(idents[1..]);
    }
  }

  lemma FreshCanInject(idents: seq<string>)
    requires idents != []
    ensures CanInject(ObjectValue(map[]), idents)
  {
  }

  // ---- every other path -------------------------------------------------------------------

  /** Neither path goes through the other. */
  predicate Parts(a: seq<string>, b: seq<string>) {
    a != [] && b != [] && (a[0] != b[0] || Parts(a[1..], b[1..]))
  }

  /** Injection makes an array longer, and the other path asks for its length. */
  predicate Lengthens(v: Js, idents: seq<string>, other: seq<string>)
    requires Parts(idents, other)
  {
    v.IsObject() &&
    if idents[0] != other[0] then
      v.ArrayValue? && other == ["length"] && idents[0] !in v.props &&
      ArrayIndex(idents[0]).Some? && ArrayIndex(idents[0]).value >= v.length
    else idents[0] in v.props && !(v.ArrayValue? && idents[0] == "length") &&
         Lengthens(v.props[idents[0]], idents[1..], other[1..])
  }

  /** A path that neither extends nor is a prefix of the injected one yields what
      it did before, except for the length of an array the injection extended. */
  lemma {:induction false} OtherPathsKept(v: Js, idents: seq<string>, w: Js, other: seq<string>)
    requires EvalIdents(v, idents) == None && Parts(idents, other)
    ensures EvalIdents(Inject(v, idents, w), other) == EvalIdents(v, other) <==> !Lengthens(v, idents, other)
    decreases |idents|
  {
    if v.IsObject() {
      if idents[0] != other[0] {
        AsideKept(v, idents, w, other);
      } else if IsOwn(v, idents[0]) && !(v.ArrayValue? && idents[0] == "length") {
        OtherPathsKept(v.props[idents[0]], idents[1..], w, other[1..]);
      } else if !IsOwn(v, idents[0]) {
        var o := ObjectValue(map[]);
        OtherPathsKept(o, idents[1..], w, other[1..]);
        CreatedIsFound(v, idents[0], Inject(o, idents[1..], w));
        assert [other[0]] + other[1..] == other;
      }
    }
  }

  /** Where the paths part. */
  lemma AsideKept(v: Js, idents: seq<string>, w: Js, other: seq<string>)
    requires v.IsObject() && EvalIdents(v, idents) == None && Parts(idents, other) && idents[0] != other[0]
    ensures EvalIdents(Inject(v, idents, w), other) == EvalIdents(v, other) <==> !Lengthens(v, idents, other)
  {
    if v.ArrayValue? && other[0] == "length" {
      LengthAside(v, idents, w, other);
    } else {
      AsideProps(v, idents, w, other[0]);
    }
  }

  /** Injection sets one property of the value and nothing else. */
  lemma AsideProps(v: Js, idents: seq<string>, w: Js, name: string)
    requires v.IsObject() && idents != [] && name != idents[0]
    ensures var r := Inject(v, idents, w);
            r.IsObject() && (r.ArrayValue? <==> v.ArrayValue?) &&
            (name in r.props <==> name in v.props) && (name in v.props ==> r.props[name] == v.props[name])
  {
    hide CreateProp, SetProp, ArrayIndex;
  }

  lemma LengthAside(v: Js, idents: seq<string>, w: Js, other: seq<string>)
    requires v.ArrayValue? && EvalIdents(v, idents) == None && Parts(idents, other) && idents[0] != other[0]
    requires other[0] == "length"
    ensures EvalIdents(Inject(v, idents, w), other) == EvalIdents(v, other) <==> !Lengthens(v, idents, other)
  {
    LengthAfter(v, idents, w);
    var r := Inject(v, idents, w);
    assert [other[0]] + other[1..] == other;
    if r.length != v.length {
      LengthsDiffer(v.length, r.length);
    }
    if |other| > 1 {
      NoneInNumber(v.length, other[1..]);
      NoneInNumber(r.length, other[1..]);
    }
  }

  lemma NoneInNumber(n: nat, rest: seq<string>)
    requires rest != []
    ensures EvalIdents(LengthNumber(n), rest) == None
  {
  }

  lemma LengthAfter(v: Js, idents: seq<string>, w: Js)
    requires v.ArrayValue? && idents != [] && EvalIdents(v, idents) == None
    ensures var r := Inject(v, idents, w);
            r.ArrayValue? &&
            r.length == if idents[0] !in v.props && ArrayIndex(idents[0]).Some? && ArrayIndex(idents[0]).value >= v.length
                        then ArrayIndex(idents[0]).value + 1 else v.length
  {
    LengthIsNoIndex();
  }

  lemma LengthIsNoIndex()
    ensures ArrayIndex("length") == None
  {
    assert "length"[0] in "length" && !IsDigit("length"[0]);
  }

  lemma LengthsDiffer(a: nat, b: nat)
    requires a < b <= MAX_INDEX + 1
    ensures LengthNumber(a) != LengthNumber(b)
  {
    NumberAbove(b);
    if a > 0 {
      hide OfNat, Value;
      NumberAbove(a);
      TimesApart(a, b, Unit());
    }
  }

  lemma NumberAbove(n: nat)
    requires 1 <= n <= MAX_INDEX + 1
    ensures LengthNumber(n) == Number(OfNat(n)) && Value(OfNat(n)) == n * Unit() && OfNat(n) != 0
  {
    OfNatExact(n);
  }

  lemma TimesApart(a: nat, b: nat, u: nat)
    requires a != b && u > 0
    ensures a * u != b * u
  {
  }

  /** How every identifier a key path may have begins: never with a digit, nor is
      it empty (`IDENT` in the page-facing objects). */
  predicate Identifiers(idents: seq<string>) {
    forall i :: 0 <= i < |idents| ==> idents[i] != "" && !IsDigit(idents[i][0])
  }

  lemma {:induction false} IdentifiersNeverLengthen(v: Js, idents: seq<string>, other: seq<string>)
    requires Identifiers(idents) && Parts(idents, other)
    ensures !Lengthens(v, idents, other)
    decreases |idents|
  {
    assert idents[0][0] in idents[0];
    if v.IsObject() && idents[0] == other[0] && idents[0] in v.props {
      IdentifiersNeverLengthen(v.props[idents[0]], idents[1..], other[1..]);
    }
  }

  /** For every key path an object store can have, no other path notices the
      injection. */
  lemma InjectionIsLocal(v: Js, path: string, w: Js, other: seq<string>)
    requires EvalPath(v, path) == None && Identifiers(Idents(path)) && Parts(Idents(path), other)
    ensures EvalIdents(Inject(v, Idents(path), w), other) == EvalIdents(v, other)
  {
    IdentifiersNeverLengthen(v, Idents(path), other);
    OtherPathsKept(v, Idents(path), w, other);
  }

  /** The condition is needed in general: were "0" a key path, an index put into an
      empty array would make it one long. */
  lemma IndexPathLengthens()
    ensures var v := ArrayValue(0, map[]);
            EvalPath(v, "0") == None && CanInject(v, Idents("0")) && !Identifiers(Idents("0")) &&
            forall w :: EvalPath(Inject(v, Idents("0"), w), "length") != EvalPath(v, "length")
  {
    var v := ArrayValue(0, map[]);
    ZeroAndLength();
    assert EvalIdents(v, ["0"]) == None;
    forall w
      ensures EvalPath(Inject(v, Idents("0"), w), "length") != EvalPath(v, "length")
    {
      OtherPathsKept(v, ["0"], w, ["length"]);
    }
  }

  lemma ZeroAndLength()
    ensures Idents("0") == ["0"] && Idents("length") == ["length"] && ArrayIndex("0") == Some(0)
  {
    NoDots("0");
    NoDots("length");
    assert DigitsValue("0") == 0;
  }

  lemma {:induction false} NoDots(name: string)
    requires '.' !in name
    ensures Idents(name) == [name]
  {
    if name != "" {
      NoDots(name[1..]);
      assert [name[0]] + name[1..] == name;
    }
  }

  // ---- prepared values --------------------------------------------------------------------

  /** The key argument of `put()` or `add()`. */
  datatype Given = NoKey | BadKey | GoodKey(key: Key)

  /** `prepare`: the clone and key checks before a put; nothing for a DataError. */
  function Prepare(keyPath: KeyPath, autoInc: bool, value: Js, given: Given): Option<Prepared> {
    if !keyPath.NoPath? && !given.NoKey? then None
    else if keyPath.NoPath? && !autoInc && given.NoKey? then None
    else if given.BadKey? then None
    else if keyPath.NoPath? then Some(Prepared(if given.NoKey? then None else Some(given.key), value, false))
    else
      match KeyAtPath(value, keyPath)
      case Found(k) => Some(Prepared(Some(k), value, false))
      case NoValue =>
        if autoInc && keyPath.Path? && CanInject(value, Idents(keyPath.path)) then Some(Prepared(None, value, true))
        else None
      case NotAKey => None
  }

  /** The value came through `prepare` with this store's definition. */
  ghost predicate PreparedFor(a: AStore, prep: Prepared) {
    exists value, given :: Prepare(a.keyPath, a.autoInc, value, given) == Some(prep)
  }

  /** Every record of a store with a key path is stored under the key that its
      own value has there. */
  ghost predicate InLine(a: AStore) {
    !a.keyPath.NoPath? ==> forall pk :: pk in a.records ==> UnderOwnKey(a.keyPath, pk, a.records[pk])
  }

  ghost predicate UnderOwnKey(keyPath: KeyPath, pk: Bytes, value: Js) {
    KeyAtPath(value, keyPath).Found? && Encode(KeyAtPath(value, keyPath).key) == pk
  }

  lemma EvalNothing(v: Js, path: string)
    requires EvalPath(v, path) == None
    ensures path != "" && EvalIdents(v, Idents(path)) == None
  {
  }

  /** Evaluating a store's key path on what a put writes gives the key it is written
      under, whether the value brought it or it was generated. */
  lemma WrittenUnderOwnKey(a: AStore, prep: Prepared)
    requires PreparedFor(a, prep) && !a.keyPath.NoPath? && (prep.key.None? ==> a.next <= TWO_53)
    ensures var key := PutKey(a.next, prep);
            KeyAtPath(Written(a.keyPath, prep, key), a.keyPath) == Found(key)
  {
    var value, given :| Prepare(a.keyPath, a.autoInc, value, given) == Some(prep);
    if prep.key.None? {
      var key := PutKey(a.next, prep);
      EvalNothing(value, a.keyPath.path);
      InjectedIsFound(value, Idents(a.keyPath.path), KeyToValue(key));
      OfNatIsNumber(a.next);
      KeyValueRoundTrip(key);
    }
  }

  lemma PutKeepsInLine(a: AStore, prep: Prepared, noOverwrite: bool)
    requires InLine(a) && PreparedFor(a, prep)
    ensures InLine(APut(a, prep, noOverwrite).store)
  {
    var e := APut(a, prep, noOverwrite);
    if e.outcome.Stored? && !a.keyPath.NoPath? {
      WrittenUnderOwnKey(a, prep);
    }
  }

  ghost predicate AllInLine(a: ADb) {
    forall n :: n in a.stores ==> InLine(a.stores[n])
  }

  /** A put brings a value prepared for the store it meets. */
  ghost predicate Ready(a: ADb, op: Op) {
    op.Data? && op.op.Put? && op.store in a.stores ==> PreparedFor(a.stores[op.store], op.op.prep)
  }

  lemma OpKeepsInLine(a: ADb, op: Op)
    requires AllInLine(a) && Ready(a, op)
    ensures AllInLine(AApply(a, op).db)
  {
    if op.Data? && op.store in a.stores && op.op.Put? {
      PutKeepsInLine(a.stores[op.store], op.op.prep, op.op.noOverwrite);
    }
  }

  ghost predicate AllReady(a: ADb, acts: seq<(nat, Op)>, skip: set<nat>)
    decreases |acts|
  {
    acts == [] ||
    var front, last := acts[..|acts| - 1], acts[|acts| - 1];
    AllReady(a, front, skip) && (last.0 in skip || Ready(Serial(a, front, skip), last.1))
  }

  lemma {:induction false} SerialInLine(a: ADb, acts: seq<(nat, Op)>, skip: set<nat>)
    requires AllInLine(a) && AllReady(a, acts, skip)
    ensures AllInLine(Serial(a, acts, skip))
    decreases |acts|
  {
    if acts != [] {
      var front, last := acts[..|acts| - 1], acts[|acts| - 1];
      SerialInLine(a, front, skip);
      if last.0 !in skip {
        OpKeepsInLine(Serial(a, front, skip), last.1);
      }
    }
  }

  /** In every reachable state, whatever was put, generated, deleted, renamed or
      aborted, the records of a store with a key path sit under the keys their
      values have there. */
  lemma RecordsUnderOwnKeys(db: Db, h: seq<Event>)
    requires Inv(db.content, db.nextId) && AllInLine(Abs(db.content)) && AllowedRun(Quiet(db), h)
    requires var w := Behave(Quiet(db), h); AllReady(Abs(db.content), w.acts, w.aborted)
    ensures AllInLine(Abs(Behave(Quiet(db), h).db.content))
  {
    var w := Behave(Quiet(db), h);
    RunsAreIsolated(db, h);
    SerialInLine(Abs(db.content), w.acts, w.aborted);
  }
}
