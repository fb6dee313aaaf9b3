/** Which values are keys, where key paths lead, and which keys an index takes from
    a value, each said without the function that computes it. */
module ValueKeys {
  import opened ByteStrings
  import opened Doubles
  import opened Options
  import opened Keys
  import opened SortedSets
  import opened Values
  import opened Injection

  // ---- array indexes as property names ----------------------------------------------------

  lemma {:induction false} DecimalDigits(n: nat)
    ensures var s := Decimal(n);
            s != "" && (forall c :: c in s ==> IsDigit(c)) && (s[0] == '0' ==> n == 0 && |s| == 1) && DigitsValue(s) == n
  {
    var s := Decimal(n);
    if n >= 10 {
      DecimalDigits(n / 10);
      var front := Decimal(n / 10);
      assert s[..|s| - 1] == front && s[0] == front[0];
    } else {
      assert s[..0] == "";
    }
  }

  lemma {:induction false} DigitsDecimal(s: string)
    requires s != "" && (forall c :: c in s ==> IsDigit(c)) && (s[0] == '0' ==> |s| == 1)
    ensures Decimal(DigitsValue(s)) == s && (s[0] != '0' ==> DigitsValue(s) > 0)
  {
    var front, last := s[..|s| - 1], s[|s| - 1];
    assert last in s && s[0] in s && s == front + [last];
    if |s| > 1 {
      assert front[0] == s[0];
      DigitsDecimal(front);
      assert DigitsValue(s) / 10 == DigitsValue(front) && DigitsValue(s) % 10 == last as int - '0' as int;
    } else {
      assert DigitsValue(front) == 0;
    }
  }

  /** A property name is an array index exactly when it is the decimal of a number
      below 2^32 - 1, without leading zeros. */
  lemma IndexIsDecimal(s: string, n: nat)
    ensures ArrayIndex(s) == Some(n) <==> n <= MAX_INDEX && s == Decimal(n)
  {
    DecimalDigits(n);
    if ArrayIndex(s).Some? {
      DigitsDecimal(s);
    }
  }

  // ---- values and keys ---------------------------------------------------------------------

  /** A value that a key stands for: of the same kind, with the same contents, an
      array with every item its own property. */
  ghost predicate StandsFor(k: Key, v: Js) {
    match k
    case Num(x) => v == Number(x)
    case Date(x) => v.DateValue? && v.x == x
    case Str(units) => v == Text(units)
    case Bin(bytes) => v.BufferValue? && v.bytes == bytes
    case Arr(items) =>
      v.ArrayValue? && v.length == |items| &&
      forall i :: 0 <= i < |items| ==> Decimal(i) in v.props && StandsFor(items[i], v.props[Decimal(i)])
  }

  lemma {:induction false} ItemKeysExactly(v: Js, n: nat, items: seq<Key>)
    requires v.ArrayValue?
    ensures ItemKeys(v, n) == Some(items) <==>
            |items| == n && forall i :: 0 <= i < n ==> Decimal(i) in v.props && ToKey(v.props[Decimal(i)]) == Some(items[i])
  {
    hide ToKey, Decimal;
    if n > 0 {
      if |items| == n {
        ItemKeysExactly(v, n - 1, items[..n - 1]);
        assert items == items[..n - 1] + [items[n - 1]];
      }
      if ItemKeys(v, n) == Some(items) {
        ItemKeysExactly(v, n - 1, ItemKeys(v, n - 1).value);
      }
    }
  }

  /** Converting a value to a key (section 7.4) gives a key exactly when that key
      stands for the value and has no NaN in it. */
  lemma {:induction false} KeyExactly(v: Js, k: Key)
    ensures ToKey(v) == Some(k) <==> StandsFor(k, v) && Proper(k)
    decreases k
  {
    if k.Arr? && v.ArrayValue? {
      ArrayKey(v, k);
      hide ToKey, Decimal;
      if ToKey(v) == Some(k) || StandsFor(k, v) {
        assert |k.items| == v.length && forall i :: 0 <= i < |k.items| ==> Decimal(i) in v.props;
        forall i | 0 <= i < |k.items|
          ensures ToKey(v.props[Decimal(i)]) == Some(k.items[i]) <==>
                  StandsFor(k.items[i], v.props[Decimal(i)]) && Proper(k.items[i])
        {
          KeyExactly(v.props[Decimal(i)], k.items[i]);
        }
      }
    } else {
      PlainKey(v, k);
    }
  }

  lemma ArrayKey(v: Js, k: Key)
    requires k.Arr? && v.ArrayValue?
    ensures ToKey(v) == Some(k) <==>
            |k.items| == v.length &&
            forall i :: 0 <= i < |k.items| ==> Decimal(i) in v.props && ToKey(v.props[Decimal(i)]) == Some(k.items[i])
  {
    hide Decimal;
    ItemKeysExactly(v, v.length, k.items);
  }

  lemma PlainKey(v: Js, k: Key)
    requires !(k.Arr? && v.ArrayValue?)
    ensures ToKey(v) == Some(k) <==> StandsFor(k, v) && Proper(k)
  {
    hide ItemKeys, Decimal;
  }

  // ---- key paths ----------------------------------------------------------------------------

  function JoinDots(names: seq<string>): string {
    if names == [] then "" else if |names| == 1 then names[0] else names[0] + "." + JoinDots(names[1..])
  }

  lemma {:induction false} SplitJoins(path: string)
    ensures JoinDots(Idents(path)) == path && forall n :: n in Idents(path) ==> '.' !in n
  {
    if path != "" {
      SplitJoins(path[1..]);
      var rest := Idents(path[1..]);
      assert path == [path[0]] + path[1..];
      if path[0] == '.' {
        assert ([""] + rest)[1..] == rest;
        assert JoinDots([""] + rest) == "" + "." + JoinDots(rest);
      } else {
        var names := [[path[0]] + rest[0]] + rest[1..];
        assert names[1..] == rest[1..] && rest[0] in rest;
        assert forall c :: c in names[0] ==> c == path[0] || c in rest[0];
        assert forall n :: n in names ==> n == names[0] || n in rest;
        if |rest| > 1 {
          assert [path[0]] + rest[0] + "." + JoinDots(rest[1..]) == [path[0]] + (rest[0] + "." + JoinDots(rest[1..]));
        }
      }
    }
  }

  lemma {:induction false} JoinSplits(names: seq<string>)
    requires names != [] && forall n :: n in names ==> '.' !in n
    ensures Idents(JoinDots(names)) == names
    decreases |names|, |names[0]|
  {
    var head, path := names[0], JoinDots(names);
    assert head in names;
    if head == "" {
      if |names| > 1 {
        JoinSplits(names[1..]);
        assert path[1..] == JoinDots(names[1..]);
        assert [""] + names[1..] == names;
      }
    } else {
      var less := [head[1..]] + names[1..];
      assert forall c :: c in head[1..] ==> c in head;
      JoinSplits(less);
      assert less[1..] == names[1..];
      assert path[0] == head[0] && path[1..] == JoinDots(less);
      assert path[0] in head;
      assert [head[0]] + head[1..] == head && [head] + names[1..] == names;
    }
  }

  /** A path is cut at its dots. */
  lemma PathIsCut(path: string, names: seq<string>)
    ensures Idents(path) == names <==> names != [] && JoinDots(names) == path && forall n :: n in names ==> '.' !in n
  {
    SplitJoins(path);
    if names != [] && JoinDots(names) == path && forall n :: n in names ==> '.' !in n {
      JoinSplits(names);
    }
  }

  /** A path leads through its parts, one after the other. */
  lemma {:induction false} PathsCompose(v: Js, a: seq<string>, b: seq<string>)
    ensures EvalIdents(v, a + b) == if EvalIdents(v, a).Some? then EvalIdents(EvalIdents(v, a).value, b) else None
    decreases |a|
  {
    hide LengthNumber;
    if a == [] {
      assert a + b == b;
    } else {
      assert (a + b)[1..] == a[1..] + b && (a + b)[0] == a[0];
      if a[0] == "length" && v.Text? {
        PathsCompose(LengthNumber(|v.units|), a[1..], b);
      } else if a[0] == "length" && v.ArrayValue? {
        PathsCompose(LengthNumber(v.length), a[1..], b);
      } else if v.IsObject() && a[0] in v.props {
        PathsCompose(v.props[a[0]], a[1..], b);
      }
    }
  }

  /** One part: the length of a string or an array, else an own property of an
      object, else nothing. */
  lemma OnePart(v: Js, name: string, w: Js)
    ensures EvalIdents(v, [name]) == Some(w) <==>
            (name == "length" && v.Text? && w == LengthNumber(|v.units|)) ||
            (name == "length" && v.ArrayValue? && w == LengthNumber(v.length)) ||
            (v.IsObject() && !(name == "length" && v.ArrayValue?) && name in v.props && w == v.props[name])
  {
    assert [name][1..] == [];
  }

  /** A length is the number it says. */
  lemma LengthIsNumber(n: nat)
    requires n <= TWO_53
    ensures LengthNumber(n).Number? && Value(LengthNumber(n).x) == n * Unit()
  {
    if n > 0 {
      OfNatExact(n);
    }
  }

  /** The paths all lead to keys, and those are the items. */
  ghost predicate AllLeadTo(v: Js, paths: seq<string>, items: seq<Key>) {
    |items| == |paths| &&
    forall i :: 0 <= i < |paths| ==> LeadsTo(v, paths[i], items[i])
  }

  ghost predicate LeadsTo(v: Js, path: string, k: Key) {
    EvalPath(v, path).Some? && ToKey(EvalPath(v, path).value) == Some(k)
  }

  lemma AllLeadToTail(v: Js, paths: seq<string>, items: seq<Key>)
    requires |paths| == |items| > 0
    ensures AllLeadTo(v, paths, items) <==> LeadsTo(v, paths[0], items[0]) && AllLeadTo(v, paths[1..], items[1..])
  {
    hide LeadsTo;
    if LeadsTo(v, paths[0], items[0]) && AllLeadTo(v, paths[1..], items[1..]) {
      forall i | 0 <= i < |paths|
        ensures LeadsTo(v, paths[i], items[i])
      {
        if i > 0 {
          assert LeadsTo(v, paths[1..][i - 1], items[1..][i - 1]);
        }
      }
    }
  }

  lemma {:induction false} KeysAtPathsExactly(v: Js, paths: seq<string>, items: seq<Key>)
    ensures KeysAtPaths(v, paths) == Some(items) <==> AllLeadTo(v, paths, items)
  {
    hide EvalPath, ToKey;
    if paths != [] && items != [] {
      KeysAtPathsExactly(v, paths[1..], items[1..]);
      assert items == [items[0]] + items[1..];
      if |items| == |paths| {
        AllLeadToTail(v, paths, items);
      }
      hide AllLeadTo;
    }
  }

  /** What a key path yields: a key from a single path where it leads to one, an
      array of keys from a list of paths that all do, and no key in any other case. */
  lemma KeyAtPathExactly(v: Js, path: KeyPath, k: Key)
    ensures KeyAtPath(v, path) == Found(k) <==>
            match path
            case NoPath => false
            case Path(p) => EvalPath(v, p).Some? && ToKey(EvalPath(v, p).value) == Some(k)
            case Paths(ps) =>
              k.Arr? && |k.items| == |ps| &&
              forall i :: 0 <= i < |ps| ==> EvalPath(v, ps[i]).Some? && ToKey(EvalPath(v, ps[i]).value) == Some(k.items[i])
    ensures KeyAtPath(v, path) == NoValue <==> path.NoPath? || (path.Path? && EvalPath(v, path.path).None?)
  {
    if path.Paths? && k.Arr? {
      KeysAtPathsExactly(v, path.paths, k.items);
    }
  }

  // ---- what an index takes from a value ---------------------------------------------------------

  /** The item at `i` is a key, with this encoding. */
  ghost predicate IsElement(v: Js, i: nat, b: Bytes)
    requires v.ArrayValue?
  {
    Decimal(i) in v.props && ToKey(v.props[Decimal(i)]).Some? && b == Encode(ToKey(v.props[Decimal(i)]).value)
  }

  lemma {:induction false} ElementKeysExactly(v: Js, n: nat, b: Bytes)
    requires v.ArrayValue?
    ensures b in ElementKeys(v, n) <==> exists i :: 0 <= i < n && IsElement(v, i, b)
  {
    hide ToKey, Encode, Decimal;
    if n > 0 {
      ElementKeysExactly(v, n - 1, b);
      assert b in ElementKeys(v, n) <==> b in ElementKeys(v, n - 1) || IsElement(v, n - 1, b);
    }
  }

  /** A multi-entry index over an array takes every item of it that is a key. */
  lemma MultiEntryKeys(v: Js, def: IndexDef, w: Js, b: Bytes)
    requires def.multi && def.keyPath.Path? && EvalPath(v, def.keyPath.path) == Some(w) && w.ArrayValue?
    ensures b in IndexKeys(v, def) <==> exists i :: 0 <= i < w.length && IsElement(w, i, b)
  {
    ArrayIndexKeys(v, def, w, b);
    hide IndexKeys, ElementKeys, EvalPath, IsElement;
    ElementKeysExactly(w, w.length, b);
  }

  lemma ArrayIndexKeys(v: Js, def: IndexDef, w: Js, b: Bytes)
    requires def.multi && def.keyPath.Path? && EvalPath(v, def.keyPath.path) == Some(w) && w.ArrayValue?
    ensures b in IndexKeys(v, def) <==> b in ElementKeys(w, w.length)
  {
    hide ToKey, Encode, Decimal, ElementKeys, EvalPath, Ascending;
  }

  /** In every other case an index takes the one key its key path yields. */
  lemma SingleEntryKeys(v: Js, def: IndexDef, b: Bytes)
    requires !(def.multi && def.keyPath.Path? && EvalPath(v, def.keyPath.path).Some? &&
               EvalPath(v, def.keyPath.path).value.ArrayValue?)
    ensures b in IndexKeys(v, def) <==> exists k :: KeyAtPath(v, def.keyPath) == Found(k) && b == Encode(k)
  {
    hide Encode;
    if KeyAtPath(v, def.keyPath).Found? {
      assert KeyAtPath(v, def.keyPath) == Found(KeyAtPath(v, def.keyPath).key);
    }
  }

  /** Every item of an array that is a key is found in a multi-entry index, and a
      plain index has the array itself or nothing. */
  lemma TagsAreFound(v: Js, def: IndexDef, w: Js, i: nat, k: Key)
    requires def.keyPath.Path? && EvalPath(v, def.keyPath.path) == Some(w) && w.ArrayValue?
    requires i < w.length && Decimal(i) in w.props && ToKey(w.props[Decimal(i)]) == Some(k)
    ensures def.multi ==> Encode(k) in IndexKeys(v, def)
    ensures !def.multi ==> forall b :: b in IndexKeys(v, def) ==> exists whole :: ToKey(w) == Some(whole) && b == Encode(whole)
  {
    hide Encode, IndexKeys, ToKey;
    if def.multi {
      assert IsElement(w, i, Encode(k));
      MultiEntryKeys(v, def, w, Encode(k));
    } else {
      forall b | b in IndexKeys(v, def)
        ensures exists whole :: ToKey(w) == Some(whole) && b == Encode(whole)
      {
        SingleEntryKeys(v, def, b);
        var whole :| KeyAtPath(v, def.keyPath) == Found(whole) && b == Encode(whole);
        KeyAtPathExactly(v, def.keyPath, whole);
      }
    }
  }
}
