/** The encoder and decoder as the engine runs them: appending to one buffer,
    and advancing one position over the input. */
module KeyCodec {
  import opened ByteStrings
  import opened Options
  import opened Keys

  /** The `Vec<u8>` an encoding is appended to. */
  class Buffer {
    var bytes: Bytes

    constructor ()
      ensures bytes == []
    {
      bytes := [];
    }

    method Push(b: byte)
      modifies this
      ensures bytes == old(bytes) + [b]
    {
      bytes := bytes + [b];
    }

    method Extend(s: Bytes)
      modifies this
      ensures bytes == old(bytes) + s
    {
      bytes := bytes + s;
    }

    method PutEscaped(s: Bytes)
      modifies this
      ensures bytes == old(bytes) + Escaped(s)
    {
      for i := 0 to |s|
        invariant bytes + Escaped(s[i..]) == old(bytes) + Escaped(s)
      {
        ghost var before := bytes;
        ghost var step := if s[i] == 0 then [0, 0xFF] else [s[i]];
        assert s[i..][1..] == s[i + 1..];
        assert Escaped(s[i..]) == step + Escaped(s[i + 1..]);
        Push(s[i]);
        if s[i] == 0 {
          Push(0xFF);
        }
        assert bytes == before + step;
        assert bytes + Escaped(s[i + 1..]) == before + Escaped(s[i..]);
      }
      Push(0);
      Push(0);
    }

    method EncodeInto(k: Key)
      modifies this
      ensures bytes == old(bytes) + Encode(k)
      decreases k, 0
    {
      ghost var before := bytes;
      match k {
        case Num(x) =>
          Push(T_NUM);
          Extend(BigEndian(NumBits(x), 8));
          Associates(before, [T_NUM], BigEndian(NumBits(x), 8));
        case Date(x) =>
          Push(T_DATE);
          Extend(BigEndian(NumBits(x), 8));
          Associates(before, [T_DATE], BigEndian(NumBits(x), 8));
        case Str(units) =>
          Push(T_STR);
          PutEscaped(UnitBytes(units));
          Associates(before, [T_STR], Escaped(UnitBytes(units)));
        case Bin(raw) =>
          Push(T_BIN);
          PutEscaped(raw);
          Associates(before, [T_BIN], Escaped(raw));
        case Arr(items) =>
          Push(T_ARR);
          EncodeAll(items);
          Push(T_END);
          Associates(before, [T_ARR], EncodeItems(items));
          Associates(before, [T_ARR] + EncodeItems(items), [T_END]);
      }
    }

    /** The loop over the items of an array key. */
    method EncodeAll(items: seq<Key>)
      modifies this
      ensures bytes == old(bytes) + EncodeItems(items)
      decreases items, 0
    {
      for i := 0 to |items|
        invariant bytes == old(bytes) + EncodeItems(items[..i])
      {
        EncodeInto(items[i]);
        EncodeItemsAppend(items[..i], items[i]);
        assert items[..i] + [items[i]] == items[..i + 1];
        Associates(old(bytes), EncodeItems(items[..i]), Encode(items[i]));
      }
      assert items[..|items|] == items;
    }
  }

  lemma Associates(a: Bytes, b: Bytes, c: Bytes)
    ensures a + b + c == a + (b + c)
  {
  }

  lemma EncodeItemsStep(k: Key, xs: seq<Key>)
    ensures EncodeItems([k] + xs) == Encode(k) + EncodeItems(xs)
  {
    hide Encode;
    assert ([k] + xs)[1..] == xs;
  }

  lemma {:induction false} EncodeItemsAppend(xs: seq<Key>, k: Key)
    ensures EncodeItems(xs + [k]) == EncodeItems(xs) + Encode(k)
  {
    if xs == [] {
      hide Encode;
      assert xs + [k] == [k];
      assert [k][1..] == [];
    } else {
      hide Encode, EncodeItems;
      EncodeItemsAppend(xs[1..], k);
      assert xs + [k] == [xs[0]] + (xs[1..] + [k]);
      EncodeItemsStep(xs[0], xs[1..] + [k]);
      EncodeItemsStep(xs[0], xs[1..]);
      assert [xs[0]] + xs[1..] == xs;
    }
  }

  method EncodeKey(k: Key) returns (r: Bytes)
    ensures r == Encode(k)
  {
    var out := new Buffer();
    out.EncodeInto(k);
    r := out.bytes;
  }

  /** A decoder at `pos` has read what the specification reads: the same value,
      and the position where the unread bytes begin. */
  ghost predicate Reads<T>(want: Option<(T, Bytes)>, got: Option<T>, b: Bytes, pos: nat)
    requires pos <= |b|
  {
    match want
    case None => got == None
    case Some((value, rest)) => got == Some(value) && b[pos..] == rest && pos == |b| - |rest|
  }

  /** A decoder that has read `done` so far finishes with what it reads next. */
  ghost function Prepend<T>(done: seq<T>, r: Option<(seq<T>, Bytes)>): Option<(seq<T>, Bytes)> {
    match r
    case None => None
    case Some((more, rest)) => Some((done + more, rest))
  }

  lemma PrependNothing<T>(r: Option<(seq<T>, Bytes)>)
    ensures Prepend([], r) == r
  {
    if r.Some? {
      assert [] + r.value.0 == r.value.0;
    }
  }

  lemma PrependTwice<T>(a: seq<T>, b: seq<T>, r: Option<(seq<T>, Bytes)>)
    ensures Prepend(a, Prepend(b, r)) == Prepend(a + b, r)
  {
    if r.Some? {
      assert a + (b + r.value.0) == (a + b) + r.value.0;
    }
  }

  method Unescape(b: Bytes, start: nat) returns (r: Option<Bytes>, pos: nat)
    requires start <= |b|
    ensures start <= pos <= |b| && Reads(Unescaped(b[start..]), r, b, pos)
  {
    pos := start;
    var out: Bytes := [];
    PrependNothing(Unescaped(b[start..]));
    while true
      invariant start <= pos <= |b|
      invariant Unescaped(b[start..]) == Prepend(out, Unescaped(b[pos..]))
      decreases |b| - pos
    {
      if pos >= |b| {
        return None, pos;
      }
      ghost var left := b[pos..];
      var x := b[pos];
      pos := pos + 1;
      if x == 0 {
        if pos >= |b| {
          return None, pos;
        }
        var y := b[pos];
        pos := pos + 1;
        assert left[2..] == b[pos..];
        if y == 0 {
          assert out + [] == out;
          return Some(out), pos;
        }
        PrependTwice(out, [0], Unescaped(b[pos..]));
        out := out + [0];
      } else {
        assert left[1..] == b[pos..];
        PrependTwice(out, [x], Unescaped(b[pos..]));
        out := out + [x];
      }
    }
  }

  /** The key at `start`; `pos` ends up just behind it. */
  method DecodeAt(b: Bytes, start: nat) returns (r: Option<Key>, pos: nat)
    requires start <= |b|
    ensures start <= pos <= |b| && Reads(Decode(b[start..]), r, b, pos)
    decreases |b| - start, 0
  {
    pos := start;
    if pos >= |b| {
      return None, pos;
    }
    var tag := b[pos];
    assert b[pos..][1..] == b[pos + 1..];
    pos := pos + 1;
    if tag == T_NUM || tag == T_DATE {
      if pos + 8 > |b| {
        return None, pos;
      }
      assert b[start..][1..9] == b[pos..pos + 8] && b[start..][9..] == b[pos + 8..];
      var x := NumFromBits(DoubleOf(b[pos..pos + 8]));
      pos := pos + 8;
      r := Some(if tag == T_NUM then Num(x) else Date(x));
    } else if tag == T_STR {
      var raw;
      raw, pos := Unescape(b, pos);
      r := match raw case None => None case Some(s) => Some(Str(UnitsOf(s)));
    } else if tag == T_BIN {
      var raw;
      raw, pos := Unescape(b, pos);
      r := match raw case None => None case Some(s) => Some(Bin(s));
    } else if tag == T_ARR {
      var items;
      items, pos := DecodeArray(b, pos);
      r := match items case None => None case Some(xs) => Some(Arr(xs));
    } else {
      r := None;
    }
  }

  /** One round of the loop below: a key read at `at` extends the items, and
      reading none ends it. */
  lemma ArrayStep(want: Option<(seq<Key>, Bytes)>, items: seq<Key>, b: Bytes, at: nat, k: Option<Key>, pos: nat)
    requires at < |b| && b[at] != T_END && pos <= |b|
    requires want == Prepend(items, DecodeItems(b[at..]))
    requires Reads(Decode(b[at..]), k, b, pos)
    ensures k.None? ==> want == None
    ensures k.Some? ==> pos > at && want == Prepend(items + [k.value], DecodeItems(b[pos..]))
  {
    if k.Some? {
      assert DecodeItems(b[at..]) == Prepend([k.value], DecodeItems(b[pos..]));
      PrependTwice(items, [k.value], DecodeItems(b[pos..]));
    }
  }

  lemma ArrayEnd(want: Option<(seq<Key>, Bytes)>, items: seq<Key>, b: Bytes, at: nat)
    requires at <= |b| && (at < |b| ==> b[at] == T_END)
    requires want == Prepend(items, DecodeItems(b[at..]))
    ensures at == |b| ==> want == None
    ensures at < |b| ==> Reads(want, Some(items), b, at + 1)
  {
    assert items + [] == items;
    if at < |b| {
      assert b[at..][1..] == b[at + 1..];
    }
  }

  /** The loop over the items of an array key. */
  method DecodeArray(b: Bytes, start: nat) returns (r: Option<seq<Key>>, pos: nat)
    requires start <= |b|
    ensures start <= pos <= |b| && Reads(DecodeItems(b[start..]), r, b, pos)
    decreases |b| - start, 1
  {
    pos := start;
    var items: seq<Key> := [];
    ghost var want := DecodeItems(b[start..]);
    PrependNothing(want);
    while true
      invariant start <= pos <= |b|
      invariant want == Prepend(items, DecodeItems(b[pos..]))
      decreases |b| - pos
    {
      if pos >= |b| {
        ArrayEnd(want, items, b, pos);
        return None, pos;
      }
      if b[pos] == T_END {
        ArrayEnd(want, items, b, pos);
        pos := pos + 1;
        return Some(items), pos;
      }
      ghost var at := pos;
      var k;
      k, pos := DecodeAt(b, pos);
      ArrayStep(want, items, b, at, k, pos);
      if k.None? {
        return None, pos;
      }
      items := items + [k.value];
    }
  }

  method DecodeKey(b: Bytes) returns (r: Option<Key>)
    ensures r == match Decode(b) case None => None case Some((k, _)) => Some(k)
    ensures forall k :: b == Encode(k) ==> r == Some(Canon(k))
  {
    assert b[0..] == b;
    var pos;
    r, pos := DecodeAt(b, 0);
    forall k | b == Encode(k)
      ensures r == Some(Canon(k))
    {
      RoundTrip(k, []);
      assert Encode(k) + [] == b;
    }
  }

  /** An entry cut in two where its first key ends; one that starts with no key is
      not cut. */
  method SplitEntry(e: Bytes) returns (k: Bytes, p: Bytes)
    ensures (k, p) == Split(e)
    ensures k + p == e
    ensures forall l, q :: e == l + q && IsEncoding(l) ==> k == l && p == q
  {
    assert e[0..] == e;
    var key, pos := DecodeAt(e, 0);
    var n := if key.None? then |e| else pos;
    k, p := e[..n], e[n..];
    assert e[|e|..] == [] && e[..|e|] == e;
    forall l, q | e == l + q && IsEncoding(l)
      ensures k == l && p == q
    {
      SplitRecovers(l, q);
    }
  }
}
