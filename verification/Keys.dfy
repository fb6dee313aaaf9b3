/** IndexedDB keys, their order (section 2.4 of Indexed Database API 3.0) and
    the byte encoding the engine stores them in. */
module Keys {
  import opened ByteStrings
  import opened Doubles
  import opened Options

  type u16 = u: int | 0 <= u < 65536

  datatype Key =
    | Num(x: Double)
    | Date(x: Double)
    | Str(units: seq<u16>)
    | Bin(bytes: Bytes)
    | Arr(items: seq<Key>)

  datatype Order = Lt | Eq | Gt {
    function Flip(): Order {
      match this
      case Lt => Gt
      case Eq => Eq
      case Gt => Lt
    }
  }

  // ---- the order of the standard ------------------------------------------------

  function CompareInts(a: int, b: int): Order {
    if a < b then Lt else if a == b then Eq else Gt
  }

  /** Element by element, then by length. */
  function CompareSeqs(a: seq<int>, b: seq<int>): Order {
    if a == [] && b == [] then Eq
    else if a == [] then Lt
    else if b == [] then Gt
    else if a[0] != b[0] then CompareInts(a[0], b[0])
    else CompareSeqs(a[1..], b[1..])
  }

  /** number < date < string < binary < array. */
  function TypeRank(k: Key): int {
    match k
    case Num(_) => 1
    case Date(_) => 2
    case Str(_) => 3
    case Bin(_) => 4
    case Arr(_) => 5
  }

  function Compare(a: Key, b: Key): Order
    decreases a, 0
  {
    if TypeRank(a) != TypeRank(b) then CompareInts(TypeRank(a), TypeRank(b))
    else match a
      case Num(x) => CompareInts(Value(x), Value(b.x))
      case Date(x) => CompareInts(Value(x), Value(b.x))
      case Str(units) => CompareSeqs(units, b.units)
      case Bin(bytes) => CompareSeqs(bytes, b.bytes)
      case Arr(items) => CompareItems(items, b.items)
  }

  function CompareItems(xs: seq<Key>, ys: seq<Key>): Order
    decreases xs, 0
  {
    if xs == [] && ys == [] then Eq
    else if xs == [] then Lt
    else if ys == [] then Gt
    else if Compare(xs[0], ys[0]) != Eq then Compare(xs[0], ys[0])
    else CompareItems(xs[1..], ys[1..])
  }

  function CanonDouble(x: Double): Double {
    if Magnitude(x) == 0 then 0 else x
  }

  /** The key with every -0 replaced by 0. */
  function Canon(k: Key): Key
    decreases k, 0
  {
    match k
    case Num(x) => Num(CanonDouble(x))
    case Date(x) => Date(CanonDouble(x))
    case Arr(items) => Arr(CanonItems(items))
    case _ => k
  }

  function CanonItems(xs: seq<Key>): (r: seq<Key>)
    ensures |r| == |xs|
    decreases xs, 0
  {
    if xs == [] then [] else [Canon(xs[0])] + CanonItems(xs[1..])
  }

  // ---- the encoding ---------------------------------------------------------------

  const T_END: byte := 0x00
  const T_NUM: byte := 0x10
  const T_DATE: byte := 0x20
  const T_STR: byte := 0x30
  const T_BIN: byte := 0x40
  const T_ARR: byte := 0x50

  /** A double's bits, arranged to sort like its value. */
  function NumBits(x: Double): Double {
    var b := CanonDouble(x);
    if Negative(b) then TWO_64 - 1 - b else b + TWO_63
  }

  function NumFromBits(o: Double): Double {
    if o >= TWO_63 then o - TWO_63 else TWO_64 - 1 - o
  }

  /** Bytes made self-delimiting: zeros inside cannot be taken for the end. */
  function Escaped(s: Bytes): Bytes {
    if s == [] then [0, 0]
    else if s[0] == 0 then [0, 0xFF] + Escaped(s[1..])
    else [s[0]] + Escaped(s[1..])
  }

  function UnitBytes(units: seq<u16>): Bytes {
    if units == [] then [] else BigEndian(units[0], 2) + UnitBytes(units[1..])
  }

  function Encode(k: Key): Bytes
    decreases k, 0
  {
    match k
    case Num(x) => [T_NUM] + BigEndian(NumBits(x), 8)
    case Date(x) => [T_DATE] + BigEndian(NumBits(x), 8)
    case Str(units) => [T_STR] + Escaped(UnitBytes(units))
    case Bin(bytes) => [T_BIN] + Escaped(bytes)
    case Arr(items) => [T_ARR] + EncodeItems(items) + [T_END]
  }

  function EncodeItems(xs: seq<Key>): Bytes
    decreases xs, 0
  {
    if xs == [] then [] else Encode(xs[0]) + EncodeItems(xs[1..])
  }

  ghost predicate IsEncoding(b: Bytes) {
    exists k :: Encode(k) == b
  }

  // ---- the order theorem -------------------------------------------------------------

  lemma Pow256Values()
    ensures Pow256(2) == 65536 && Pow256(8) == TWO_64
  {
  }

  lemma NumBitsOrder(x: Double, y: Double)
    ensures Value(x) < Value(y) ==> NumBits(x) < NumBits(y)
    ensures Value(x) == Value(y) ==> NumBits(x) == NumBits(y)
  {
    var m, n := Magnitude(x), Magnitude(y);
    if m < n {
      ScaledOrder(m, n);
    } else if n < m {
      ScaledOrder(n, m);
    }
    if m > 0 {
      ScaledOrder(0, m);
    }
    if n > 0 {
      ScaledOrder(0, n);
    }
  }

  lemma NumbersEncodeInOrder(x: Double, y: Double)
    ensures Value(x) < Value(y) ==> Below(BigEndian(NumBits(x), 8), BigEndian(NumBits(y), 8))
    ensures Value(x) == Value(y) ==> NumBits(x) == NumBits(y)
  {
    NumBitsOrder(x, y);
    Pow256Values();
    if Value(x) < Value(y) {
      BigEndianOrder(NumBits(x), NumBits(y), 8);
    }
  }

  lemma {:induction false} EscapedOrder(a: Bytes, b: Bytes)
    requires CompareSeqs(a, b) == Lt
    ensures Below(Escaped(a), Escaped(b))
  {
    if a != [] && b != [] && a[0] == b[0] {
      EscapedOrder(a[1..], b[1..]);
      BelowAfterPrefix(if a[0] == 0 then [0, 0xFF] else [a[0]], Escaped(a[1..]), Escaped(b[1..]));
    } else if a == [] && b[0] == 0 {
      assert Escaped(b)[0] == 0 && Escaped(b)[1..][0] == 0xFF;
    }
  }

  lemma {:induction false} CompareSeqsFlips(a: seq<int>, b: seq<int>)
    ensures CompareSeqs(b, a) == CompareSeqs(a, b).Flip()
    ensures CompareSeqs(a, b) == Eq <==> a == b
  {
    if a != [] && b != [] {
      CompareSeqsFlips(a[1..], b[1..]);
      assert a == [a[0]] + a[1..] && b == [b[0]] + b[1..];
    }
  }

  /** Big-endian code units sort as the units do. */
  lemma {:induction false} UnitBytesOrder(a: seq<u16>, b: seq<u16>)
    ensures CompareSeqs(UnitBytes(a), UnitBytes(b)) == CompareSeqs(a, b)
  {
    if a != [] && b != [] {
      var x, y := UnitBytes(a), UnitBytes(b);
      PairOf(a[0]);
      PairOf(b[0]);
      assert x[1..][0] == a[0] % 256 && y[1..][0] == b[0] % 256;
      assert x[1..][1..] == UnitBytes(a[1..]) && y[1..][1..] == UnitBytes(b[1..]);
      UnitBytesOrder(a[1..], b[1..]);
    }
  }

  lemma PairOf(u: u16)
    ensures BigEndian(u, 2) == [u / 256, u % 256]
  {
    assert BigEndian(u / 256, 1) == BigEndian(u / 256 / 256, 0) + [u / 256 % 256];
  }

  /** The encoding decides the order of two keys before either of them ends. */
  lemma {:induction false} EncodeOrderStep(a: Key, b: Key)
    ensures Compare(a, b) == Lt ==> Below(Encode(a), Encode(b))
    ensures Compare(a, b) == Eq ==> Encode(a) == Encode(b)
    decreases a, 0
  {
    if TypeRank(a) == TypeRank(b) {
      match a {
        case Num(x) =>
          NumbersEncodeInOrder(x, b.x);
        case Date(x) =>
          NumbersEncodeInOrder(x, b.x);
        case Str(units) =>
          UnitBytesOrder(units, b.units);
          CompareSeqsFlips(units, b.units);
          if Compare(a, b) == Lt {
            EscapedOrder(UnitBytes(units), UnitBytes(b.units));
          }
        case Bin(bytes) =>
          CompareSeqsFlips(bytes, b.bytes);
          if Compare(a, b) == Lt {
            EscapedOrder(bytes, b.bytes);
          }
        case Arr(items) =>
          ItemsOrderStep(items, b.items);
          assert Encode(a) == [T_ARR] + (EncodeItems(items) + [T_END]);
          assert Encode(b) == [T_ARR] + (EncodeItems(b.items) + [T_END]);
      }
    }
  }

  lemma {:induction false} ItemsOrderStep(xs: seq<Key>, ys: seq<Key>)
    ensures CompareItems(xs, ys) == Lt ==> Below(EncodeItems(xs) + [T_END], EncodeItems(ys) + [T_END])
    ensures CompareItems(xs, ys) == Eq ==> EncodeItems(xs) == EncodeItems(ys)
    decreases xs, 0
  {
    if xs != [] && ys != [] {
      var x, y := Encode(xs[0]), Encode(ys[0]);
      var v, w := EncodeItems(xs[1..]) + [T_END], EncodeItems(ys[1..]) + [T_END];
      assert EncodeItems(xs) + [T_END] == x + v && EncodeItems(ys) + [T_END] == y + w;
      EncodeOrderStep(xs[0], ys[0]);
      if Compare(xs[0], ys[0]) == Lt {
        BelowDecides(x, y, v, w);
      } else if Compare(xs[0], ys[0]) == Eq {
        ItemsOrderStep(xs[1..], ys[1..]);
        if CompareItems(xs, ys) == Lt {
          BelowAfterPrefix(x, v, w);
        }
      }
    }
  }

  lemma {:induction false} CompareFlips(a: Key, b: Key)
    ensures Compare(b, a) == Compare(a, b).Flip()
    decreases a, 0
  {
    if TypeRank(a) == TypeRank(b) {
      match a {
        case Str(units) => CompareSeqsFlips(units, b.units);
        case Bin(bytes) => CompareSeqsFlips(bytes, b.bytes);
        case Arr(items) => CompareItemsFlips(items, b.items);
        case _ =>
      }
    }
  }

  lemma {:induction false} CompareItemsFlips(xs: seq<Key>, ys: seq<Key>)
    ensures CompareItems(ys, xs) == CompareItems(xs, ys).Flip()
    decreases xs, 0
  {
    if xs != [] && ys != [] {
      CompareFlips(xs[0], ys[0]);
      CompareItemsFlips(xs[1..], ys[1..]);
    }
  }

  /** Keys compare equal exactly when they are the same key up to -0. */
  lemma {:induction false} EqualKeys(a: Key, b: Key)
    ensures Compare(a, b) == Eq <==> Canon(a) == Canon(b)
    decreases a, 0
  {
    if TypeRank(a) == TypeRank(b) {
      match a {
        case Num(x) => EqualDoubles(x, b.x);
        case Date(x) => EqualDoubles(x, b.x);
        case Str(units) => CompareSeqsFlips(units, b.units);
        case Bin(bytes) => CompareSeqsFlips(bytes, b.bytes);
        case Arr(items) => EqualItems(items, b.items);
      }
    }
  }

  lemma EqualDoubles(x: Double, y: Double)
    ensures Value(x) == Value(y) <==> CanonDouble(x) == CanonDouble(y)
  {
    if Value(x) == Value(y) {
      ValueInjective(x, y);
    }
  }

  lemma {:induction false} EqualItems(xs: seq<Key>, ys: seq<Key>)
    ensures CompareItems(xs, ys) == Eq <==> CanonItems(xs) == CanonItems(ys)
    decreases xs, 0
  {
    if xs != [] && ys != [] {
      EqualKeys(xs[0], ys[0]);
      EqualItems(xs[1..], ys[1..]);
      assert CanonItems(xs)[0] == Canon(xs[0]) && CanonItems(xs)[1..] == CanonItems(xs[1..]);
      assert CanonItems(ys)[0] == Canon(ys[0]) && CanonItems(ys)[1..] == CanonItems(ys[1..]);
    }
  }

  /** Byte order of the encodings is key order, and equal keys are the keys
      that encode alike. */
  lemma OrderTheorem(a: Key, b: Key)
    ensures Less(Encode(a), Encode(b)) <==> Compare(a, b) == Lt
    ensures Encode(a) == Encode(b) <==> Compare(a, b) == Eq
    ensures Encode(a) == Encode(b) <==> Canon(a) == Canon(b)
    ensures Less(Encode(b), Encode(a)) <==> Compare(a, b) == Gt
  {
    var x, y := Encode(a), Encode(b);
    assert x + [] == x && y + [] == y;
    EncodeOrderStep(a, b);
    EncodeOrderStep(b, a);
    CompareFlips(a, b);
    EqualKeys(a, b);
    if Compare(a, b) == Lt {
      BelowDecides(x, y, [], []);
    } else if Compare(a, b) == Gt {
      BelowDecides(y, x, [], []);
    }
    LessIsStrict(x, y);
  }

  /** The order of keys is a strict order: nothing in the standard's algorithm
      says so outright. */
  lemma CompareTransitive(a: Key, b: Key, c: Key)
    requires Compare(a, b) == Lt && Compare(b, c) == Lt
    ensures Compare(a, c) == Lt
  {
    OrderTheorem(a, b);
    OrderTheorem(b, c);
    OrderTheorem(a, c);
    LessIsTransitive(Encode(a), Encode(b), Encode(c));
  }

  // ---- self-delimiting ----------------------------------------------------------------

  /** No encoding is a prefix of another. */
  lemma PrefixFree(a: Bytes, b: Bytes)
    requires IsEncoding(a) && IsEncoding(b) && a <= b
    ensures a == b
  {
    var k :| Encode(k) == a;
    var l :| Encode(l) == b;
    EncodeOrderStep(k, l);
    EncodeOrderStep(l, k);
    CompareFlips(k, l);
    if Compare(k, l) == Lt {
      BelowIsNoPrefix(a, b);
    } else if Compare(k, l) == Gt {
      BelowIsNoPrefix(b, a);
    }
  }

  /** An index entry, key then primary key, splits in one way only. */
  lemma SplitUnique(k: Bytes, p: Bytes, l: Bytes, q: Bytes)
    requires IsEncoding(k) && IsEncoding(l)
    requires k + p == l + q
    ensures k == l && p == q
  {
    if |k| <= |l| {
      assert k == (k + p)[..|k|] == l[..|k|];
      PrefixFree(k, l);
    } else {
      assert l == (k + p)[..|l|] == k[..|l|];
      PrefixFree(l, k);
    }
    assert p == (k + p)[|k|..] && q == (l + q)[|l|..];
  }

  /** Whatever follows them, encodings sort by key first. */
  lemma EncodingsDecide(k: Bytes, l: Bytes, p: Bytes, q: Bytes)
    requires IsEncoding(k) && IsEncoding(l)
    ensures Less(k + p, l + q) <==> Less(k, l) || (k == l && Less(p, q))
  {
    if k == l {
      LessAfterPrefix(k, p, q);
      LessIsStrict(k, k);
    } else {
      var a :| Encode(a) == k;
      var b :| Encode(b) == l;
      OrderTheorem(a, b);
      EncodeOrderStep(a, b);
      EncodeOrderStep(b, a);
      CompareFlips(a, b);
      if Compare(a, b) == Lt {
        BelowDecides(k, l, p, q);
      } else {
        BelowDecides(l, k, q, p);
        LessIsStrict(l + q, k + p);
      }
    }
  }

  // ---- decoding -------------------------------------------------------------------------

  /** The bytes up to the terminator, unescaped, and what follows it. */
  function Unescaped(b: Bytes): (r: Option<(Bytes, Bytes)>)
    ensures r.Some? ==> |r.value.1| < |b| && r.value.1 == b[|b| - |r.value.1|..]
  {
    if b == [] then None
    else if b[0] != 0 then
      match Unescaped(b[1..])
      case None => None
      case Some((s, rest)) => Some(([b[0]] + s, rest))
    else if |b| == 1 then None
    else if b[1] == 0 then Some(([], b[2..]))
    else
      match Unescaped(b[2..])
      case None => None
      case Some((s, rest)) => Some(([0] + s, rest))
  }

  /** Pairs of bytes as code units; an odd byte at the end is dropped. */
  function UnitsOf(raw: Bytes): seq<u16> {
    if |raw| < 2 then []
    else
      var hi: int, lo: int := raw[0], raw[1];
      [hi * 256 + lo] + UnitsOf(raw[2..])
  }

  function DoubleOf(raw: Bytes): Double
    requires |raw| == 8
  {
    FromBigEndianRange(raw);
    Pow256Values();
    FromBigEndian(raw)
  }

  /** Reads one key off the front, and returns it with what is left. */
  function Decode(b: Bytes): (r: Option<(Key, Bytes)>)
    ensures r.Some? ==> |r.value.1| < |b| && r.value.1 == b[|b| - |r.value.1|..]
    decreases |b|, 0
  {
    if b == [] then None
    else if b[0] == T_NUM || b[0] == T_DATE then
      if |b| < 9 then None
      else
        var x := NumFromBits(DoubleOf(b[1..9]));
        Some((if b[0] == T_NUM then Num(x) else Date(x), b[9..]))
    else if b[0] == T_STR then
      match Unescaped(b[1..])
      case None => None
      case Some((raw, rest)) => Some((Str(UnitsOf(raw)), rest))
    else if b[0] == T_BIN then
      match Unescaped(b[1..])
      case None => None
      case Some((raw, rest)) => Some((Bin(raw), rest))
    else if b[0] == T_ARR then
      match DecodeItems(b[1..])
      case None => None
      case Some((items, rest)) => Some((Arr(items), rest))
    else None
  }

  function DecodeItems(b: Bytes): (r: Option<(seq<Key>, Bytes)>)
    ensures r.Some? ==> |r.value.1| < |b| && r.value.1 == b[|b| - |r.value.1|..]
    decreases |b|, 1
  {
    if b == [] then None
    else if b[0] == T_END then Some(([], b[1..]))
    else
      match Decode(b)
      case None => None
      case Some((k, rest)) =>
        match DecodeItems(rest)
        case None => None
        case Some((items, tail)) => Some(([k] + items, tail))
  }

  lemma {:induction false} UnescapeRoundTrip(s: Bytes, rest: Bytes)
    ensures Unescaped(Escaped(s) + rest) == Some((s, rest))
  {
    var b := Escaped(s) + rest;
    if s == [] {
      assert b == [0, 0] + rest;
      assert b[2..] == rest;
    } else {
      var tail := Escaped(s[1..]) + rest;
      UnescapeRoundTrip(s[1..], rest);
      if s[0] == 0 {
        assert b == [0, 0xFF] + tail;
        assert b[2..] == tail && [0] + s[1..] == s;
      } else {
        assert b == [s[0]] + tail;
        assert b[1..] == tail && [s[0]] + s[1..] == s;
      }
    }
  }

  lemma {:induction false} UnitsRoundTrip(units: seq<u16>)
    ensures UnitsOf(UnitBytes(units)) == units
  {
    if units != [] {
      PairOf(units[0]);
      assert UnitBytes(units)[2..] == UnitBytes(units[1..]);
      UnitsRoundTrip(units[1..]);
    }
  }

  lemma NumRoundTrip(x: Double)
    ensures NumFromBits(NumBits(x)) == CanonDouble(x)
    ensures FromBigEndian(BigEndian(NumBits(x), 8)) == NumBits(x)
  {
    Pow256Values();
    BigEndianRoundTrip(NumBits(x), 8);
  }

  lemma NumberRoundTrip(k: Key, rest: Bytes)
    requires k.Num? || k.Date?
    ensures Decode(Encode(k) + rest) == Some((Canon(k), rest))
  {
    var b, raw := Encode(k) + rest, BigEndian(NumBits(k.x), 8);
    NumRoundTrip(k.x);
    assert b == [b[0]] + raw + rest;
    assert b[1..9] == raw && b[9..] == rest;
  }

  lemma TextRoundTrip(k: Key, rest: Bytes)
    requires k.Str? || k.Bin?
    ensures Decode(Encode(k) + rest) == Some((Canon(k), rest))
  {
    var raw := if k.Str? then UnitBytes(k.units) else k.bytes;
    var b := Encode(k) + rest;
    assert b[0] == Encode(k)[0];
    assert b[1..] == Escaped(raw) + rest;
    UnescapeRoundTrip(raw, rest);
    if k.Str? {
      UnitsRoundTrip(k.units);
    }
  }

  lemma AfterTag(tag: byte, s: Bytes, rest: Bytes)
    ensures ([tag] + s + rest)[0] == tag && ([tag] + s + rest)[1..] == s + rest
  {
  }

  lemma ArrayRoundTrip(xs: seq<Key>, rest: Bytes)
    requires DecodeItems(EncodeItems(xs) + [T_END] + rest) == Some((CanonItems(xs), rest))
    ensures Decode(Encode(Arr(xs)) + rest) == Some((Canon(Arr(xs)), rest))
  {
    AfterTag(T_ARR, EncodeItems(xs) + [T_END], rest);
    assert [T_ARR] + (EncodeItems(xs) + [T_END]) == Encode(Arr(xs));
  }

  /** Decoding an encoded key, whatever follows it, gives the key back (-0 as
      0) and stops exactly where it ends. */
  lemma {:induction false} RoundTrip(k: Key, rest: Bytes)
    ensures Decode(Encode(k) + rest) == Some((Canon(k), rest))
    decreases k, 0
  {
    if k.Num? || k.Date? {
      NumberRoundTrip(k, rest);
    } else if k.Str? || k.Bin? {
      TextRoundTrip(k, rest);
    } else {
      ItemsRoundTrip(k.items, rest);
      ArrayRoundTrip(k.items, rest);
    }
  }

  lemma {:induction false} ItemsRoundTrip(xs: seq<Key>, rest: Bytes)
    ensures DecodeItems(EncodeItems(xs) + [T_END] + rest) == Some((CanonItems(xs), rest))
    decreases xs, 0
  {
    var b := EncodeItems(xs) + [T_END] + rest;
    if xs == [] {
      assert b[1..] == rest;
    } else {
      var tail := EncodeItems(xs[1..]) + [T_END] + rest;
      assert b == Encode(xs[0]) + tail;
      RoundTrip(xs[0], tail);
      ItemsRoundTrip(xs[1..], rest);
    }
  }

  /** The bytes of an index entry and the two keys `split_entry` finds in it. */
  function Split(e: Bytes): (Bytes, Bytes) {
    match Decode(e)
    case None => (e, [])
    case Some((_, rest)) => (e[..|e| - |rest|], rest)
  }

  lemma SplitRecovers(k: Bytes, p: Bytes)
    requires IsEncoding(k)
    ensures Split(k + p) == (k, p)
  {
    var a :| Encode(a) == k;
    RoundTrip(a, p);
  }
}
