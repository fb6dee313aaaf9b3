/** Byte strings and their lexicographic order: the order of `Vec<u8>`, which
    is what every BTreeMap and BTreeSet of the engine sorts by. */
module ByteStrings {

  type byte = b: int | 0 <= b < 256

  type Bytes = seq<byte>

  /** Lexicographic order, a proper prefix first. */
  predicate Less(a: Bytes, b: Bytes) {
    b != [] && (a == [] || a[0] < b[0] || (a[0] == b[0] && Less(a[1..], b[1..])))
  }

  predicate AtMost(a: Bytes, b: Bytes) {
    a == b || Less(a, b)
  }

  /** `a` is smaller than `b` at a position both have: the order is already
      decided, whatever follows either of them. */
  ghost predicate Below(a: Bytes, b: Bytes) {
    a != [] && b != [] && (a[0] < b[0] || (a[0] == b[0] && Below(a[1..], b[1..])))
  }

  lemma {:induction false} LessIsStrict(a: Bytes, b: Bytes)
    ensures !(Less(a, b) && (a == b || Less(b, a)))
  {
    if a != [] && b != [] {
      LessIsStrict(a[1..], b[1..]);
    }
  }

  lemma {:induction false} LessIsTotal(a: Bytes, b: Bytes)
    ensures a == b || Less(a, b) || Less(b, a)
  {
    if a != [] && b != [] && a[0] == b[0] {
      LessIsTotal(a[1..], b[1..]);
      assert a == [a[0]] + a[1..] && b == [b[0]] + b[1..];
    }
  }

  lemma {:induction false} LessIsTransitive(a: Bytes, b: Bytes, c: Bytes)
    requires Less(a, b) && Less(b, c)
    ensures Less(a, c)
  {
    if a != [] && a[0] == b[0] == c[0] {
      LessIsTransitive(a[1..], b[1..], c[1..]);
    }
  }

  lemma {:induction false} BelowDecides(a: Bytes, b: Bytes, x: Bytes, y: Bytes)
    requires Below(a, b)
    ensures Below(a + x, b + y) && Less(a + x, b + y)
  {
    assert (a + x)[1..] == a[1..] + x && (b + y)[1..] == b[1..] + y;
    if a[0] == b[0] {
      BelowDecides(a[1..], b[1..], x, y);
    }
  }

  lemma {:induction false} BelowAfterPrefix(p: Bytes, a: Bytes, b: Bytes)
    requires Below(a, b)
    ensures Below(p + a, p + b)
  {
    if p == [] {
      assert p + a == a && p + b == b;
    } else {
      BelowAfterPrefix(p[1..], a, b);
      assert (p + a)[1..] == p[1..] + a && (p + b)[1..] == p[1..] + b;
    }
  }

  /** Two strings that differ at a common position are not prefixes of each other. */
  lemma BelowIsNoPrefix(a: Bytes, b: Bytes)
    requires Below(a, b)
    ensures !(a <= b) && !(b <= a)
  {
    if a <= b {
      assert a + b[|a|..] == b && b + [] == b;
      BelowDecides(a, b, b[|a|..], []);
      LessIsStrict(b, b);
    }
    if b <= a {
      assert b + a[|b|..] == a && a + [] == a;
      BelowDecides(a, b, [], a[|b|..]);
      LessIsStrict(a, a);
    }
  }

  lemma {:induction false} PrefixIsLess(a: Bytes, x: Bytes)
    requires x != []
    ensures Less(a, a + x)
  {
    if a == [] {
      assert a + x == x;
    } else {
      PrefixIsLess(a[1..], x);
      assert (a + x)[1..] == a[1..] + x;
    }
  }

  lemma {:induction false} LessAfterPrefix(p: Bytes, a: Bytes, b: Bytes)
    ensures Less(p + a, p + b) <==> Less(a, b)
  {
    if p == [] {
      assert p + a == a && p + b == b;
    } else {
      LessAfterPrefix(p[1..], a, b);
      assert (p + a)[1..] == p[1..] + a && (p + b)[1..] == p[1..] + b;
    }
  }

  // ---- big-endian integers ----------------------------------------------------

  function Pow256(n: nat): (r: nat)
    ensures r > 0
  {
    if n == 0 then 1 else 256 * Pow256(n - 1)
  }

  /** The low `len` bytes of `n`, most significant first. */
  function BigEndian(n: nat, len: nat): (r: Bytes)
    ensures |r| == len
  {
    if len == 0 then [] else BigEndian(n / 256, len - 1) + [n % 256]
  }

  function FromBigEndian(b: Bytes): nat {
    if b == [] then 0 else FromBigEndian(b[..|b| - 1]) * 256 + b[|b| - 1]
  }

  lemma {:induction false} BigEndianRoundTrip(n: nat, len: nat)
    requires n < Pow256(len)
    ensures FromBigEndian(BigEndian(n, len)) == n
  {
    if len > 0 {
      BigEndianRoundTrip(n / 256, len - 1);
      assert BigEndian(n, len)[..len - 1] == BigEndian(n / 256, len - 1);
    }
  }

  lemma {:induction false} FromBigEndianRange(b: Bytes)
    ensures FromBigEndian(b) < Pow256(|b|)
  {
    if b != [] {
      FromBigEndianRange(b[..|b| - 1]);
    }
  }

  /** Big-endian integers of one width sort as the integers do. */
  lemma {:induction false} BigEndianOrder(n: nat, m: nat, len: nat)
    requires n < m < Pow256(len)
    ensures Below(BigEndian(n, len), BigEndian(m, len))
  {
    var p, q := BigEndian(n / 256, len - 1), BigEndian(m / 256, len - 1);
    if n / 256 < m / 256 {
      BigEndianOrder(n / 256, m / 256, len - 1);
      BelowDecides(p, q, [n % 256], [m % 256]);
    } else {
      BelowAfterPrefix(p, [n % 256], [m % 256]);
    }
  }
}
