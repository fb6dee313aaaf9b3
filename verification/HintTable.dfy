/** Blink's header map: open addressing with triangular probing in a table of
    a power of two slots, doubled once half full. The hash is any function. */
module HintTable {
  import opened Options
  import opened Powers

  // ---- triangular numbers modulo a power of two -------------------------------------------

  function Triangle(p: nat): nat {
    p * (p + 1) / 2
  }

  lemma TriangleNext(p: nat)
    ensures Triangle(p + 1) == Triangle(p) + p + 1
  {
    assert (p + 1) * (p + 2) == p * (p + 1) + 2 * (p + 1);
  }

  ghost predicate Divides(d: nat, n: nat) {
    exists q: nat :: n == d * q
  }

  lemma OddProduct(x: nat, y: nat)
    requires x % 2 == 1 && y % 2 == 1
    ensures (x * y) % 2 == 1
  {
    var a, b := x / 2, y / 2;
    assert x == 2 * a + 1 && y == 2 * b + 1;
    assert (2 * a + 1) * y == 2 * (a * y) + y;
    assert x * y == 2 * (a * y + b) + 1;
  }

  lemma EvenFactor(x: nat, y: nat)
    requires x % 2 == 1 && (x * y) % 2 == 0
    ensures y % 2 == 0
  {
    if y % 2 == 1 {
      OddProduct(x, y);
    }
  }

  lemma DoubleDivides(d: nat, n: nat, m: nat)
    requires Divides(d, n) && m == 2 * n
    ensures Divides(2 * d, m)
  {
    var q: nat :| n == d * q;
    Twice(d, q);
  }

  /** A power of two dividing a product with an odd factor divides the other. */
  lemma {:induction false} OddFactor(m: nat, x: nat, y: nat)
    requires x % 2 == 1 && Divides(Pow2(m), x * y)
    ensures Divides(Pow2(m), y)
    decreases m
  {
    if m == 0 {
      assert y == 1 * y;
    } else {
      HalfStillDivides(Pow2(m - 1), x, y);
      OddFactor(m - 1, x, y / 2);
      DoubleDivides(Pow2(m - 1), y / 2, y);
    }
  }

  lemma HalfStillDivides(h: nat, x: nat, y: nat)
    requires x % 2 == 1 && Divides(2 * h, x * y)
    ensures y % 2 == 0 && Divides(h, x * (y / 2))
  {
    var q: nat :| x * y == (2 * h) * q;
    Twice(h, q);
    EvenFactor(x, y);
    Halved(x, y / 2, h, q);
  }

  lemma Twice(h: nat, q: nat)
    ensures (2 * h) * q == 2 * (h * q)
  {
  }

  lemma Halved(x: nat, z: nat, h: nat, q: nat)
    requires x * (2 * z) == 2 * (h * q)
    ensures x * z == h * q
  {
    assert x * (2 * z) == 2 * (x * z);
  }

  lemma DividesSmall(d: nat, n: nat)
    requires Divides(d, n) && 0 < n
    ensures d <= n
  {
    var q: nat :| n == d * q;
    if q > 0 {
      AtLeastOnce(d, q);
    }
  }

  lemma AtLeastOnce(d: nat, q: nat)
    requires q > 0
    ensures d * q >= d
  {
    assert d * q == d + d * (q - 1);
  }

  /** Twice the distance of two triangular numbers. */
  lemma TriangleGap(a: nat, b: nat)
    requires a < b
    ensures 2 * (Triangle(b) - Triangle(a)) == (b - a) * (a + b + 1)
    ensures Triangle(a) < Triangle(b)
  {
    assert b * (b + 1) - a * (a + 1) == (b - a) * (a + b + 1);
    EvenProduct(a);
    EvenProduct(b);
    AtLeastOnce(a + b + 1, b - a);
  }

  lemma {:induction false} EvenProduct(p: nat)
    ensures p * (p + 1) % 2 == 0
  {
    if p > 0 {
      EvenProduct(p - 1);
      assert p * (p + 1) == (p - 1) * p + 2 * p;
    }
  }

  /** One factor of twice the gap is odd, and the other is too small. */
  lemma GapTooSmall(k: nat, d: nat, s: nat)
    requires 0 < d < Pow2(k) && 0 < s < Pow2(k + 1) && (d + s) % 2 == 1
    ensures !Divides(Pow2(k + 1), d * s)
  {
    hide Pow2;
    Pow2Grows(k, k + 1);
    if Divides(Pow2(k + 1), d * s) {
      if d % 2 == 1 {
        OddFactor(k + 1, d, s);
        DividesSmall(Pow2(k + 1), s);
      } else {
        assert s * d == d * s;
        OddFactor(k + 1, s, d);
        DividesSmall(Pow2(k + 1), d);
      }
    }
  }

  /** The first 2^k triangular numbers are distinct modulo 2^k. */
  lemma TrianglesDistinct(k: nat, h: nat, a: nat, b: nat)
    requires a < b < Pow2(k)
    ensures (h + Triangle(a)) % Pow2(k) != (h + Triangle(b)) % Pow2(k)
  {
    TriangleGap(a, b);
    GapTooSmall(k, b - a, a + b + 1);
    var x, y := h + Triangle(a), h + Triangle(b);
    if x % Pow2(k) == y % Pow2(k) {
      SameRemainder(x, y, Pow2(k));
      DoubleDivides(Pow2(k), y - x, (b - a) * (a + b + 1));
    }
  }

  lemma SameRemainder(x: nat, y: nat, d: nat)
    requires d > 0 && x <= y && x % d == y % d
    ensures Divides(d, y - x)
  {
    assert x == d * (x / d) + x % d && y == d * (y / d) + y % d;
    assert y / d >= x / d;
    assert y - x == d * (y / d - x / d);
  }

  // ---- every slot is probed ---------------------------------------------------------------

  /** The slot looked at after `p` collisions. */
  function Probe(hash: nat, p: nat, len: nat): (i: nat)
    requires len > 0
    ensures i < len
  {
    (hash + Triangle(p)) % len
  }

  lemma ProbeFirst(hash: nat, len: nat)
    requires len > 0
    ensures Probe(hash, 0, len) == hash % len
  {
  }

  /** The next probe from the last: `(i + probe) & mask`. */
  lemma ProbeNext(hash: nat, p: nat, len: nat)
    requires len > 0
    ensures Probe(hash, p + 1, len) == (Probe(hash, p, len) + (p + 1)) % len
  {
    TriangleNext(p);
    ModAdd(hash + Triangle(p), p + 1, len);
  }

  lemma ModAdd(x: nat, y: nat, d: nat)
    requires d > 0
    ensures (x + y) % d == (x % d + y) % d
  {
    var z := x % d + y;
    assert d * (x / d + z / d) == d * (x / d) + d * (z / d);
    ModUnique(x + y, d, x / d + z / d, z % d);
  }

  lemma ModUnique(x: nat, d: nat, q: nat, r: nat)
    requires x == d * q + r && r < d
    ensures x % d == r
  {
    var p := x / d;
    assert x == d * p + x % d;
    if p > q {
      assert d * p == d * q + d * (p - q);
      AtLeastOnce(d, p - q);
    } else if p < q {
      assert d * q == d * p + d * (q - p);
      AtLeastOnce(d, q - p);
    }
  }

  function Slots(n: nat): (s: set<nat>)
    ensures |s| == n && forall i :: i in s <==> 0 <= i < n
  {
    if n == 0 then {} else Slots(n - 1) + {n - 1}
  }

  ghost function Probed(hash: nat, n: nat, len: nat): set<nat>
    requires len > 0
  {
    set p | 0 <= p < n :: Probe(hash, p, len)
  }

  lemma {:induction false} ProbedCount(hash: nat, n: nat, k: nat)
    requires n <= Pow2(k) && Pow2(k) > 0
    ensures |Probed(hash, n, Pow2(k))| == n
    decreases n
  {
    if n > 0 {
      ProbedCount(hash, n - 1, k);
      var last := Probe(hash, n - 1, Pow2(k));
      forall p | 0 <= p < n - 1
        ensures Probe(hash, p, Pow2(k)) != last
      {
        TrianglesDistinct(k, hash, p, n - 1);
      }
      assert Probed(hash, n, Pow2(k)) == Probed(hash, n - 1, Pow2(k)) + {last};
    }
  }

  /** `len` probes visit every slot of the table. */
  lemma EverySlotProbed(hash: nat, k: nat, i: nat) returns (p: nat)
    requires i < Pow2(k)
    ensures p < Pow2(k) && Probe(hash, p, Pow2(k)) == i
  {
    var len := Pow2(k);
    ProbedCount(hash, len, k);
    if i !in Probed(hash, len, len) {
      Full(Probed(hash, len, len), i, len);
    }
    p :| 0 <= p < len && Probe(hash, p, len) == i;
  }

  lemma Full(s: set<nat>, i: nat, n: nat)
    requires (forall x :: x in s ==> x < n) && i < n && i !in s
    ensures |s| < n
  {
    assert s <= Slots(n) - {i};
    Smaller(s, Slots(n) - {i});
  }

  lemma {:induction false} Smaller(s: set<nat>, t: set<nat>)
    requires s <= t
    ensures |s| <= |t|
  {
    assert t == s + (t - s);
  }

  // ---- placing a name -----------------------------------------------------------------------

  type Table = seq<Option<string>>

  /** The slot a name goes to: the first free one on its way. */
  ghost predicate FirstFree(t: Table, hash: nat, i: nat) {
    |t| > 0 && i < |t| && t[i].None? &&
    exists p :: 0 <= p < |t| && i == Probe(hash, p, |t|) && Taken(t, hash, p)
  }

  /** The first `n` slots on the way are taken. */
  ghost predicate Taken(t: Table, hash: nat, n: nat)
    requires |t| > 0
  {
    forall q :: 0 <= q < n ==> t[Probe(hash, q, |t|)].Some?
  }

  lemma FirstFreeUnique(t: Table, hash: nat, i: nat, j: nat)
    requires FirstFree(t, hash, i) && FirstFree(t, hash, j)
    ensures i == j
  {
    var p :| 0 <= p < |t| && i == Probe(hash, p, |t|) && Taken(t, hash, p);
    var q :| 0 <= q < |t| && j == Probe(hash, q, |t|) && Taken(t, hash, q);
    FreeIsNotTaken(t, hash, p, q);
    FreeIsNotTaken(t, hash, q, p);
  }

  lemma FreeIsNotTaken(t: Table, hash: nat, p: nat, n: nat)
    requires |t| > 0 && t[Probe(hash, p, |t|)].None? && Taken(t, hash, n)
    ensures p >= n
  {
  }

  /** `place`: it ends within as many probes as there are slots. */
  method Place(table: array<Option<string>>, name: string, hash: string -> nat, ghost k: nat) returns (ghost slot: nat)
    requires table.Length == Pow2(k) && None in table[..]
    modifies table
    ensures FirstFree(old(table[..]), hash(name), slot)
    ensures table[..] == old(table[..])[slot := Some(name)]
  {
    hide Probe, Triangle, Pow2;
    ghost var was := table[..];
    ghost var free :| 0 <= free < table.Length && table[free] == None;
    ghost var bound := EverySlotProbed(hash(name), k, free);
    var i: nat, probe: nat := hash(name) % table.Length, 0;
    ProbeFirst(hash(name), table.Length);
    while table[i].Some?
      invariant probe <= bound && i == Probe(hash(name), probe, table.Length)
      invariant table[..] == was && Taken(was, hash(name), probe)
      decreases bound - probe
    {
      ProbeNext(hash(name), probe, table.Length);
      probe := probe + 1;
      i := (i + probe) % table.Length;
    }
    slot := i;
    assert FirstFree(was, hash(name), i);
    table[i] := Some(name);
  }

  /** The table with a name placed. */
  ghost function Placed(t: Table, name: string, hash: string -> nat): (u: Table)
    ensures |u| == |t|
  {
    if exists i: nat :: FirstFree(t, hash(name), i) then
      var i: nat :| FirstFree(t, hash(name), i);
      t[i := Some(name)]
    else t
  }

  lemma PlacedAt(t: Table, name: string, hash: string -> nat, i: nat)
    requires FirstFree(t, hash(name), i)
    ensures Placed(t, name, hash) == t[i := Some(name)]
  {
    forall j | FirstFree(t, hash(name), j)
      ensures i == j
    {
      FirstFreeUnique(t, hash(name), i, j);
    }
  }

  ghost function PlacedAll(t: Table, names: seq<string>, hash: string -> nat): (u: Table)
    ensures |u| == |t|
  {
    if names == [] then t
    else Placed(PlacedAll(t, names[..|names| - 1], hash), names[|names| - 1], hash)
  }

  function Fresh(n: nat): (t: Table)
    ensures |t| == n
  {
    seq(n, _ => None)
  }

  /** The table after one more name: unchanged for a name it has; doubled, and
      filled again in slot order, once half full. */
  ghost function With(t: Table, name: string, hash: string -> nat): Table {
    if name in Names(t) then t
    else
      var u := Placed(t, name, hash);
      if 2 * |Names(u)| >= |u| then PlacedAll(Fresh(2 * |u|), Names(u), hash) else u
  }

  /** The table the names make, inserted in order into eight slots. */
  ghost function TableOf(names: seq<string>, hash: string -> nat): Table {
    if names == [] then Fresh(8) else With(TableOf(names[..|names| - 1], hash), names[|names| - 1], hash)
  }

  // ---- four names with one hash ------------------------------------------------------------------

  /** With hash 0 the way through a table starts 0, 1, 3, 6. */
  lemma FirstProbes(len: nat)
    requires len >= 8
    ensures Probe(0, 0, len) == 0 && Probe(0, 1, len) == 1 && Probe(0, 2, len) == 3 && Probe(0, 3, len) == 6
  {
    assert Triangle(0) == 0 && Triangle(1) == 1 && Triangle(2) == 3 && Triangle(3) == 6;
    SmallMod(0, len);
    SmallMod(1, len);
    SmallMod(3, len);
    SmallMod(6, len);
  }

  lemma SmallMod(n: nat, len: nat)
    requires n < len
    ensures n % len == n
  {
  }

  lemma PlacedAfter(t: Table, name: string, hash: string -> nat, p: nat)
    requires |t| >= 8 && p < 4 && hash(name) == 0 && Taken(t, 0, p) && t[Probe(0, p, |t|)].None?
    ensures Placed(t, name, hash) == t[Probe(0, p, |t|) := Some(name)]
  {
    hide Probe;
    assert FirstFree(t, hash(name), Probe(0, p, |t|));
    PlacedAt(t, name, hash, Probe(0, p, |t|));
  }

  /** The table with the first `n` of four names of hash 0 in it. */
  function Collided(len: nat, names: seq<string>, n: nat): Table
    requires len >= 8 && |names| == 4 && n <= 4
  {
    seq(len, i => if i == 0 && n > 0 then Some(names[0]) else if i == 1 && n > 1 then Some(names[1])
                  else if i == 3 && n > 2 then Some(names[2]) else if i == 6 && n > 3 then Some(names[3]) else None)
  }

  lemma OneMoreCollides(len: nat, names: seq<string>, hash: string -> nat, n: nat)
    requires len >= 8 && |names| == 4 && n < 4 && hash(names[n]) == 0
    ensures Placed(Collided(len, names, n), names[n], hash) == Collided(len, names, n + 1)
  {
    FirstProbes(len);
    var t := Collided(len, names, n);
    PlacedAfter(t, names[n], hash, n);
    assert t[Probe(0, n, len) := Some(names[n])] == Collided(len, names, n + 1);
  }

  // ---- what a table holds ---------------------------------------------------------------------

  /** The names in slot order: `into_iter().flatten()`. */
  function Names(t: Table): seq<string> {
    if t == [] then [] else (if t[0].Some? then [t[0].value] else []) + Names(t[1..])
  }

  lemma {:induction false} NamesJoin(a: Table, b: Table)
    ensures Names(a + b) == Names(a) + Names(b)
  {
    if a == [] {
      assert a + b == b;
    } else {
      assert (a + b)[1..] == a[1..] + b;
      NamesJoin(a[1..], b);
    }
  }

  lemma NamesSplit(t: Table, i: nat)
    requires i < |t|
    ensures Names(t) == Names(t[..i]) + Names([t[i]]) + Names(t[i + 1..])
  {
    hide Names;
    assert t == t[..i] + t[i..];
    NamesJoin(t[..i], t[i..]);
    NamesJoin([t[i]], t[i + 1..]);
    assert t[i..] == [t[i]] + t[i + 1..];
  }

  /** A name put in a free slot joins the names. */
  lemma PutInFree(t: Table, i: nat, name: string)
    requires i < |t| && t[i].None?
    ensures multiset(Names(t[i := Some(name)])) == multiset(Names(t)) + multiset{name}
  {
    var u := t[i := Some(name)];
    NamesSplit(t, i);
    NamesSplit(u, i);
    assert u[..i] == t[..i] && u[i + 1..] == t[i + 1..];
    assert Names([t[i]]) == [] && Names([u[i]]) == [name];
  }

  lemma {:induction false} NamesFit(t: Table)
    ensures |Names(t)| <= |t| && (|Names(t)| < |t| ==> None in t)
  {
    if t != [] {
      NamesFit(t[1..]);
      if |Names(t)| < |t| && t[0].Some? {
        assert None in t[1..];
      }
    }
  }

  lemma {:induction false} EmptyTable(n: nat)
    ensures Names(Fresh(n)) == []
  {
    if n > 0 {
      EmptyTable(n - 1);
      assert Fresh(n)[1..] == Fresh(n - 1);
    }
  }

  lemma {:induction false} NamesMembers(t: Table, name: string)
    ensures name in Names(t) <==> Some(name) in t
  {
    if t != [] {
      NamesMembers(t[1..], name);
      assert t == [t[0]] + t[1..];
    }
  }

  // ---- lookups ------------------------------------------------------------------------------

  /** Probing for a name finds it: the slots on its way are taken up to it. */
  ghost predicate Reachable(t: Table, hash: string -> nat)
    requires |t| > 0
  {
    forall i :: 0 <= i < |t| && t[i].Some? ==>
      exists p :: 0 <= p < |t| && i == Probe(hash(t[i].value), p, |t|) && Taken(t, hash(t[i].value), p)
  }

  lemma PlaceKeepsReachable(t: Table, hash: string -> nat, name: string, slot: nat)
    requires |t| > 0 && Reachable(t, hash) && FirstFree(t, hash(name), slot)
    ensures Reachable(t[slot := Some(name)], hash)
  {
    var u := t[slot := Some(name)];
    forall i | 0 <= i < |u| && u[i].Some?
      ensures exists p :: 0 <= p < |u| && i == Probe(hash(u[i].value), p, |u|) && Taken(u, hash(u[i].value), p)
    {
      if i == slot {
        var p :| 0 <= p < |t| && i == Probe(hash(name), p, |t|) && Taken(t, hash(name), p);
        assert Taken(u, hash(name), p);
      } else {
        var p :| 0 <= p < |t| && i == Probe(hash(t[i].value), p, |t|) && Taken(t, hash(t[i].value), p);
        assert Taken(u, hash(u[i].value), p);
      }
    }
  }

  // ---- the order of the names -----------------------------------------------------------------

  predicate Distinct(s: seq<string>) {
    forall i, j :: 0 <= i < j < |s| ==> s[i] != s[j]
  }

  lemma CountedTwice(s: seq<string>, i: nat, j: nat)
    requires i < j < |s| && s[i] == s[j]
    ensures multiset(s)[s[i]] >= 2
  {
    assert s == s[..j] + s[j..];
    assert s[..j][i] == s[i] && s[j..][0] == s[i];
  }

  lemma DistinctBySets(s: seq<string>)
    requires forall x :: multiset(s)[x] <= 1
    ensures Distinct(s)
  {
    forall i, j | 0 <= i < j < |s|
      ensures s[i] != s[j]
    {
      if s[i] == s[j] {
        CountedTwice(s, i, j);
      }
    }
  }

  /** A table kept under half full, of a power of two slots. */
  ghost predicate Roomy(t: Table, k: nat, hash: string -> nat) {
    |t| == Pow2(k) && |t| >= 8 && 2 * |Names(t)| < |t| && Reachable(t, hash)
  }

  /** Placing a name keeps what the table promises. */
  method PlaceIn(table: array<Option<string>>, name: string, hash: string -> nat, ghost k: nat)
    requires table.Length == Pow2(k) && table.Length > 0 && |Names(table[..])| < table.Length && Reachable(table[..], hash)
    modifies table
    ensures multiset(Names(table[..])) == multiset(Names(old(table[..]))) + multiset{name} && Reachable(table[..], hash)
    ensures table[..] == Placed(old(table[..]), name, hash)
  {
    NamesFit(table[..]);
    ghost var slot := Place(table, name, hash, k);
    PlacedAt(old(table[..]), name, hash, slot);
    PutInFree(old(table[..]), slot, name);
    PlaceKeepsReachable(old(table[..]), hash, name, slot);
  }

  lemma NextName(t: Table, i: nat, names: seq<string>)
    requires i < |t| && multiset(names) == multiset(Names(t[..i]))
    ensures |names| <= i
    ensures Names(t[..i + 1]) == if t[i].Some? then Names(t[..i]) + [t[i].value] else Names(t[..i])
    ensures multiset(Names(t[..i + 1])) == if t[i].Some? then multiset(names) + multiset{t[i].value} else multiset(names)
  {
    NamesFit(t[..i]);
    SameSize(names, Names(t[..i]));
    assert t[..i + 1] == t[..i] + [t[i]];
    NamesJoin(t[..i], [t[i]]);
    assert Names([t[i]]) == if t[i].Some? then [t[i].value] else [];
  }

  /** The next slot of the old table goes into the new one. */
  method Reinsert(grown: array<Option<string>>, entry: Option<string>, hash: string -> nat, ghost k: nat,
                  ghost start: Table, ghost was: Table, ghost i: nat)
    requires i < |was| < grown.Length == Pow2(k) && entry == was[i] && Refilled(grown[..], start, was[..i], hash)
    modifies grown
    ensures Refilled(grown[..], start, was[..i + 1], hash)
  {
    hide Names, Reachable, Placed, PlacedAll, Pow2;
    NextName(was, i, Names(grown[..]));
    if entry.Some? {
      OneMorePlaced(start, Names(was[..i]), entry.value, hash);
      PlaceIn(grown, entry.value, hash, k);
    }
  }

  /** The table grown to twice its size, reinserting in slot order. */
  method Grow(table: array<Option<string>>, hash: string -> nat, ghost k: nat) returns (grown: array<Option<string>>)
    requires table.Length == Pow2(k) && table.Length > 0
    ensures fresh(grown) && grown.Length == Pow2(k + 1)
    ensures multiset(Names(grown[..])) == multiset(Names(table[..])) && Reachable(grown[..], hash)
    ensures grown[..] == PlacedAll(Fresh(2 * table.Length), Names(table[..]), hash)
  {
    hide Names, Reachable, Placed, PlacedAll, FirstFree;
    grown := new Option<string>[table.Length * 2](_ => None);
    ghost var start, was := Fresh(2 * table.Length), table[..];
    assert grown[..] == start && was[..0] == [];
    FreshRefilled(grown.Length, hash);
    for i := 0 to table.Length
      invariant table[..] == was
      invariant Refilled(grown[..], start, was[..i], hash)
    {
      Reinsert(grown, table[i], hash, k + 1, start, was, i);
    }
    assert was[..table.Length] == was;
  }

  /** A table filled again with the names of another. */
  ghost predicate Refilled(t: Table, start: Table, names: Table, hash: string -> nat)
    requires |t| > 0
  {
    multiset(Names(t)) == multiset(Names(names)) && Reachable(t, hash) && t == PlacedAll(start, Names(names), hash)
  }

  lemma FreshRefilled(n: nat, hash: string -> nat)
    requires n > 0
    ensures Refilled(Fresh(n), Fresh(n), [], hash)
  {
    EmptyTable(n);
  }

  lemma OneMorePlaced(t: Table, names: seq<string>, name: string, hash: string -> nat)
    ensures PlacedAll(t, names + [name], hash) == Placed(PlacedAll(t, names, hash), name, hash)
  {
    assert (names + [name])[..|names|] == names;
  }

  lemma SameSize(a: seq<string>, b: seq<string>)
    requires multiset(a) == multiset(b)
    ensures |a| == |b|
  {
    assert |multiset(a)| == |a| && |multiset(b)| == |b|;
  }

  /** The names so far, once each. */
  ghost predicate Holds(t: Table, names: seq<string>) {
    forall x :: multiset(Names(t))[x] == if x in names then 1 else 0
  }

  /** A name already there is skipped; a new one is placed, and the table grows
      once half full. */
  method Insert(table: array<Option<string>>, count: nat, name: string, hash: string -> nat,
                ghost k: nat, ghost names: seq<string>)
    returns (r: array<Option<string>>, c: nat, ghost l: nat)
    requires count == |Names(table[..])| && Roomy(table[..], k, hash) && Holds(table[..], names)
    modifies table
    ensures r == table || fresh(r)
    ensures c == |Names(r[..])| && Roomy(r[..], l, hash) && Holds(r[..], names + [name])
    ensures r[..] == With(old(table[..]), name, hash)
    ensures FitsCount(table.Length, count) ==> FitsCount(r.Length, c)
  {
    r, c, l := table, count, k;
    hide Names, Reachable, Holds, Placed, PlacedAll, Fresh;
    var present := Contains(table, name);
    NamesMembers(table[..], name);
    if present {
      AlreadyHeld(table[..], name, names);
      return;
    }
    PlaceIn(table, name, hash, k);
    c := count + 1;
    AddsOne(old(table[..]), table[..], name, names);
    if c * 2 >= table.Length {
      r := Grow(table, hash, k);
      SameSize(Names(r[..]), Names(table[..]));
      SameHolds(table[..], r[..], names + [name]);
      l := k + 1;
    }
  }

  /** Eight slots, or at most four for every name; twice the names never fill them. */
  predicate FitsCount(slots: nat, names: nat) {
    8 <= slots && 2 * names < slots && (slots == 8 || slots <= 4 * names)
  }

  lemma SameHolds(t: Table, u: Table, names: seq<string>)
    requires Holds(t, names) && multiset(Names(u)) == multiset(Names(t))
    ensures Holds(u, names)
  {
  }

  lemma AlreadyHeld(t: Table, name: string, names: seq<string>)
    requires Holds(t, names) && name in Names(t)
    ensures Holds(t, names + [name])
  {
    assert name in multiset(Names(t));
  }

  lemma AddsOne(t: Table, u: Table, name: string, names: seq<string>)
    requires Holds(t, names) && name !in Names(t) && multiset(Names(u)) == multiset(Names(t)) + multiset{name}
    ensures Holds(u, names + [name]) && |Names(u)| == |Names(t)| + 1
  {
    assert |multiset(Names(u))| == |multiset(Names(t))| + 1;
    forall x
      ensures multiset(Names(u))[x] == if x in names + [name] then 1 else 0
    {
      assert name !in multiset(Names(t));
    }
  }

  /** `blink_map_order`: whatever the hash, the names come out once each, through
      any number of growths, and none is lost. */
  method BlinkMapOrder(names: seq<string>, hash: string -> nat) returns (r: seq<string>)
    ensures r == Names(TableOf(names, hash))
    ensures Distinct(r) && forall x :: x in r <==> x in names
    ensures var slots := |TableOf(names, hash)|;
            8 <= slots && 2 * |r| < slots && (slots == 8 || slots <= 4 * |r|) && exists k :: slots == Pow2(k)
  {
    hide With;
    var table := new Option<string>[8](_ => None);
    assert table[..] == Fresh(8);
    EmptyTable(8);
    ghost var k := 3;
    var count := 0;
    for i := 0 to |names|
      invariant fresh(table) && count == |Names(table[..])| && Roomy(table[..], k, hash) && Holds(table[..], names[..i])
      invariant table[..] == TableOf(names[..i], hash)
      invariant FitsCount(table.Length, count) && table.Length == Pow2(k)
    {
      assert names[..i + 1] == names[..i] + [names[i]] && names[..i + 1][..i] == names[..i];
      table, count, k := Insert(table, count, names[i], hash, k, names[..i]);
    }
    r := Names(table[..]);
    assert names[..|names|] == names;
    OnceEach(table[..], names);
  }

  lemma OnceEach(t: Table, names: seq<string>)
    requires Holds(t, names)
    ensures Distinct(Names(t)) && forall x :: x in Names(t) <==> x in names
  {
    forall x
      ensures x in Names(t) <==> x in names
    {
      assert x in Names(t) <==> x in multiset(Names(t));
    }
    DistinctBySets(Names(t));
  }

  /** `table.iter().flatten().any(|n| n == name)` */
  method Contains(table: array<Option<string>>, name: string) returns (found: bool)
    ensures found <==> Some(name) in table[..]
  {
    for i := 0 to table.Length
      invariant Some(name) !in table[..i]
    {
      if table[i] == Some(name) {
        return true;
      }
    }
    return false;
  }

  lemma CollidedNames(len: nat, names: seq<string>, n: nat)
    requires len >= 8 && |names| == 4 && n <= 4
    ensures Names(Collided(len, names, n)) == names[..n]
  {
    var t := Collided(len, names, n);
    var none: Option<string> := None;
    var a, b, c, d, rest := [t[0], t[1]], [none, t[3]], [none, none], [t[6]], Fresh(len - 7);
    assert t == a + (b + (c + (d + rest)));
    NamesJoin(a, b + (c + (d + rest)));
    NamesJoin(b, c + (d + rest));
    NamesJoin(c, d + rest);
    NamesJoin(d, rest);
    EmptyTable(len - 7);
    TwoNames(t[0], t[1]);
    TwoNames(none, t[3]);
    TwoNames(none, none);
  }

  lemma OneName(a: Option<string>)
    ensures Names([a]) == if a.Some? then [a.value] else []
  {
    assert [a][1..] == [] && Names([]) == [];
  }

  lemma TwoNames(a: Option<string>, b: Option<string>)
    ensures Names([a, b]) == (if a.Some? then [a.value] else []) + (if b.Some? then [b.value] else [])
  {
    assert [a, b] == [a] + [b];
    NamesJoin([a], [b]);
    OneName(a);
    OneName(b);
  }

  /** Four names of hash 0 keep their order: the fourth makes the table grow, and
      the names go into the new one in the order of their slots. */
  lemma CollisionsKeepOrder(names: seq<string>, hash: string -> nat)
    requires |names| == 4 && Distinct(names) && forall i :: 0 <= i < 4 ==> hash(names[i]) == 0
    ensures |TableOf(names, hash)| == 16 && Names(TableOf(names, hash)) == names
  {
    PrefixTable(names, hash, 3);
    RefillsCollided(names, hash, 4);
    CollidedNames(8, names, 3);
    CollidedNames(8, names, 4);
    CollidedNames(16, names, 4);
    OneMoreCollides(8, names, hash, 3);
    assert names[..3] == names[..4][..3] && names[..4] == names;
  }

  lemma CollidedWith(names: seq<string>, hash: string -> nat, n: nat)
    requires n < 3 && |names| == 4 && Distinct(names) && forall i :: 0 <= i < 4 ==> hash(names[i]) == 0
    ensures With(Collided(8, names, n), names[n], hash) == Collided(8, names, n + 1)
  {
    CollidedNames(8, names, n);
    CollidedNames(8, names, n + 1);
    OneMoreCollides(8, names, hash, n);
  }

  lemma {:induction false} PrefixTable(names: seq<string>, hash: string -> nat, n: nat)
    requires n <= 3 && |names| == 4 && Distinct(names) && forall i :: 0 <= i < 4 ==> hash(names[i]) == 0
    ensures TableOf(names[..n], hash) == Collided(8, names, n)
  {
    if n == 0 {
      assert Fresh(8) == Collided(8, names, 0);
    } else {
      PrefixTable(names, hash, n - 1);
      CollidedWith(names, hash, n - 1);
      assert names[..n][..n - 1] == names[..n - 1];
    }
  }

  lemma {:induction false} RefillsCollided(names: seq<string>, hash: string -> nat, n: nat)
    requires n <= 4 && |names| == 4 && forall i :: 0 <= i < 4 ==> hash(names[i]) == 0
    ensures PlacedAll(Fresh(16), names[..n], hash) == Collided(16, names, n)
  {
    if n == 0 {
      assert Fresh(16) == Collided(16, names, 0);
    } else {
      RefillsCollided(names, hash, n - 1);
      OneMoreCollides(16, names, hash, n - 1);
      assert names[..n][..n - 1] == names[..n - 1];
    }
  }
}
