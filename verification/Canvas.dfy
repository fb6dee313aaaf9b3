/** Pixels copied onto a canvas: the loops of `blit` and `draw_image` against what
    they mean for every single pixel. */
module Canvas {
  import opened Options

  type u8 = i: int | 0 <= i < 256

  datatype Pixel = Pixel(r: u8, g: u8, b: u8, a: u8)

  /** No colour above its alpha: what tiny-skia stores. */
  predicate Premultiplied(p: Pixel) {
    p.r <= p.a && p.g <= p.a && p.b <= p.a
  }

  /** `PremultipliedColorU8::from_rgba` */
  function FromRgba(r: u8, g: u8, b: u8, a: u8): Option<Pixel> {
    if r <= a && g <= a && b <= a then Some(Pixel(r, g, b, a)) else None
  }

  // ---- source-over ------------------------------------------------------------------------

  /** `s + d * (255 - sa) / 255`, rounded to nearest. */
  function OverByte(s: nat, d: nat, inv: nat): nat {
    s + (d * inv + 127) / 255
  }

  /** Source over destination, both premultiplied. */
  function Over(s: Pixel, d: Pixel): (p: Pixel)
    requires Premultiplied(s)
    ensures Premultiplied(d) ==> Premultiplied(p)
  {
    var inv := 255 - s.a;
    OverFits(s.r, s.a, d.r);
    OverFits(s.g, s.a, d.g);
    OverFits(s.b, s.a, d.b);
    OverFits(s.a, s.a, d.a);
    OverGrows(s.r, s.a, d.r, d.a, inv);
    OverGrows(s.g, s.a, d.g, d.a, inv);
    OverGrows(s.b, s.a, d.b, d.a, inv);
    Pixel(OverByte(s.r, d.r, inv), OverByte(s.g, d.g, inv), OverByte(s.b, d.b, inv), OverByte(s.a, d.a, inv))
  }

  /** A premultiplied source never overflows a byte, nor the sixteen bits it is
      computed in: the clamp at 255 has nothing to do. */
  lemma OverFits(s: u8, sa: u8, d: u8)
    requires s <= sa
    ensures OverByte(s, d, 255 - sa) <= 255 && d * (255 - sa) + 127 < 65536
  {
    Times(d, 255, 255 - sa);
    Quotient(d * (255 - sa) + 127, 255 - sa);
  }

  lemma Times(a: nat, b: nat, c: nat)
    requires a <= b
    ensures a * c <= b * c
  {
  }

  lemma Quotient(n: nat, q: nat)
    requires n <= 255 * q + 127
    ensures n / 255 <= q
  {
  }

  lemma OverGrows(s: nat, t: nat, c: nat, d: nat, inv: nat)
    ensures s <= t && c <= d ==> OverByte(s, c, inv) <= OverByte(t, d, inv)
  {
    if c <= d {
      Times(c, d, inv);
      Divided(c * inv + 127, d * inv + 127);
    }
  }

  lemma Divided(m: nat, n: nat)
    requires m <= n
    ensures m / 255 <= n / 255
  {
  }

  /** The pixel a loop writes: clamped, and the old one where tiny-skia refuses. */
  method Composite(s: Pixel, d: Pixel) returns (p: Pixel)
    requires Premultiplied(s) && Premultiplied(d)
    ensures p == Over(s, d)
  {
    var inv := 255 - s.a;
    OverFits(s.r, s.a, d.r);
    OverFits(s.g, s.a, d.g);
    OverFits(s.b, s.a, d.b);
    OverFits(s.a, s.a, d.a);
    var r, g := Clamp(OverByte(s.r, d.r, inv), 0, 255), Clamp(OverByte(s.g, d.g, inv), 0, 255);
    var b, a := Clamp(OverByte(s.b, d.b, inv), 0, 255), Clamp(OverByte(s.a, d.a, inv), 0, 255);
    var made := FromRgba(r, g, b, a);
    p := if made.Some? then made.value else d;
    assert Premultiplied(Over(s, d));
  }

  function Clamp(v: int, lo: int, hi: int): (r: int)
    requires lo <= hi
    ensures lo <= r <= hi && (lo <= v <= hi ==> r == v)
  {
    if v < lo then lo else if v > hi then hi else v
  }

  // ---- straight alpha -----------------------------------------------------------------------

  /** `mul` */
  function Mul(c: u8, a: u8): (r: u8)
    ensures r <= a
    ensures a == 255 ==> r == c
  {
    Times(c, 255, a);
    Quotient(c * a + 127, a);
    (c * a + 127) / 255
  }

  function Premultiply(p: Pixel): (q: Pixel)
    ensures Premultiplied(q) && q.a == p.a
  {
    Pixel(Mul(p.r, p.a), Mul(p.g, p.a), Mul(p.b, p.a), p.a)
  }

  // ---- coordinates ---------------------------------------------------------------------------

  /** Row-major places. */
  lemma PlaceOf(x: nat, y: nat, w: nat)
    requires x < w
    ensures (y * w + x) / w == y && (y * w + x) % w == x
  {
    var i := y * w + x;
    Unique(i, w, y, x);
  }

  lemma Unique(i: nat, w: nat, q: nat, r: nat)
    requires i == q * w + r && r < w
    ensures i / w == q && i % w == r
  {
    var p := i / w;
    assert i == p * w + i % w;
    if p > q {
      assert p * w == q * w + (p - q) * w;
      Once(p - q, w);
    } else if p < q {
      assert q * w == p * w + (q - p) * w;
      Once(q - p, w);
    }
  }

  lemma Once(n: nat, w: nat)
    requires n > 0
    ensures n * w >= w
  {
    assert n * w == w + (n - 1) * w;
  }

  /** A place on the grid is an index. */
  lemma InGrid(x: nat, y: nat, w: nat, h: nat)
    requires x < w && y < h
    ensures y * w + x < w * h
  {
    assert (y + 1) * w == y * w + w;
    Times(y + 1, h, w);
  }

  lemma PlaceBack(i: nat, w: nat)
    requires w > 0
    ensures i == (i / w) * w + i % w && i % w < w
  {
  }

  // ---- a copy between rectangles ---------------------------------------------------------------

  /** The source grid and its rectangle, and the destination rectangle. */
  datatype Area = Area(fullW: nat, fullH: nat, sx: int, sy: int, sw: int, sh: int, dx: int, dy: int, dw: int, dh: int) {
    predicate Valid() {
      sw > 0 && sh > 0 && dw > 0 && dh > 0
    }
  }

  /** The nearest source place along one side. */
  function Nearest(t: nat, s: nat, d: nat): (r: nat)
    requires t < d && s > 0
    ensures r < s
  {
    NearestBelow(t, s, d);
    t * s / d
  }

  lemma NearestBelow(t: nat, s: nat, d: nat)
    requires t < d && s > 0
    ensures 0 <= t * s / d < s
  {
    assert (d - t) * s >= s by { Once(d - t, s); }
    assert d * s == t * s + (d - t) * s;
    var q := t * s / d;
    assert t * s == q * d + t * s % d;
    assert s * d == d * s;
    if q >= s {
      Times(s, q, d);
    }
  }

  /** The source index of a destination place: none outside the rectangle, or when
      it falls outside the source. */
  function Source(a: Area, x: int, y: int): (r: Option<nat>)
    requires a.Valid()
    ensures r.Some? ==> r.value < a.fullW * a.fullH
  {
    var tx, ty := x - a.dx, y - a.dy;
    if !(0 <= tx < a.dw && 0 <= ty < a.dh) then None
    else
      var sx, sy := a.sx + Nearest(tx, a.sw, a.dw), a.sy + Nearest(ty, a.sh, a.dh);
      if sx < 0 || sx >= a.fullW || sy < 0 || sy >= a.fullH then None
      else
        InGrid(sx, sy, a.fullW, a.fullH);
        Some(sy * a.fullW + sx)
  }

  /** How a copied pixel meets the one that was there: over it, or instead of it
      after its colours are multiplied by its alpha. */
  datatype Rule = SourceOver | Replace

  function Met(rule: Rule, s: Pixel, d: Pixel): Pixel
    requires rule.SourceOver? ==> Premultiplied(s)
  {
    if rule.SourceOver? then Over(s, d) else Premultiply(s)
  }

  /** What the copy makes of one destination pixel. */
  function Copied(rule: Rule, a: Area, src: seq<Pixel>, x: int, y: int, d: Pixel): Pixel
    requires a.Valid() && |src| == a.fullW * a.fullH
    requires rule.SourceOver? ==> forall p :: p in src ==> Premultiplied(p)
  {
    match Source(a, x, y)
    case None => d
    case Some(k) => Met(rule, src[k], d)
  }

  ghost predicate AllPremultiplied(s: seq<Pixel>) {
    forall i :: 0 <= i < |s| ==> Premultiplied(s[i])
  }

  /** Every pixel as the copy makes it. */
  ghost predicate IsCopy(rule: Rule, a: Area, src: seq<Pixel>, w: nat, before: seq<Pixel>, after: seq<Pixel>)
    requires w > 0 && a.Valid() && |src| == a.fullW * a.fullH && |before| == |after|
    requires rule.SourceOver? ==> forall p :: p in src ==> Premultiplied(p)
  {
    forall i :: 0 <= i < |after| ==> after[i] == Copied(rule, a, src, i % w, i / w, before[i])
  }

  /** The same, for the rows and columns a loop has been through. */
  ghost predicate PartCopy(rule: Rule, a: Area, src: seq<Pixel>, w: nat, before: seq<Pixel>, after: seq<Pixel>, row: int, col: int)
    requires w > 0 && a.Valid() && |src| == a.fullW * a.fullH && |before| == |after|
    requires rule.SourceOver? ==> forall p :: p in src ==> Premultiplied(p)
  {
    forall i :: 0 <= i < |after| ==>
      after[i] == if i / w < row || (i / w == row && i % w < col) then Copied(rule, a, src, i % w, i / w, before[i])
                  else before[i]
  }

  /** One pixel of a row. */
  lemma PixelDone(rule: Rule, a: Area, src: seq<Pixel>, w: nat, before: seq<Pixel>, was: seq<Pixel>, row: nat, col: nat)
    requires w > col && a.Valid() && |src| == a.fullW * a.fullH && |before| == |was| && row * w + col < |was|
    requires rule.SourceOver? ==> forall p :: p in src ==> Premultiplied(p)
    requires PartCopy(rule, a, src, w, before, was, row, col)
    ensures was[row * w + col] == before[row * w + col]
    ensures PartCopy(rule, a, src, w, before,
                     was[row * w + col := Copied(rule, a, src, col, row, before[row * w + col])], row, col + 1)
  {
    hide Copied;
    PlaceOf(col, row, w);
    var k := row * w + col;
    var after := was[k := Copied(rule, a, src, col, row, before[k])];
    forall i | 0 <= i < |after|
      ensures after[i] == if i / w < row || (i / w == row && i % w < col + 1)
                          then Copied(rule, a, src, i % w, i / w, before[i]) else before[i]
    {
      PlaceBack(i, w);
    }
  }

  /** Columns where nothing is copied change nothing. */
  lemma ColumnSkipped(rule: Rule, a: Area, src: seq<Pixel>, w: nat, before: seq<Pixel>, was: seq<Pixel>, row: int, col: int)
    requires w > 0 && a.Valid() && |src| == a.fullW * a.fullH && |before| == |was|
    requires rule.SourceOver? ==> forall p :: p in src ==> Premultiplied(p)
    requires PartCopy(rule, a, src, w, before, was, row, col)
    requires col < 0 || col >= w || Source(a, col, row).None?
    ensures PartCopy(rule, a, src, w, before, was, row, col + 1)
  {
    hide Source;
  }

  /** The columns before and after the rectangle. */
  lemma ColumnsOutside(rule: Rule, a: Area, src: seq<Pixel>, w: nat, before: seq<Pixel>, was: seq<Pixel>, row: int, from: int, to: int)
    requires w > 0 && a.Valid() && |src| == a.fullW * a.fullH && |before| == |was| && from <= to
    requires rule.SourceOver? ==> forall p :: p in src ==> Premultiplied(p)
    requires PartCopy(rule, a, src, w, before, was, row, from)
    requires forall c :: from <= c < to ==> Source(a, c, row).None?
    ensures PartCopy(rule, a, src, w, before, was, row, to)
  {
    hide Source;
  }

  lemma RowsOutside(rule: Rule, a: Area, src: seq<Pixel>, w: nat, before: seq<Pixel>, was: seq<Pixel>, from: int, to: int)
    requires w > 0 && a.Valid() && |src| == a.fullW * a.fullH && |before| == |was| && from <= to
    requires rule.SourceOver? ==> forall p :: p in src ==> Premultiplied(p)
    requires PartCopy(rule, a, src, w, before, was, from, 0)
    requires forall c, r :: from <= r < to ==> Source(a, c, r).None?
    ensures PartCopy(rule, a, src, w, before, was, to, 0)
  {
    hide Source;
    forall i | 0 <= i < |was|
      ensures was[i] == if i / w < to then Copied(rule, a, src, i % w, i / w, before[i]) else before[i]
    {
      PlaceBack(i, w);
      assert from <= i / w < to ==> Source(a, i % w, i / w).None?;
    }
  }

  /** A row is done when its last column is. */
  lemma RowDone(rule: Rule, a: Area, src: seq<Pixel>, w: nat, before: seq<Pixel>, was: seq<Pixel>, row: int)
    requires w > 0 && a.Valid() && |src| == a.fullW * a.fullH && |before| == |was|
    requires rule.SourceOver? ==> forall p :: p in src ==> Premultiplied(p)
    requires PartCopy(rule, a, src, w, before, was, row, w)
    ensures PartCopy(rule, a, src, w, before, was, row + 1, 0)
  {
    hide Copied;
    forall i | 0 <= i < |was|
      ensures was[i] == if i / w < row + 1 then Copied(rule, a, src, i % w, i / w, before[i]) else before[i]
    {
      PlaceBack(i, w);
    }
  }

  lemma RowOffGrid(rule: Rule, a: Area, src: seq<Pixel>, w: nat, h: nat, before: seq<Pixel>, was: seq<Pixel>, row: int)
    requires w > 0 && a.Valid() && |src| == a.fullW * a.fullH && |before| == |was| == w * h && (row < 0 || row >= h)
    requires rule.SourceOver? ==> forall p :: p in src ==> Premultiplied(p)
    requires PartCopy(rule, a, src, w, before, was, row, 0)
    ensures PartCopy(rule, a, src, w, before, was, row + 1, 0)
  {
    hide Copied;
    forall i | 0 <= i < |was|
      ensures i / w != row
    {
      BelowTop(i, w, h);
    }
  }

  lemma BelowTop(i: nat, w: nat, h: nat)
    requires w > 0 && i < w * h
    ensures 0 <= i / w < h
  {
    PlaceBack(i, w);
    var q := i / w;
    assert w * h == h * w;
    if q >= h {
      Times(h, q, w);
    }
  }

  /** A row or column beyond the rectangle has no source. */
  lemma NoSource(a: Area, x: int, y: int)
    requires a.Valid() && (x < a.dx || x >= a.dx + a.dw || y < a.dy || y >= a.dy + a.dh)
    ensures Source(a, x, y).None?
  {
  }

  lemma NothingCopied(rule: Rule, a: Area, src: seq<Pixel>, w: nat, before: seq<Pixel>)
    requires w > 0 && a.Valid() && |src| == a.fullW * a.fullH
    requires rule.SourceOver? ==> forall p :: p in src ==> Premultiplied(p)
    ensures PartCopy(rule, a, src, w, before, before, a.dy, 0)
  {
    var r := if a.dy < 0 then a.dy else 0;
    forall i | 0 <= i < |before|
      ensures i / w >= 0 && i % w >= 0
    {
      PlaceBack(i, w);
    }
    assert PartCopy(rule, a, src, w, before, before, r, 0) by { hide Copied; }
    forall c, y | r <= y < a.dy
      ensures Source(a, c, y).None?
    {
      NoSource(a, c, y);
    }
    RowsOutside(rule, a, src, w, before, before, r, a.dy);
  }

  lemma AllCopied(rule: Rule, a: Area, src: seq<Pixel>, w: nat, h: nat, before: seq<Pixel>, after: seq<Pixel>)
    requires w > 0 && a.Valid() && |src| == a.fullW * a.fullH && |before| == |after| == w * h
    requires rule.SourceOver? ==> forall p :: p in src ==> Premultiplied(p)
    requires PartCopy(rule, a, src, w, before, after, a.dy + a.dh, 0)
    ensures IsCopy(rule, a, src, w, before, after)
  {
    var r := if a.dy + a.dh < h then h else a.dy + a.dh;
    forall c, y | a.dy + a.dh <= y < r
      ensures Source(a, c, y).None?
    {
      NoSource(a, c, y);
    }
    RowsOutside(rule, a, src, w, before, after, a.dy + a.dh, r);
    hide Copied;
    forall i | 0 <= i < |after|
      ensures i / w < r
    {
      BelowTop(i, w, h);
    }
  }

  lemma RowBegins(rule: Rule, a: Area, src: seq<Pixel>, w: nat, before: seq<Pixel>, was: seq<Pixel>, row: int)
    requires w > 0 && a.Valid() && |src| == a.fullW * a.fullH && |before| == |was|
    requires rule.SourceOver? ==> forall p :: p in src ==> Premultiplied(p)
    requires PartCopy(rule, a, src, w, before, was, row, 0)
    ensures PartCopy(rule, a, src, w, before, was, row, a.dx)
  {
    if a.dx >= 0 {
      forall c | 0 <= c < a.dx
        ensures Source(a, c, row).None?
      {
        NoSource(a, c, row);
      }
      ColumnsOutside(rule, a, src, w, before, was, row, 0, a.dx);
    } else {
      hide Copied;
    }
  }

  lemma RowEnds(rule: Rule, a: Area, src: seq<Pixel>, w: nat, before: seq<Pixel>, was: seq<Pixel>, row: int)
    requires w > 0 && a.Valid() && |src| == a.fullW * a.fullH && |before| == |was|
    requires rule.SourceOver? ==> forall p :: p in src ==> Premultiplied(p)
    requires PartCopy(rule, a, src, w, before, was, row, a.dx + a.dw)
    ensures PartCopy(rule, a, src, w, before, was, row + 1, 0)
  {
    if a.dx + a.dw < w {
      forall c | a.dx + a.dw <= c < w
        ensures Source(a, c, row).None?
      {
        NoSource(a, c, row);
      }
      ColumnsOutside(rule, a, src, w, before, was, row, a.dx + a.dw, w);
    } else {
      hide Copied;
      forall i | 0 <= i < |was|
        ensures i % w < w
      {
        PlaceBack(i, w);
      }
    }
    RowDone(rule, a, src, w, before, was, row);
  }

  /** Premultiplied pixels stay so. */
  lemma MetIsPremultiplied(rule: Rule, s: Pixel, d: Pixel)
    requires (rule.SourceOver? ==> Premultiplied(s)) && Premultiplied(d)
    ensures Premultiplied(Met(rule, s, d))
  {
  }

  const TRANSPARENT := Pixel(0, 0, 0, 0)

  /** What a loop writes for a source pixel and the old one. */
  method Meet(rule: Rule, s: Pixel, d: Pixel) returns (p: Pixel)
    requires (rule.SourceOver? ==> Premultiplied(s)) && Premultiplied(d)
    ensures p == Met(rule, s, d) && Premultiplied(p)
  {
    MetIsPremultiplied(rule, s, d);
    if rule.SourceOver? {
      p := Composite(s, d);
    } else {
      var made := FromRgba(Mul(s.r, s.a), Mul(s.g, s.a), Mul(s.b, s.a), s.a);
      p := if made.Some? then made.value else TRANSPARENT;
    }
  }

  /** The inner loop: one row of the rectangle, with every index in range. */
  method CopyRow(rule: Rule, a: Area, src: seq<Pixel>, dst: array<Pixel>, w: nat, h: nat, ty: nat, ghost before: seq<Pixel>)
    requires w > 0 && a.Valid() && |src| == a.fullW * a.fullH && |before| == dst.Length == w * h
    requires rule.SourceOver? ==> forall p :: p in src ==> Premultiplied(p)
    requires ty < a.dh && 0 <= a.dy + ty < h && AllPremultiplied(dst[..])
    requires PartCopy(rule, a, src, w, before, dst[..], a.dy + ty, 0)
    modifies dst
    ensures PartCopy(rule, a, src, w, before, dst[..], a.dy + ty + 1, 0) && AllPremultiplied(dst[..])
  {
    hide Copied, Source, Met, PartCopy;
    var py := a.dy + ty;
    NearestBelow(ty, a.sh, a.dh);
    var sy := a.sy + Clamp(ty * a.sh / a.dh, 0, a.sh - 1);
    RowBegins(rule, a, src, w, before, dst[..], py);
    for tx := 0 to a.dw
      invariant PartCopy(rule, a, src, w, before, dst[..], py, a.dx + tx) && AllPremultiplied(dst[..])
    {
      var px := a.dx + tx;
      SourceAt(a, tx, ty);
      if px < 0 || px >= w {
        ColumnSkipped(rule, a, src, w, before, dst[..], py, px);
        continue;
      }
      NearestBelow(tx, a.sw, a.dw);
      var sx := a.sx + Clamp(tx * a.sw / a.dw, 0, a.sw - 1);
      if sx < 0 || sx >= a.fullW || sy < 0 || sy >= a.fullH {
        ColumnSkipped(rule, a, src, w, before, dst[..], py, px);
        continue;
      }
      InGrid(sx, sy, a.fullW, a.fullH);
      InGrid(px, py, w, h);
      var si, di := sy * a.fullW + sx, py * w + px;
      PixelDone(rule, a, src, w, before, dst[..], py, px);
      assert src[si] in src;
      var p := Meet(rule, src[si], dst[di]);
      CopiedAt(rule, a, src, px, py, dst[di], si);
      dst[di] := p;
    }
    RowEnds(rule, a, src, w, before, dst[..], py);
  }

  lemma SourceAt(a: Area, tx: nat, ty: nat)
    requires a.Valid() && tx < a.dw && ty < a.dh
    ensures var sx, sy := a.sx + Nearest(tx, a.sw, a.dw), a.sy + Nearest(ty, a.sh, a.dh);
            Source(a, a.dx + tx, a.dy + ty) ==
            if sx < 0 || sx >= a.fullW || sy < 0 || sy >= a.fullH then None else Some(sy * a.fullW + sx)
  {
    hide Nearest;
  }

  lemma CopiedAt(rule: Rule, a: Area, src: seq<Pixel>, x: int, y: int, d: Pixel, k: nat)
    requires a.Valid() && |src| == a.fullW * a.fullH && k < |src| && Source(a, x, y) == Some(k)
    requires rule.SourceOver? ==> forall p :: p in src ==> Premultiplied(p)
    requires rule.SourceOver? ==> Premultiplied(src[k])
    ensures Copied(rule, a, src, x, y, d) == Met(rule, src[k], d)
  {
    hide Source, Met;
  }

  /** The outer loop. Afterwards every pixel of the destination is what the copy
      makes of it, and premultiplied still. */
  method CopyInto(rule: Rule, a: Area, src: seq<Pixel>, dst: array<Pixel>, w: nat, h: nat)
    requires w > 0 && a.Valid() && |src| == a.fullW * a.fullH && dst.Length == w * h && AllPremultiplied(dst[..])
    requires rule.SourceOver? ==> forall p :: p in src ==> Premultiplied(p)
    modifies dst
    ensures IsCopy(rule, a, src, w, old(dst[..]), dst[..]) && AllPremultiplied(dst[..])
  {
    hide Copied, PartCopy, IsCopy;
    ghost var before := dst[..];
    NothingCopied(rule, a, src, w, before);
    for ty := 0 to a.dh
      invariant PartCopy(rule, a, src, w, before, dst[..], a.dy + ty, 0) && AllPremultiplied(dst[..])
    {
      var py := a.dy + ty;
      if py < 0 || py >= h {
        RowOffGrid(rule, a, src, w, h, before, dst[..], py);
        continue;
      }
      CopyRow(rule, a, src, dst, w, h, ty, before);
    }
    AllCopied(rule, a, src, w, h, before, dst[..]);
  }

  /** A side of a rectangle: as given when positive, or the whole; the rounding of
      what was given is the caller's. */
  function Side(given: Option<int>, whole: int): int {
    if given.Some? then given.value else whole
  }

  /** `blit`: source-over of the nearest source pixel on every destination pixel the
      rectangle covers, and no other pixel changed. An absent size is one that was
      not positive before it was rounded. */
  method Blit(src: seq<Pixel>, fullW: nat, fullH: nat, sx: int, sy: int, swIn: Option<int>, shIn: Option<int>,
              dst: array<Pixel>, w: nat, h: nat, dx: int, dy: int, dwIn: Option<int>, dhIn: Option<int>)
    returns (drawn: bool)
    requires |src| == fullW * fullH && (forall p :: p in src ==> Premultiplied(p))
    requires w > 0 && dst.Length == w * h && AllPremultiplied(dst[..])
    modifies dst
    ensures var sw, sh := if swIn.Some? then swIn.value else fullW, if shIn.Some? then shIn.value else fullH;
            var dw, dh := if dwIn.Some? then dwIn.value else sw, if dhIn.Some? then dhIn.value else sh;
            var a := Area(fullW, fullH, sx, sy, sw, sh, dx, dy, dw, dh);
            drawn == (fullW > 0 && fullH > 0 && a.Valid()) && AllPremultiplied(dst[..]) &&
            if drawn then IsCopy(SourceOver, a, src, w, old(dst[..]), dst[..]) else dst[..] == old(dst[..])
  {
    hide IsCopy;
    if fullW <= 0 || fullH <= 0 {
      return false;
    }
    var sw, sh := Side(swIn, fullW), Side(shIn, fullH);
    if sw <= 0 || sh <= 0 {
      return false;
    }
    var dw, dh := Side(dwIn, sw), Side(dhIn, sh);
    if dw <= 0 || dh <= 0 {
      return false;
    }
    CopyInto(SourceOver, Area(fullW, fullH, sx, sy, sw, sh, dx, dy, dw, dh), src, dst, w, h);
    return true;
  }

  /** `draw_image`: the whole image, straight alpha, put in place of what was there. */
  method DrawImage(src: seq<Pixel>, fullW: nat, fullH: nat, dst: array<Pixel>, w: nat, h: nat, dx: int, dy: int,
                   dwIn: Option<int>, dhIn: Option<int>) returns (drawn: bool)
    requires |src| == fullW * fullH && fullW > 0 && fullH > 0
    requires w > 0 && dst.Length == w * h && AllPremultiplied(dst[..])
    modifies dst
    ensures var dw, dh := if dwIn.Some? then dwIn.value else fullW, if dhIn.Some? then dhIn.value else fullH;
            var a := Area(fullW, fullH, 0, 0, fullW, fullH, dx, dy, dw, dh);
            drawn == a.Valid() && AllPremultiplied(dst[..]) &&
            if drawn then IsCopy(Replace, a, src, w, old(dst[..]), dst[..]) else dst[..] == old(dst[..])
  {
    hide IsCopy;
    var dw, dh := Side(dwIn, fullW), Side(dhIn, fullH);
    if dw <= 0 || dh <= 0 {
      return false;
    }
    CopyInto(Replace, Area(fullW, fullH, 0, 0, fullW, fullH, dx, dy, dw, dh), src, dst, w, h);
    return true;
  }

  /** Drawn at its own size, a picture is copied pixel for pixel. */
  lemma OwnSizeIsExact(a: Area, x: int, y: int)
    requires a.Valid() && a.dw == a.sw && a.dh == a.sh && Source(a, x, y).Some?
    ensures Source(a, x, y).value == (a.sy + y - a.dy) * a.fullW + (a.sx + x - a.dx)
  {
    Same(x - a.dx, a.sw);
    Same(y - a.dy, a.sh);
  }

  lemma Same(t: nat, s: nat)
    requires t < s
    ensures Nearest(t, s, s) == t
  {
    Unique(t * s, s, t, 0);
  }

  // ---- which source pixel a scaled copy takes ---------------------------------------------------

  /** The nearest source place below: `t` places of the destination are this many of
      the source, rounded down. */
  lemma NearestIsFloor(t: nat, s: nat, d: nat)
    requires t < d && s > 0
    ensures Nearest(t, s, d) * d <= t * s < (Nearest(t, s, d) + 1) * d
  {
    assert t * s == (t * s / d) * d + t * s % d;
    assert (Nearest(t, s, d) + 1) * d == Nearest(t, s, d) * d + d;
  }

  /** Going along a side of the destination never goes back in the source. */
  lemma NearestAscends(t: nat, u: nat, s: nat, d: nat)
    requires t <= u < d && s > 0
    ensures Nearest(t, s, d) <= Nearest(u, s, d)
  {
    hide Nearest;
    NearestIsFloor(t, s, d);
    NearestIsFloor(u, s, d);
    var a, b := Nearest(t, s, d), Nearest(u, s, d);
    Times(t, u, s);
    if a > b {
      Times(b + 1, a, d);
    }
  }

  /** Enlarged `k` times, every place of the source is shown `k` times in a row, and
      all of them in order. */
  lemma EnlargedEvenly(t: nat, s: nat, k: nat)
    requires s > 0 && k > 0 && t < k * s
    ensures Nearest(t, s, k * s) == t / k
  {
    var q, r := t / k, t % k;
    ScaledSplit(t, s, k, q, r);
    Unique(t * s, k * s, q, r * s);
  }

  lemma ScaledSplit(t: nat, s: nat, k: nat, q: nat, r: nat)
    requires t == q * k + r && r < k && s > 0
    ensures t * s == q * (k * s) + r * s && r * s < k * s
  {
    Times(r + 1, k, s);
    assert (r + 1) * s == r * s + s;
    assert t * s == (q * k) * s + r * s;
    assert (q * k) * s == q * (k * s);
  }

  /** A place inside the destination shows the source place its column and its row
      come from, each rounded down, and nothing when that is off the source. */
  lemma SourceIsNearest(a: Area, x: int, y: int, k: nat)
    requires a.Valid()
    ensures Source(a, x, y) == Some(k) <==>
            0 <= x - a.dx < a.dw && 0 <= y - a.dy < a.dh &&
            exists sx: nat, sy: nat :: InSource(a, x, y, sx, sy) && k == sy * a.fullW + sx
  {
    hide Nearest;
    var tx, ty := x - a.dx, y - a.dy;
    if 0 <= tx < a.dw && 0 <= ty < a.dh {
      var cx, cy := Nearest(tx, a.sw, a.dw), Nearest(ty, a.sh, a.dh);
      NearestIsFloor(tx, a.sw, a.dw);
      NearestIsFloor(ty, a.sh, a.dh);
      if Source(a, x, y) == Some(k) {
        assert InSource(a, x, y, a.sx + cx, a.sy + cy);
      }
      if sx: nat, sy: nat :| InSource(a, x, y, sx, sy) && k == sy * a.fullW + sx {
        FloorUnique(tx * a.sw, a.dw, sx - a.sx, cx);
        FloorUnique(ty * a.sh, a.dh, sy - a.sy, cy);
      }
    }
  }

  /** The source place of a destination place, counted from the corners. */
  ghost predicate InSource(a: Area, x: int, y: int, sx: nat, sy: nat) {
    sx < a.fullW && sy < a.fullH &&
    (sx - a.sx) * a.dw <= (x - a.dx) * a.sw < (sx - a.sx + 1) * a.dw &&
    (sy - a.sy) * a.dh <= (y - a.dy) * a.sh < (sy - a.sy + 1) * a.dh
  }

  lemma FloorUnique(n: int, d: int, p: int, q: int)
    requires d > 0 && p * d <= n < (p + 1) * d && q * d <= n < (q + 1) * d
    ensures p == q
  {
    if p < q {
      IntTimes(p + 1, q, d);
    } else if q < p {
      IntTimes(q + 1, p, d);
    }
  }

  lemma IntTimes(a: int, b: int, c: int)
    requires a <= b && c >= 0
    ensures a * c <= b * c
  {
  }

  /** A picture enlarged `k` times in one direction and `l` times in the other shows
      every pixel of its source as a block of that size. */
  lemma EnlargedInBlocks(a: Area, k: nat, l: nat, x: int, y: int)
    requires a.Valid() && k > 0 && l > 0 && a.dw == k * a.sw && a.dh == l * a.sh
    requires 0 <= x - a.dx < a.dw && 0 <= y - a.dy < a.dh
    ensures var sx, sy := a.sx + (x - a.dx) / k, a.sy + (y - a.dy) / l;
            Source(a, x, y) == if 0 <= sx < a.fullW && 0 <= sy < a.fullH then Some(sy * a.fullW + sx) else None
  {
    hide Nearest;
    EnlargedEvenly(x - a.dx, a.sw, k);
    EnlargedEvenly(y - a.dy, a.sh, l);
  }

  // ---- the colours -------------------------------------------------------------------------------

  /** Every colour of a premultiplied pixel is its colour times its alpha, in 255ths,
      rounded to the nearest. */
  lemma PremultipliedNearest(p: Pixel)
    ensures var q := Premultiply(p);
            q.a == p.a && Nearly(q.r, p.r * p.a) && Nearly(q.g, p.g * p.a) && Nearly(q.b, p.b * p.a)
  {
    Rounded(p.r * p.a);
    Rounded(p.g * p.a);
    Rounded(p.b * p.a);
  }

  /** Every channel of source-over is the source's, and so much of the destination's
      as the source lets through. */
  lemma OverNearest(s: Pixel, d: Pixel)
    requires Premultiplied(s)
    ensures var p, inv := Over(s, d), 255 - s.a;
            Nearly(p.r - s.r, d.r * inv) && Nearly(p.g - s.g, d.g * inv) && Nearly(p.b - s.b, d.b * inv) &&
            Nearly(p.a - s.a, d.a * inv)
  {
    hide Over, OverByte, Nearly;
    var inv := 255 - s.a;
    OverParts(s, d);
    ByteNearest(s.r, d.r, inv);
    ByteNearest(s.g, d.g, inv);
    ByteNearest(s.b, d.b, inv);
    ByteNearest(s.a, d.a, inv);
  }

  lemma OverParts(s: Pixel, d: Pixel)
    requires Premultiplied(s)
    ensures var p, inv := Over(s, d), 255 - s.a;
            p.r == OverByte(s.r, d.r, inv) && p.g == OverByte(s.g, d.g, inv) && p.b == OverByte(s.b, d.b, inv) &&
            p.a == OverByte(s.a, d.a, inv)
  {
    hide OverByte;
  }

  lemma ByteNearest(s: nat, d: nat, inv: nat)
    ensures Nearly(OverByte(s, d, inv) - s, d * inv)
  {
    Rounded(d * inv);
  }

  /** `v` is the whole number nearest to `n / 255`. */
  predicate Nearly(v: int, n: int) {
    -127 <= n - 255 * v <= 127
  }

  lemma Rounded(n: nat)
    ensures Nearly((n + 127) / 255, n)
  {
  }

  // ---- replacing and source-over ----------------------------------------------------------------

  /** Replacing a pixel comes to source-over exactly where nothing of the old one
      would show through. */
  lemma ReplaceIsOver(s: Pixel, d: Pixel)
    requires Premultiplied(d)
    ensures Met(Replace, s, d) == Over(Premultiply(s), d) <==> d.a * (255 - s.a) <= 127
  {
    hide OverByte, Mul;
    var inv, m := 255 - s.a, Premultiply(s);
    Times(d.r, d.a, inv);
    Times(d.g, d.a, inv);
    Times(d.b, d.a, inv);
    ShowsThrough(m.r, d.r, inv);
    ShowsThrough(m.g, d.g, inv);
    ShowsThrough(m.b, d.b, inv);
    ShowsThrough(m.a, d.a, inv);
  }

  lemma ShowsThrough(s: nat, d: nat, inv: nat)
    ensures OverByte(s, d, inv) == s <==> d * inv <= 127
  {
  }

  function Premultiplies(src: seq<Pixel>): (r: seq<Pixel>)
    ensures |r| == |src| && forall p :: p in r ==> Premultiplied(p)
  {
    seq(|src|, i requires 0 <= i < |src| => Premultiply(src[i]))
  }

  /** Nothing of the pixel at a place shows through what is drawn there. */
  ghost predicate Covered(a: Area, src: seq<Pixel>, w: nat, before: seq<Pixel>, i: nat)
    requires w > 0 && a.Valid() && |src| == a.fullW * a.fullH && i < |before|
  {
    var k := Source(a, i % w, i / w);
    k.Some? ==> before[i].a * (255 - src[k.value].a) <= 127
  }

  lemma CopiedIsOver(a: Area, src: seq<Pixel>, w: nat, before: seq<Pixel>, i: nat)
    requires w > 0 && a.Valid() && |src| == a.fullW * a.fullH && i < |before| && Premultiplied(before[i])
    ensures (Copied(Replace, a, src, i % w, i / w, before[i]) ==
             Copied(SourceOver, a, Premultiplies(src), i % w, i / w, before[i])) <==> Covered(a, src, w, before, i)
  {
    hide Source, Met, Premultiply;
    var k := Source(a, i % w, i / w);
    if k.Some? {
      assert Premultiplies(src)[k.value] == Premultiply(src[k.value]);
      OverIsMet(Premultiply(src[k.value]), before[i]);
      ReplaceIsOver(src[k.value], before[i]);
    }
  }

  lemma OverIsMet(s: Pixel, d: Pixel)
    requires Premultiplied(s)
    ensures Met(SourceOver, s, d) == Over(s, d)
  {
  }

  /** A picture drawn by replacement is the picture drawn source-over exactly when
      every old pixel under it is covered. */
  lemma DrawIsSourceOver(a: Area, src: seq<Pixel>, w: nat, before: seq<Pixel>, after: seq<Pixel>)
    requires w > 0 && a.Valid() && |src| == a.fullW * a.fullH && |before| == |after| && AllPremultiplied(before)
    requires IsCopy(Replace, a, src, w, before, after)
    ensures IsCopy(SourceOver, a, Premultiplies(src), w, before, after) <==>
            forall i :: 0 <= i < |before| ==> Covered(a, src, w, before, i)
  {
    hide Copied, Covered;
    forall i | 0 <= i < |before|
      ensures (after[i] == Copied(SourceOver, a, Premultiplies(src), i % w, i / w, before[i])) <==>
              Covered(a, src, w, before, i)
    {
      CopiedIsOver(a, src, w, before, i);
    }
  }

  /** A transparent picture drawn on an opaque canvas erases it, and source-over
      would have left it alone. */
  lemma TransparentErases(p: Pixel)
    requires p.a == 255
    ensures var a := Area(1, 1, 0, 0, 1, 1, 0, 0, 1, 1);
            IsCopy(Replace, a, [TRANSPARENT], 1, [p], [TRANSPARENT]) &&
            IsCopy(SourceOver, a, [TRANSPARENT], 1, [p], [p]) && p != TRANSPARENT
  {
    var a := Area(1, 1, 0, 0, 1, 1, 0, 0, 1, 1);
    assert Source(a, 0, 0) == Some(0);
    assert Premultiply(TRANSPARENT) == TRANSPARENT;
    Whole(p.r);
    Whole(p.g);
    Whole(p.b);
    Whole(p.a);
  }

  lemma Whole(d: u8)
    ensures (d * 255 + 127) / 255 == d
  {
  }
}
