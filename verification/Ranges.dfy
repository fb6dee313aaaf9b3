/** Key ranges as BTree bounds, their translation to an index's entries, and
    the tightening a cursor does. */
module Ranges {
  import opened ByteStrings
  import opened Keys

  datatype Bound = Unbounded | Included(b: Bytes) | Excluded(b: Bytes)

  datatype Range = Range(lower: Bound, upper: Bound)

  predicate AboveLower(lower: Bound, x: Bytes) {
    match lower
    case Unbounded => true
    case Included(b) => AtMost(b, x)
    case Excluded(b) => Less(b, x)
  }

  predicate BelowUpper(upper: Bound, x: Bytes) {
    match upper
    case Unbounded => true
    case Included(b) => AtMost(x, b)
    case Excluded(b) => Less(x, b)
  }

  predicate Contains(r: Range, x: Bytes) {
    AboveLower(r.lower, x) && BelowUpper(r.upper, x)
  }

  /** `BTreeMap::range` and `BTreeSet::range` panic on such bounds: start after
      end, or both excluded and equal. */
  predicate Panics(r: Range) {
    !r.lower.Unbounded? && !r.upper.Unbounded? &&
    (Less(r.upper.b, r.lower.b) || (r.lower.b == r.upper.b && r.lower.Excluded? && r.upper.Excluded?))
  }

  /** Bounds of a key range are encoded keys. */
  ghost predicate Encoded(r: Range) {
    (r.lower.Unbounded? || IsEncoding(r.lower.b)) && (r.upper.Unbounded? || IsEncoding(r.upper.b))
  }

  const AFTER: byte := 0xFF

  /** The bounds of the entries (key ++ primary key) whose key is in the range. */
  function IndexBounds(r: Range): Range {
    Range(match r.lower
          case Excluded(b) => Excluded(b + [AFTER])
          case _ => r.lower,
          match r.upper
          case Included(b) => Excluded(b + [AFTER])
          case _ => r.upper)
  }

  function TighterLower(a: Bound, b: Bound): Bound {
    if a.Unbounded? then b
    else if b.Unbounded? then a
    else if Less(a.b, b.b) || (a.b == b.b && b.Excluded?) then b
    else a
  }

  function TighterUpper(a: Bound, b: Bound): Bound {
    if a.Unbounded? then b
    else if b.Unbounded? then a
    else if Less(b.b, a.b) || (a.b == b.b && b.Excluded?) then b
    else a
  }

  predicate BoundsEmpty(lo: Bound, hi: Bound) {
    if lo.Unbounded? || hi.Unbounded? then false
    else if lo.Included? && hi.Included? then Less(hi.b, lo.b)
    else AtMost(hi.b, lo.b)
  }

  // ---- byte strings around an encoded key -------------------------------------------

  /** Every encoding is non-empty and starts below the byte that marks "after
      every entry of this key". */
  lemma EncodingStart(p: Bytes)
    requires IsEncoding(p)
    ensures p != [] && p[0] < AFTER
    ensures !Less(p, []) && Less(p, [AFTER]) && !Less([AFTER], p)
  {
  }

  /** An entry of key `k` lies below, at or above the bounds made of `b`
      exactly as `k` lies below, at or above `b`. */
  lemma EntryAgainstKey(k: Bytes, p: Bytes, b: Bytes)
    requires IsEncoding(k) && IsEncoding(p) && IsEncoding(b)
    ensures Less(k + p, b) <==> Less(k, b)
    ensures AtMost(b, k + p) <==> AtMost(b, k)
    ensures Less(k + p, b + [AFTER]) <==> AtMost(k, b)
    ensures Less(b + [AFTER], k + p) <==> Less(b, k)
    ensures AtMost(k + p, b + [AFTER]) <==> AtMost(k, b)
  {
    EncodingStart(p);
    assert b + [] == b;
    EncodingsDecide(k, b, p, []);
    EncodingsDecide(k, b, p, [AFTER]);
    EncodingsDecide(b, k, [AFTER], p);
    EncodingsDecide(b, k, [], p);
    LessIsTotal(b, k + p);
    LessIsStrict(b, k + p);
    LessIsTotal(b, k);
    LessIsStrict(b, k);
    if k + p == b {
      PrefixFree(k, b);
    }
    if k + p == b + [AFTER] {
      SplitUnique(k, p, b, [AFTER]);
    }
  }

  // ---- index_bounds is exact -----------------------------------------------------------

  /** An entry is within the translated bounds exactly when its key is in the range. */
  lemma IndexBoundsExact(r: Range, k: Bytes, p: Bytes)
    requires Encoded(r) && IsEncoding(k) && IsEncoding(p)
    ensures Contains(IndexBounds(r), k + p) <==> Contains(r, k)
  {
    if !r.lower.Unbounded? {
      EntryAgainstKey(k, p, r.lower.b);
    }
    if !r.upper.Unbounded? {
      EntryAgainstKey(k, p, r.upper.b);
    }
  }

  /** When the translated bounds make the BTree panic: when the key range itself
      would, and in one case more, a single key excluded below and included
      above. */
  lemma IndexBoundsPanic(r: Range)
    requires Encoded(r)
    ensures Panics(IndexBounds(r)) <==>
            Panics(r) || (r.lower.Excluded? && r.upper == Included(r.lower.b))
  {
    if !r.lower.Unbounded? && !r.upper.Unbounded? {
      var a, b := r.lower.b, r.upper.b;
      assert a + [] == a && b + [] == b;
      EncodingsDecide(b, a, [AFTER], []);
      EncodingsDecide(b, a, [], [AFTER]);
      EncodingsDecide(b, a, [AFTER], [AFTER]);
      LessIsStrict(a, b);
      LessIsTotal(a, b);
      if b == a + [AFTER] {
        PrefixFree(a, b);
      }
      if a == b + [AFTER] {
        PrefixFree(b, a);
      }
      if a + [AFTER] == b + [AFTER] {
        SplitUnique(a, [AFTER], b, [AFTER]);
      }
    }
  }

  /** The ranges `IDBKeyRange.bound` lets through: lower below upper, or one key
      with both ends closed. */
  predicate Ordered(r: Range) {
    r.lower.Unbounded? || r.upper.Unbounded? || Less(r.lower.b, r.upper.b) ||
    (r.lower.Included? && r.upper == Included(r.lower.b))
  }

  lemma OrderedNeverPanics(r: Range)
    requires Encoded(r) && Ordered(r)
    ensures !Panics(r) && !Panics(IndexBounds(r))
  {
    if !r.lower.Unbounded? && !r.upper.Unbounded? {
      LessIsStrict(r.lower.b, r.upper.b);
    }
    IndexBoundsPanic(r);
  }

  /** The panicking case exists: only the store accepts this range. */
  lemma HalfOpenPointPanics()
    ensures var a := Encode(Str([]));
            var r := Range(Excluded(a), Included(a));
            Encoded(r) && !Panics(r) && Panics(IndexBounds(r))
  {
    var a := Encode(Str([]));
    LessIsStrict(a, a);
    IndexBoundsPanic(Range(Excluded(a), Included(a)));
  }

  // ---- tightening ------------------------------------------------------------------------

  lemma TighterLowerMeets(a: Bound, b: Bound, x: Bytes)
    ensures AboveLower(TighterLower(a, b), x) <==> AboveLower(a, x) && AboveLower(b, x)
  {
    if !a.Unbounded? && !b.Unbounded? {
      OrderFacts(a.b, b.b, x);
    }
  }

  lemma TighterUpperMeets(a: Bound, b: Bound, x: Bytes)
    ensures BelowUpper(TighterUpper(a, b), x) <==> BelowUpper(a, x) && BelowUpper(b, x)
  {
    if !a.Unbounded? && !b.Unbounded? {
      OrderFacts(a.b, b.b, x);
    }
  }

  lemma OrderFacts(a: Bytes, b: Bytes, x: Bytes)
    ensures Less(a, b) && AtMost(b, x) ==> Less(a, x)
    ensures Less(b, a) && AtMost(a, x) ==> Less(b, x)
    ensures Less(a, b) && AtMost(x, a) ==> Less(x, b)
    ensures Less(b, a) && AtMost(x, b) ==> Less(x, a)
    ensures a == b || Less(a, b) || Less(b, a)
  {
    LessIsTotal(a, b);
    if Less(a, b) && Less(b, x) { LessIsTransitive(a, b, x); }
    if Less(b, a) && Less(a, x) { LessIsTransitive(b, a, x); }
    if Less(a, b) && Less(x, a) { LessIsTransitive(x, a, b); }
    if Less(b, a) && Less(x, b) { LessIsTransitive(x, b, a); }
  }

  /** The guard before every cursor range: what it rejects holds nothing, and
      what it lets through never panics. */
  lemma BoundsEmptyIsExact(lo: Bound, hi: Bound, x: Bytes)
    ensures Panics(Range(lo, hi)) ==> BoundsEmpty(lo, hi)
    ensures BoundsEmpty(lo, hi) ==> !Contains(Range(lo, hi), x)
  {
    if !lo.Unbounded? && !hi.Unbounded? {
      OrderFacts(lo.b, hi.b, x);
      LessIsStrict(lo.b, x);
      LessIsStrict(x, hi.b);
      LessIsStrict(x, lo.b);
      LessIsStrict(lo.b, hi.b);
    }
  }
}
