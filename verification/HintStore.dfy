/** The client hints an origin asked for with `Accept-CH`: parsing the header, and
    saving and restoring what was asked. */
module HintStore {
  import opened Options
  import opened Texts

  /** The hints always sent. */
  const BASE: seq<string> := ["sec-ch-ua", "sec-ch-ua-mobile", "sec-ch-ua-platform"]

  /** The hints known, in the order a navigation lists them. */
  const NAVIGATION_ORDER: seq<string> := FIRST_HINTS + MORE_HINTS + LAST_HINTS + PREFERENCES

  const FIRST_HINTS: seq<string> := [
    "device-memory", "sec-ch-device-memory", "dpr", "sec-ch-dpr", "viewport-width", "sec-ch-viewport-width",
    "sec-ch-viewport-height", "rtt", "downlink", "ect"]

  const MORE_HINTS: seq<string> := [
    "sec-ch-ua", "sec-ch-ua-mobile", "sec-ch-ua-full-version", "sec-ch-ua-arch", "sec-ch-ua-platform",
    "sec-ch-ua-platform-version", "sec-ch-ua-model", "sec-ch-ua-bitness"]

  const LAST_HINTS: seq<string> := [
    "sec-ch-ua-wow64", "sec-ch-ua-full-version-list", "sec-ch-ua-form-factors"]

  const PREFERENCES: seq<string> := [
    "sec-ch-prefers-color-scheme", "sec-ch-prefers-reduced-motion", "sec-ch-prefers-reduced-transparency"]

  /** A hint name as it is sent, if it is one. */
  function Known(name: string): (r: Option<string>)
    ensures r.Some? ==> r.value in NAVIGATION_ORDER
  {
    var lower := Lower(Trim(name));
    if lower in NAVIGATION_ORDER then Some(lower) else None
  }

  // ---- lists in a header -----------------------------------------------------------------

  /** `split(',')` */
  function Parts(s: string): (r: seq<string>)
    ensures r != []
  {
    if s == "" then [""]
    else
      var rest := Parts(s[1..]);
      if s[0] == ',' then [""] + rest else [[s[0]] + rest[0]] + rest[1..]
  }

  /** `join(",")` */
  function Join(names: seq<string>): string {
    if names == [] then "" else if |names| == 1 then names[0] else names[0] + "," + Join(names[1..])
  }

  /** A header is cut at its commas, and at nothing else. */
  lemma {:induction false} PartsJoin(s: string)
    ensures Join(Parts(s)) == s && forall p :: p in Parts(s) ==> ',' !in p
  {
    if s != "" {
      PartsJoin(s[1..]);
      var rest, parts := Parts(s[1..]), Parts(s);
      assert s == [s[0]] + s[1..];
      if s[0] == ',' {
        assert parts[1..] == rest;
      } else {
        assert parts[1..] == rest[1..] && rest[0] in rest;
        assert forall c :: c in parts[0] ==> c == s[0] || c in rest[0];
        assert forall p :: p in parts ==> p == parts[0] || p in rest;
        if |rest| > 1 {
          assert [s[0]] + rest[0] + "," + Join(rest[1..]) == [s[0]] + (rest[0] + "," + Join(rest[1..]));
        }
      }
    }
  }

  lemma {:induction false} PartsOfOne(name: string)
    requires ',' !in name
    ensures Parts(name) == [name]
  {
    if name != "" {
      PartsOfOne(name[1..]);
      assert [name[0]] + name[1..] == name;
    }
  }

  lemma {:induction false} PartsAfterFirst(name: string, more: string)
    requires ',' !in name
    ensures Parts(name + "," + more) == [name] + Parts(more)
  {
    var s := name + "," + more;
    if name == "" {
      assert s == "," + more;
      assert s[1..] == more;
    } else {
      PartsAfterFirst(name[1..], more);
      assert s[1..] == name[1..] + "," + more;
      assert [name[0]] + name[1..] == name;
      assert ([name[1..]] + Parts(more))[1..] == Parts(more);
    }
  }

  lemma {:induction false} JoinedParts(names: seq<string>)
    requires names != [] && forall n :: n in names ==> ',' !in n
    ensures Parts(Join(names)) == names
  {
    if |names| == 1 {
      PartsOfOne(names[0]);
      assert names == [names[0]];
    } else {
      JoinedParts(names[1..]);
      PartsAfterFirst(names[0], Join(names[1..]));
      assert [names[0]] + names[1..] == names;
    }
  }

  // ---- parsing ------------------------------------------------------------------------------

  function ParsePart(out: seq<string>, part: string): seq<string> {
    match Known(part)
    case None => out
    case Some(n) => if n in BASE || n in out then out else out + [n]
  }

  function ParseParts(parts: seq<string>): seq<string> {
    if parts == [] then [] else ParsePart(ParseParts(parts[..|parts| - 1]), parts[|parts| - 1])
  }

  /** `parse`: the hints a header asks for beyond those always sent. */
  method Parse(value: string) returns (out: seq<string>)
    ensures out == ParseParts(Parts(value))
  {
    out := [];
    var parts := Parts(value);
    for i := 0 to |parts|
      invariant out == ParseParts(parts[..i])
    {
      assert parts[..i + 1][..i] == parts[..i];
      var n := Known(parts[i]);
      if n.Some? {
        if n.value !in BASE && n.value !in out {
          out := out + [n.value];
        }
      }
    }
    assert parts[..|parts|] == parts;
  }

  /** Names an `Accept-CH` header can give: known, not always sent, each once. */
  ghost predicate Hints(names: seq<string>) {
    (forall n :: n in names ==> n in NAVIGATION_ORDER && n !in BASE) &&
    forall i, j :: 0 <= i < j < |names| ==> names[i] != names[j]
  }

  lemma PartMember(out: seq<string>, part: string, n: string)
    ensures n in ParsePart(out, part) <==> n in out || (n !in BASE && Known(part) == Some(n))
  {
    hide Known;
  }

  lemma PartKeepsHints(out: seq<string>, part: string)
    requires Hints(out)
    ensures Hints(ParsePart(out, part))
  {
    KnownIsListed(part);
    hide Known;
  }

  /** A part that names a hint. */
  ghost predicate Named(parts: seq<string>, n: string) {
    exists i :: 0 <= i < |parts| && Known(parts[i]) == Some(n)
  }

  lemma NamedSnoc(parts: seq<string>, last: string, n: string)
    ensures Named(parts + [last], n) <==> Named(parts, n) || Known(last) == Some(n)
  {
    hide Known;
    var all := parts + [last];
    if i :| 0 <= i < |parts| && Known(parts[i]) == Some(n) {
      assert all[i] == parts[i];
    }
    assert all[|parts|] == last;
  }

  /** What a header yields: exactly the known hints among its parts, beyond those
      always sent, each once. */
  lemma {:induction false} ParseIsHints(parts: seq<string>)
    ensures Hints(ParseParts(parts))
    ensures forall n :: n in ParseParts(parts) <==> n !in BASE && Named(parts, n)
  {
    hide Known, Named, Hints, ParsePart;
    if parts == [] {
      NothingParsed();
    } else {
      var front, last := parts[..|parts| - 1], parts[|parts| - 1];
      ParseIsHints(front);
      PartKeepsHints(ParseParts(front), last);
      assert front + [last] == parts;
      forall n
        ensures n in ParseParts(parts) <==> n !in BASE && Named(parts, n)
      {
        PartMember(ParseParts(front), last, n);
        NamedSnoc(front, last, n);
      }
    }
  }

  lemma NothingParsed()
    ensures ParseParts([]) == [] && Hints([]) && forall n :: !Named([], n)
  {
  }

  lemma KnownIsListed(name: string)
    ensures Known(name).Some? ==> Known(name).value in NAVIGATION_ORDER
  {
  }

  // ---- names are their own spelling ------------------------------------------------------------

  /** Letters in lower case, digits and hyphens. */
  predicate Spelled(n: string) {
    n != "" && forall i :: 0 <= i < |n| ==> 'a' <= n[i] <= 'z' || '0' <= n[i] <= '9' || n[i] == '-'
  }

  lemma FirstSpelled(i: nat)
    requires i < |FIRST_HINTS|
    ensures Spelled(FIRST_HINTS[i])
  {
  }

  lemma MoreSpelled(i: nat)
    requires i < |MORE_HINTS|
    ensures Spelled(MORE_HINTS[i])
  {
  }

  lemma LastSpelled(i: nat)
    requires i < |LAST_HINTS|
    ensures Spelled(LAST_HINTS[i])
  {
  }

  lemma PreferenceSpelled(i: nat)
    requires i < |PREFERENCES|
    ensures Spelled(PREFERENCES[i])
  {
  }

  predicate In(list: seq<string>, n: string) {
    exists i :: 0 <= i < |list| && list[i] == n
  }

  lemma AllSpelled(n: string)
    requires n in NAVIGATION_ORDER
    ensures Spelled(n)
  {
    hide Spelled;
    assert n in FIRST_HINTS + MORE_HINTS + LAST_HINTS + PREFERENCES;
    Member(FIRST_HINTS, MORE_HINTS, LAST_HINTS, PREFERENCES, n);
    if In(FIRST_HINTS, n) {
      var i :| 0 <= i < |FIRST_HINTS| && FIRST_HINTS[i] == n;
      FirstSpelled(i);
    } else if In(MORE_HINTS, n) {
      var i :| 0 <= i < |MORE_HINTS| && MORE_HINTS[i] == n;
      MoreSpelled(i);
    } else if In(LAST_HINTS, n) {
      var i :| 0 <= i < |LAST_HINTS| && LAST_HINTS[i] == n;
      LastSpelled(i);
    } else {
      var i :| 0 <= i < |PREFERENCES| && PREFERENCES[i] == n;
      PreferenceSpelled(i);
    }
  }

  lemma Member(a: seq<string>, b: seq<string>, c: seq<string>, d: seq<string>, n: string)
    requires n in a + b + c + d
    ensures In(a, n) || In(b, n) || In(c, n) || In(d, n)
  {
    var all := a + b + c + d;
    var i :| 0 <= i < |all| && all[i] == n;
    if i < |a| {
      assert a[i] == n;
    } else if i < |a + b| {
      assert b[i - |a|] == n;
    } else if i < |a + b + c| {
      assert c[i - |a + b|] == n;
    } else {
      assert d[i - |a + b + c|] == n;
    }
  }

  lemma {:induction false} LowerIsItself(n: string)
    requires forall i :: 0 <= i < |n| ==> LowerChar(n[i]) == n[i]
    ensures Lower(n) == n
  {
    if n != "" {
      LowerIsItself(n[1..]);
      assert [n[0]] + n[1..] == n;
    }
  }

  lemma SpelledIsKnown(n: string)
    requires Spelled(n) && n in NAVIGATION_ORDER
    ensures Known(n) == Some(n) && ',' !in n
  {
    assert !White(n[0]) && !White(n[|n| - 1]);
    LowerIsItself(n);
  }

  lemma ListedIsKnown(n: string)
    requires n in NAVIGATION_ORDER
    ensures Known(n) == Some(n) && ',' !in n
  {
    AllSpelled(n);
    SpelledIsKnown(n);
  }

  lemma NewHint(out: seq<string>, n: string)
    requires Hints(out + [n])
    ensures Hints(out) && ParsePart(out, n) == out + [n]
  {
    hide Known;
    var all := out + [n];
    assert all[|out|] == n && n in all;
    ListedIsKnown(n);
    forall i | 0 <= i < |out|
      ensures out[i] in all && out[i] != n
    {
      assert all[i] == out[i];
    }
    forall i, j | 0 <= i < j < |out|
      ensures out[i] != out[j]
    {
      assert all[i] == out[i] && all[j] == out[j];
    }
  }

  /** Names that came from a header are read back from their joined text. */
  lemma {:induction false} HintsParseToThemselves(names: seq<string>)
    requires Hints(names)
    ensures ParseParts(names) == names
  {
    hide Known, Hints, ParsePart;
    if names != [] {
      var front, last := names[..|names| - 1], names[|names| - 1];
      assert front + [last] == names;
      NewHint(front, last);
      HintsParseToThemselves(front);
    }
  }

  lemma JoinRoundTrip(names: seq<string>)
    requires Hints(names) && names != []
    ensures ParseParts(Parts(Join(names))) == names
  {
    forall n | n in names
      ensures ',' !in n
    {
      ListedIsKnown(n);
    }
    JoinedParts(names);
    HintsParseToThemselves(names);
  }

  // ---- the store ------------------------------------------------------------------------------------

  class Store {
    var prefs: map<string, seq<string>>

    /** No origin without hints. */
    ghost predicate Valid()
      reads this
    {
      forall o :: o in prefs ==> prefs[o] != []
    }

    /** No hints but those a header can give. */
    ghost predicate FromHeaders()
      reads this
    {
      forall o :: o in prefs ==> Hints(prefs[o])
    }

    constructor ()
      ensures Valid() && FromHeaders() && prefs == map[]
    {
      prefs := map[];
    }

    method Get(origin: string) returns (hints: seq<string>)
      ensures hints == if origin in prefs then prefs[origin] else []
    {
      hints := if origin in prefs then prefs[origin] else [];
    }

    /** The list of an origin, replaced as a whole; an empty one removes it. */
    method Set(origin: string, hints: seq<string>)
      requires Valid()
      modifies this
      ensures Valid()
      ensures old(FromHeaders()) && Hints(hints) ==> FromHeaders()
      ensures prefs == if hints == [] then old(prefs) - {origin} else old(prefs)[origin := hints]
    {
      if hints == [] {
        prefs := prefs - {origin};
      } else {
        prefs := prefs[origin := hints];
      }
    }

    /** A response with an `Accept-CH` header. */
    method Accept(origin: string, value: string)
      requires Valid()
      modifies this
      ensures Valid()
      ensures old(FromHeaders()) ==> FromHeaders()
      ensures var hints := ParseParts(Parts(value));
              prefs == if hints == [] then old(prefs) - {origin} else old(prefs)[origin := hints]
    {
      var hints := Parse(value);
      ParseIsHints(Parts(value));
      Set(origin, hints);
    }

    method Snapshot() returns (saved: map<string, seq<string>>)
      ensures saved == prefs
    {
      saved := prefs;
    }

    /** Every saved list goes through the parser as if it came in a header; origins
        that were not saved keep theirs. */
    method Restore(saved: map<string, seq<string>>)
      requires Valid()
      modifies this
      ensures Valid()
      ensures old(FromHeaders()) ==> FromHeaders()
      ensures forall o :: o !in saved ==> (o in prefs <==> o in old(prefs)) && (o in prefs ==> prefs[o] == old(prefs)[o])
      ensures forall o :: o in saved ==>
                var hints := ParseParts(Parts(Join(saved[o])));
                (o in prefs <==> hints != []) && (o in prefs ==> prefs[o] == hints)
    {
      var todo := saved.Keys;
      while todo != {}
        invariant Valid() && todo <= saved.Keys && (old(FromHeaders()) ==> FromHeaders())
        invariant forall o :: o !in saved || o in todo ==>
                    (o in prefs <==> o in old(prefs)) && (o in prefs ==> prefs[o] == old(prefs)[o])
        invariant forall o :: o in saved && o !in todo ==>
                    var hints := ParseParts(Parts(Join(saved[o])));
                    (o in prefs <==> hints != []) && (o in prefs ==> prefs[o] == hints)
      {
        var origin :| origin in todo;
        Accept(origin, Join(saved[origin]));
        todo := todo - {origin};
      }
    }
  }

  /** Saving and restoring into a new store gives every origin its hints back,
      exactly when they are such as headers give. */
  method SaveAndRestore(store: Store) returns (copy: Store)
    requires store.Valid()
    ensures fresh(copy) && copy.Valid() && copy.FromHeaders()
    ensures copy.prefs == store.prefs <==> store.FromHeaders()
  {
    hide Hints;
    var saved := store.Snapshot();
    copy := new Store();
    copy.Restore(saved);
    forall o | o in saved
      ensures ParseParts(Parts(Join(saved[o]))) == saved[o] <==> Hints(saved[o])
    {
      if Hints(saved[o]) {
        JoinRoundTrip(saved[o]);
      }
      ParseIsHints(Parts(Join(saved[o])));
    }
    if store.FromHeaders() {
      assert copy.prefs.Keys == saved.Keys;
    }
  }
}
