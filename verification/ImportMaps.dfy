/** Import maps: every level is kept in descending order of its keys, so that the
    first entry that applies is the most specific one. Parsing and joining of
    URLs are parameters; a URL is its serialization. */
module ImportMaps {
  import opened Options
  import opened KeyedLists

  /** What the `url` crate does: `parse`, `join`, and whether a URL's scheme is a
      special one. */
  datatype Urls = Urls(parse: string -> Option<string>, join: (string, string) -> Option<string>, special: string -> bool)

  /** One level of a map. A key without an address resolves to an error. */
  type Specifiers = seq<Entry<Option<string>>>

  datatype ImportMap = ImportMap(imports: Specifiers, scopes: seq<Entry<Specifiers>>)

  predicate EndsSlash(s: string) {
    s != "" && s[|s| - 1] == '/'
  }

  /** The URL a text stands for on its own: relative paths are joined to the base,
      anything else has to parse. */
  function UrlLike(u: Urls, spec: string, base: string): Option<string> {
    if "/" <= spec || "./" <= spec || "../" <= spec then u.join(base, spec) else u.parse(spec)
  }

  // ---- one level -------------------------------------------------------------------------------

  /** Keys match as a whole, or as a prefix when they end in a slash; prefixes do
      not match URLs of other than special schemes. */
  predicate Applies(u: Urls, key: string, normalized: string, asUrl: Option<string>) {
    key == normalized || (EndsSlash(key) && key <= normalized && (asUrl.None? || u.special(asUrl.value)))
  }

  /** What an entry that applies resolves to, nothing for an error. What a prefix
      maps to must stay under its address. */
  function Answer(u: Urls, e: Entry<Option<string>>, normalized: string): Option<string>
    requires e.key <= normalized
  {
    if e.key == normalized || e.value.None? then e.value
    else
      match u.join(e.value.value, normalized[|e.key|..])
      case None => None
      case Some(r) => if e.value.value <= r then Some(r) else None
  }

  /** The answer of the first entry that applies. */
  function Match(u: Urls, normalized: string, asUrl: Option<string>, map_: Specifiers): Option<Option<string>> {
    if map_ == [] then None
    else if Applies(u, map_[0].key, normalized, asUrl) then Some(Answer(u, map_[0], normalized))
    else Match(u, normalized, asUrl, map_[1..])
  }

  /** `match_in` */
  method MatchIn(u: Urls, normalized: string, asUrl: Option<string>, map_: Specifiers) returns (r: Option<Option<string>>)
    ensures r == Match(u, normalized, asUrl, map_)
  {
    for i := 0 to |map_|
      invariant Match(u, normalized, asUrl, map_) == Match(u, normalized, asUrl, map_[i..])
    {
      var key, addr := map_[i].key, map_[i].value;
      if key == normalized {
        return Some(addr);
      }
      var special := asUrl.None? || u.special(asUrl.value);
      if EndsSlash(key) && key <= normalized && special {
        if addr.None? {
          return Some(None);
        }
        var joined := u.join(addr.value, normalized[|key|..]);
        return Some(if joined.Some? && addr.value <= joined.value then joined else None);
      }
    }
    return None;
  }

  lemma {:induction false} FirstApplies(u: Urls, normalized: string, asUrl: Option<string>, map_: Specifiers) returns (i: nat)
    ensures i <= |map_| && forall j :: 0 <= j < i ==> !Applies(u, map_[j].key, normalized, asUrl)
    ensures i < |map_| ==> Applies(u, map_[i].key, normalized, asUrl)
    ensures Match(u, normalized, asUrl, map_) == if i < |map_| then Some(Answer(u, map_[i], normalized)) else None
  {
    if map_ == [] || Applies(u, map_[0].key, normalized, asUrl) {
      i := 0;
    } else {
      var k := FirstApplies(u, normalized, asUrl, map_[1..]);
      i := k + 1;
    }
  }

  /** Of two keys that are prefixes of one text, the longer comes first in an
      ordered list. */
  lemma LongerFirst(a: string, b: string, text: string)
    requires a <= text && b <= text && !Less(a, b)
    ensures |b| <= |a|
  {
    if |a| < |b| {
      assert a == text[..|a|] == b[..|a|];
      PrefixIsLess(a, b);
    }
  }

  /** The answer is that of the longest key that applies, of equal keys the first;
      there is none exactly when no key applies (HTML Standard, module specifier
      resolution). */
  lemma LongestKeyWins(u: Urls, normalized: string, asUrl: Option<string>, map_: Specifiers) returns (i: nat)
    requires Ordered(map_)
    ensures Match(u, normalized, asUrl, map_).None? <==>
            forall e :: e in map_ ==> !Applies(u, e.key, normalized, asUrl)
    ensures Match(u, normalized, asUrl, map_).Some? ==>
              i < |map_| && Applies(u, map_[i].key, normalized, asUrl) &&
              Match(u, normalized, asUrl, map_) == Some(Answer(u, map_[i], normalized)) &&
              forall j :: 0 <= j < |map_| && Applies(u, map_[j].key, normalized, asUrl) ==>
                |map_[j].key| <= |map_[i].key| && (map_[j].key == map_[i].key ==> i <= j)
  {
    i := FirstApplies(u, normalized, asUrl, map_);
    if i < |map_| {
      assert map_[i] in map_;
      forall j | 0 <= j < |map_| && Applies(u, map_[j].key, normalized, asUrl)
        ensures |map_[j].key| <= |map_[i].key| && i <= j
      {
        if i < j {
          LongerFirst(map_[i].key, map_[j].key, normalized);
        }
      }
    }
  }

  /** A key that is the specifier itself always wins. */
  lemma ExactKeyWins(u: Urls, normalized: string, asUrl: Option<string>, map_: Specifiers)
    requires Ordered(map_) && Group(map_, normalized) != []
    ensures Match(u, normalized, asUrl, map_) == Some(Group(map_, normalized)[0])
  {
    GroupKey(map_, normalized);
    var k :| 0 <= k < |map_| && map_[k].key == normalized;
    var i := LongestKeyWins(u, normalized, asUrl, map_);
    assert map_[k] in map_;
    assert |map_[i].key| == |normalized|;
    FirstOfGroup(map_, normalized, i);
  }

  lemma {:induction false} FirstOfGroup<T>(v: seq<Entry<T>>, k: string, i: nat)
    requires i < |v| && v[i].key == k && forall j :: 0 <= j < i ==> v[j].key != k
    ensures Group(v, k) != [] && Group(v, k)[0] == v[i].value
  {
    if i > 0 {
      FirstOfGroup(v[1..], k, i - 1);
    }
  }

  // ---- resolving ----------------------------------------------------------------------------------

  predicate ScopeApplies(prefix: string, base: string) {
    prefix == base || (EndsSlash(prefix) && prefix <= base)
  }

  /** The first scope of the base that has an answer. */
  function MatchScopes(u: Urls, normalized: string, asUrl: Option<string>, base: string,
                       scopes: seq<Entry<Specifiers>>): Option<Option<string>> {
    if scopes == [] then None
    else if ScopeApplies(scopes[0].key, base) && Match(u, normalized, asUrl, scopes[0].value).Some? then
      Match(u, normalized, asUrl, scopes[0].value)
    else MatchScopes(u, normalized, asUrl, base, scopes[1..])
  }

  function ResolveIn(u: Urls, m: ImportMap, base: string, normalized: string, asUrl: Option<string>): Option<string> {
    match MatchScopes(u, normalized, asUrl, base, m.scopes)
    case Some(r) => r
    case None =>
      match Match(u, normalized, asUrl, m.imports)
      case Some(r) => r
      case None => asUrl
  }

  function Normalized(spec: string, asUrl: Option<string>): string {
    if asUrl.Some? then asUrl.value else spec
  }

  /** What an import of `spec` from `base` loads. */
  function Resolve(u: Urls, m: Option<ImportMap>, base: string, spec: string): Option<string> {
    match u.parse(base)
    case None => None
    case Some(b) =>
      var asUrl := UrlLike(u, spec, b);
      if m.None? then asUrl else ResolveIn(u, m.value, b, Normalized(spec, asUrl), asUrl)
  }

  /** `resolve` */
  method ResolveSpecifier(u: Urls, m: Option<ImportMap>, base: string, spec: string) returns (r: Option<string>)
    ensures r == Resolve(u, m, base, spec)
  {
    var b := u.parse(base);
    if b.None? {
      return None;
    }
    var asUrl := UrlLike(u, spec, b.value);
    var normalized := Normalized(spec, asUrl);
    if m.Some? {
      var scopes := m.value.scopes;
      for i := 0 to |scopes|
        invariant MatchScopes(u, normalized, asUrl, b.value, scopes) ==
                  MatchScopes(u, normalized, asUrl, b.value, scopes[i..])
      {
        if ScopeApplies(scopes[i].key, b.value) {
          var found := MatchIn(u, normalized, asUrl, scopes[i].value);
          if found.Some? {
            return found.value;
          }
        }
      }
      var found := MatchIn(u, normalized, asUrl, m.value.imports);
      if found.Some? {
        return found.value;
      }
    }
    return asUrl;
  }

  ghost predicate WellOrdered(m: ImportMap) {
    Ordered(m.imports) && Ordered(m.scopes) && forall e :: e in m.scopes ==> Ordered(e.value)
  }

  /** A scope of the base that knows the specifier. */
  ghost predicate Knows(u: Urls, e: Entry<Specifiers>, base: string, normalized: string, asUrl: Option<string>) {
    ScopeApplies(e.key, base) && exists x :: x in e.value && Applies(u, x.key, normalized, asUrl)
  }

  lemma {:induction false} FirstKnows(u: Urls, normalized: string, asUrl: Option<string>, base: string,
                                      scopes: seq<Entry<Specifiers>>) returns (i: nat)
    requires forall e :: e in scopes ==> Ordered(e.value)
    ensures i <= |scopes| && forall j :: 0 <= j < i ==> !Knows(u, scopes[j], base, normalized, asUrl)
    ensures i < |scopes| ==> Knows(u, scopes[i], base, normalized, asUrl)
    ensures MatchScopes(u, normalized, asUrl, base, scopes) ==
            if i < |scopes| then Match(u, normalized, asUrl, scopes[i].value) else None
  {
    if scopes == [] {
      i := 0;
    } else {
      assert scopes[0] in scopes;
      var n := LongestKeyWins(u, normalized, asUrl, scopes[0].value);
      if Knows(u, scopes[0], base, normalized, asUrl) {
        i := 0;
      } else {
        var k := FirstKnows(u, normalized, asUrl, base, scopes[1..]);
        i := k + 1;
      }
    }
  }

  /** Resolution goes to the scope with the longest prefix among those that know
      the specifier, and with no such scope to the imports. */
  lemma LongestScopeWins(u: Urls, m: ImportMap, base: string, normalized: string, asUrl: Option<string>) returns (i: nat)
    requires WellOrdered(m)
    ensures (forall e :: e in m.scopes ==> !Knows(u, e, base, normalized, asUrl)) ==>
              ResolveIn(u, m, base, normalized, asUrl) ==
              match Match(u, normalized, asUrl, m.imports) case Some(r) => r case None => asUrl
    ensures (exists e :: e in m.scopes && Knows(u, e, base, normalized, asUrl)) ==>
              i < |m.scopes| && Knows(u, m.scopes[i], base, normalized, asUrl) &&
              Some(ResolveIn(u, m, base, normalized, asUrl)) == Match(u, normalized, asUrl, m.scopes[i].value) &&
              forall j :: 0 <= j < |m.scopes| && Knows(u, m.scopes[j], base, normalized, asUrl) ==>
                |m.scopes[j].key| <= |m.scopes[i].key| && (m.scopes[j].key == m.scopes[i].key ==> i <= j)
  {
    i := FirstKnows(u, normalized, asUrl, base, m.scopes);
    if i < |m.scopes| {
      assert m.scopes[i] in m.scopes;
      var n := LongestKeyWins(u, normalized, asUrl, m.scopes[i].value);
      forall j | 0 <= j < |m.scopes| && Knows(u, m.scopes[j], base, normalized, asUrl)
        ensures |m.scopes[j].key| <= |m.scopes[i].key| && i <= j
      {
        if i < j {
          LongerFirst(m.scopes[i].key, m.scopes[j].key, base);
        }
      }
    }
  }

  // ---- parsing -------------------------------------------------------------------------------------

  /** One member of the JSON object: an empty key is no member; a value that is no
      address, or no prefix under a prefix key, is an error. */
  function Member(u: Urls, base: string, key: string, value: Option<string>): Specifiers {
    if key == "" then []
    else
      var k := Normalized(key, UrlLike(u, key, base));
      var addr := if value.None? then None else UrlLike(u, value.value, base);
      [Entry(k, if addr.Some? && EndsSlash(k) && !EndsSlash(addr.value) then None else addr)]
  }

  function Members(u: Urls, base: string, object_: seq<(string, Option<string>)>): Specifiers {
    if object_ == [] then []
    else
      var last := object_[|object_| - 1];
      Members(u, base, object_[..|object_| - 1]) + Member(u, base, last.0, last.1)
  }

  /** `specifier_map`: a value that is no string is `None`. */
  method SpecifierMap(u: Urls, base: string, object_: seq<(string, Option<string>)>) returns (r: Specifiers)
    ensures r == Sorted(Members(u, base, object_)) && Ordered(r)
    ensures forall e :: e in r ==> PrefixToPrefix(e)
  {
    var out: Specifiers := [];
    for i := 0 to |object_|
      invariant out == Members(u, base, object_[..i])
      invariant forall e :: e in out ==> PrefixToPrefix(e)
    {
      assert object_[..i + 1][..i] == object_[..i];
      var (key, value) := object_[i];
      if key == "" {
        continue;
      }
      var k := Normalized(key, UrlLike(u, key, base));
      var addr := if value.None? then None else UrlLike(u, value.value, base);
      if addr.Some? && EndsSlash(k) && !EndsSlash(addr.value) {
        addr := None;
      }
      out := out + [Entry(k, addr)];
    }
    assert object_[..|object_|] == object_;
    SortedOrdered(out);
    r := Sorted(out);
    forall e | e in r
      ensures PrefixToPrefix(e)
    {
      var i :| 0 <= i < |r| && r[i] == e;
    }
  }

  /** A prefix is mapped to a prefix or to an error. */
  predicate PrefixToPrefix(e: Entry<Option<string>>) {
    EndsSlash(e.key) && e.value.Some? ==> EndsSlash(e.value.value)
  }

  type Object = seq<(string, Option<string>)>

  /** The scopes of a JSON object: those whose prefix joins the base and whose value
      is an object. */
  function Scopes(u: Urls, base: string, object_: seq<(string, Option<Object>)>): seq<Entry<Specifiers>> {
    if object_ == [] then []
    else
      var (prefix, members) := object_[|object_| - 1];
      var p := u.join(base, prefix);
      Scopes(u, base, object_[..|object_| - 1]) +
      if p.Some? && members.Some? then [Entry(p.value, Sorted(Members(u, base, members.value)))] else []
  }

  /** The JSON text: malformed, a value that is no object, or an object; of its two
      members only those that are objects are here. */
  datatype Document = Malformed | NoObject | Top(imports: Option<Object>, scopes: Option<seq<(string, Option<Object>)>>)

  function Default<T>(o: Option<seq<T>>): seq<T> {
    if o.Some? then o.value else []
  }

  /** The map of a document against a base. */
  function Parsed(u: Urls, base: string, doc: Document): ImportMap
    requires doc.Top?
  {
    ImportMap(Sorted(Members(u, base, Default(doc.imports))), Sorted(Scopes(u, base, Default(doc.scopes))))
  }

  /** `parse`: nothing for a base that is no URL, malformed JSON or a value that is
      no object, and otherwise a map with every level in order. */
  method ParseMap(u: Urls, base: string, doc: Document) returns (m: Option<ImportMap>)
    ensures m.None? <==> u.parse(base).None? || !doc.Top?
    ensures m.Some? ==> m.value == Parsed(u, u.parse(base).value, doc) && WellOrdered(m.value)
  {
    hide Sorted, Members, Ordered, WellOrdered;
    var b := u.parse(base);
    if b.None? || !doc.Top? {
      return None;
    }
    var specifiers := SpecifierMap(u, b.value, Default(doc.imports));
    var scopes := Default(doc.scopes);
    var out: seq<Entry<Specifiers>> := [];
    for i := 0 to |scopes|
      invariant out == Scopes(u, b.value, scopes[..i])
    {
      assert scopes[..i + 1][..i] == scopes[..i];
      var p := u.join(b.value, scopes[i].0);
      if p.Some? && scopes[i].1.Some? {
        var members := SpecifierMap(u, b.value, scopes[i].1.value);
        out := out + [Entry(p.value, members)];
      }
    }
    assert scopes[..|scopes|] == scopes;
    ParsedOrdered(u, b.value, doc);
    return Some(ImportMap(specifiers, Sorted(out)));
  }

  lemma SortedIsWellOrdered(imports: Specifiers, scopes: seq<Entry<Specifiers>>)
    requires Ordered(imports) && forall e :: e in scopes ==> Ordered(e.value)
    ensures WellOrdered(ImportMap(imports, Sorted(scopes)))
  {
    SortedOrdered(scopes);
    forall e | e in Sorted(scopes)
      ensures Ordered(e.value)
    {
      var i :| 0 <= i < |scopes| && Sorted(scopes)[i] == e;
    }
  }

  // ---- merging --------------------------------------------------------------------------------------

  /** The place of the first entry of a key. */
  function Find<T>(v: seq<Entry<T>>, k: string): (i: nat)
    ensures i <= |v| && (i < |v| ==> v[i].key == k)
    ensures forall j :: 0 <= j < i ==> v[j].key != k
  {
    if v == [] || v[0].key == k then 0 else 1 + Find(v[1..], k)
  }

  /** A scope joins the first of its prefix, or the end. */
  function WithScope(a: seq<Entry<Specifiers>>, e: Entry<Specifiers>): seq<Entry<Specifiers>> {
    var i := Find(a, e.key);
    if i < |a| then a[i := Entry(e.key, Union(a[i].value, e.value))] else a + [e]
  }

  function WithScopes(a: seq<Entry<Specifiers>>, b: seq<Entry<Specifiers>>): seq<Entry<Specifiers>> {
    if b == [] then a else WithScope(WithScopes(a, b[..|b| - 1]), b[|b| - 1])
  }

  function Merge(a: ImportMap, b: ImportMap): ImportMap {
    ImportMap(Union(a.imports, b.imports), Sorted(WithScopes(a.scopes, b.scopes)))
  }

  /** `for (k, v) in other { if !mine.any(k) { mine.push((k, v)) } }`, then the sort. */
  method AddMissing(mine: Specifiers, other: Specifiers) returns (r: Specifiers)
    ensures r == Union(mine, other)
  {
    r := mine;
    for i := 0 to |other|
      invariant r == Pushed(mine, other[..i])
    {
      assert other[..i + 1][..i] == other[..i];
      var present := AnyKey(r, other[i].key);
      if !present {
        r := r + [other[i]];
      }
    }
    assert other[..|other|] == other;
    r := Sorted(r);
  }

  method AnyKey<T>(v: seq<Entry<T>>, k: string) returns (present: bool)
    ensures present <==> HasKey(v, k)
  {
    for i := 0 to |v|
      invariant forall j :: 0 <= j < i ==> v[j].key != k
    {
      if v[i].key == k {
        return true;
      }
    }
    return false;
  }

  /** `merge` */
  method MergeMaps(mine: ImportMap, other: ImportMap) returns (r: ImportMap)
    ensures r == Merge(mine, other)
  {
    var imports := AddMissing(mine.imports, other.imports);
    var scopes := mine.scopes;
    for i := 0 to |other.scopes|
      invariant scopes == WithScopes(mine.scopes, other.scopes[..i])
    {
      assert other.scopes[..i + 1][..i] == other.scopes[..i];
      var e := other.scopes[i];
      var at := Find(scopes, e.key);
      if at < |scopes| {
        var united := AddMissing(scopes[at].value, e.value);
        scopes := scopes[at := Entry(e.key, united)];
      } else {
        scopes := scopes + [e];
      }
    }
    assert other.scopes[..|other.scopes|] == other.scopes;
    r := ImportMap(imports, Sorted(scopes));
  }

  /** The scopes of one prefix after a merge: those of the later map all join the
      first of the earlier one. */
  function Joined(g: seq<Specifiers>, h: seq<Specifiers>): seq<Specifiers> {
    if h == [] then g
    else if g == [] then [UnionAll(h)]
    else [UnionAll([g[0]] + h)] + g[1..]
  }

  lemma {:induction false} GroupSet<T>(v: seq<Entry<T>>, i: nat, x: T, k: string)
    requires i < |v| && i == Find(v, v[i].key)
    ensures var g := Group(v, k); var w := v[i := Entry(v[i].key, x)];
            if k == v[i].key then g != [] && Group(w, k) == [x] + g[1..] && g[0] == v[i].value else Group(w, k) == g
  {
    var w := v[i := Entry(v[i].key, x)];
    GroupHead(v, k);
    GroupHead(w, k);
    hide Group;
    if i > 0 {
      GroupSet(v[1..], i - 1, x, k);
      assert w[1..] == v[1..][i - 1 := Entry(v[i].key, x)];
    } else {
      assert w[1..] == v[1..];
    }
  }

  lemma GroupHead<T>(v: seq<Entry<T>>, k: string)
    requires v != []
    ensures var left := Group(v[1..], k);
            if v[0].key == k then Group(v, k) != [] && Group(v, k)[0] == v[0].value && Group(v, k)[1..] == left &&
                                  Group(v, k) == [v[0].value] + left
            else Group(v, k) == left
  {
  }

  lemma UnionAllSnoc(l: seq<Specifiers>, x: Specifiers)
    requires l != []
    ensures UnionAll(l + [x]) == Union(UnionAll(l), x)
  {
    assert (l + [x])[..|l|] == l;
  }

  lemma JoinedSnoc(g: seq<Specifiers>, h: seq<Specifiers>, x: Specifiers)
    ensures Joined(g, h + [x]) == WithFirst(Joined(g, h), x)
  {
    hide UnionAll, Union;
    UnionAllAlone(x, "");
    if g == [] {
      if h == [] {
        assert h + [x] == [x];
      } else {
        UnionAllSnoc(h, x);
      }
    } else {
      UnionAllAlone(g[0], "");
      UnionAllSnoc([g[0]] + h, x);
      assert [g[0]] + (h + [x]) == [g[0]] + h + [x];
      if h == [] {
        assert [g[0]] + h == [g[0]];
      }
    }
  }

  /** A scope joins the first of its prefix's scopes. */
  function WithFirst(g: seq<Specifiers>, x: Specifiers): seq<Specifiers> {
    if g == [] then [x] else [Union(g[0], x)] + g[1..]
  }

  lemma GroupWithScope(a: seq<Entry<Specifiers>>, e: Entry<Specifiers>, p: string)
    ensures var g := Group(a, p);
            Group(WithScope(a, e), p) == if e.key == p then WithFirst(g, e.value) else g
  {
    var i := Find(a, e.key);
    GroupKey(a, e.key);
    if i < |a| {
      GroupSet(a, i, Union(a[i].value, e.value), p);
      FirstOfGroup(a, e.key, i);
    } else {
      GroupSnoc(a, e, p);
    }
  }

  lemma GroupOneMore(r: seq<Entry<Specifiers>>, front: seq<Entry<Specifiers>>, e: Entry<Specifiers>, g: seq<Specifiers>,
                     p: string)
    requires Group(r, p) == Joined(g, Group(front, p))
    ensures Group(WithScope(r, e), p) == Joined(g, Group(front + [e], p))
  {
    hide WithScope, WithFirst, Joined, Group;
    GroupWithScope(r, e, p);
    GroupSnoc(front, e, p);
    JoinedSnoc(g, Group(front, p), e.value);
    assert Group(front, p) + [] == Group(front, p);
  }

  lemma JoinedNone(g: seq<Specifiers>)
    ensures Joined(g, []) == g
  {
  }

  lemma {:induction false} GroupWithScopes(a: seq<Entry<Specifiers>>, b: seq<Entry<Specifiers>>, p: string)
    ensures Group(WithScopes(a, b), p) == Joined(Group(a, p), Group(b, p))
  {
    if b == [] {
      JoinedNone(Group(a, p));
      assert Group(b, p) == [];
    } else {
      hide WithScope, Joined, Group;
      var front, last := b[..|b| - 1], b[|b| - 1];
      GroupWithScopes(a, front, p);
      assert front + [last] == b;
      GroupOneMore(WithScopes(a, front), front, last, Group(a, p), p);
    }
  }

  /** What a merge keeps and adds: a left-biased union of the imports, and of the
      scopes of every prefix; every level in order. */
  lemma MergeIsLeftBiased(a: ImportMap, b: ImportMap, k: string, p: string)
    ensures var m := Merge(a, b);
            Group(m.imports, k) == (if Group(a.imports, k) != [] then Group(a.imports, k) else First(Group(b.imports, k))) &&
            Group(m.scopes, p) == Joined(Group(a.scopes, p), Group(b.scopes, p))
  {
    UnionIsLeftBiased(a.imports, b.imports, k);
    GroupSorted(WithScopes(a.scopes, b.scopes), p);
    GroupWithScopes(a.scopes, b.scopes, p);
  }

  lemma WithScopeOrdered(a: seq<Entry<Specifiers>>, e: Entry<Specifiers>)
    requires (forall x :: x in a ==> Ordered(x.value)) && Ordered(e.value)
    ensures forall x :: x in WithScope(a, e) ==> Ordered(x.value)
  {
    var i := Find(a, e.key);
    if i < |a| {
      UnionIsLeftBiased(a[i].value, e.value, "");
    }
  }

  lemma {:induction false} WithScopesOrdered(a: seq<Entry<Specifiers>>, b: seq<Entry<Specifiers>>)
    requires (forall x :: x in a ==> Ordered(x.value)) && forall x :: x in b ==> Ordered(x.value)
    ensures forall x :: x in WithScopes(a, b) ==> Ordered(x.value)
  {
    if b != [] {
      WithScopesOrdered(a, b[..|b| - 1]);
      WithScopeOrdered(WithScopes(a, b[..|b| - 1]), b[|b| - 1]);
    }
  }

  lemma MergeKeepsOrder(a: ImportMap, b: ImportMap)
    requires WellOrdered(a) && WellOrdered(b)
    ensures WellOrdered(Merge(a, b))
  {
    UnionIsLeftBiased(a.imports, b.imports, "");
    WithScopesOrdered(a.scopes, b.scopes);
    SortedIsWellOrdered(Union(a.imports, b.imports), WithScopes(a.scopes, b.scopes));
  }

  // ---- merging three maps ------------------------------------------------------------------------------

  /** Whatever a map says in a second scope of one prefix, its first scope of that
      prefix knows the key. Distinct prefixes are the usual case. */
  ghost predicate FirstScopesSuffice(b: ImportMap) {
    forall p, j, k :: FirstSuffices(Group(b.scopes, p), j, k)
  }

  ghost predicate FirstSuffices(g: seq<Specifiers>, j: int, k: string) {
    0 < j < |g| && Group(g[j], k) != [] ==> Group(g[0], k) != []
  }

  lemma {:induction false} NoNewKeys(g: seq<Specifiers>, n: nat, k: string)
    requires 0 < n <= |g| && Group(g[0], k) == [] && forall j :: FirstSuffices(g, j, k)
    ensures GroupAll(g[..n], k) == []
  {
    if n == 1 {
      assert g[..1] == [g[0]];
    } else {
      NoNewKeys(g, n - 1, k);
      assert g[..n][..n - 1] == g[..n - 1];
      assert FirstSuffices(g, n - 1, k);
    }
  }

  lemma {:induction false} FirstListDecides(l: seq<Specifiers>, k: string)
    requires l != [] && Group(l[0], k) != []
    ensures GroupAll(l, k) == Group(l[0], k)
    decreases |l|
  {
    if |l| > 1 {
      FirstListDecides(l[..|l| - 1], k);
    }
  }

  lemma UnionAllAlone(m: Specifiers, k: string)
    ensures GroupAll([m], k) == Group(m, k) && UnionAll([m]) == m
  {
  }

  /** Joining the third list into the first scope of the second map, or after all
      of them, is the same when the first scope knows every key. */
  lemma MiddleGroups(g: seq<Specifiers>, h: seq<Specifiers>, k: string)
    requires g != [] && forall j :: FirstSuffices(g, j, k)
    ensures GroupAll([UnionAll([g[0]] + h)] + g[1..], k) == GroupAll(g + h, k)
  {
    hide Group, GroupAll, UnionAll, FirstSuffices;
    var one := UnionAll([g[0]] + h);
    UnionAllGroups([g[0]] + h, k);
    assert g == [g[0]] + g[1..];
    GroupAllJoin([one], g[1..], k);
    GroupAllJoin([g[0]], g[1..], k);
    GroupAllJoin([g[0]], h, k);
    GroupAllJoin(g, h, k);
    UnionAllAlone(one, k);
    UnionAllAlone(g[0], k);
    if Group(g[0], k) == [] {
      NoNewKeys(g, |g|, k);
      assert g[..|g|] == g;
    }
  }

  /** Two unions of more than one list are equal when they have equal groups. */
  lemma SameUnions(a: seq<Specifiers>, b: seq<Specifiers>)
    requires |a| > 1 && |b| > 1 && forall k :: GroupAll(a, k) == GroupAll(b, k)
    ensures UnionAll(a) == UnionAll(b)
  {
    forall k
      ensures Group(UnionAll(a), k) == Group(UnionAll(b), k)
    {
      UnionAllGroups(a, k);
      UnionAllGroups(b, k);
    }
    UnionAllGroups(a, "");
    UnionAllGroups(b, "");
    SameGroups(UnionAll(a), UnionAll(b));
  }

  /** The scopes of one prefix, merged either way. */
  lemma JoinedAssociative(f: seq<Specifiers>, g: seq<Specifiers>, h: seq<Specifiers>)
    requires forall j, k :: FirstSuffices(g, j, k)
    ensures Joined(Joined(f, g), h) == Joined(f, Joined(g, h))
  {
    hide UnionAll, GroupAll, Group, Joined;
    if g == [] {
      JoinedNone(f);
      JoinedToNothing(f, h);
    } else if h == [] {
      JoinedNone(Joined(f, g));
      JoinedNone(g);
    } else {
      var one := UnionAll([g[0]] + h);
      var l := (if f == [] then [] else [f[0]]) + g + h;
      var r := (if f == [] then [] else [f[0]]) + ([one] + g[1..]);
      JoinedLeft(f, g, h);
      forall k
        ensures GroupAll(l, k) == GroupAll(r, k)
      {
        SidesAgree(f, g, h, k);
      }
      if |r| > 1 {
        SameUnions(l, r);
      } else {
        assert f == [] && g == [g[0]];
        assert l == [g[0]] + h && r == [one];
        UnionAllAlone(one, "");
      }
    }
  }

  lemma SidesAgree(f: seq<Specifiers>, g: seq<Specifiers>, h: seq<Specifiers>, k: string)
    requires g != [] && h != [] && forall j, k :: FirstSuffices(g, j, k)
    ensures var own := if f == [] then [] else [f[0]];
            GroupAll(own + g + h, k) == GroupAll(own + ([UnionAll([g[0]] + h)] + g[1..]), k)
  {
    var rest := [UnionAll([g[0]] + h)] + g[1..];
    MiddleGroups(g, h, k);
    if f == [] {
      assert [] + g + h == g + h && [] + rest == rest;
    } else {
      assert [f[0]] + g + h == [f[0]] + (g + h);
      GroupAllJoin([f[0]], g + h, k);
      GroupAllJoin([f[0]], rest, k);
    }
  }

  /** Both sides as one union each. */
  lemma JoinedLeft(f: seq<Specifiers>, g: seq<Specifiers>, h: seq<Specifiers>)
    requires g != [] && h != []
    ensures var own, tail := if f == [] then [] else [f[0]], if f == [] then [] else f[1..];
            Joined(Joined(f, g), h) == [UnionAll(own + g + h)] + tail &&
            Joined(f, Joined(g, h)) == [UnionAll(own + ([UnionAll([g[0]] + h)] + g[1..]))] + tail
  {
    hide UnionAll;
    var own := if f == [] then [] else [f[0]];
    var rest := [UnionAll([g[0]] + h)] + g[1..];
    assert Joined(g, h) == rest;
    UnionAllMore(own + g, h);
    if f == [] {
      assert own + g == g && own + rest == rest;
    }
  }

  /** Uniting some lists first and the rest after is uniting them all. */
  lemma {:induction false} UnionAllMore(a: seq<Specifiers>, b: seq<Specifiers>)
    requires a != []
    ensures UnionAll([UnionAll(a)] + b) == UnionAll(a + b)
    decreases |b|
  {
    hide UnionAll, Union;
    if b == [] {
      UnionAllAlone(UnionAll(a), "");
      assert [UnionAll(a)] + b == [UnionAll(a)] && a + b == a;
    } else {
      var front, last := b[..|b| - 1], b[|b| - 1];
      UnionAllMore(a, front);
      UnionAllSnoc([UnionAll(a)] + front, last);
      UnionAllSnoc(a + front, last);
      assert [UnionAll(a)] + front + [last] == [UnionAll(a)] + b && a + front + [last] == a + b;
    }
  }

  lemma JoinedToNothing(f: seq<Specifiers>, h: seq<Specifiers>)
    ensures Joined(f, h) == Joined(f, Joined([], h))
  {
    if h != [] {
      var all := UnionAll(h);
      if f == [] {
        UnionAllAlone(all, "");
      } else {
        assert Joined([], h) == [all];
        UnionOfAll(f[0], h);
        assert [f[0]] + [all] == [f[0], all] && [f[0], all][..1] == [f[0]];
        UnionAllAlone(f[0], "");
      }
    }
  }

  lemma {:induction false} UnionOfAll(x: Specifiers, h: seq<Specifiers>)
    requires h != []
    ensures UnionAll([x] + h) == Union(x, UnionAll(h))
    decreases |h|
  {
    hide Union;
    if |h| == 1 {
      UnionAllSnoc([x], h[0]);
      UnionAllAlone(x, "");
      assert h == [h[0]];
    } else {
      var front, last := h[..|h| - 1], h[|h| - 1];
      UnionOfAll(x, front);
      UnionAllSnoc([x] + front, last);
      assert [x] + front + [last] == [x] + h;
      UnionAssociative(x, UnionAll(front), last);
    }
  }

  /** Merging three maps from the left or from the right is the same, provided the
      middle one says nothing new in a second scope of one prefix. */
  lemma MergeAssociative(a: ImportMap, b: ImportMap, c: ImportMap)
    requires FirstScopesSuffice(b)
    ensures Merge(Merge(a, b), c) == Merge(a, Merge(b, c))
  {
    UnionAssociative(a.imports, b.imports, c.imports);
    var x, y := Merge(Merge(a, b), c).scopes, Merge(a, Merge(b, c)).scopes;
    forall p
      ensures Group(x, p) == Group(y, p)
    {
      ThreeGroups(a, b, c, p);
      forall j, k
        ensures FirstSuffices(Group(b.scopes, p), j, k)
      {
      }
      JoinedAssociative(Group(a.scopes, p), Group(b.scopes, p), Group(c.scopes, p));
    }
    SortedOrdered(WithScopes(Merge(a, b).scopes, c.scopes));
    SortedOrdered(WithScopes(a.scopes, Merge(b, c).scopes));
    SameGroups(x, y);
  }

  lemma ThreeGroups(a: ImportMap, b: ImportMap, c: ImportMap, p: string)
    ensures var f, g, h := Group(a.scopes, p), Group(b.scopes, p), Group(c.scopes, p);
            Group(Merge(Merge(a, b), c).scopes, p) == Joined(Joined(f, g), h) &&
            Group(Merge(a, Merge(b, c)).scopes, p) == Joined(f, Joined(g, h))
  {
    hide Merge, Joined, Group;
    MergeIsLeftBiased(a, b, "", p);
    MergeIsLeftBiased(Merge(a, b), c, "", p);
    MergeIsLeftBiased(b, c, "", p);
    MergeIsLeftBiased(a, Merge(b, c), "", p);
  }

  /** The map whose only scope gives one key an address. */
  function OneScope(p: string, k: string, addr: Option<string>): ImportMap {
    ImportMap([], [Entry(p, [Entry(k, addr)])])
  }

  /** The condition is exact: a middle map with something new in a second scope of
      one prefix is merged differently for some third map. */
  lemma MergeAssociativeExactly(b: ImportMap)
    ensures FirstScopesSuffice(b) <==> forall a, c :: Merge(Merge(a, b), c) == Merge(a, Merge(b, c))
  {
    if FirstScopesSuffice(b) {
      forall a, c
        ensures Merge(Merge(a, b), c) == Merge(a, Merge(b, c))
      {
        MergeAssociative(a, b, c);
      }
    } else {
      var p, j, k :| !FirstSuffices(Group(b.scopes, p), j, k);
      var a, g := ImportMap([], []), Group(b.scopes, p);
      NewKeyFound(g, j, k);
      var other := if GroupAll(g, k)[0] == None then Some("") else None;
      BreakingGroups(b, p, j, k, other);
      var c := OneScope(p, k, other);
      assert Merge(Merge(a, b), c) != Merge(a, Merge(b, c));
    }
  }

  lemma OneScopeGroup(p: string, k: string, addr: Option<string>)
    ensures Group(OneScope(p, k, addr).scopes, p) == [[Entry(k, addr)]]
  {
    GroupOne(Entry(p, [Entry(k, addr)]), p);
  }

  /** A third map that tells the two ways apart: one that gives the new key another
      address. Merged from the left the key keeps its address, from the right it
      gets the other one. */
  lemma BreakingGroups(b: ImportMap, p: string, j: int, k: string, other: Option<string>)
    requires !FirstSuffices(Group(b.scopes, p), j, k)
    ensures var a, c, first := ImportMap([], []), OneScope(p, k, other), GroupAll(Group(b.scopes, p), k);
            var l, r := Group(Merge(Merge(a, b), c).scopes, p), Group(Merge(a, Merge(b, c)).scopes, p);
            first != [] && l != [] && Group(l[0], k) != [] && Group(l[0], k)[0] == first[0] &&
            r != [] && Group(r[0], k) != [] && Group(r[0], k)[0] == other
  {
    hide Merge, Joined, UnionAll, GroupAll;
    var g := Group(b.scopes, p);
    NewKeyFound(g, j, k);
    OneScopeGroup(p, k, other);
    var h := [[Entry(k, other)]];
    ThreeGroups(ImportMap([], []), b, OneScope(p, k, other), p);
    JoinedLeft([], g, h);
    LeftHasFirst(g, h, k);
    RightHasOther(g, k, other);
  }

  lemma {:induction false} NewKeyFound(g: seq<Specifiers>, j: int, k: string)
    requires 0 < j < |g| && Group(g[j], k) != []
    ensures GroupAll(g, k) != []
    decreases |g|
  {
    if j < |g| - 1 {
      NewKeyFound(g[..|g| - 1], j, k);
    }
  }

  lemma LeftHasFirst(g: seq<Specifiers>, h: seq<Specifiers>, k: string)
    requires g != [] && GroupAll(g, k) != []
    ensures Group(UnionAll([] + g + h), k) == GroupAll(g, k)
  {
    assert [] + g + h == g + h;
    UnionAllGroups(g + h, k);
    GroupAllJoin(g, h, k);
  }

  lemma RightHasOther(g: seq<Specifiers>, k: string, other: Option<string>)
    requires g != [] && Group(g[0], k) == []
    ensures var h := [[Entry(k, other)]];
            Group(UnionAll([] + ([UnionAll([g[0]] + h)] + g[1..])), k) == [other]
  {
    var h := [[Entry(k, other)]];
    var one := UnionAll([g[0]] + h);
    GroupOne(Entry(k, other), k);
    UnionAllGroups([g[0]] + h, k);
    GroupAllJoin([g[0]], h, k);
    UnionAllAlone(g[0], k);
    UnionAllAlone(h[0], k);
    assert [] + ([one] + g[1..]) == [one] + g[1..];
    UnionAllGroups([one] + g[1..], k);
    GroupAllJoin([one], g[1..], k);
    UnionAllAlone(one, k);
  }

  /** So resolving does not depend on how the maps of a page were grouped. */
  lemma ResolveIgnoresGrouping(u: Urls, a: ImportMap, b: ImportMap, c: ImportMap, base: string, spec: string)
    requires FirstScopesSuffice(b)
    ensures Resolve(u, Some(Merge(Merge(a, b), c)), base, spec) == Resolve(u, Some(Merge(a, Merge(b, c))), base, spec)
  {
    MergeAssociative(a, b, c);
  }

  lemma OwnScopeKnows(u: Urls, m: ImportMap, p: string, k: string, asUrl: Option<string>) returns (f: nat)
    requires Group(m.scopes, p) != [] && Group(Group(m.scopes, p)[0], k) != []
    ensures f < |m.scopes| && m.scopes[f].key == p && Group(m.scopes, p)[0] == m.scopes[f].value
    ensures (forall j :: 0 <= j < f ==> m.scopes[j].key != p) && Knows(u, m.scopes[f], p, k, asUrl)
  {
    GroupKey(m.scopes, p);
    f := Find(m.scopes, p);
    FirstOfGroup(m.scopes, p, f);
    hide Group;
    GroupKey(m.scopes[f].value, k);
    var x :| 0 <= x < |m.scopes[f].value| && m.scopes[f].value[x].key == k;
    assert m.scopes[f].value[x] in m.scopes[f].value;
  }

  /** The base's own scope decides a key it has. */
  lemma OwnScopeDecides(u: Urls, m: ImportMap, p: string, k: string, asUrl: Option<string>)
    requires WellOrdered(m) && Group(m.scopes, p) != [] && Group(Group(m.scopes, p)[0], k) != []
    ensures ResolveIn(u, m, p, k, asUrl) == Group(Group(m.scopes, p)[0], k)[0]
  {
    hide Group, ResolveIn, Match;
    var f := OwnScopeKnows(u, m, p, k, asUrl);
    assert m.scopes[f] in m.scopes;
    var i := LongestScopeWins(u, m, p, k, asUrl);
    assert m.scopes[i].key == p[..|m.scopes[i].key|];
    ExactKeyWins(u, k, asUrl, m.scopes[f].value);
  }

  lemma EmptyIsOrdered()
    ensures WellOrdered(ImportMap([], []))
  {
  }

  lemma OneScopeOrdered(p: string, k: string, addr: Option<string>)
    ensures WellOrdered(OneScope(p, k, addr))
  {
  }

  lemma ResolveOwn(u: Urls, m: ImportMap, p: string, k: string)
    requires u.parse(p) == Some(p) && Normalized(k, UrlLike(u, k, p)) == k
    ensures Resolve(u, Some(m), p, k) == ResolveIn(u, m, p, k, UrlLike(u, k, p))
  {
    hide ResolveIn;
  }

  /** The difference shows. Take a map with something new in a second scope of a
      prefix, and any third map that gives the same key in that prefix another
      address. Imported from that prefix the key resolves to what the middle map
      says when merged from the left, to what the third says when merged from the
      right. The prefix is the text of a URL and the key normalized, as parsing
      makes them. */
  lemma ResolveNotices(u: Urls, b: ImportMap, p: string, j: int, k: string, other: Option<string>)
    requires WellOrdered(b) && !FirstSuffices(Group(b.scopes, p), j, k)
    requires u.parse(p) == Some(p) && Normalized(k, UrlLike(u, k, p)) == k
    ensures var a, c, first := ImportMap([], []), OneScope(p, k, other), GroupAll(Group(b.scopes, p), k);
            first != [] && Resolve(u, Some(Merge(Merge(a, b), c)), p, k) == first[0] &&
            Resolve(u, Some(Merge(a, Merge(b, c))), p, k) == other
  {
    hide Merge, ResolveIn, Group, GroupAll, WellOrdered, Resolve, UrlLike, OneScope;
    var a, c := ImportMap([], []), OneScope(p, k, other);
    BreakingGroups(b, p, j, k, other);
    EmptyIsOrdered();
    OneScopeOrdered(p, k, other);
    MergeKeepsOrder(a, b);
    MergeKeepsOrder(Merge(a, b), c);
    MergeKeepsOrder(b, c);
    MergeKeepsOrder(a, Merge(b, c));
    var l, r := Merge(Merge(a, b), c), Merge(a, Merge(b, c));
    ResolveOwn(u, l, p, k);
    ResolveOwn(u, r, p, k);
    OwnScopeDecides(u, l, p, k, UrlLike(u, k, p));
    OwnScopeDecides(u, r, p, k, UrlLike(u, k, p));
  }

  // ---- and it can be written --------------------------------------------------------------------------

  lemma OneMember(u: Urls, base: string, k: string, v: Option<string>)
    requires k != "" && Normalized(k, UrlLike(u, k, base)) == k
    requires v.Some? && EndsSlash(k) ==> UrlLike(u, v.value, base).Some? ==> EndsSlash(UrlLike(u, v.value, base).value)
    ensures Sorted(Members(u, base, [(k, v)])) == [Entry(k, if v.Some? then UrlLike(u, v.value, base) else None)]
  {
    hide UrlLike, Normalized;
    assert [(k, v)][..0] == [];
    assert Members(u, base, [(k, v)]) == [] + Member(u, base, k, v);
    SortedOne(Member(u, base, k, v)[0]);
  }

  lemma SortedOne<T>(e: Entry<T>)
    ensures Sorted([e]) == [e]
  {
    assert [e][..0] == [];
  }

  lemma OneParsedScope(u: Urls, base: string, s: string, members: Object, p: string)
    requires u.join(base, s) == Some(p)
    ensures Scopes(u, base, [(s, Some(members))]) == [Entry(p, Sorted(Members(u, base, members)))]
  {
    hide Members, Sorted;
    assert [(s, Some(members))][..0] == [];
  }

  lemma TwoParsedScopes(u: Urls, base: string, s: string, t: string, first: Object, second: Object, p: string)
    requires u.join(base, s) == Some(p) && u.join(base, t) == Some(p)
    ensures Scopes(u, base, [(s, Some(first)), (t, Some(second))]) ==
            [Entry(p, Sorted(Members(u, base, first))), Entry(p, Sorted(Members(u, base, second)))]
  {
    hide Members, Sorted;
    OneParsedScope(u, base, s, first, p);
    assert [(s, Some(first)), (t, Some(second))][..1] == [(s, Some(first))];
  }

  lemma GroupOfTwo<T>(p: string, x: T, y: T)
    ensures Group(Sorted([Entry(p, x), Entry(p, y)]), p) == [x, y]
  {
    var v := [Entry(p, x), Entry(p, y)];
    GroupSorted(v, p);
    GroupOne(v[1], p);
    assert v[1..] == [v[1]];
  }

  /** Two scope keys that join to one prefix, an empty first one and a second one
      with a key: parsing gives a map that fails the condition. With a third
      document that maps the key to an error, what the page's import resolves to
      depends on how the three were grouped. */
  lemma ParsedMapsDiffer(u: Urls, base: string, s: string, t: string, p: string, k: string, v: string)
    requires u.join(base, s) == Some(p) && u.join(base, t) == Some(p) && u.parse(p) == Some(p)
    requires k != "" && Normalized(k, UrlLike(u, k, base)) == k && Normalized(k, UrlLike(u, k, p)) == k
    requires UrlLike(u, v, base).Some? && (EndsSlash(k) ==> EndsSlash(UrlLike(u, v, base).value))
    ensures var a := Parsed(u, base, Top(None, None));
            var b := Parsed(u, base, Top(None, Some([(s, Some([])), (t, Some([(k, Some(v))]))])));
            var c := Parsed(u, base, Top(None, Some([(s, Some([(k, None)]))])));
            !FirstScopesSuffice(b) && Resolve(u, Some(Merge(Merge(a, b), c)), p, k) == UrlLike(u, v, base) &&
            Resolve(u, Some(Merge(a, Merge(b, c))), p, k) == None
  {
    hide Merge, Resolve, UrlLike, Normalized, Members, Scopes, Group, Sorted, GroupAll, UnionAll;
    var x := [Entry(k, UrlLike(u, v, base))];
    OneMember(u, base, k, Some(v));
    OneMember(u, base, k, None);
    NoMembers(u, base);
    TwoParsedScopes(u, base, s, t, [], [(k, Some(v))], p);
    OneParsedScope(u, base, s, [(k, None)], p);
    SortedOne(OneScope(p, k, None).scopes[0]);
    GroupOfTwo(p, [], x);
    var doc := Top(None, Some([(s, Some([])), (t, Some([(k, Some(v))]))]));
    var b := Parsed(u, base, doc);
    ParsedOrdered(u, base, doc);
    GroupOne(x[0], k);
    TwoLists([], x, k);
    assert !FirstSuffices(Group(b.scopes, p), 1, k);
    ResolveNotices(u, b, p, 1, k, None);
  }

  lemma TwoLists(x: Specifiers, y: Specifiers, k: string)
    requires x == []
    ensures Group(x, k) == [] && GroupAll([x, y], k) == First(Group(y, k))
  {
    GroupAllJoin([x], [y], k);
    UnionAllAlone(x, k);
    UnionAllAlone(y, k);
    assert [x, y] == [x] + [y];
  }

  lemma NoMembers(u: Urls, base: string)
    ensures Sorted(Members(u, base, [])) == [] && Sorted(Scopes(u, base, [])) == []
  {
  }

  lemma ParsedOrdered(u: Urls, base: string, doc: Document)
    requires doc.Top?
    ensures WellOrdered(Parsed(u, base, doc))
  {
    hide Sorted, Members;
    var imports, scopes := Members(u, base, Default(doc.imports)), Scopes(u, base, Default(doc.scopes));
    SortedOrdered(imports);
    ScopesOrdered(u, base, Default(doc.scopes));
    SortedIsWellOrdered(Sorted(imports), scopes);
  }

  lemma {:induction false} ScopesOrdered(u: Urls, base: string, object_: seq<(string, Option<Object>)>)
    ensures forall e :: e in Scopes(u, base, object_) ==> Ordered(e.value)
  {
    hide Sorted, Members;
    if object_ != [] {
      var (prefix, members) := object_[|object_| - 1];
      ScopesOrdered(u, base, object_[..|object_| - 1]);
      if members.Some? {
        SortedOrdered(Members(u, base, members.value));
      }
    }
  }
}
