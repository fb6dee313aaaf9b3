/** Import maps in the words of the HTML Standard: which keys apply to a specifier,
    what an entry resolves it to, and which entries a JSON object makes. */
module ImportLaws {
  import opened Options
  import opened KeyedLists
  import opened ImportMaps

  // ---- one level ------------------------------------------------------------------------------

  /** The key is the specifier, or ends in a slash and begins it; prefixes are for bare
      specifiers and for URLs of special schemes. */
  ghost predicate Fits(u: Urls, key: string, spec: string, asUrl: Option<string>) {
    key == spec ||
    (exists front, rest :: key == front + "/" && spec == key + rest && (asUrl.Some? ==> u.special(asUrl.value)))
  }

  lemma FitsIsApplies(u: Urls, key: string, spec: string, asUrl: Option<string>)
    ensures Applies(u, key, spec, asUrl) <==> Fits(u, key, spec, asUrl)
  {
    if Applies(u, key, spec, asUrl) && key != spec {
      assert key == key[..|key| - 1] + "/" && spec == key + spec[|key|..];
    }
    if front, rest :| key == front + "/" && spec == key + rest && (asUrl.Some? ==> u.special(asUrl.value)) {
      assert key[|key| - 1] == '/' && spec[..|key|] == key;
    }
  }

  /** An entry for the specifier itself gives its address; a prefix gives what the rest
      joined to its address is, as long as that stays under the address. */
  lemma AnswerExactly(u: Urls, e: Entry<Option<string>>, spec: string, r: string)
    requires e.key <= spec
    ensures Answer(u, e, spec) == Some(r) <==>
            e.value.Some? &&
            if e.key == spec then r == e.value.value
            else u.join(e.value.value, spec[|e.key|..]) == Some(r) && e.value.value <= r
  {
  }

  /** A level answers by the longest key that fits, of equal ones by the first, and
      does not answer exactly when none fits. */
  lemma LongestFitWins(u: Urls, spec: string, asUrl: Option<string>, map_: Specifiers) returns (i: nat)
    requires Ordered(map_)
    ensures Match(u, spec, asUrl, map_).None? <==> forall e :: e in map_ ==> !Fits(u, e.key, spec, asUrl)
    ensures Match(u, spec, asUrl, map_).Some? ==>
              i < |map_| && Fits(u, map_[i].key, spec, asUrl) && map_[i].key <= spec &&
              Match(u, spec, asUrl, map_) == Some(Answer(u, map_[i], spec)) &&
              forall j :: 0 <= j < |map_| && Fits(u, map_[j].key, spec, asUrl) ==>
                |map_[j].key| <= |map_[i].key| && (map_[j].key == map_[i].key ==> i <= j)
  {
    hide Applies, Fits, Match, Answer;
    i := LongestKeyWins(u, spec, asUrl, map_);
    forall key
      ensures Applies(u, key, spec, asUrl) <==> Fits(u, key, spec, asUrl)
    {
      FitsIsApplies(u, key, spec, asUrl);
    }
  }

  /** A scope is for the page that imports when it is its URL, or a prefix of it that
      ends in a slash. */
  lemma ScopeExactly(prefix: string, base: string)
    ensures ScopeApplies(prefix, base) <==>
            prefix == base || exists front, rest :: prefix == front + "/" && base == prefix + rest
  {
    if ScopeApplies(prefix, base) && prefix != base {
      assert prefix == prefix[..|prefix| - 1] + "/" && base == prefix + base[|prefix|..];
    }
    if front, rest :| prefix == front + "/" && base == prefix + rest {
      assert prefix[|prefix| - 1] == '/' && base[..|prefix|] == prefix;
    }
  }

  // ---- URLs ------------------------------------------------------------------------------------

  /** Specifiers that start like a path are joined to the base, and only those. */
  lemma PathsAreJoined(u: Urls, spec: string, base: string, rest: string)
    ensures spec == "/" + rest || spec == "./" + rest || spec == "../" + rest ==> UrlLike(u, spec, base) == u.join(base, spec)
    ensures spec == "" || (spec[0] != '/' && spec[0] != '.') ==> UrlLike(u, spec, base) == u.parse(spec)
    ensures spec != "" && spec[0] == '.' && !("./" <= spec) && !("../" <= spec) ==> UrlLike(u, spec, base) == u.parse(spec)
  {
    assert "/"[0] == '/' && "./"[0] == '.' && "../"[0] == '.';
    assert ("./" + rest)[..2] == "./" && ("../" + rest)[..3] == "../" && ("/" + rest)[..1] == "/";
  }

  /** Without a map an import loads its URL; with one, a specifier nothing in the map
      fits does too. */
  lemma UnmappedIsUrl(u: Urls, m: ImportMap, base: string, b: string, spec: string)
    requires u.parse(base) == Some(b) && WellOrdered(m)
    requires var asUrl := UrlLike(u, spec, b); var n := if asUrl.Some? then asUrl.value else spec;
             (forall e :: e in m.imports ==> !Fits(u, e.key, n, asUrl)) &&
             forall s, e :: s in m.scopes && e in s.value ==> !Fits(u, e.key, n, asUrl)
    ensures Resolve(u, None, base, spec) == UrlLike(u, spec, b)
    ensures Resolve(u, Some(m), base, spec) == UrlLike(u, spec, b)
  {
    hide Applies, Fits, UrlLike, Ordered;
    var asUrl := UrlLike(u, spec, b);
    var n := Normalized(spec, asUrl);
    forall key
      ensures Applies(u, key, n, asUrl) <==> Fits(u, key, n, asUrl)
    {
      FitsIsApplies(u, key, n, asUrl);
    }
    var i := LongestScopeWins(u, m, b, n, asUrl);
    var j := LongestKeyWins(u, n, asUrl, m.imports);
  }

  // ---- entries from JSON --------------------------------------------------------------------------

  /** The address of a value: the URL it stands for, unless the key is a prefix and the
      URL is none. */
  ghost predicate AddressIs(u: Urls, base: string, key: string, value: Option<string>, addr: Option<string>) {
    if value.Some? && UrlLike(u, value.value, base).Some? && (EndsSlash(key) ==> EndsSlash(UrlLike(u, value.value, base).value))
    then addr == UrlLike(u, value.value, base) else addr == None
  }

  /** The entries of an object: one for every member but those with an empty key, under
      the key's URL when it is one. */
  lemma {:induction false} MembersExactly(u: Urls, base: string, object_: Object, e: Entry<Option<string>>)
    ensures e in Members(u, base, object_) <==> exists x :: x in object_ && MakesEntry(u, base, x, e)
  {
    hide UrlLike, AddressIs, Member;
    if object_ != [] {
      var front, last := object_[..|object_| - 1], object_[|object_| - 1];
      MembersExactly(u, base, front, e);
      MemberExactly(u, base, last, e);
      assert object_ == front + [last];
      assert forall x :: x in object_ <==> x in front || x == last;
    }
  }

  ghost predicate MakesEntry(u: Urls, base: string, x: (string, Option<string>), e: Entry<Option<string>>) {
    x.0 != "" && e.key == (if UrlLike(u, x.0, base).Some? then UrlLike(u, x.0, base).value else x.0) &&
    AddressIs(u, base, e.key, x.1, e.value)
  }

  lemma MemberExactly(u: Urls, base: string, x: (string, Option<string>), e: Entry<Option<string>>)
    ensures e in Member(u, base, x.0, x.1) <==> MakesEntry(u, base, x, e)
  {
    hide UrlLike, EndsSlash;
    var made := Member(u, base, x.0, x.1);
    if x.0 != "" {
      assert made == [made[0]];
      assert e in made <==> e == made[0];
      assert e == made[0] <==> e.key == made[0].key && e.value == made[0].value;
    } else {
      assert made == [];
    }
  }

  ghost predicate MakesScope(u: Urls, base: string, x: (string, Option<Object>), e: Entry<Specifiers>) {
    u.join(base, x.0) == Some(e.key) && x.1.Some? && e.value == Sorted(Members(u, base, x.1.value))
  }

  lemma ScopeMade(u: Urls, base: string, x: (string, Option<Object>), e: Entry<Specifiers>)
    ensures e in Scopes(u, base, [x]) <==> MakesScope(u, base, x, e)
    ensures forall front :: Scopes(u, base, front + [x]) == Scopes(u, base, front) + Scopes(u, base, [x])
  {
    hide Members, Sorted;
    var p := u.join(base, x.0);
    assert [x][..0] == [] && Scopes(u, base, []) == [];
    if p.Some? && x.1.Some? {
      var made := Entry(p.value, Sorted(Members(u, base, x.1.value)));
      assert Scopes(u, base, [x]) == [made];
      assert e == made <==> e.key == made.key && e.value == made.value;
    }
    forall front
      ensures Scopes(u, base, front + [x]) == Scopes(u, base, front) + Scopes(u, base, [x])
    {
      assert (front + [x])[..|front|] == front && (front + [x])[|front|] == x;
    }
  }

  /** The scopes of an object: one for every member whose key joins to the base and
      whose value is an object. */
  lemma {:induction false} ScopesExactly(u: Urls, base: string, object_: seq<(string, Option<Object>)>, e: Entry<Specifiers>)
    ensures e in Scopes(u, base, object_) <==> exists x :: x in object_ && MakesScope(u, base, x, e)
  {
    hide Members, Sorted;
    if object_ != [] {
      var front, last := object_[..|object_| - 1], object_[|object_| - 1];
      ScopesExactly(u, base, front, e);
      ScopeMade(u, base, last, e);
      assert object_ == front + [last];
      assert forall x :: x in object_ <==> x in front || x == last;
    }
  }
}
