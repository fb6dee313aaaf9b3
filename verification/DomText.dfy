/** The JSON texts of trees, piece by piece as the serializer writes them. */
module DomText {
  import opened Json
  import opened DomTree

  // ---- strings ----------------------------------------------------------------------------

  lemma EscapedStep(c: char, more: string)
    ensures EscapedAll([c] + more) == Escaped(c) + EscapedAll(more)
  {
    assert ([c] + more)[1..] == more;
  }

  lemma EscapedJoinStep(c: char, a: string, b: string)
    requires EscapedAll(a + b) == EscapedAll(a) + EscapedAll(b)
    ensures EscapedAll([c] + a + b) == EscapedAll([c] + a) + EscapedAll(b)
  {
    hide EscapedAll, Escaped;
    EscapedStep(c, a);
    EscapedStep(c, a + b);
    assert [c] + a + b == [c] + (a + b);
  }

  lemma {:induction false} EscapedJoin(a: string, b: string)
    ensures EscapedAll(a + b) == EscapedAll(a) + EscapedAll(b)
  {
    if a == "" {
      assert a + b == b;
    } else {
      EscapedJoin(a[1..], b);
      EscapedJoinStep(a[0], a[1..], b);
      assert [a[0]] + a[1..] == a;
    }
  }

  lemma {:induction false} PlainRun(s: string)
    requires forall c :: c in s ==> Escaped(c) == [c]
    ensures EscapedAll(s) == s
  {
    if s != "" {
      PlainRun(s[1..]);
      assert [s[0]] + s[1..] == s;
    }
  }

  lemma NothingEscaped(s: string)
    ensures EscapedAll(s[..0]) == ""
  {
  }

  lemma RunAndEscape(s: string, from: nat, i: nat)
    requires from <= i < |s| && forall k :: from <= k < i ==> Escaped(s[k]) == [s[k]]
    ensures EscapedAll(s[..i + 1]) == EscapedAll(s[..from]) + s[from..i] + Escaped(s[i])
  {
    hide EscapedAll, Escaped;
    assert forall c :: c in s[from..i] ==> Escaped(c) == [c];
    assert s[..i + 1] == s[..from] + s[from..i] + [s[i]];
    EscapedJoin(s[..from] + s[from..i], [s[i]]);
    EscapedJoin(s[..from], s[from..i]);
    PlainRun(s[from..i]);
    EscapedOne(s[i]);
  }

  lemma EscapedOne(c: char)
    ensures EscapedAll([c]) == Escaped(c)
  {
    assert [c][1..] == "";
  }

  lemma LastRun(s: string, from: nat)
    requires from <= |s| && forall k :: from <= k < |s| ==> Escaped(s[k]) == [s[k]]
    ensures EscapedAll(s) == EscapedAll(s[..from]) + s[from..]
  {
    hide EscapedAll, Escaped;
    assert forall c :: c in s[from..] ==> Escaped(c) == [c];
    assert s == s[..from] + s[from..];
    EscapedJoin(s[..from], s[from..]);
    PlainRun(s[from..]);
  }

  // ---- texts in pieces ----------------------------------------------------------------------

  lemma {:induction false} ItemsSnoc(vs: seq<Value>, v: Value)
    ensures ItemsText(vs + [v]) == if vs == [] then Text(v) else ItemsText(vs) + "," + Text(v)
  {
    hide Text;
    if vs == [] {
      assert vs + [v] == [v];
    } else if |vs| == 1 {
      assert (vs + [v])[1..] == [v];
    } else {
      ItemsSnoc(vs[1..], v);
      assert (vs + [v])[1..] == vs[1..] + [v];
    }
  }

  lemma {:induction false} KeptSnoc(nodes: seq<Node>, n: Node)
    ensures KeptAll(nodes + [n]) == KeptAll(nodes) + match Kept(n) case None => [] case Some(t) => [t]
  {
    if nodes == [] {
      assert [n][1..] == [] && nodes + [n] == [n];
    } else {
      KeptSnoc(nodes[1..], n);
      assert (nodes + [n])[1..] == nodes[1..] + [n];
    }
  }

  lemma {:induction false} ValuesSnoc(ts: seq<Tree>, t: Tree)
    ensures TreeValues(ts + [t]) == TreeValues(ts) + [TreeValue(t)]
  {
    if ts == [] {
      assert [t][1..] == [] && ts + [t] == [t];
    } else {
      ValuesSnoc(ts[1..], t);
      assert (ts + [t])[1..] == ts[1..] + [t];
    }
  }

  /** The comma-separated texts of what a run of nodes keeps. */
  function NodesText(nodes: seq<Node>): string {
    ItemsText(TreeValues(KeptAll(nodes)))
  }

  function NodeText(n: Node): string {
    match Kept(n)
    case None => ""
    case Some(t) => Text(TreeValue(t))
  }

  lemma OneMoreNode(nodes: seq<Node>, n: Node)
    ensures Kept(n).None? ==> NodesText(nodes + [n]) == NodesText(nodes) && KeptAll(nodes + [n]) == KeptAll(nodes)
    ensures Kept(n).Some? ==>
              KeptAll(nodes + [n]) != [] &&
              NodesText(nodes + [n]) == NodesText(nodes) + ((if KeptAll(nodes) == [] then "" else ",") + NodeText(n))
  {
    KeptSnoc(nodes, n);
    if Kept(n).Some? {
      ValuesSnoc(KeptAll(nodes), Kept(n).value);
      ItemsSnoc(TreeValues(KeptAll(nodes)), TreeValue(Kept(n).value));
    } else {
      assert KeptAll(nodes) + [] == KeptAll(nodes);
    }
  }

  lemma KeptIsWritten(nodes: seq<Node>)
    ensures NodesText(nodes) == "" <==> KeptAll(nodes) == []
  {
    var vs := TreeValues(KeptAll(nodes));
    if vs != [] {
      assert Text(vs[0]) != "";
    }
  }

  lemma FieldsCons(f: Field, more: seq<Field>)
    requires more != []
    ensures FieldsText([f] + more) == FieldText(f) + "," + FieldsText(more)
  {
    assert ([f] + more)[1..] == more;
  }

  /** A name that needs no escaping. */
  predicate Plain(name: string) {
    forall c :: c in name ==> 'a' <= c <= 'z' || 'A' <= c <= 'Z'
  }

  lemma PlainField(name: string, v: Value)
    requires Plain(name)
    ensures FieldText(Field(name, v)) == "\"" + name + "\":" + Text(v)
  {
    hide Text;
    PlainRun(name);
  }

  lemma PlainStr(s: string)
    requires Plain(s)
    ensures Text(Str(s)) == "\"" + s + "\""
  {
    PlainRun(s);
  }

  /** The names and kinds the writer has in its literals. */
  lemma PlainNames()
    ensures Plain("k") && Plain("v") && Plain("t") && Plain("tag") && Plain("ns") && Plain("attrs") && Plain("children")
    ensures Plain("name") && Plain("publicId") && Plain("systemId")
    ensures Plain("e") && Plain("c") && Plain("p") && Plain("d")
  {
  }

  // ---- nodes ----------------------------------------------------------------------------------

  function OpenElement(): string { "{\"k\":\"e\",\"tag\":" }
  function OpenNs(): string { ",\"ns\":" }
  function OpenAttrs(): string { ",\"attrs\":[" }
  function OpenChildren(): string { "],\"children\":[" }
  function CloseElement(): string { "]}" }

  function TagName(): string { "\"tag\":" }
  function NsName(): string { "\"ns\":" }
  function AttrsName(): string { "\"attrs\":[" }
  function ChildrenName(): string { "\"children\":[" }

  /** The literals against the fields they are parts of. */
  lemma Literals()
    ensures OpenElement() == "{" + KindField() + "," + TagName() && OpenNs() == "," + NsName()
    ensures OpenAttrs() == "," + AttrsName() && OpenChildren() == "]" + "," + ChildrenName()
    ensures CloseElement() == "]" + "}"
  {
  }

  function KindField(): string { "\"k\":\"e\"" }

  lemma KindText()
    ensures FieldText(Field("k", Str("e"))) == KindField()
  {
    PlainNames();
    PlainStr("e");
    PlainField("k", Str("e"));
  }

  lemma StrFieldTexts(tag: string, ns: string)
    ensures FieldText(Field("tag", Str(tag))) == TagName() + Quoted(tag)
    ensures FieldText(Field("ns", Str(ns))) == NsName() + Quoted(ns)
  {
    hide Quoted;
    PlainNames();
    PlainField("tag", Str(tag));
    PlainField("ns", Str(ns));
  }

  lemma ArrText(items: seq<Value>)
    ensures Text(Arr(items)) == "[" + (ItemsText(items) + "]")
  {
    hide ItemsText;
  }

  lemma ArrFieldTexts(attrs: seq<Value>, children: seq<Value>)
    ensures FieldText(Field("attrs", Arr(attrs))) == AttrsName() + (ItemsText(attrs) + "]")
    ensures FieldText(Field("children", Arr(children))) == ChildrenName() + (ItemsText(children) + "]")
  {
    hide ItemsText, Text, FieldText;
    PlainNames();
    PlainField("attrs", Arr(attrs));
    PlainField("children", Arr(children));
    ArrText(attrs);
    ArrText(children);
    assert AttrsName() == "\"" + "attrs" + "\":" + "[" && ChildrenName() == "\"" + "children" + "\":" + "[";
  }

  lemma Nest(k: string, c: string, t: string, n: string, r: string)
    ensures k + c + (t + c + (n + c + r)) == k + c + (t + (c + n) + c + r)
    ensures k + c + (t + c + r) == k + c + (t + "" + c + r)
  {
  }

  lemma TailText(attrs: Field, children: Field)
    ensures FieldsText([attrs, children]) == FieldText(attrs) + "," + FieldText(children)
  {
    hide FieldText;
    FieldsCons(attrs, [children]);
    assert [attrs] + [children] == [attrs, children];
  }

  /** The fields of an element, comma by comma. */
  lemma ElementFieldsText(k: Field, tag: Field, ns: string, attrs: Field, children: Field)
    ensures FieldsText([k, tag] + NsFields(ns) + [attrs, children]) ==
            FieldText(k) + "," + (FieldText(tag) + (if ns == "" then "" else "," + FieldText(Field("ns", Str(ns)))) + "," +
            (FieldText(attrs) + "," + FieldText(children)))
  {
    hide FieldText, FieldsText;
    var tail, n := [attrs, children], NsFields(ns);
    assert [k, tag] + n + tail == [k] + ([tag] + (n + tail));
    FieldsCons(k, [tag] + (n + tail));
    FieldsCons(tag, n + tail);
    TailText(attrs, children);
    Nest(FieldText(k), ",", FieldText(tag), FieldText(Field("ns", Str(ns))), FieldsText(tail));
    if ns == "" {
      assert n + tail == tail;
    } else {
      FieldsCons(Field("ns", Str(ns)), tail);
    }
  }

  lemma Assemble(o: string, k: string, c: string, t: string, q: string, n: string, a: string, at: string, e: string,
                 h: string, ct: string, z: string)
    ensures o + (k + c + ((t + q) + n + c + ((a + (at + e)) + c + (h + (ct + e))))) + z ==
            (o + k + c + t) + q + n + (c + a) + at + (e + c + h) + ct + (e + z)
  {
  }

  lemma NsText(ns: string)
    ensures (if ns == "" then "" else "," + (NsName() + Quoted(ns))) == if ns == "" then "" else OpenNs() + Quoted(ns)
  {
    hide Quoted;
  }

  /** How an element's text is put together. */
  lemma ElementText(tag: string, ns: string, attrs: seq<Value>, children: seq<Value>)
    ensures Text(Obj([Field("k", Str("e")), Field("tag", Str(tag))] + NsFields(ns) +
                     [Field("attrs", Arr(attrs)), Field("children", Arr(children))])) ==
            OpenElement() + Quoted(tag) + (if ns == "" then "" else OpenNs() + Quoted(ns)) +
            OpenAttrs() + ItemsText(attrs) + OpenChildren() + ItemsText(children) + CloseElement()
  {
    hide OpenElement, OpenNs, OpenAttrs, OpenChildren, CloseElement, KindField, TagName, NsName, AttrsName, ChildrenName,
         FieldText, FieldsText, ItemsText, Quoted, NsFields;
    Literals();
    KindText();
    StrFieldTexts(tag, ns);
    ArrFieldTexts(attrs, children);
    NsText(ns);
    ElementFieldsText(Field("k", Str("e")), Field("tag", Str(tag)), ns, Field("attrs", Arr(attrs)),
                      Field("children", Arr(children)));
    var n := if ns == "" then "" else OpenNs() + Quoted(ns);
    Assemble("{", KindField(), ",", TagName(), Quoted(tag), n, AttrsName(), ItemsText(attrs), "]", ChildrenName(),
             ItemsText(children), "}");
  }

  // ---- leaves and attributes --------------------------------------------------------------------

  lemma LeafText(kind: string, text: string)
    requires Plain(kind)
    ensures Text(Obj([Field("k", Str(kind)), Field("v", Str(text))])) ==
            "{\"k\":\"" + kind + "\",\"v\":" + Quoted(text) + "}"
  {
    hide Quoted, FieldText, FieldsText;
    PlainNames();
    PlainStr(kind);
    PlainField("k", Str(kind));
    PlainField("v", Str(text));
    TailText(Field("k", Str(kind)), Field("v", Str(text)));
  }

  lemma AttrText(a: Named)
    ensures Text(AttrValue(a)) ==
            "[" + Quoted(a.name) + "," + Quoted(a.value) + (if a.ns == "" then "" else "," + Quoted(a.ns)) + "]"
  {
    hide Quoted, ItemsText;
    var tail := if a.ns == "" then [] else [Str(a.ns)];
    ItemsCons(Str(a.name), [Str(a.value)] + tail);
    if a.ns == "" {
      ItemsOne(Str(a.value));
      assert [Str(a.value)] + tail == [Str(a.value)];
      assert AttrValue(a).items == [Str(a.name)] + ([Str(a.value)] + tail);
    } else {
      ItemsCons(Str(a.value), [Str(a.ns)]);
      ItemsOne(Str(a.ns));
      assert AttrValue(a).items == [Str(a.name)] + ([Str(a.value)] + tail);
    }
  }

  lemma ItemsCons(v: Value, more: seq<Value>)
    requires more != []
    ensures ItemsText([v] + more) == Text(v) + "," + ItemsText(more)
  {
    assert ([v] + more)[1..] == more;
  }

  lemma ItemsOne(v: Value)
    ensures ItemsText([v]) == Text(v)
  {
  }

  function OpenDoctype(): string { "{\"k\":\"d\",\"name\":" }
  function OpenPublic(): string { ",\"publicId\":" }
  function OpenSystem(): string { ",\"systemId\":" }
  function DoctypeKind(): string { "\"k\":\"d\"" }
  function NameName(): string { "\"name\":" }
  function PublicName(): string { "\"publicId\":" }
  function SystemName(): string { "\"systemId\":" }

  lemma DoctypeLiterals()
    ensures OpenDoctype() == "{" + DoctypeKind() + "," + NameName()
    ensures OpenPublic() == "," + PublicName() && OpenSystem() == "," + SystemName()
  {
  }

  lemma DoctypeFieldTexts(name: string, publicId: string, systemId: string)
    ensures FieldText(Field("k", Str("d"))) == DoctypeKind()
    ensures FieldText(Field("name", Str(name))) == NameName() + Quoted(name)
    ensures FieldText(Field("publicId", Str(publicId))) == PublicName() + Quoted(publicId)
    ensures FieldText(Field("systemId", Str(systemId))) == SystemName() + Quoted(systemId)
  {
    hide Quoted;
    PlainNames();
    PlainStr("d");
    PlainField("k", Str("d"));
    PlainField("name", Str(name));
    PlainField("publicId", Str(publicId));
    PlainField("systemId", Str(systemId));
  }

  lemma FourFields(k: Field, n: Field, p: Field, y: Field)
    ensures FieldsText([k, n, p, y]) ==
            FieldText(k) + "," + (FieldText(n) + "," + (FieldText(p) + "," + FieldText(y)))
  {
    hide FieldText, FieldsText;
    TailText(p, y);
    FieldsCons(n, [p, y]);
    FieldsCons(k, [n] + [p, y]);
    assert [k, n, p, y] == [k] + ([n] + [p, y]);
  }

  lemma Chain(o: string, k: string, c: string, nn: string, n: string, pn: string, p: string, yn: string, y: string, z: string)
    ensures o + (k + c + ((nn + n) + c + ((pn + p) + c + (yn + y)))) + z ==
            (o + k + c + nn) + n + (c + pn) + p + (c + yn) + y + z
  {
  }

  lemma DoctypeText(name: string, publicId: string, systemId: string)
    ensures Text(TreeValue(D(name, publicId, systemId))) ==
            OpenDoctype() + Quoted(name) + OpenPublic() + Quoted(publicId) + OpenSystem() + Quoted(systemId) + "}"
  {
    hide Quoted, FieldText, FieldsText, OpenDoctype, OpenPublic, OpenSystem, DoctypeKind, NameName, PublicName, SystemName;
    DoctypeLiterals();
    DoctypeFieldTexts(name, publicId, systemId);
    FourFields(Field("k", Str("d")), Field("name", Str(name)), Field("publicId", Str(publicId)), Field("systemId", Str(systemId)));
    Chain("{", DoctypeKind(), ",", NameName(), Quoted(name), PublicName(), Quoted(publicId), SystemName(), Quoted(systemId), "}");
  }

  lemma InstructionText(target: string, data: string)
    ensures Text(TreeValue(P(target, data))) ==
            "{\"k\":\"p\",\"t\":" + Quoted(target) + ",\"v\":" + Quoted(data) + "}"
  {
    hide Quoted, FieldText, FieldsText;
    PlainNames();
    PlainStr("p");
    PlainField("k", Str("p"));
    PlainField("t", Str(target));
    PlainField("v", Str(data));
    var k, t, v := Field("k", Str("p")), Field("t", Str(target)), Field("v", Str(data));
    TailText(t, v);
    FieldsCons(k, [t, v]);
    assert [k, t, v] == [k] + [t, v];
  }
}
