/** Parsed documents, the trees their JSON describes, and the scripts found on
    the way. */
module DomTree {
  import opened Options
  import opened Json

  /** An attribute as parsed. */
  datatype Attr = Attr(prefix: Option<string>, local: string, value: string, ns: string)

  /** The separate contents of a template element. */
  datatype Holder = NoTemplate | Template(contents: seq<Node>)

  /** A node as the HTML parser leaves it. A document and a processing instruction
      node are not serialized. */
  datatype Node =
    | Element(local: string, ns: string, attrs: seq<Attr>, children: seq<Node>, template: Holder)
    | TextNode(contents: string)
    | Comment(contents: string)
    | Doctype(name: string, publicId: string, systemId: string)
    | Document(children: seq<Node>)
    | Instruction

  const HTML := "http://www.w3.org/1999/xhtml"

  // ---- the tree the JSON describes -----------------------------------------------------

  /** An attribute by its qualified name. */
  datatype Named = Named(name: string, value: string, ns: string)

  datatype Tree =
    | E(tag: string, ns: string, attrs: seq<Named>, children: seq<Tree>)
    | T(text: string)
    | C(text: string)
    | P(target: string, data: string)
    | D(name: string, publicId: string, systemId: string)

  function QualifiedName(a: Attr): string {
    if a.prefix.Some? && a.prefix.value != "" then a.prefix.value + ":" + a.local else a.local
  }

  /** What comes before and after the first NUL. */
  function SplitNul(s: string): Option<(string, string)> {
    if s == "" then None
    else if s[0] == '\0' then Some(("", s[1..]))
    else
      match SplitNul(s[1..])
      case None => None
      case Some((a, b)) => Some(([s[0]] + a, b))
  }

  /** Contents that start with a NUL and have a second one stand for a processing
      instruction: its target lies between the two, its data behind. */
  function CommentTree(contents: string): Tree {
    if contents != "" && contents[0] == '\0' && SplitNul(contents[1..]).Some? then
      var (target, data) := SplitNul(contents[1..]).value;
      P(target, data)
    else C(contents)
  }

  /** The namespace as written: none for HTML. */
  function NsOf(ns: string): string {
    if ns == HTML then "" else ns
  }

  function NamedAttrs(attrs: seq<Attr>): (r: seq<Named>)
    ensures |r| == |attrs|
  {
    if attrs == [] then []
    else [Named(QualifiedName(attrs[0]), attrs[0].value, attrs[0].ns)] + NamedAttrs(attrs[1..])
  }

  /** The nodes whose serialization goes between the children brackets. */
  function Content(n: Node): seq<Node>
    requires n.Element?
  {
    if n.template.Template? then n.template.contents else n.children
  }

  /** The tree of a node; nothing for a node that is dropped. */
  function Kept(n: Node): Option<Tree>
    decreases n, 0
  {
    match n
    case Element(local, ns, attrs, children, template) =>
      (match template
       case Template(contents) => Some(E(local, NsOf(ns), NamedAttrs(attrs), KeptAll(contents)))
       case NoTemplate => Some(E(local, NsOf(ns), NamedAttrs(attrs), KeptAll(children))))
    case TextNode(contents) => Some(T(contents))
    case Comment(contents) => Some(CommentTree(contents))
    case Doctype(name, publicId, systemId) => Some(D(name, publicId, systemId))
    case _ => None
  }

  function KeptAll(nodes: seq<Node>): seq<Tree>
    decreases nodes, 1
  {
    if nodes == [] then []
    else (match Kept(nodes[0]) case None => [] case Some(t) => [t]) + KeptAll(nodes[1..])
  }

  // ---- its JSON ---------------------------------------------------------------------------

  function AttrValue(a: Named): Value {
    Arr([Str(a.name), Str(a.value)] + if a.ns == "" then [] else [Str(a.ns)])
  }

  function AttrValues(attrs: seq<Named>): (r: seq<Value>)
    ensures |r| == |attrs|
  {
    if attrs == [] then [] else [AttrValue(attrs[0])] + AttrValues(attrs[1..])
  }

  function NsFields(ns: string): seq<Field> {
    if ns == "" then [] else [Field("ns", Str(ns))]
  }

  function TreeValue(t: Tree): Value
    decreases t, 0
  {
    match t
    case E(tag, ns, attrs, children) =>
      Obj([Field("k", Str("e")), Field("tag", Str(tag))] +
          NsFields(ns) +
          [Field("attrs", Arr(AttrValues(attrs))), Field("children", Arr(TreeValues(children)))])
    case T(text) => Obj([Field("k", Str("t")), Field("v", Str(text))])
    case C(text) => Obj([Field("k", Str("c")), Field("v", Str(text))])
    case P(target, data) => Obj([Field("k", Str("p")), Field("t", Str(target)), Field("v", Str(data))])
    case D(name, publicId, systemId) =>
      Obj([Field("k", Str("d")), Field("name", Str(name)), Field("publicId", Str(publicId)),
           Field("systemId", Str(systemId))])
  }

  function TreeValues(ts: seq<Tree>): (r: seq<Value>)
    ensures |r| == |ts|
    decreases ts, 1
  {
    if ts == [] then [] else [TreeValue(ts[0])] + TreeValues(ts[1..])
  }

  // ---- the tree back from the JSON ----------------------------------------------------------

  function FieldOf(fields: seq<Field>, name: string): Option<Value>
    ensures FieldOf(fields, name).Some? ==> exists f :: f in fields && f.value == FieldOf(fields, name).value
  {
    if fields == [] then None
    else if fields[0].name == name then Some(fields[0].value)
    else FieldOf(fields[1..], name)
  }

  function StringOf(fields: seq<Field>, name: string): string {
    match FieldOf(fields, name)
    case Some(Str(s)) => s
    case _ => ""
  }

  function StrOf(v: Value): string {
    if v.Str? then v.s else ""
  }

  function NamedOf(v: Value): Option<Named> {
    if v.Arr? && 2 <= |v.items| <= 3 then
      Some(Named(StrOf(v.items[0]), StrOf(v.items[1]), if |v.items| == 3 then StrOf(v.items[2]) else ""))
    else None
  }

  function NamedsOf(vs: seq<Value>): seq<Named> {
    if vs == [] then []
    else (match NamedOf(vs[0]) case None => [] case Some(a) => [a]) + NamedsOf(vs[1..])
  }

  /** A JSON description read back as a tree. */
  function TreeOf(v: Value): Option<Tree>
    decreases v, 0
  {
    if !v.Obj? then None
    else
      var k := StringOf(v.fields, "k");
      if k == "e" then
        match (FieldOf(v.fields, "attrs"), FieldOf(v.fields, "children"))
        case (Some(Arr(attrs)), Some(Arr(children))) =>
          Some(E(StringOf(v.fields, "tag"), StringOf(v.fields, "ns"), NamedsOf(attrs), TreesOf(children)))
        case _ => None
      else if k == "t" then Some(T(StringOf(v.fields, "v")))
      else if k == "c" then Some(C(StringOf(v.fields, "v")))
      else if k == "p" then Some(P(StringOf(v.fields, "t"), StringOf(v.fields, "v")))
      else if k == "d" then
        Some(D(StringOf(v.fields, "name"), StringOf(v.fields, "publicId"), StringOf(v.fields, "systemId")))
      else None
  }

  function TreesOf(vs: seq<Value>): seq<Tree>
    decreases vs, 1
  {
    if vs == [] then []
    else (match TreeOf(vs[0]) case None => [] case Some(t) => [t]) + TreesOf(vs[1..])
  }

  lemma {:induction false} AttrsRoundTrip(attrs: seq<Named>)
    ensures NamedsOf(AttrValues(attrs)) == attrs
  {
    if attrs != [] {
      AttrsRoundTrip(attrs[1..]);
      var vs := AttrValues(attrs);
      assert vs[0] == AttrValue(attrs[0]) && vs[1..] == AttrValues(attrs[1..]);
      assert [attrs[0]] + attrs[1..] == attrs;
    }
  }

  lemma FirstField(f: Field, more: seq<Field>, name: string)
    ensures FieldOf([f] + more, name) == if f.name == name then Some(f.value) else FieldOf(more, name)
  {
    assert ([f] + more)[1..] == more;
  }

  lemma ElementTail(attrs: Value, children: Value, name: string)
    ensures FieldOf([Field("attrs", attrs), Field("children", children)], name) ==
            if name == "attrs" then Some(attrs) else if name == "children" then Some(children) else None
  {
    FirstField(Field("attrs", attrs), [Field("children", children)], name);
    FirstField(Field("children", children), [], name);
    assert [Field("attrs", attrs)] + [Field("children", children)] == [Field("attrs", attrs), Field("children", children)];
    assert [Field("children", children)] + [] == [Field("children", children)];
  }

  lemma ElementField(tag: string, ns: string, attrs: Value, children: Value, name: string)
    ensures FieldOf([Field("k", Str("e")), Field("tag", Str(tag))] +
                    NsFields(ns) +
                    [Field("attrs", attrs), Field("children", children)], name) ==
            if name == "k" then Some(Str("e")) else if name == "tag" then Some(Str(tag))
            else if name == "ns" && ns != "" then Some(Str(ns))
            else FieldOf([Field("attrs", attrs), Field("children", children)], name)
  {
    hide FieldOf;
    var tail := [Field("attrs", attrs), Field("children", children)];
    var mid := NsFields(ns) + tail;
    assert [Field("k", Str("e")), Field("tag", Str(tag))] + NsFields(ns) + tail ==
           [Field("k", Str("e"))] + ([Field("tag", Str(tag))] + mid);
    FirstField(Field("k", Str("e")), [Field("tag", Str(tag))] + mid, name);
    FirstField(Field("tag", Str(tag)), mid, name);
    if ns == "" {
      assert mid == tail;
    } else {
      FirstField(Field("ns", Str(ns)), tail, name);
    }
  }

  lemma ElementFields(tag: string, ns: string, attrs: Value, children: Value)
    ensures var fs := [Field("k", Str("e")), Field("tag", Str(tag))] +
                      NsFields(ns) +
                      [Field("attrs", attrs), Field("children", children)];
            StringOf(fs, "k") == "e" && StringOf(fs, "tag") == tag && StringOf(fs, "ns") == ns &&
            FieldOf(fs, "attrs") == Some(attrs) && FieldOf(fs, "children") == Some(children)
  {
    hide FieldOf;
    ElementField(tag, ns, attrs, children, "k");
    ElementField(tag, ns, attrs, children, "tag");
    ElementField(tag, ns, attrs, children, "ns");
    ElementField(tag, ns, attrs, children, "attrs");
    ElementField(tag, ns, attrs, children, "children");
    ElementTail(attrs, children, "ns");
    ElementTail(attrs, children, "attrs");
    ElementTail(attrs, children, "children");
  }

  /** The JSON of a tree describes that tree. */
  lemma {:induction false} TreeRoundTrip(t: Tree)
    ensures TreeOf(TreeValue(t)) == Some(t)
    decreases t, 0
  {
    if t.E? {
      AttrsRoundTrip(t.attrs);
      TreesRoundTrip(t.children);
      hide FieldOf, StringOf;
      ElementFields(t.tag, t.ns, Arr(AttrValues(t.attrs)), Arr(TreeValues(t.children)));
    } else {
      LeafRoundTrip(t);
    }
  }

  lemma LeafRoundTrip(t: Tree)
    requires !t.E?
    ensures TreeOf(TreeValue(t)) == Some(t)
  {
    hide TreeOf, TreeValue;
    if t.D? {
      DoctypeLeaf(t);
    } else if t.P? {
      InstructionLeaf(t);
    } else {
      TextLeaf(t);
    }
  }

  lemma ObjectLeaf(t: Tree)
    requires !t.E?
    ensures TreeValue(t).Obj?
  {
  }

  lemma TextLeaf(t: Tree)
    requires t.T? || t.C?
    ensures TreeOf(TreeValue(t)) == Some(t)
  {
    hide FieldOf, TreesOf, NamedsOf, TreeValue;
    ObjectLeaf(t);
    TextField(t, "k");
    TextField(t, "v");
    assert "t"[0] == 't' && "c"[0] == 'c' && "e"[0] == 'e';
  }

  lemma InstructionLeaf(t: Tree)
    requires t.P?
    ensures TreeOf(TreeValue(t)) == Some(t)
  {
    hide FieldOf, TreesOf, NamedsOf, TreeValue;
    ObjectLeaf(t);
    InstructionField(t, "k");
    InstructionField(t, "t");
    InstructionField(t, "v");
    assert "t"[0] == 't' && "c"[0] == 'c' && "e"[0] == 'e' && "p"[0] == 'p';
  }

  lemma DoctypeLeaf(t: Tree)
    requires t.D?
    ensures TreeOf(TreeValue(t)) == Some(t)
  {
    hide FieldOf, TreesOf, NamedsOf, TreeValue;
    ObjectLeaf(t);
    DoctypeField(t, "k");
    DoctypeField(t, "name");
    DoctypeField(t, "publicId");
    DoctypeField(t, "systemId");
    assert "t"[0] == 't' && "c"[0] == 'c' && "e"[0] == 'e' && "p"[0] == 'p' && "d"[0] == 'd';
  }

  lemma TextField(t: Tree, name: string)
    requires (t.T? || t.C?) && name in {"k", "v"}
    ensures FieldOf(TreeValue(t).fields, name) == Some(Str(if name == "v" then t.text else if t.T? then "t" else "c"))
  {
    hide FieldOf;
    var k, v := Field("k", Str(if t.T? then "t" else "c")), Field("v", Str(t.text));
    assert TreeValue(t).fields == [k] + ([v] + []);
    FirstField(k, [v] + [], name);
    FirstField(v, [], name);
  }

  lemma InstructionField(t: Tree, name: string)
    requires t.P? && name in {"k", "t", "v"}
    ensures FieldOf(TreeValue(t).fields, name) ==
            Some(Str(if name == "k" then "p" else if name == "t" then t.target else t.data))
  {
    hide FieldOf;
    var k, n, v := Field("k", Str("p")), Field("t", Str(t.target)), Field("v", Str(t.data));
    assert TreeValue(t).fields == [k] + ([n] + ([v] + []));
    FirstField(k, [n] + ([v] + []), name);
    FirstField(n, [v] + [], name);
    FirstField(v, [], name);
  }

  lemma DoctypeField(t: Tree, name: string)
    requires t.D? && name in {"k", "name", "publicId", "systemId"}
    ensures FieldOf(TreeValue(t).fields, name) ==
            Some(Str(if name == "k" then "d" else if name == "name" then t.name
                     else if name == "publicId" then t.publicId else t.systemId))
  {
    hide FieldOf;
    var k, n := Field("k", Str("d")), Field("name", Str(t.name));
    var p, y := Field("publicId", Str(t.publicId)), Field("systemId", Str(t.systemId));
    assert TreeValue(t).fields == [k] + ([n] + ([p] + ([y] + [])));
    FirstField(k, [n] + ([p] + ([y] + [])), name);
    FirstField(n, [p] + ([y] + []), name);
    FirstField(p, [y] + [], name);
    FirstField(y, [], name);
  }

  lemma {:induction false} TreesRoundTrip(ts: seq<Tree>)
    ensures TreesOf(TreeValues(ts)) == ts
    decreases ts, 1
  {
    if ts != [] {
      TreeRoundTrip(ts[0]);
      TreesRoundTrip(ts[1..]);
      var vs := TreeValues(ts);
      assert vs[0] == TreeValue(ts[0]) && vs[1..] == TreeValues(ts[1..]);
      assert [ts[0]] + ts[1..] == ts;
    }
  }
}
