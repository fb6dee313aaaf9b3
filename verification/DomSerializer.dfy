/** The serializer of parsed documents: JSON straight into a string, the scripts
    it meets on the side, truncating where a node had nothing to say. */
module DomSerializer {
  import opened Json
  import opened DomTree
  import opened DomScripts
  import opened DomText

  class Sink {
    var text: string

    constructor (start: string)
      ensures text == start
    {
      text := start;
    }

    method Push(s: string)
      modifies this
      ensures text == old(text) + s
    {
      text := text + s;
    }

    method Truncate(mark: nat)
      requires mark <= |text|
      modifies this
      ensures text == old(text)[..mark]
    {
      text := text[..mark];
    }
  }

  class ScriptLog {
    var scripts: seq<Script>
    var modes: seq<Mode>

    constructor ()
      ensures scripts == [] && modes == []
    {
      scripts, modes := [], [];
    }
  }

  /** The log gained these script elements. */
  twostate predicate Logged(log: ScriptLog, elements: seq<Node>)
    requires forall e :: e in elements ==> e.Element?
    reads log
  {
    log.scripts == old(log.scripts) + Scripts(elements) && log.modes == old(log.modes) + Modes(elements)
  }

  // ---- strings ------------------------------------------------------------------------------

  /** `push_json_str`: runs without special characters are copied whole. */
  method PushJsonStr(out: Sink, s: string)
    modifies out
    ensures out.text == old(out.text) + Quoted(s)
  {
    hide Escaped, EscapedAll;
    ghost var start := out.text;
    NothingEscaped(s);
    out.Push("\"");
    var from := 0;
    for i := 0 to |s|
      invariant from <= i
      invariant forall k :: from <= k < i ==> Escaped(s[k]) == [s[k]]
      invariant out.text == start + ("\"" + EscapedAll(s[..from]))
    {
      if Escaped(s[i]) == [s[i]] {
        continue;
      }
      RunAndEscape(s, from, i);
      out.Push(s[from..i]);
      out.Push(Escaped(s[i]));
      from := i + 1;
    }
    LastRun(s, from);
    out.Push(s[from..]);
    out.Push("\"");
  }

  // ---- nodes ----------------------------------------------------------------------------------

  /** The attributes of an element, comma-separated. */
  method SerializeAttrs(attrs: seq<Attr>, out: Sink)
    modifies out
    ensures out.text == old(out.text) + ItemsText(AttrValues(NamedAttrs(attrs)))
  {
    hide ItemsText, Quoted;
    ghost var start := out.text;
    NoAttrs();
    for i := 0 to |attrs|
      invariant out.text == start + ItemsText(AttrValues(NamedAttrs(attrs[..i])))
    {
      OneMoreAttr(attrs, i);
      if i > 0 {
        out.Push(",");
      }
      SerializeAttr(attrs[i], out);
    }
    assert attrs[..|attrs|] == attrs;
  }

  lemma NoAttrs()
    ensures ItemsText(AttrValues(NamedAttrs([]))) == ""
  {
  }

  lemma {:induction false} AttrsSnoc(attrs: seq<Attr>, a: Attr)
    ensures AttrValues(NamedAttrs(attrs + [a])) ==
            AttrValues(NamedAttrs(attrs)) + [AttrValue(Named(QualifiedName(a), a.value, a.ns))]
  {
    if attrs == [] {
      assert [a][1..] == [] && attrs + [a] == [a];
    } else {
      AttrsSnoc(attrs[1..], a);
      assert (attrs + [a])[1..] == attrs[1..] + [a];
    }
  }

  lemma OneMoreAttr(attrs: seq<Attr>, i: nat)
    requires i < |attrs|
    ensures ItemsText(AttrValues(NamedAttrs(attrs[..i + 1]))) ==
            ItemsText(AttrValues(NamedAttrs(attrs[..i]))) + (if i == 0 then "" else ",") +
            Text(AttrValue(Named(QualifiedName(attrs[i]), attrs[i].value, attrs[i].ns)))
  {
    hide Text, AttrValue;
    assert attrs[..i + 1] == attrs[..i] + [attrs[i]];
    AttrsSnoc(attrs[..i], attrs[i]);
    ItemsSnoc(AttrValues(NamedAttrs(attrs[..i])), AttrValue(Named(QualifiedName(attrs[i]), attrs[i].value, attrs[i].ns)));
    if i == 0 {
      NoAttrs();
    }
  }

  method SerializeAttr(a: Attr, out: Sink)
    modifies out
    ensures out.text == old(out.text) + Text(AttrValue(Named(QualifiedName(a), a.value, a.ns)))
  {
    hide Quoted, Text;
    out.Push("[");
    if a.prefix.Some? && a.prefix.value != "" {
      PushJsonStr(out, a.prefix.value + ":" + a.local);
    } else {
      PushJsonStr(out, a.local);
    }
    out.Push(",");
    PushJsonStr(out, a.value);
    if a.ns != "" {
      out.Push(",");
      PushJsonStr(out, a.ns);
    }
    out.Push("]");
    AttrText(Named(QualifiedName(a), a.value, a.ns));
  }

  /** `comment_json` */
  method SerializeComment(contents: string, out: Sink)
    modifies out
    ensures out.text == old(out.text) + Text(TreeValue(CommentTree(contents)))
  {
    hide Quoted, Text;
    if contents != "" && contents[0] == '\0' {
      var rest := SplitNul(contents[1..]);
      if rest.Some? {
        out.Push("{\"k\":\"p\",\"t\":");
        PushJsonStr(out, rest.value.0);
        out.Push(",\"v\":");
        PushJsonStr(out, rest.value.1);
        out.Push("}");
        InstructionText(rest.value.0, rest.value.1);
        return;
      }
    }
    out.Push("{\"k\":\"c\",\"v\":");
    PushJsonStr(out, contents);
    out.Push("}");
    PlainNames();
    LeafText("c", contents);
  }

  /** The script of an element joins the log. */
  method LogScript(n: Node, log: ScriptLog)
    requires n.Element? && n.local == "script"
    modifies log
    ensures Logged(log, [n])
  {
    log.scripts := log.scripts + [ScriptOf(n)];
    log.modes := log.modes + [ModeOf(n.attrs)];
  }

  lemma Attach3(s: string, a: string, b: string, c: string)
    ensures s + a + b + c == s + (a + b + c)
  {
  }

  lemma Attach7(s: string, a: string, b: string, c: string, d: string, e: string, f: string, g: string)
    ensures s + a + b + c + d + e + f + g == s + (a + b + c + d + e + f + g)
  {
  }

  lemma Attach8(s: string, a: string, b: string, c: string, d: string, e: string, f: string, g: string, h: string)
    ensures s + a + b + c + d + e + f + g + h == s + (a + b + c + d + e + f + g + h)
  {
  }

  method SerializeText(contents: string, out: Sink)
    modifies out
    ensures out.text == old(out.text) + Text(TreeValue(T(contents)))
  {
    hide Quoted, Text, TreeValue;
    out.Push("{\"k\":\"t\",\"v\":");
    PushJsonStr(out, contents);
    out.Push("}");
    TextNodeText(contents);
    Attach3(old(out.text), "{\"k\":\"t\",\"v\":", Quoted(contents), "}");
  }

  lemma TextNodeText(contents: string)
    ensures Text(TreeValue(T(contents))) == "{\"k\":\"t\",\"v\":" + Quoted(contents) + "}"
  {
    hide Quoted, Text;
    PlainNames();
    LeafText("t", contents);
  }

  method SerializeDoctype(name: string, publicId: string, systemId: string, out: Sink)
    modifies out
    ensures out.text == old(out.text) + Text(TreeValue(D(name, publicId, systemId)))
  {
    hide Quoted, Text, TreeValue, OpenDoctype, OpenPublic, OpenSystem;
    out.Push(OpenDoctype());
    PushJsonStr(out, name);
    out.Push(OpenPublic());
    PushJsonStr(out, publicId);
    out.Push(OpenSystem());
    PushJsonStr(out, systemId);
    out.Push("}");
    DoctypeText(name, publicId, systemId);
    Attach7(old(out.text), OpenDoctype(), Quoted(name), OpenPublic(), Quoted(publicId), OpenSystem(), Quoted(systemId), "}");
  }

  /** `serialize`: nothing written, and false, for a node that is dropped. */
  method Serialize(n: Node, out: Sink, log: ScriptLog) returns (written: bool)
    modifies out, log
    ensures written <==> Kept(n).Some?
    ensures out.text == old(out.text) + NodeText(n)
    ensures Logged(log, ScriptElements(n))
    decreases n, 2
  {
    hide Quoted, Text, TreeValue;
    match n {
      case Element(_, _, _, _, _) =>
        SerializeElement(n, out, log);
        return true;
      case TextNode(contents) =>
        SerializeText(contents, out);
        return true;
      case Comment(contents) =>
        SerializeComment(contents, out);
        return true;
      case Doctype(name, publicId, systemId) =>
        SerializeDoctype(name, publicId, systemId, out);
        return true;
      case Document(_) =>
        return false;
      case Instruction =>
        return false;
    }
  }

  /** Without a namespace an inline svg would be an unknown HTML element. */
  method SerializeNs(ns: string, out: Sink)
    modifies out
    ensures out.text == old(out.text) + if NsOf(ns) == "" then "" else OpenNs() + Quoted(ns)
  {
    hide Quoted, OpenNs;
    if !(ns == "" || ns == HTML) {
      out.Push(OpenNs());
      PushJsonStr(out, ns);
    }
  }

  method SerializeElement(n: Node, out: Sink, log: ScriptLog)
    requires n.Element?
    modifies out, log
    ensures out.text == old(out.text) + NodeText(n)
    ensures Logged(log, ScriptElements(n))
    decreases n, 1
  {
    hide NodeText, Scripts, Modes, ScriptElements, ScriptElementsAll;
    OwnThenInside(n, log.scripts, log.modes);
    if n.local == "script" {
      LogScript(n, log);
    }
    SerializeTag(n, out, log);
  }

  method SerializeTag(n: Node, out: Sink, log: ScriptLog)
    requires n.Element?
    modifies out, log
    ensures out.text == old(out.text) + NodeText(n)
    ensures Logged(log, ScriptElementsAll(Content(n)))
    decreases n, 0
  {
    hide Quoted, ItemsText, NodesText, NodeText, OpenElement, OpenNs, OpenAttrs, OpenChildren, CloseElement, Scripts, Modes,
         ScriptElementsAll, AttrValues, NamedAttrs, NsOf;
    out.Push(OpenElement());
    PushJsonStr(out, n.local);
    SerializeNs(n.ns, out);
    out.Push(OpenAttrs());
    SerializeAttrs(n.attrs, out);
    out.Push(OpenChildren());
    SerializeChildren(Content(n), out, log);
    out.Push(CloseElement());
    ElementNodeText(n);
    Attach8(old(out.text), OpenElement(), Quoted(n.local), if NsOf(n.ns) == "" then "" else OpenNs() + Quoted(n.ns),
            OpenAttrs(), ItemsText(AttrValues(NamedAttrs(n.attrs))), OpenChildren(), NodesText(Content(n)), CloseElement());
  }

  /** A script element logs itself and then what is inside it. */
  lemma OwnThenInside(n: Node, s: seq<Script>, m: seq<Mode>)
    requires n.Element?
    ensures var all, inside := ScriptElements(n), ScriptElementsAll(Content(n));
            if n.local == "script" then
              s + Scripts([n]) + Scripts(inside) == s + Scripts(all) && m + Modes([n]) + Modes(inside) == m + Modes(all)
            else s + Scripts(inside) == s + Scripts(all) && m + Modes(inside) == m + Modes(all)
  {
    hide Scripts, Modes;
    var inside := ScriptElementsAll(Content(n));
    if n.local == "script" {
      assert ScriptElements(n) == [n] + inside;
      ScriptsJoin([n], inside);
      ModesJoin([n], inside);
    } else {
      assert ScriptElements(n) == inside;
    }
  }

  lemma ElementNodeText(n: Node)
    requires n.Element?
    ensures NodeText(n) ==
            OpenElement() + Quoted(n.local) + (if NsOf(n.ns) == "" then "" else OpenNs() + Quoted(n.ns)) +
            OpenAttrs() + ItemsText(AttrValues(NamedAttrs(n.attrs))) + OpenChildren() + NodesText(Content(n)) + CloseElement()
  {
    hide Quoted, ItemsText, OpenElement, OpenNs, OpenAttrs, OpenChildren, CloseElement, Text, AttrValues, TreeValues, NamedAttrs;
    ElementText(n.local, NsOf(n.ns), AttrValues(NamedAttrs(n.attrs)), TreeValues(KeptAll(Content(n))));
  }

  /** A node after others: a comma first, taken back with a node that has
      nothing to say. */
  method SerializeNext(n: Node, first: bool, out: Sink, log: ScriptLog) returns (written: bool)
    modifies out, log
    ensures written <==> Kept(n).Some?
    ensures out.text == old(out.text) + if Kept(n).None? then "" else (if first then "" else ",") + NodeText(n)
    ensures Logged(log, ScriptElements(n))
    decreases n, 3
  {
    hide NodeText, Kept, Scripts, Modes, ScriptElements;
    var mark := |out.text|;
    if !first {
      out.Push(",");
    }
    written := Serialize(n, out, log);
    if !written {
      out.Truncate(mark);
    }
  }

  /** `serialize_children`: a comma before all but the first one written. */
  method SerializeChildren(nodes: seq<Node>, out: Sink, log: ScriptLog)
    modifies out, log
    ensures out.text == old(out.text) + NodesText(nodes)
    ensures Logged(log, ScriptElementsAll(nodes))
    decreases nodes, 4
  {
    hide NodesText, NodeText, Kept, KeptAll, ScriptElements, ScriptElementsAll, Scripts, Modes;
    ghost var start, scripts, modes := out.text, log.scripts, log.modes;
    NoNodes();
    var first := true;
    for i := 0 to |nodes|
      invariant Progress(start, scripts, modes, nodes[..i], out.text, log.scripts, log.modes)
      invariant first <==> KeptAll(nodes[..i]) == []
    {
      ghost var text, s, m := out.text, log.scripts, log.modes;
      var written := SerializeNext(nodes[i], first, out, log);
      assert nodes[..i + 1] == nodes[..i] + [nodes[i]];
      OneMoreNode(nodes[..i], nodes[i]);
      ProgressNext(start, scripts, modes, nodes[..i], text, s, m, nodes[i]);
      if written {
        first := false;
      }
    }
    assert nodes[..|nodes|] == nodes;
  }

  /** What a run of nodes added to the text and the log. */
  ghost predicate Progress(start: string, scripts: seq<Script>, modes: seq<Mode>, nodes: seq<Node>,
                           text: string, s: seq<Script>, m: seq<Mode>) {
    text == start + NodesText(nodes) && s == scripts + Scripts(ScriptElementsAll(nodes)) &&
    m == modes + Modes(ScriptElementsAll(nodes))
  }

  lemma ProgressNext(start: string, scripts: seq<Script>, modes: seq<Mode>, nodes: seq<Node>,
                     text: string, s: seq<Script>, m: seq<Mode>, n: Node)
    requires Progress(start, scripts, modes, nodes, text, s, m)
    ensures var more := if Kept(n).None? then "" else (if KeptAll(nodes) == [] then "" else ",") + NodeText(n);
            Progress(start, scripts, modes, nodes + [n], text + more, s + Scripts(ScriptElements(n)),
                     m + Modes(ScriptElements(n)))
  {
    hide NodesText, NodeText, Kept, KeptAll, ScriptElements, ScriptElementsAll, Scripts, Modes;
    OneMoreNode(nodes, n);
    OneMoreLogged(nodes, n);
    Attach(start, NodesText(nodes), (if KeptAll(nodes) == [] then "" else ",") + NodeText(n));
    Attach(start, NodesText(nodes), "");
    Attach(scripts, Scripts(ScriptElementsAll(nodes)), Scripts(ScriptElements(n)));
    Attach(modes, Modes(ScriptElementsAll(nodes)), Modes(ScriptElements(n)));
  }

  lemma Attach<X>(s: seq<X>, a: seq<X>, b: seq<X>)
    ensures s + a + b == s + (a + b)
    ensures s + [] == s
  {
  }

  lemma NoNodes()
    ensures NodesText([]) == "" && KeptAll([]) == []
    ensures Scripts(ScriptElementsAll([])) == [] && Modes(ScriptElementsAll([])) == []
  {
  }

  lemma OneMoreLogged(nodes: seq<Node>, n: Node)
    ensures Scripts(ScriptElementsAll(nodes + [n])) == Scripts(ScriptElementsAll(nodes)) + Scripts(ScriptElements(n))
    ensures Modes(ScriptElementsAll(nodes + [n])) == Modes(ScriptElementsAll(nodes)) + Modes(ScriptElements(n))
  {
    ElementsSnoc(nodes, n);
    ScriptsJoin(ScriptElementsAll(nodes), ScriptElements(n));
    ModesJoin(ScriptElementsAll(nodes), ScriptElements(n));
  }
}
