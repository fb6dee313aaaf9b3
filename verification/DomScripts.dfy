/** The scripts of a document: what each script element holds and when it runs. */
module DomScripts {
  import opened Options
  import opened DomTree
  import opened Texts

  datatype Script =
    | Inline(code: string)
    | External(src: string)
    | InlineModule(code: string)
    | ExternalModule(src: string)
    | Skipped
    | ImportMap(text: string)

  datatype Mode = Blocking | Defer | Async

  /** The part before the first semicolon. */
  function Essence(s: string): string {
    if s == "" || s[0] == ';' then "" else [s[0]] + Essence(s[1..])
  }

  const JAVASCRIPT_TYPES := {
    "application/ecmascript", "application/javascript", "application/x-ecmascript", "application/x-javascript",
    "text/ecmascript", "text/javascript", "text/javascript1.0", "text/javascript1.1", "text/javascript1.2",
    "text/javascript1.3", "text/javascript1.4", "text/javascript1.5", "text/jscript", "text/livescript",
    "text/x-ecmascript", "text/x-javascript"}

  // ---- one script -------------------------------------------------------------------------

  /** The value of the first attribute of a local name. */
  function ValueOf(attrs: seq<Attr>, local: string): Option<string> {
    if attrs == [] then None
    else if attrs[0].local == local then Some(attrs[0].value)
    else ValueOf(attrs[1..], local)
  }

  predicate Has(attrs: seq<Attr>, local: string) {
    ValueOf(attrs, local).Some?
  }

  predicate TypeIs(attrs: seq<Attr>, kind: string) {
    ValueOf(attrs, "type").Some? && Lower(Trim(ValueOf(attrs, "type").value)) == kind
  }

  predicate HasSrc(attrs: seq<Attr>) {
    ValueOf(attrs, "src").Some? && ValueOf(attrs, "src").value != ""
  }

  predicate Executable(attrs: seq<Attr>) {
    match ValueOf(attrs, "type")
    case None => true
    case Some(t) =>
      var e := Trim(Essence(Lower(Trim(t))));
      e == "" || e == "module" || e in JAVASCRIPT_TYPES
  }

  /** When a script runs, by its type, its source and its attributes. */
  function ModeOf(attrs: seq<Attr>): Mode {
    if TypeIs(attrs, "module") then if Has(attrs, "async") then Async else Defer
    else if HasSrc(attrs) && Has(attrs, "async") then Async
    else if HasSrc(attrs) && Has(attrs, "defer") then Defer
    else Blocking
  }

  /** The contents of all text nodes in a list, concatenated. */
  function TextContent(children: seq<Node>): string {
    if children == [] then ""
    else (if children[0].TextNode? then children[0].contents else "") + TextContent(children[1..])
  }

  function ScriptOf(n: Node): Script
    requires n.Element?
  {
    var isModule := TypeIs(n.attrs, "module");
    if TypeIs(n.attrs, "importmap") && !Has(n.attrs, "src") then ImportMap(TextContent(n.children))
    else if !Executable(n.attrs) || (Has(n.attrs, "nomodule") && !isModule) then Skipped
    else if HasSrc(n.attrs) then
      if isModule then ExternalModule(ValueOf(n.attrs, "src").value) else External(ValueOf(n.attrs, "src").value)
    else if isModule then InlineModule(TextContent(n.children))
    else Inline(TextContent(n.children))
  }

  // ---- the same, attribute by attribute --------------------------------------------------------

  /** Of several attributes of a name the first counts. */
  lemma {:induction false} FirstAttributeCounts(attrs: seq<Attr>, local: string, v: string)
    ensures ValueOf(attrs, local) == Some(v) <==> exists i: nat :: IsFirstOf(attrs, local, i) && attrs[i].value == v
    ensures ValueOf(attrs, local).None? <==> forall a :: a in attrs ==> a.local != local
  {
    if attrs != [] && attrs[0].local != local {
      FirstAttributeCounts(attrs[1..], local, v);
      if i: nat :| IsFirstOf(attrs[1..], local, i) && attrs[1..][i].value == v {
        FirstLater(attrs, local, i);
      }
      if i: nat :| IsFirstOf(attrs, local, i) && attrs[i].value == v {
        assert IsFirstOf(attrs[1..], local, i - 1);
      }
    } else if attrs != [] && attrs[0].value == v {
      assert IsFirstOf(attrs, local, 0);
    }
  }

  predicate IsFirstOf(attrs: seq<Attr>, local: string, i: nat) {
    i < |attrs| && attrs[i].local == local && forall j :: 0 <= j < i ==> attrs[j].local != local
  }

  lemma FirstLater(attrs: seq<Attr>, local: string, i: nat)
    requires attrs != [] && attrs[0].local != local && IsFirstOf(attrs[1..], local, i)
    ensures IsFirstOf(attrs, local, i + 1) && attrs[i + 1] == attrs[1..][i]
  {
    assert attrs[i + 1] == attrs[1..][i];
    forall j | 0 <= j < i + 1
      ensures attrs[j].local != local
    {
      if j > 0 {
        assert attrs[1..][j - 1].local != local;
      }
    }
  }

  /** A script runs on arrival when it says `async` and is a module or external; it is
      deferred when it is a module without `async`, or external and says `defer` but
      not `async`; any other blocks. */
  lemma ModeExactly(attrs: seq<Attr>)
    ensures var isModule, external := TypeIs(attrs, "module"), HasSrc(attrs);
            (ModeOf(attrs) == Async <==> Has(attrs, "async") && (isModule || external)) &&
            (ModeOf(attrs) == Defer <==> !Has(attrs, "async") && (isModule || (external && Has(attrs, "defer")))) &&
            (ModeOf(attrs) == Blocking <==> !isModule && !(external && (Has(attrs, "async") || Has(attrs, "defer"))))
  {
    hide TypeIs, Has, HasSrc;
  }

  /** What a script element is: an import map without a source; nothing that runs when
      its type is no script type, or when it is for browsers without modules; else a
      module or a classic script, external when it has a source. */
  lemma ScriptExactly(n: Node)
    requires n.Element?
    ensures var isModule, external, code := TypeIs(n.attrs, "module"), HasSrc(n.attrs), TextContent(n.children);
            var isMap := TypeIs(n.attrs, "importmap") && !Has(n.attrs, "src");
            var runs := !isMap && Executable(n.attrs) && (isModule || !Has(n.attrs, "nomodule"));
            var x := ScriptOf(n);
            (x == ImportMap(code) <==> isMap) && (x.ImportMap? ==> isMap) && (x == Skipped <==> !isMap && !runs) &&
            (x == Inline(code) <==> runs && !isModule && !external) && (x == InlineModule(code) <==> runs && isModule && !external) &&
            forall src :: (x == External(src) <==> runs && !isModule && external && ValueOf(n.attrs, "src") == Some(src)) &&
                          (x == ExternalModule(src) <==> runs && isModule && external && ValueOf(n.attrs, "src") == Some(src))
  {
    hide TypeIs, Executable, TextContent;
  }

  /** The essence of a type ends at the first semicolon. */
  lemma {:induction false} EssenceEnds(s: string)
    ensures ';' !in Essence(s) && Essence(s) <= s && (Essence(s) == s || s[|Essence(s)|] == ';')
  {
    if s != "" && s[0] != ';' {
      EssenceEnds(s[1..]);
      assert s == [s[0]] + s[1..];
    }
  }

  // ---- all of them --------------------------------------------------------------------------

  /** The script elements of a node, in the order their tags are written out. */
  function ScriptElements(n: Node): (r: seq<Node>)
    ensures forall e :: e in r ==> e.Element? && e.local == "script"
    decreases n, 0
  {
    match n
    case Element(local, _, _, children, template) =>
      var inside := match template
                    case Template(contents) => ScriptElementsAll(contents)
                    case NoTemplate => ScriptElementsAll(children);
      (if local == "script" then [n] else []) + inside
    case _ => []
  }

  function ScriptElementsAll(nodes: seq<Node>): (r: seq<Node>)
    ensures forall e :: e in r ==> e.Element? && e.local == "script"
    decreases nodes, 1
  {
    if nodes == [] then [] else ScriptElements(nodes[0]) + ScriptElementsAll(nodes[1..])
  }

  function Scripts(elements: seq<Node>): (r: seq<Script>)
    requires forall e :: e in elements ==> e.Element?
    ensures |r| == |elements| && forall i :: 0 <= i < |elements| ==> r[i] == ScriptOf(elements[i])
  {
    if elements == [] then [] else [ScriptOf(elements[0])] + Scripts(elements[1..])
  }

  function Modes(elements: seq<Node>): (r: seq<Mode>)
    requires forall e :: e in elements ==> e.Element?
    ensures |r| == |elements| && forall i :: 0 <= i < |elements| ==> r[i] == ModeOf(elements[i].attrs)
  {
    if elements == [] then [] else [ModeOf(elements[0].attrs)] + Modes(elements[1..])
  }

  lemma BothElements(a: seq<Node>, b: seq<Node>)
    requires forall e :: e in a + b ==> e.Element?
    ensures forall e :: e in a ==> e.Element?
    ensures forall e :: e in b ==> e.Element?
  {
    assert forall e :: e in a ==> e in a + b;
    assert forall e :: e in b ==> e in a + b;
  }

  lemma ScriptsJoin(a: seq<Node>, b: seq<Node>)
    requires forall e :: e in a + b ==> e.Element?
    ensures (forall e :: e in a ==> e.Element?) && forall e :: e in b ==> e.Element?
    ensures Scripts(a + b) == Scripts(a) + Scripts(b)
  {
    hide Scripts, ScriptOf;
    BothElements(a, b);
    forall i | 0 <= i < |a + b|
      ensures Scripts(a + b)[i] == (Scripts(a) + Scripts(b))[i]
    {
      assert (a + b)[i] == if i < |a| then a[i] else b[i - |a|];
    }
  }

  lemma ModesJoin(a: seq<Node>, b: seq<Node>)
    requires forall e :: e in a + b ==> e.Element?
    ensures (forall e :: e in a ==> e.Element?) && forall e :: e in b ==> e.Element?
    ensures Modes(a + b) == Modes(a) + Modes(b)
  {
    hide Modes, ModeOf;
    BothElements(a, b);
    forall i | 0 <= i < |a + b|
      ensures Modes(a + b)[i] == (Modes(a) + Modes(b))[i]
    {
      assert (a + b)[i] == if i < |a| then a[i] else b[i - |a|];
    }
  }

  lemma OneElement(n: Node)
    ensures ScriptElementsAll([n]) == ScriptElements(n)
  {
    hide ScriptElements;
    assert [n][1..] == [];
  }

  lemma {:induction false} ElementsSnoc(nodes: seq<Node>, n: Node)
    ensures ScriptElementsAll(nodes + [n]) == ScriptElementsAll(nodes) + ScriptElements(n)
  {
    hide ScriptElements;
    if nodes == [] {
      assert nodes + [n] == [n];
      OneElement(n);
    } else {
      ElementsSnoc(nodes[1..], n);
      assert (nodes + [n])[1..] == nodes[1..] + [n];
    }
  }

  // ---- what the modes mean --------------------------------------------------------------------

  /** A classic script without a source blocks parsing whatever else it says, and
      a module never does. */
  lemma ModulesNeverBlock(n: Node)
    requires n.Element?
    ensures ScriptOf(n).InlineModule? || ScriptOf(n).ExternalModule? ==> !ModeOf(n.attrs).Blocking?
    ensures ScriptOf(n).Inline? ==> ModeOf(n.attrs).Blocking?
    ensures Has(n.attrs, "nomodule") ==> !ScriptOf(n).Inline? && !ScriptOf(n).External?
  {
  }
}
