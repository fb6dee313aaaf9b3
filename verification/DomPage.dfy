/** A parsed document as the page gets it: the root, what stands before and
    after it, the scripts, and the base its links resolve against. */
module DomPage {
  import opened Options
  import opened Json
  import opened DomTree
  import opened DomScripts
  import opened DomText
  import opened DomSerializer

  datatype Page = Page(before: string, root: string, after: string, scripts: seq<Script>, modes: seq<Mode>)

  // ---- reading the JSON back ------------------------------------------------------------------

  function ListText(nodes: seq<Node>): string {
    "[" + NodesText(nodes) + "]"
  }

  /** Parsing what was written for a node gives the tree it describes. */
  lemma NodeReadsBack(n: Node)
    requires Kept(n).Some?
    ensures Parse(NodeText(n)).Some? && TreeOf(Parse(NodeText(n)).value) == Kept(n)
  {
    hide Parse, TreeOf;
    TextRoundTrip(TreeValue(Kept(n).value));
    TreeRoundTrip(Kept(n).value);
  }

  /** Parsing what was written for a list of nodes gives the trees of those that
      are kept, in order. */
  lemma ListReadsBack(nodes: seq<Node>)
    ensures var v := Parse(ListText(nodes));
            v.Some? && v.value.Arr? && TreesOf(v.value.items) == KeptAll(nodes)
  {
    hide Parse, TreesOf, ItemsText, TreeValues, KeptAll;
    var vs := TreeValues(KeptAll(nodes));
    assert ListText(nodes) == Text(Arr(vs));
    TextRoundTrip(Arr(vs));
    TreesRoundTrip(KeptAll(nodes));
  }

  // ---- the document ---------------------------------------------------------------------------

  /** The place of the first element among a document's children. */
  function RootAt(children: seq<Node>): (r: nat)
    ensures r <= |children| && (r < |children| ==> children[r].Element?)
    ensures forall i :: 0 <= i < r ==> !children[i].Element?
  {
    if children == [] || children[0].Element? then 0 else 1 + RootAt(children[1..])
  }

  /** A child before or after the root: a comma first, unless the list is still
      an open bracket, and taken back with a node that has nothing to say. */
  method AddBeside(n: Node, side: Sink, log: ScriptLog, ghost nodes: seq<Node>)
    requires side.text == "[" + NodesText(nodes)
    modifies side, log
    ensures side.text == "[" + NodesText(nodes + [n])
    ensures Logged(log, ScriptElements(n))
  {
    hide NodesText, NodeText, Kept, KeptAll, Scripts, Modes, ScriptElements;
    OneMoreNode(nodes, n);
    KeptIsWritten(nodes);
    var mark := |side.text|;
    if |side.text| > 1 {
      side.Push(",");
    }
    var written := Serialize(n, side, log);
    if !written {
      side.Truncate(mark);
    }
  }

  /** `parse`, given the document's children: the first element is the root. */
  method SerializeDocument(children: seq<Node>) returns (page: Page)
    ensures Writes(page, children)
  {
    hide NodesText, NodeText, Scripts, Modes, ScriptElements, ScriptElementsAll, RootAt;
    var root := new Sink("");
    var before := new Sink("[");
    var after := new Sink("[");
    var log := new ScriptLog();
    var seenRoot := false;
    NoNodes();
    ghost var r := RootAt(children);
    for i := 0 to |children|
      invariant fresh(root) && fresh(before) && fresh(after) && fresh(log)
      invariant root != before && root != after && before != after
      invariant seenRoot <==> r < i
      invariant before.text == "[" + NodesText(BeforeRoot(children, r, i))
      invariant root.text == if r < i then NodeText(children[r]) else ""
      invariant after.text == "[" + NodesText(AfterRoot(children, r, i))
      invariant log.scripts == Scripts(ScriptElementsAll(children[..i]))
      invariant log.modes == Modes(ScriptElementsAll(children[..i]))
    {
      RootIsFirst(children, i);
      NextChild(children, r, i);
      OneMoreLogged(children[..i], children[i]);
      if !seenRoot && children[i].Element? {
        seenRoot := true;
        var written := Serialize(children[i], root, log);
        continue;
      }
      if seenRoot {
        AddBeside(children[i], after, log, AfterRoot(children, r, i));
      } else {
        AddBeside(children[i], before, log, BeforeRoot(children, r, i));
      }
    }
    if !seenRoot {
      root.Push("null");
    }
    before.Push("]");
    after.Push("]");
    assert children[..|children|] == children;
    page := Page(before.text, root.text, after.text, log.scripts, log.modes);
  }

  /** Of the first `i` children, those before the one at `r`. */
  function BeforeRoot(children: seq<Node>, r: nat, i: nat): seq<Node>
    requires r <= |children| && i <= |children|
  {
    children[..if i < r then i else r]
  }

  /** Of the first `i` children, those after the one at `r`. */
  function AfterRoot(children: seq<Node>, r: nat, i: nat): seq<Node>
    requires r <= |children| && i <= |children|
  {
    if r < i then children[r + 1..i] else []
  }

  lemma RootIsFirst(children: seq<Node>, i: nat)
    requires i < |children|
    ensures children[i].Element? ==> RootAt(children) <= i
    ensures RootAt(children) == i ==> children[i].Element?
  {
  }

  lemma NextChild(children: seq<Node>, r: nat, i: nat)
    requires r <= |children| && i < |children|
    ensures children[..i + 1] == children[..i] + [children[i]]
    ensures BeforeRoot(children, r, i + 1) == BeforeRoot(children, r, i) + if i < r then [children[i]] else []
    ensures AfterRoot(children, r, i + 1) == AfterRoot(children, r, i) + if r < i then [children[i]] else []
  {
  }

  // ---- the scripts in the text -----------------------------------------------------------------

  /** The script tags of a tree, an element before what it holds. */
  function ScriptTags(t: Tree): seq<Tree>
    decreases t, 0
  {
    match t
    case E(tag, _, _, children) => (if tag == "script" then [t] else []) + ScriptTagsAll(children)
    case _ => []
  }

  function ScriptTagsAll(ts: seq<Tree>): seq<Tree>
    decreases ts, 1
  {
    if ts == [] then [] else ScriptTags(ts[0]) + ScriptTagsAll(ts[1..])
  }

  /** The tags elements are written as. */
  function Tags(elements: seq<Node>): (r: seq<Tree>)
    requires forall e :: e in elements ==> e.Element?
    ensures |r| == |elements| && forall i :: 0 <= i < |elements| ==> Some(r[i]) == Kept(elements[i])
  {
    if elements == [] then [] else [Kept(elements[0]).value] + Tags(elements[1..])
  }

  lemma TagsJoin(a: seq<Node>, b: seq<Node>)
    requires forall e :: e in a + b ==> e.Element?
    ensures (forall e :: e in a ==> e.Element?) && forall e :: e in b ==> e.Element?
    ensures Tags(a + b) == Tags(a) + Tags(b)
  {
    hide Tags, Kept;
    BothElements(a, b);
    forall i | 0 <= i < |a + b|
      ensures Tags(a + b)[i] == (Tags(a) + Tags(b))[i]
    {
      assert (a + b)[i] == if i < |a| then a[i] else b[i - |a|];
    }
  }

  lemma NoneKept()
    ensures KeptAll([]) == []
  {
  }

  lemma KeptCons(nodes: seq<Node>)
    requires nodes != []
    ensures var first, all, left := Kept(nodes[0]), KeptAll(nodes), KeptAll(nodes[1..]);
            if first.Some? then all != [] && all[0] == first.value && all[1..] == left else all == left
  {
    hide Kept;
  }

  /** The script elements of a node are the script tags of its tree. */
  lemma {:induction false} TagsOfNode(n: Node)
    ensures Tags(ScriptElements(n)) == if Kept(n).Some? then ScriptTags(Kept(n).value) else []
    decreases n, 0
  {
    if n.Element? {
      var inside := ScriptElementsAll(Content(n));
      var own := if n.local == "script" then [n] else [];
      TagsOfNodes(Content(n));
      assert ScriptElements(n) == own + inside;
      TagsJoin(own, inside);
      assert Tags([n]) == [Kept(n).value];
      assert own == [] ==> Tags(own) == [];
    }
  }

  lemma {:induction false} TagsOfNodes(nodes: seq<Node>)
    ensures Tags(ScriptElementsAll(nodes)) == ScriptTagsAll(KeptAll(nodes))
    decreases nodes, 1
  {
    hide Kept, KeptAll, ScriptElements, Tags, ScriptTags;
    NoneKept();
    if nodes != [] {
      TagsOfNode(nodes[0]);
      TagsOfNodes(nodes[1..]);
      TagsJoin(ScriptElements(nodes[0]), ScriptElementsAll(nodes[1..]));
      KeptCons(nodes);
      var inside := ScriptTagsAll(KeptAll(nodes[1..]));
      assert [] + inside == inside;
    } else {
      NoTags();
    }
  }

  lemma NoTags()
    ensures Tags([]) == []
  {
  }

  /** The text in what an element holds, joined. */
  function TreeText(ts: seq<Tree>): string {
    if ts == [] then "" else (if ts[0].T? then ts[0].text else "") + TreeText(ts[1..])
  }

  /** The code of an inline script is the text inside its tag. */
  lemma {:induction false} CodeIsText(children: seq<Node>)
    ensures TextContent(children) == TreeText(KeptAll(children))
  {
    hide Kept, KeptAll;
    NoneKept();
    if children != [] {
      CodeIsText(children[1..]);
      KeptText(children[0]);
      KeptCons(children);
      assert "" + TextContent(children[1..]) == TextContent(children[1..]);
    }
  }

  lemma KeptText(n: Node)
    ensures n.TextNode? <==> Kept(n).Some? && Kept(n).value.T?
    ensures n.TextNode? ==> Kept(n).value.text == n.contents
  {
  }

  /** The trees read back from a page's three texts, in document order. */
  function PageTrees(page: Page): seq<Tree> {
    ListTrees(page.before) + (if page.root == "null" then [] else NodeTrees(page.root)) + ListTrees(page.after)
  }

  function ListTrees(text: string): seq<Tree> {
    match Parse(text)
    case Some(Arr(items)) => TreesOf(items)
    case _ => []
  }

  function NodeTrees(text: string): seq<Tree> {
    match Parse(text)
    case Some(v) => (match TreeOf(v) case Some(t) => [t] case None => [])
    case None => []
  }

  /** A page as `SerializeDocument` writes it. */
  ghost predicate Writes(page: Page, children: seq<Node>) {
    var r := RootAt(children);
    page.before == ListText(children[..r]) &&
    page.root == (if r < |children| then NodeText(children[r]) else "null") &&
    page.after == ListText(if r < |children| then children[r + 1..] else []) &&
    page.scripts == Scripts(ScriptElementsAll(children)) && page.modes == Modes(ScriptElementsAll(children))
  }

  lemma {:induction false} KeptJoin(a: seq<Node>, b: seq<Node>)
    ensures KeptAll(a + b) == KeptAll(a) + KeptAll(b)
  {
    hide Kept, KeptAll;
    NoneKept();
    if a == [] {
      assert a + b == b;
    } else {
      KeptCons(a);
      KeptCons(a + b);
      KeptJoin(a[1..], b);
      assert (a + b)[1..] == a[1..] + b;
    }
  }

  /** The document read back: the three texts hold the trees of its kept children. */
  lemma PageReadsBack(children: seq<Node>, page: Page)
    requires Writes(page, children)
    ensures PageTrees(page) == KeptAll(children)
  {
    hide Parse, TreesOf, TreeOf, NodesText, NodeText, ListText, Kept, KeptAll, RootAt, Scripts, Modes, ScriptElementsAll;
    var r := RootAt(children);
    ListReadsBack(children[..r]);
    if r < |children| {
      var n, left := children[r], children[r + 1..];
      ListReadsBack(left);
      RootReadsBack(n);
      assert children == children[..r] + ([n] + left);
      KeptJoin(children[..r], [n] + left);
      KeptJoin([n], left);
      assert KeptAll(children[..r]) + (KeptAll([n]) + KeptAll(left)) ==
             KeptAll(children[..r]) + KeptAll([n]) + KeptAll(left);
    } else {
      ListReadsBack([]);
      assert children[..r] == children;
      NoneKept();
    }
  }

  lemma RootReadsBack(n: Node)
    requires n.Element?
    ensures NodeTrees(NodeText(n)) == KeptAll([n]) && NodeText(n) != "null"
  {
    hide Parse, TreeOf, TreeValue;
    assert Kept(n).Some?;
    NodeReadsBack(n);
    assert [n][1..] == [];
    BraceFirst(Kept(n).value);
  }

  lemma BraceFirst(t: Tree)
    ensures Text(TreeValue(t)) != "" && Text(TreeValue(t))[0] == '{'
  {
  }

  /** One script and one mode for every script tag in the text that is written, in
      the order of the tags, each from the element whose tag it is. */
  lemma ScriptsMatchElements(children: seq<Node>, page: Page, i: nat)
    requires Writes(page, children)
    ensures var tags, e := ScriptTagsAll(PageTrees(page)), ScriptElementsAll(children);
            |page.scripts| == |page.modes| == |tags| == |e| &&
            (i < |tags| ==> Some(tags[i]) == Kept(e[i]) && page.scripts[i] == ScriptOf(e[i]) &&
                            page.modes[i] == ModeOf(e[i].attrs))
    ensures i < |page.scripts| && page.scripts[i].Inline? && ScriptElementsAll(children)[i].template.NoTemplate? ==>
              page.scripts[i].code == TreeText(ScriptTagsAll(PageTrees(page))[i].children)
  {
    hide PageTrees, ScriptTagsAll, ScriptElementsAll, ModeOf, ScriptOf, RootAt, ListText, NodeText, Kept, KeptAll, TreeText;
    PageReadsBack(children, page);
    TagsOfNodes(children);
    var e := ScriptElementsAll(children);
    if i < |e| {
      assert e[i] in e;
      InlineCode(e[i]);
    }
  }

  lemma InlineCode(n: Node)
    requires n.Element?
    ensures ScriptOf(n).Inline? && n.template.NoTemplate? ==>
              Kept(n).Some? && Kept(n).value.E? && ScriptOf(n).code == TreeText(Kept(n).value.children)
  {
    CodeIsText(n.children);
  }

  // ---- the base -------------------------------------------------------------------------------

  /** The `href` of a base element, if it is one that has it. */
  function OwnBase(n: Node): Option<string> {
    if n.Element? && n.local == "base" && (n.ns == "" || n.ns == HTML) then ValueOf(n.attrs, "href") else None
  }

  function Children(n: Node): (r: seq<Node>)
    ensures forall c :: c in r ==> c < n
  {
    if n.Element? || n.Document? then n.children else []
  }

  /** The first base in tree order: a node before its children, and those in turn. */
  function FirstBase(n: Node): Option<string>
    decreases n, 0
  {
    if OwnBase(n).Some? then OwnBase(n)
    else match n
      case Element(_, _, _, children, _) => FirstBaseAll(children)
      case Document(children) => FirstBaseAll(children)
      case _ => None
  }

  function FirstBaseAll(nodes: seq<Node>): Option<string>
    decreases nodes, 1
  {
    if nodes == [] then None
    else if FirstBase(nodes[0]).Some? then FirstBase(nodes[0])
    else FirstBaseAll(nodes[1..])
  }

  lemma {:induction false} FirstBaseJoin(a: seq<Node>, b: seq<Node>)
    ensures FirstBaseAll(a + b) == if FirstBaseAll(a).Some? then FirstBaseAll(a) else FirstBaseAll(b)
  {
    if a == [] {
      assert a + b == b;
    } else {
      FirstBaseJoin(a[1..], b);
      assert (a + b)[1..] == a[1..] + b;
    }
  }

  function Size(n: Node): nat
    decreases n, 0
  {
    match n
    case Element(_, _, _, children, _) => 1 + SizeAll(children)
    case Document(children) => 1 + SizeAll(children)
    case _ => 1
  }

  function SizeAll(nodes: seq<Node>): nat
    decreases nodes, 1
  {
    if nodes == [] then 0 else Size(nodes[0]) + SizeAll(nodes[1..])
  }

  lemma {:induction false} SizeJoin(a: seq<Node>, b: seq<Node>)
    ensures SizeAll(a + b) == SizeAll(a) + SizeAll(b)
  {
    if a == [] {
      assert a + b == b;
    } else {
      SizeJoin(a[1..], b);
      assert (a + b)[1..] == a[1..] + b;
    }
  }

  function Backwards(s: seq<Node>): (r: seq<Node>)
    ensures |r| == |s|
  {
    if s == [] then [] else Backwards(s[1..]) + [s[0]]
  }

  lemma {:induction false} BackwardsSnoc(s: seq<Node>, n: Node)
    ensures Backwards(s + [n]) == [n] + Backwards(s)
  {
    if s == [] {
      assert s + [n] == [n] && [n][1..] == [];
    } else {
      BackwardsSnoc(s[1..], n);
      assert (s + [n])[1..] == s[1..] + [n];
    }
  }

  /** What a stack holds, read from its top. */
  lemma PopBase(stack: seq<Node>)
    requires stack != []
    ensures var top, below := stack[|stack| - 1], stack[..|stack| - 1];
            var left := Backwards(below);
            FirstBaseAll(Backwards(stack)) == (if FirstBase(top).Some? then FirstBase(top) else FirstBaseAll(left)) &&
            SizeAll(Backwards(stack)) == Size(top) + SizeAll(left)
  {
    var top, below := stack[|stack| - 1], stack[..|stack| - 1];
    assert stack == below + [top];
    BackwardsSnoc(below, top);
    assert ([top] + Backwards(below))[1..] == Backwards(below);
  }

  /** `first_base_href`: an explicit stack, children pushed last to first, so the
      first child is the next one looked at. */
  method FirstBaseHref(root: Node) returns (r: Option<string>)
    ensures r == FirstBase(root)
  {
    var stack := [root];
    assert [root][1..] == [] && [][..] == Backwards([]);
    PopBase(stack);
    while stack != []
      invariant FirstBaseAll(Backwards(stack)) == FirstBase(root)
      decreases SizeAll(Backwards(stack))
    {
      var node := stack[|stack| - 1];
      PopBase(stack);
      stack := stack[..|stack| - 1];
      if OwnBase(node).Some? {
        return OwnBase(node);
      }
      ghost var left := Backwards(stack);
      stack := PushReversed(stack, Children(node));
      FirstBaseJoin(Children(node), left);
      SizeJoin(Children(node), left);
    }
    return None;
  }

  /** `for c in children.iter().rev() { stack.push(c) }` */
  method PushReversed(stack: seq<Node>, children: seq<Node>) returns (r: seq<Node>)
    ensures Backwards(r) == children + Backwards(stack)
  {
    r := stack;
    for i := |children| downto 0
      invariant Backwards(r) == children[i..] + Backwards(stack)
    {
      BackwardsSnoc(r, children[i]);
      assert children[i..] == [children[i]] + children[i + 1..];
      r := r + [children[i]];
    }
  }
}
