/** What of a parsed document is written, node by node, and which base counts, in
    terms of the list of all its nodes. */
module DomLaws {
  import opened Options
  import opened DomTree
  import opened DomScripts
  import opened DomPage

  // ---- nodes and their trees ----------------------------------------------------------------

  /** Only documents and processing instruction nodes are dropped. */
  lemma DroppedExactly(n: Node)
    ensures Kept(n).None? <==> n.Document? || n.Instruction?
  {
  }

  /** Texts and doctypes keep what they say. */
  lemma LeavesKept(n: Node, text: string, name: string, publicId: string, systemId: string)
    ensures Kept(n) == Some(T(text)) <==> n == TextNode(text)
    ensures Kept(n) == Some(D(name, publicId, systemId)) <==> n == Doctype(name, publicId, systemId)
  {
  }

  lemma {:induction false} NulSplits(s: string, a: string, b: string)
    ensures SplitNul(s) == Some((a, b)) <==> s == a + "\0" + b && '\0' !in a
    ensures SplitNul(s).None? <==> '\0' !in s
  {
    if s != "" {
      assert s == [s[0]] + s[1..];
      if s[0] == '\0' {
        assert s == "" + "\0" + s[1..];
        assert a != "" && s == a + "\0" + b ==> a[0] == s[0] && a[0] in a;
      } else {
        NulSplits(s[1..], if a == "" then a else a[1..], b);
        if a != "" {
          assert a == [a[0]] + a[1..];
          assert s == a + "\0" + b <==> s[0] == a[0] && s[1..] == a[1..] + "\0" + b by {
            assert (a + "\0" + b)[0] == a[0] && (a + "\0" + b)[1..] == a[1..] + "\0" + b;
            assert a + "\0" + b == [a[0]] + (a[1..] + "\0" + b);
          }
        } else {
          assert (a + "\0" + b)[0] == '\0';
        }
      }
    }
  }

  /** A comment is a processing instruction exactly when it is a NUL, a target, a NUL
      and data. */
  lemma CommentKept(contents: string, target: string, data: string)
    ensures Kept(Comment(contents)) == Some(P(target, data)) <==>
            contents == "\0" + target + "\0" + data && '\0' !in target
    ensures Kept(Comment(contents)) == Some(C(contents)) <==>
            !(contents != "" && contents[0] == '\0' && '\0' in contents[1..])
  {
    if contents != "" && contents[0] == '\0' {
      NulSplits(contents[1..], target, data);
      assert contents == "\0" + contents[1..];
      assert "\0" + target + "\0" + data == "\0" + (target + "\0" + data);
    }
  }

  /** An element keeps its name, a namespace other than HTML's, every attribute in
      its place, and what is kept of its children, or of its template's contents. */
  lemma ElementKept(n: Node)
    requires n.Element?
    ensures var t := Kept(n).value;
            Kept(n).Some? && t.E? && t.tag == n.local && t.ns == (if n.ns == HTML then "" else n.ns) &&
            t.children == KeptAll(if n.template.Template? then n.template.contents else n.children) &&
            |t.attrs| == |n.attrs| &&
            forall i :: 0 <= i < |n.attrs| ==>
              t.attrs[i].value == n.attrs[i].value && t.attrs[i].ns == n.attrs[i].ns &&
              t.attrs[i].name == if n.attrs[i].prefix.Some? && n.attrs[i].prefix.value != ""
                                 then n.attrs[i].prefix.value + ":" + n.attrs[i].local else n.attrs[i].local
  {
    forall i | 0 <= i < |n.attrs|
      ensures NamedAttrs(n.attrs)[i] == Named(QualifiedName(n.attrs[i]), n.attrs[i].value, n.attrs[i].ns)
    {
      AttrInPlace(n.attrs, i);
    }
  }

  lemma {:induction false} AttrInPlace(attrs: seq<Attr>, i: nat)
    requires i < |attrs|
    ensures NamedAttrs(attrs)[i] == Named(QualifiedName(attrs[i]), attrs[i].value, attrs[i].ns)
  {
    if i > 0 {
      AttrInPlace(attrs[1..], i - 1);
    }
  }

  /** Of a list without documents and instruction nodes every node is kept, in its
      place. */
  lemma {:induction false} NothingDropped(nodes: seq<Node>)
    requires forall n :: n in nodes ==> !n.Document? && !n.Instruction?
    ensures |KeptAll(nodes)| == |nodes| && forall i :: 0 <= i < |nodes| ==> Kept(nodes[i]) == Some(KeptAll(nodes)[i])
  {
    hide Kept, KeptAll;
    NoneKept();
    if nodes != [] {
      NothingDropped(nodes[1..]);
      KeptCons(nodes);
      assert nodes[0] in nodes;
      DroppedExactly(nodes[0]);
      var all, left := KeptAll(nodes), KeptAll(nodes[1..]);
      forall i | 0 <= i < |nodes|
        ensures Kept(nodes[i]) == Some(all[i])
      {
        if i > 0 {
          assert all[i] == all[1..][i - 1] && nodes[i] == nodes[1..][i - 1];
        }
      }
    }
  }

  // ---- the base -------------------------------------------------------------------------------

  /** A node, and then all that is below it, in tree order. */
  function Preorder(n: Node): seq<Node>
    decreases n, 0
  {
    [n] + match n
          case Element(_, _, _, children, _) => PreorderAll(children)
          case Document(children) => PreorderAll(children)
          case _ => []
  }

  function PreorderAll(nodes: seq<Node>): seq<Node>
    decreases nodes, 1
  {
    if nodes == [] then [] else Preorder(nodes[0]) + PreorderAll(nodes[1..])
  }

  /** An HTML base element with this address. */
  predicate IsBase(n: Node, href: string) {
    n.Element? && n.local == "base" && (n.ns == "" || n.ns == HTML) && ValueOf(n.attrs, "href") == Some(href)
  }

  /** The first base of a list of nodes. */
  ghost predicate FirstIs(nodes: seq<Node>, r: Option<string>) {
    match r
    case None => forall m, href :: m in nodes ==> !IsBase(m, href)
    case Some(h) => exists i: nat :: BaseAt(nodes, i, h)
  }

  ghost predicate BaseAt(nodes: seq<Node>, i: nat, h: string) {
    i < |nodes| && IsBase(nodes[i], h) && forall j, href :: 0 <= j < i ==> !IsBase(nodes[j], href)
  }

  lemma FirstIsJoin(a: seq<Node>, b: seq<Node>, r: Option<string>, q: Option<string>)
    requires FirstIs(a, r) && FirstIs(b, q)
    ensures FirstIs(a + b, if r.Some? then r else q)
  {
    hide IsBase;
    if r.Some? {
      var i: nat :| BaseAt(a, i, r.value);
      assert BaseAt(a + b, i, r.value);
    } else if q.Some? {
      var i: nat :| BaseAt(b, i, q.value);
      forall j, href | 0 <= j < |a| + i
        ensures !IsBase((a + b)[j], href)
      {
        if j < |a| {
          assert a[j] in a;
        } else {
          assert (a + b)[j] == b[j - |a|];
        }
      }
      assert BaseAt(a + b, |a| + i, q.value);
    }
  }

  lemma OwnIsFirst(n: Node)
    ensures FirstIs([n], OwnBase(n))
  {
    if OwnBase(n).Some? {
      assert BaseAt([n], 0, OwnBase(n).value);
    }
  }

  /** The base found is that of the first node in tree order that is one. */
  lemma {:induction false} FirstBaseInOrder(n: Node)
    ensures FirstIs(Preorder(n), FirstBase(n))
    decreases n, 0
  {
    hide FirstIs, OwnBase;
    OwnIsFirst(n);
    if n.Element? || n.Document? {
      FirstBasesInOrder(n.children);
      FirstIsJoin([n], PreorderAll(n.children), OwnBase(n), FirstBaseAll(n.children));
    } else {
      assert Preorder(n) == [n];
      LeafHasNoBase(n);
    }
  }

  lemma LeafHasNoBase(n: Node)
    requires !n.Element?
    ensures OwnBase(n) == None
  {
  }

  lemma {:induction false} FirstBasesInOrder(nodes: seq<Node>)
    ensures FirstIs(PreorderAll(nodes), FirstBaseAll(nodes))
    decreases nodes, 1
  {
    hide Preorder, FirstBase, IsBase;
    if nodes != [] {
      FirstBaseInOrder(nodes[0]);
      FirstBasesInOrder(nodes[1..]);
      FirstIsJoin(Preorder(nodes[0]), PreorderAll(nodes[1..]), FirstBase(nodes[0]), FirstBaseAll(nodes[1..]));
    }
  }
}
