/** Small documents built through the public operations, with what the node tree
    promises about them stated as postconditions. */
module Scenarios {

  import opened Names
  import opened Dom

  /** Appending an attribute twice under one name keeps a single attribute, the
      second one. */
  method ReplaceAttribute() returns (count: nat, value: Option<string>)
    ensures count == 1 && value == Some("43")
  {
    var doc := new Node.Document();
    var root := doc.AppendDocumentElement(QName("item", None));
    var first := root.AppendAttribute(QName("id", None), Some("42"));
    var second := root.AppendAttribute(QName("id", None), Some("43"));
    count := |root.attributes|;
    value := root.attributes[QName("id", None)].kind.value;
  }

  /** A child element with no context of its own finds the prefix its parent binds,
      finds nothing for a prefix nobody binds, and the source contexts, which
      nothing set, answer nothing. */
  method ResolveFromChild() returns (a: Option<string>, b: Option<string>, fromSource: Option<string>)
    ensures a == Some("urn:a") && b == None && fromSource == None
  {
    var doc := new Node.Document();
    var root := doc.AppendDocumentElement(QName("root", None));
    root.SetNamespaceContext(Some(NamespaceContext(map["a" := "urn:a"], map["urn:a" := "a"])));
    var child := root.AppendElement(QName("child", None));
    a, b, fromSource := ResolveUnder(child, root);
  }

  /** The three lookups of `ResolveFromChild`, on an element whose parent is the
      top element and binds `a`. */
  method ResolveUnder(child: Node, root: Node) returns (a: Option<string>, b: Option<string>, fromSource: Option<string>)
    requires root.kind.ElementNode? && root.Rooted() && root.parent != null && !root.parent.kind.ElementNode?
    requires root.context == Some(NamespaceContext(map["a" := "urn:a"], map["urn:a" := "a"]))
    requires root.sourceContext == None
    requires child.kind.ElementNode? && child.parent == root && child.Rooted()
    requires child.context == None && child.sourceContext == None
    ensures a == Some("urn:a") && b == None && fromSource == None
  {
    assert ElementChain(root) == [root];
    assert ElementChain(child) == [child, root];
    ghost var current := Contexts(ElementChain(child), Current);
    assert current == [None, root.context];
    a := child.ResolveURI("a");
    FirstAnswerIsNearest(current, URIForPrefix("a"));
    NearestAnswerIsUnique(current, URIForPrefix("a"), a, FirstAnswer(current, URIForPrefix("a")));
    b := child.ResolveURI("b");
    FirstAnswerIsNearest(current, URIForPrefix("b"));
    NearestAnswerIsUnique(current, URIForPrefix("b"), b, FirstAnswer(current, URIForPrefix("b")));
    ghost var source := Contexts(ElementChain(child), Source);
    assert source == [None, None];
    fromSource := child.ResolveURIFromSource("a");
    FirstAnswerIsNearest(source, URIForPrefix("a"));
    NearestAnswerIsUnique(source, URIForPrefix("a"), fromSource, FirstAnswer(source, URIForPrefix("a")));
  }

  /** Cloning a three-level element (root, attribute, child element, text under
      it) gives a parentless copy of the same shape made of other nodes, and
      leaves the original as it was. */
  method CloneThreeLevels() returns (root: Node, copy: Node)
    ensures root.kind == ElementNode(QName("root", None)) && |root.children| == 1
    ensures |root.children[0].children| == 1 && root.children[0].children[0].kind == TextNode("hi")
    ensures copy.parent == null && copy.kind == ElementNode(QName("root", None))
    ensures copy.attributes.Keys == {QName("id", None)}
    ensures copy.attributes[QName("id", None)].kind == AttributeNode(QName("id", None), Some("7"))
    ensures copy.attributes[QName("id", None)].parent == copy
    ensures |copy.children| == 1 && copy.children[0].parent == copy
    ensures copy.children[0].kind == ElementNode(QName("child", None))
    ensures |copy.children[0].children| == 1 && copy.children[0].children[0].parent == copy.children[0]
    ensures copy.children[0].children[0].kind == TextNode("hi")
    ensures copy != root && copy.children[0] != root.children[0]
    ensures copy.children[0].children[0] != root.children[0].children[0]
  {
    var child, text;
    root, child, text := BuildThreeLevels();
    copy := root.Clone();
    CopyOfThreeLevels(root, child, text, copy, root.home.nodes, copy.home.nodes);
  }

  /** A document whose root element holds one attribute and one child element,
      which holds one text node. */
  method BuildThreeLevels() returns (root: Node, child: Node, text: Node)
    ensures root.kind == ElementNode(QName("root", None))
    ensures root.home.Valid() && root in root.home.nodes && child in root.home.nodes - {root}
    ensures root.attributes.Keys == {QName("id", None)}
    ensures root.attributes[QName("id", None)].kind == AttributeNode(QName("id", None), Some("7"))
    ensures root.children == [child] && child.kind == ElementNode(QName("child", None))
    ensures child.children == [text] && text.kind == TextNode("hi")
  {
    root := BuildRootWithId();
    child := root.AppendElement(QName("child", None));
    text := child.AppendText("hi");
  }

  /** A document whose root element holds only the attribute `id`. */
  method BuildRootWithId() returns (root: Node)
    ensures fresh(root) && fresh(root.home)
    ensures root.kind == ElementNode(QName("root", None)) && root.Rooted()
    ensures root.home.Valid() && root in root.home.nodes && root.children == []
    ensures root.attributes.Keys == {QName("id", None)}
    ensures root.attributes[QName("id", None)].kind == AttributeNode(QName("id", None), Some("7"))
  {
    var doc := new Node.Document();
    root := doc.AppendDocumentElement(QName("root", None));
    var id := root.AppendAttribute(QName("id", None), Some("7"));
  }

  /** What `Copied` says of a copy of the element `root` holding one attribute and
      the element `child`, which holds the text node `text`. */
  lemma CopyOfThreeLevels(root: Node, child: Node, text: Node, copy: Node, S: set<Node>, R: set<Node>)
    requires root.kind == ElementNode(QName("root", None)) && root in S
    requires root.attributes.Keys == {QName("id", None)}
    requires root.attributes[QName("id", None)].kind == AttributeNode(QName("id", None), Some("7"))
    requires root.children == [child] && child.kind == ElementNode(QName("child", None)) && child in S - {root}
    requires child.children == [text] && text.kind == TextNode("hi")
    requires Copied(root, copy, S, R)
    ensures copy.kind == ElementNode(QName("root", None))
    ensures copy.attributes.Keys == {QName("id", None)}
    ensures copy.attributes[QName("id", None)].kind == AttributeNode(QName("id", None), Some("7"))
    ensures copy.attributes[QName("id", None)].parent == copy
    ensures |copy.children| == 1 && copy.children[0].parent == copy
    ensures copy.children[0].kind == ElementNode(QName("child", None))
    ensures |copy.children[0].children| == 1 && copy.children[0].children[0].parent == copy.children[0]
    ensures copy.children[0].children[0].kind == TextNode("hi")
  {
    assert Copied(child, copy.children[0], S - {root}, R);
    assert Copied(text, copy.children[0].children[0], S - {root} - {child}, R);
  }

  /** Cloning an element with two equal text children gives two distinct copied
      children, each held once. */
  method CloneTwinTexts() returns (copy: Node)
    ensures copy.kind == ElementNode(QName("pair", None)) && |copy.children| == 2
    ensures copy.children[0] != copy.children[1]
    ensures copy.children[0].kind == TextNode("x") && copy.children[1].kind == TextNode("x")
  {
    var doc := new Node.Document();
    var root := doc.AppendDocumentElement(QName("pair", None));
    var first := root.AppendText("x");
    var second := root.AppendText("x");
    copy := root.Clone();
    TwinCopies(root, copy, root.home.nodes, copy.home);
  }

  /** What `Copied` and the copy's valid tree say of a copy of an element holding
      two text nodes with the same text. */
  lemma TwinCopies(root: Node, copy: Node, S: set<Node>, t: Tree)
    requires root.kind.ElementNode? && root in S && |root.children| == 2
    requires root.children[0].kind == TextNode("x") && root.children[1].kind == TextNode("x")
    requires Copied(root, copy, S, t.nodes) && t.Valid()
    ensures copy.kind == root.kind && |copy.children| == 2
    ensures copy.children[0] != copy.children[1]
    ensures copy.children[0].kind == TextNode("x") && copy.children[1].kind == TextNode("x")
  {
  }

  /** `parentDocument()` from a text node two levels down finds the document. */
  method FindDocument() returns (found: bool)
    ensures found
  {
    var doc := new Node.Document();
    var root := doc.AppendDocumentElement(QName("root", None));
    var text := root.AppendText("body");
    assert Ancestry(doc) == [doc];
    assert Ancestry(root) == [root, doc];
    assert Ancestry(text) == [text, root, doc];
    var d := text.ParentDocument();
    found := d == doc;
  }

  /** Reading a document's namespace context twice gives the same context, and
      the second read leaves the root's context as the first read left it. */
  method ReadContextTwice(doc: Node) returns (c1: NamespaceContext, c2: NamespaceContext)
    requires doc.kind.DocumentNode?
    modifies (if doc.documentElement == null then {} else {doc.documentElement})`context
    ensures c1 == c2
    ensures doc.documentElement != null ==> doc.documentElement.context == Some(c1)
  {
    c1 := doc.DocumentNamespaceContext();
    ghost var afterFirst := if doc.documentElement == null then None else doc.documentElement.context;
    c2 := doc.DocumentNamespaceContext();
    assert doc.documentElement != null ==> doc.documentElement.context == afterFirst;
  }

  /** A document built only through the append operations passes the sanity check. */
  method BuiltDocumentIsSane() returns (doc: Node)
    ensures doc.kind.DocumentNode? && |doc.children| == 1 && |doc.children[0].children| == 2
    ensures doc.SanityCheck(doc.home.nodes)
  {
    doc := new Node.Document();
    var root := doc.AppendDocumentElement(QName("root", None));
    var child := root.AppendElement(QName("child", None));
    var id := child.AppendAttribute(QName("id", None), None);
    var text := root.AppendText("body");
    ValidTreePassesSanityCheck(doc.home, doc);
  }
}
