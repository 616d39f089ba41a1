/** The in-memory XML node tree of DOM.swift.

    The Swift class hierarchy (Node, NamedNode, Attribute, Element, TextNode,
    CDATANode, CommentNode, ProcessingInstruction, Document) becomes one class
    `Node` whose constant `kind` tells the variant apart and carries the variant's
    immutable payload; the `as? Document` and `as? Element` casts become tests on
    `kind`.

    Two pieces of ghost bookkeeping stand beside the Swift fields:
    - `depth`, fixed at construction, strictly larger than the parent's; the
      predicate `Rooted()` says so all the way up, which makes every parent chain
      finite (the Swift code relies on this: `parentNode` is a `let` given a node
      that already exists);
    - `home`, the `Tree` a node was built into: a set of nodes closed under
      children and attributes in which every member is the parent of what it
      holds. The append operations and the clones keep their tree valid, and a
      valid tree passes the sanity check. */
module Dom {

  import opened Names

  /** The variant of a node together with its immutable payload. */
  datatype Kind =
    | PlainNode
    | NamedNode(name: QName)
    | AttributeNode(name: QName, value: Option<string>)
    | ElementNode(name: QName)
    | TextNode(text: string)
    | CDATANode(text: string)
    | CommentNode(text: string)
    | ProcessingInstruction(target: string, data: string)
    | DocumentNode

  /** The variant `clone(parent:)` builds: every variant but Document overrides it
      and copies its payload; Document falls back to the plain Node version. */
  function ReparentedKind(k: Kind): (r: Kind)
    ensures !k.DocumentNode? ==> r == k
    ensures k.DocumentNode? ==> r == PlainNode
  {
    if k.DocumentNode? then PlainNode else k
  }

  /** The variant `clone()` builds: only NamedNode, Attribute and Element override
      it; every other variant falls back to the plain Node version. */
  function DetachedKind(k: Kind): (r: Kind)
    ensures r == k || r == PlainNode
    ensures r == k <==> k.PlainNode? || k.NamedNode? || k.AttributeNode? || k.ElementNode?
  {
    match k
    case NamedNode(_) => k
    case AttributeNode(_, _) => k
    case ElementNode(_) => k
    case _ => PlainNode
  }

  /** The two copies of a node differ exactly for the leaf variants, which keep
      their payload under `clone(parent:)` and lose it under `clone()`. */
  lemma DetachedCopyLosesLeafPayload(k: Kind)
    ensures DetachedKind(k) != ReparentedKind(k) <==>
      k.TextNode? || k.CDATANode? || k.CommentNode? || k.ProcessingInstruction?
  {
  }

  /** Which of an element's two namespace contexts a resolution walk consults. */
  datatype Track = Current | Source

  /** What a resolution walk looks up in each context. */
  datatype Query = URIForPrefix(prefix: string) | PrefixForURI(uri: string)

  /** One context's answer to a query; an absent context binds nothing. */
  function Lookup(ctx: Option<NamespaceContext>, q: Query): (r: Option<string>)
    ensures ctx.None? ==> r.None?
    ensures ctx.Some? && q.URIForPrefix? ==> (r.Some? <==> q.prefix in ctx.value.uris)
    ensures ctx.Some? && q.PrefixForURI? ==> (r.Some? <==> q.uri in ctx.value.prefixes)
  {
    match ctx
    case None => None
    case Some(c) =>
      match q
      case URIForPrefix(p) => if p in c.uris then Some(c.uris[p]) else None
      case PrefixForURI(u) => if u in c.prefixes then Some(c.prefixes[u]) else None
  }

  /** A set of nodes built together: the nodes of one document, or of one copy. */
  class Tree {
    ghost var nodes: set<Node>

    ghost constructor ()
      ensures nodes == {}
    {
      nodes := {};
    }

    /** Every member lives in this tree, has a finite parent chain, and holds only
        members as children and attributes, each naming it as parent. */
    ghost predicate Valid()
      reads this, nodes
    {
      forall x :: x in nodes ==> x.home == this && x.Rooted() && x.Owns(nodes)
    }
  }

  class Node {
    const kind: Kind
    const parent: Node?
    ghost const depth: nat
    ghost const home: Tree

    var children: seq<Node>
    /** Used by elements only: attributes keyed by qualified name. */
    var attributes: map<QName, Node>
    /** Used by elements only: the bindings as parsed. */
    var sourceContext: Option<NamespaceContext>
    /** Used by elements only: the bindings currently in effect. */
    var context: Option<NamespaceContext>
    /** Used by documents only: the root element. */
    var documentElement: Node?

    /** The parent chain is finite: depths strictly decrease towards its top. */
    ghost predicate Rooted()
      decreases depth
    {
      parent != null ==> parent.depth < depth && parent.Rooted()
    }

    /** Everything this node holds is in `nodes` and has this node as parent;
        each attribute is an Attribute stored under its own name; no node is held
        in two places (two positions of `children`, or a child and an attribute). */
    ghost predicate Owns(nodes: set<Node>)
      reads this
    {
      (forall c :: c in children ==> c in nodes && c.parent == this) &&
      (forall i, j :: 0 <= i < j < |children| ==> children[i] != children[j]) &&
      (forall k :: k in attributes ==>
        attributes[k] in nodes && attributes[k].parent == this &&
        attributes[k].kind.AttributeNode? && attributes[k].kind.name == k &&
        attributes[k] !in children)
    }

    /** A node of the given variant under `parent`, with no children, no
        attributes and no namespace contexts (the initializers of every variant). */
    constructor (kind: Kind, parent: Node?, ghost tree: Tree)
      requires parent != null ==> parent.Rooted()
      ensures this.kind == kind && this.parent == parent && home == tree && Rooted()
      ensures children == [] && attributes == map[] && documentElement == null
      ensures sourceContext == None && context == None
    {
      this.kind := kind;
      this.parent := parent;
      depth := if parent == null then 0 else parent.depth + 1;
      home := tree;
      children := [];
      attributes := map[];
      sourceContext := None;
      context := None;
      documentElement := null;
    }

    /** `Document()`: an empty document with no root, alone in a new tree. */
    constructor Document()
      ensures kind == DocumentNode && parent == null && Rooted()
      ensures children == [] && attributes == map[] && documentElement == null && SingleRoot()
      ensures sourceContext == None && context == None
      ensures fresh(home) && home.nodes == {this} && home.Valid()
    {
      kind := DocumentNode;
      parent := null;
      depth := 0;
      home := new Tree();
      children := [];
      attributes := map[];
      sourceContext := None;
      context := None;
      documentElement := null;
      new;
      home.nodes := {this};
    }

    /** `name()`: the qualified name of the named variants, nothing for the others. */
    function Name(): (r: Option<QName>)
      ensures r.Some? <==> kind.NamedNode? || kind.AttributeNode? || kind.ElementNode?
      ensures r.Some? ==> r.value == kind.name
    {
      match kind
      case NamedNode(n) => Some(n)
      case AttributeNode(n, _) => Some(n)
      case ElementNode(n) => Some(n)
      case _ => None
    }

    /** `parentDocument()`: the first Document on the chain that starts at this
        node, or null when the chain ends without one. */
    method ParentDocument() returns (d: Node?)
      requires Rooted()
      ensures kind.DocumentNode? ==> d == this
      ensures d == null <==> forall i :: 0 <= i < |Ancestry(this)| ==> !Ancestry(this)[i].kind.DocumentNode?
      ensures d != null ==>
        d.kind.DocumentNode? &&
        exists i :: 0 <= i < |Ancestry(this)| && Ancestry(this)[i] == d &&
          forall j :: 0 <= j < i ==> !Ancestry(this)[j].kind.DocumentNode?
    {
      ghost var chain := Ancestry(this);
      ghost var i := 0;
      var node: Node? := this;
      while node != null
        invariant 0 <= i <= |chain|
        invariant node != null ==> node.Rooted() && chain[i..] == Ancestry(node)
        invariant node == null ==> i == |chain|
        invariant forall j :: 0 <= j < i ==> !chain[j].kind.DocumentNode?
        decreases |chain| - i
      {
        if node.kind.DocumentNode? {
          return node;
        }
        node := node.parent;
        i := i + 1;
      }
      return null;
    }

    /** `sanityCheck()`: every child names this node as its parent, and passes the
        check in turn. Only children are visited, never attributes. `S` holds the
        nodes the walk may still visit; it bounds the walk. */
    ghost predicate SanityCheck(S: set<Node>)
      reads S
      decreases S
      ensures SanityCheck(S) ==> forall c :: c in children ==> c.parent == this && c in S && c != this
    {
      this in S &&
      forall c :: c in children ==> c.parent == this && c.SanityCheck(S - {this})
    }

    /** `Element.appendElement(_:)`: a new empty element under this one, added
        after the existing children. */
    method AppendElement(name: QName) returns (e: Node)
      requires kind.ElementNode? && Rooted()
      modifies this`children, home`nodes
      ensures children == old(children) + [e]
      ensures fresh(e) && e.parent == this && e.kind == ElementNode(name) && e.home == home
      ensures e.children == [] && e.attributes == map[] && e.context == None && e.sourceContext == None
      ensures attributes == old(attributes)
      ensures home.nodes == old(home.nodes) + {e}
      ensures old(home.Valid()) ==> home.Valid()
    {
      e := new Node(ElementNode(name), this, home);
      children := children + [e];
      home.nodes := home.nodes + {e};
      if old(home.Valid()) {
        forall x | x in home.nodes
          ensures x.home == home && x.Rooted() && x.Owns(home.nodes)
        {
          if x != e && x != this {
            OwnsGrows(x, old(home.nodes), home.nodes);
          }
        }
      }
    }

    /** `Element.appendText(_:)`: a new text node under this element, added after
        the existing children. */
    method AppendText(text: string) returns (n: Node)
      requires kind.ElementNode? && Rooted()
      modifies this`children, home`nodes
      ensures children == old(children) + [n]
      ensures fresh(n) && n.parent == this && n.kind == TextNode(text) && n.home == home
      ensures n.children == [] && n.attributes == map[]
      ensures attributes == old(attributes)
      ensures home.nodes == old(home.nodes) + {n}
      ensures old(home.Valid()) ==> home.Valid()
    {
      n := new Node(TextNode(text), this, home);
      children := children + [n];
      home.nodes := home.nodes + {n};
      if old(home.Valid()) {
        forall x | x in home.nodes
          ensures x.home == home && x.Rooted() && x.Owns(home.nodes)
        {
          if x != n && x != this {
            OwnsGrows(x, old(home.nodes), home.nodes);
          }
        }
      }
    }

    /** `Element.appendAttribute(_:withValue:)` (value `Some`) and
        `Element.appendAttribute(_:)` (value `None`): a new attribute stored under
        its name, replacing any attribute stored under that name before. */
    method AppendAttribute(name: QName, value: Option<string>) returns (a: Node)
      requires kind.ElementNode? && Rooted()
      modifies this`attributes, home`nodes
      ensures attributes == old(attributes)[name := a]
      ensures attributes.Keys == old(attributes).Keys + {name}
      ensures fresh(a) && a.parent == this && a.kind == AttributeNode(name, value) && a.home == home
      ensures a.children == [] && a.attributes == map[]
      ensures children == old(children)
      ensures home.nodes == old(home.nodes) + {a}
      ensures old(home.Valid()) ==> home.Valid()
    {
      a := new Node(AttributeNode(name, value), this, home);
      attributes := attributes[name := a];
      home.nodes := home.nodes + {a};
      if old(home.Valid()) {
        forall x | x in home.nodes
          ensures x.home == home && x.Rooted() && x.Owns(home.nodes)
        {
          if x != a && x != this {
            OwnsGrows(x, old(home.nodes), home.nodes);
          }
        }
      }
    }

    /** Assignment to an element's `namespaceContext`. It leaves every element's
        source-context resolution as it was. */
    method SetNamespaceContext(c: Option<NamespaceContext>)
      requires kind.ElementNode?
      modifies this`context
      ensures context == c
      ensures forall x: Node, q: Query ::
        old(allocated(x)) && x.Rooted() && x.kind.ElementNode? ==>
          FirstAnswer(Contexts(ElementChain(x), Source), q) == old(FirstAnswer(Contexts(ElementChain(x), Source), q))
    {
      context := c;
      TrackUnaffected(Source);
    }

    /** Assignment to an element's `sourceNamespaceContext`. It leaves every
        element's current-context resolution as it was. */
    method SetSourceNamespaceContext(c: Option<NamespaceContext>)
      requires kind.ElementNode?
      modifies this`sourceContext
      ensures sourceContext == c
      ensures forall x: Node, q: Query ::
        old(allocated(x)) && x.Rooted() && x.kind.ElementNode? ==>
          FirstAnswer(Contexts(ElementChain(x), Current), q) == old(FirstAnswer(Contexts(ElementChain(x), Current), q))
    {
      sourceContext := c;
      TrackUnaffected(Current);
    }

    /** The walk shared by the four resolution operations: from this element up
        through the parents for as long as they are elements, the first context
        (of the given track) that answers the query wins. */
    method Resolve(t: Track, q: Query) returns (r: Option<string>)
      requires kind.ElementNode? && Rooted()
      ensures r == FirstAnswer(Contexts(ElementChain(this), t), q)
      ensures IsNearestAnswer(Contexts(ElementChain(this), t), q, r)
    {
      var e: Node? := this;
      while e != null
        invariant e != null ==>
          e.kind.ElementNode? && e.Rooted() &&
          FirstAnswer(Contexts(ElementChain(this), t), q) == FirstAnswer(Contexts(ElementChain(e), t), q)
        invariant e == null ==> FirstAnswer(Contexts(ElementChain(this), t), q) == None
        decreases if e == null then 0 else e.depth + 1
      {
        FirstAnswerStep(e, t, q);
        var found := Lookup(ContextOf(e, t), q);
        if found.Some? {
          r := found;
          FirstAnswerIsNearest(Contexts(ElementChain(this), t), q);
          return;
        }
        e := if e.parent != null && e.parent.kind.ElementNode? then e.parent else null;
      }
      r := None;
      FirstAnswerIsNearest(Contexts(ElementChain(this), t), q);
    }

    /** `resolveURI(forPrefix:)`, on the current contexts. */
    method ResolveURI(prefix: string) returns (uri: Option<string>)
      requires kind.ElementNode? && Rooted()
      ensures IsNearestAnswer(Contexts(ElementChain(this), Current), URIForPrefix(prefix), uri)
    {
      uri := Resolve(Current, URIForPrefix(prefix));
    }

    /** `resolvePrefix(forURI:)`, on the current contexts. */
    method ResolvePrefix(uri: string) returns (prefix: Option<string>)
      requires kind.ElementNode? && Rooted()
      ensures IsNearestAnswer(Contexts(ElementChain(this), Current), PrefixForURI(uri), prefix)
    {
      prefix := Resolve(Current, PrefixForURI(uri));
    }

    /** `resolveURIFromSource(forPrefix:)`, on the source contexts. */
    method ResolveURIFromSource(prefix: string) returns (uri: Option<string>)
      requires kind.ElementNode? && Rooted()
      ensures IsNearestAnswer(Contexts(ElementChain(this), Source), URIForPrefix(prefix), uri)
    {
      uri := Resolve(Source, URIForPrefix(prefix));
    }

    /** `resolvePrefixFromSource(forURI:)`, on the source contexts. */
    method ResolvePrefixFromSource(uri: string) returns (prefix: Option<string>)
      requires kind.ElementNode? && Rooted()
      ensures IsNearestAnswer(Contexts(ElementChain(this), Source), PrefixForURI(uri), prefix)
    {
      prefix := Resolve(Source, PrefixForURI(uri));
    }

    /** Builds into `t` the copy `clone(parent: p)` makes of this node: for an
        element, a new element whose attributes and children are copied in turn
        under it; for any other variant, a single node of `ReparentedKind`.
        `S` bounds the walk over the original, as in `SanityCheck`; `R` is the set
        of nodes built. */
    method CopyInto(p: Node?, ghost t: Tree, ghost S: set<Node>) returns (copy: Node, ghost R: set<Node>)
      requires p != null ==> p.Rooted()
      requires t != home && t.Valid()
      requires kind.ElementNode? ==> SanityCheck(S) && home.Valid() && this in home.nodes
      modifies t`nodes
      decreases S, 3
      ensures fresh(copy) && copy.parent == p && copy.home == t
      ensures fresh(R) && copy in R && t.nodes == old(t.nodes) + R && t.Valid()
      ensures Copied(this, copy, S, R)
    {
      copy := NewMember(ReparentedKind(kind), p, t);
      if !kind.ElementNode? {
        R := {copy};
        return;
      }
      ghost var made := CopyContentsTo(copy, t, S);
      R := {copy} + made;
    }

    /** The two loops of `Element.clone(parent:)`: the attributes, then the
        children, are copied under `copy`, a new empty element of the same name. */
    method CopyContentsTo(copy: Node, ghost t: Tree, ghost S: set<Node>) returns (ghost made: set<Node>)
      requires kind.ElementNode? && SanityCheck(S) && home.Valid() && this in home.nodes
      requires copy.kind == kind && copy.context == None && copy.sourceContext == None
      requires copy in t.nodes && copy !in S && copy.attributes == map[] && copy.children == [] && copy.Rooted()
      requires t != home && t.Valid()
      modifies copy`attributes, copy`children, t`nodes
      decreases S, 2
      ensures fresh(made) && copy !in made && t.nodes == old(t.nodes) + made && t.Valid()
      ensures Copied(this, copy, S, {copy} + made)
    {
      ghost var copiedAttributes := CopyAttributesTo(copy, t);
      ghost var kids := CopyChildrenTo(copy, t, S);
      made := copiedAttributes + kids;
      CopiedAllGrows(children, copy.children, copy, S - {this}, kids, {copy} + made);
    }

    /** The attribute loop of `Element.clone(parent:)`: each attribute is copied
        (`Attribute.clone(parent:)`) under `copy` and stored under the same key. */
    method CopyAttributesTo(copy: Node, ghost t: Tree) returns (ghost made: set<Node>)
      requires kind.ElementNode? && home.Valid() && this in home.nodes
      requires copy in t.nodes && copy.attributes == map[] && copy.children == [] && copy.Rooted()
      requires t != home && t.Valid()
      modifies copy`attributes, t`nodes
      ensures copy.attributes.Keys == attributes.Keys
      ensures forall k :: k in copy.attributes ==>
        copy.attributes[k] in made && copy.attributes[k].parent == copy &&
        copy.attributes[k].kind == attributes[k].kind
      ensures fresh(made) && t.nodes == old(t.nodes) + made && t.Valid()
    {
      var copies;
      copies, made := CopyAttributeNodes(copy, t);
      copy.attributes := copies;
      forall x | x in t.nodes
        ensures x.home == t && x.Rooted() && x.Owns(t.nodes)
      {
      }
    }

    /** The copies `CopyAttributesTo` stores, keyed as the originals: new
        attributes with the same names and values, each with `copy` as parent. */
    method CopyAttributeNodes(copy: Node, ghost t: Tree) returns (copies: map<QName, Node>, ghost made: set<Node>)
      requires kind.ElementNode? && copy.Rooted() && t.Valid()
      modifies t`nodes
      ensures copies.Keys == attributes.Keys
      ensures forall k :: k in copies ==>
        copies[k] in made && copies[k].parent == copy && copies[k].kind == attributes[k].kind
      ensures fresh(made) && t.nodes == old(t.nodes) + made && t.Valid()
    {
      made := {};
      copies := map[];
      var keys := attributes.Keys;
      while keys != {}
        invariant keys <= attributes.Keys
        invariant copies.Keys == attributes.Keys - keys
        invariant forall k :: k in copies ==>
          copies[k] in made && copies[k].parent == copy && copies[k].kind == attributes[k].kind
        invariant fresh(made) && t.nodes == old(t.nodes) + made && t.Valid()
        decreases keys
      {
        var k :| k in keys;
        var a := NewMember(attributes[k].kind, copy, t);
        copies := copies[k := a];
        made := made + {a};
        keys := keys - {k};
      }
    }

    /** The child loop of `Element.clone(parent:)`: each child is copied, in
        order, under `copy` and appended to its children. */
    method CopyChildrenTo(copy: Node, ghost t: Tree, ghost S: set<Node>) returns (ghost kids: set<Node>)
      requires kind.ElementNode? && SanityCheck(S) && home.Valid() && this in home.nodes
      requires copy in t.nodes && copy !in S && copy.children == [] && copy.Rooted()
      requires t != home && t.Valid()
      modifies copy`children, t`nodes
      decreases S, 1
      ensures CopiedAll(children, copy.children, copy, S - {this}, kids)
      ensures fresh(kids) && copy !in kids && t.nodes == old(t.nodes) + kids && t.Valid()
    {
      var copies;
      copies, kids := CopyChildNodes(copy, t, S);
      copy.children := copies;
      forall x | x in t.nodes
        ensures x.home == t && x.Rooted() && x.Owns(t.nodes)
      {
      }
    }

    /** The copies `CopyChildrenTo` stores, in the children's order: one new
        copy per child, each with `copy` as parent, no two the same node. */
    method CopyChildNodes(copy: Node, ghost t: Tree, ghost S: set<Node>) returns (copies: seq<Node>, ghost kids: set<Node>)
      requires kind.ElementNode? && SanityCheck(S) && home.Valid() && this in home.nodes
      requires copy.Rooted() && t != home && t.Valid()
      modifies t`nodes
      decreases S, 0
      ensures CopiedAll(children, copies, copy, S - {this}, kids)
      ensures forall j :: 0 <= j < |copies| ==> copies[j] in kids
      ensures forall j, l :: 0 <= j < l < |copies| ==> copies[j] != copies[l]
      ensures fresh(kids) && t.nodes == old(t.nodes) + kids && t.Valid()
    {
      kids := {};
      copies := [];
      var i := 0;
      while i < |children|
        invariant 0 <= i <= |children| && |copies| == i
        invariant CopiedAll(children[..i], copies, copy, S - {this}, kids)
        invariant fresh(kids) && t.nodes == old(t.nodes) + kids && t.Valid()
        invariant forall j :: 0 <= j < i ==> copies[j] in kids
        invariant forall j, l :: 0 <= j < l < i ==> copies[j] != copies[l]
      {
        var c;
        ghost var made;
        c, made := children[i].CopyInto(copy, t, S - {this});
        assert c !in kids;
        CopiesExtend(children[..i + 1], copies, c, copy, S - {this}, kids, made);
        assert children[..i + 1][..i] == children[..i];
        copies := copies + [c];
        kids := kids + made;
        i := i + 1;
      }
      assert children[..i] == children;
    }

    /** `clone()`: a copy with no parent. An element is copied deeply; a named node
        or an attribute keeps its name and value; every other variant, which does
        not override `clone()`, yields a plain node. */
    method Clone() returns (copy: Node)
      requires kind.ElementNode? ==> home.Valid() && this in home.nodes
      ensures fresh(copy) && copy.parent == null && copy.kind == DetachedKind(kind)
      ensures fresh(copy.home) && fresh(copy.home.nodes) && copy in copy.home.nodes && copy.home.Valid()
      ensures kind.ElementNode? ==> Copied(this, copy, home.nodes, copy.home.nodes)
      ensures !kind.ElementNode? ==>
        copy.children == [] && copy.attributes == map[] && copy.context == None && copy.sourceContext == None
    {
      ghost var t := new Tree();
      if kind.ElementNode? {
        ValidTreePassesSanityCheck(home, this);
        ghost var made;
        copy, made := CopyInto(null, t, home.nodes);
        assert t.nodes == made;
      } else {
        copy := new Node(DetachedKind(kind), null, t);
        t.nodes := {copy};
      }
    }

    /** `clone(parent:)`: a copy whose parent is `p`; an element's attributes and
        children are copied under the copy, not under `p`. */
    method CloneUnder(p: Node) returns (copy: Node)
      requires p.Rooted()
      requires kind.ElementNode? ==> home.Valid() && this in home.nodes
      ensures fresh(copy) && copy.parent == p
      ensures fresh(copy.home) && fresh(copy.home.nodes) && copy in copy.home.nodes && copy.home.Valid()
      ensures Copied(this, copy, home.nodes, copy.home.nodes)
    {
      ghost var t := new Tree();
      if kind.ElementNode? {
        ValidTreePassesSanityCheck(home, this);
      }
      ghost var made;
      copy, made := CopyInto(p, t, home.nodes);
      assert t.nodes == made;
    }

    /** A document holds either nothing, or exactly its root element. */
    ghost predicate SingleRoot()
      reads this
    {
      if documentElement == null then children == []
      else children == [documentElement] && documentElement.parent == this
    }

    /** `Document.appendElement(_:)`: every existing child is dropped and a new
        root element, bound to the default namespace context, becomes the only
        child. */
    method AppendDocumentElement(name: QName) returns (e: Node)
      requires kind.DocumentNode? && Rooted()
      modifies this`children, this`documentElement, home`nodes
      ensures children == [e] && documentElement == e && SingleRoot()
      ensures fresh(e) && e.parent == this && e.kind == ElementNode(name) && e.home == home
      ensures e.context == Some(DefaultContext) && e.sourceContext == None
      ensures e.children == [] && e.attributes == map[]
      ensures home.nodes == old(home.nodes) + {e}
      ensures old(home.Valid()) ==> home.Valid()
    {
      children := [];
      e := new Node(ElementNode(name), this, home);
      e.context := Some(DefaultContext);
      children := children + [e];
      documentElement := e;
      home.nodes := home.nodes + {e};
    }

    /** The getter of `Document.namespaceContext`: the root's current context,
        set to the default context first if the root has none; the default
        context when there is no root. */
    method DocumentNamespaceContext() returns (c: NamespaceContext)
      requires kind.DocumentNode?
      modifies (if documentElement == null then {} else {documentElement})`context
      ensures documentElement == null ==> c == DefaultContext
      ensures documentElement != null ==> documentElement.context == Some(c)
      ensures documentElement != null && old(documentElement.context).Some? ==>
        c == old(documentElement.context).value
      ensures documentElement != null && old(documentElement.context).None? ==> c == DefaultContext
    {
      var root := documentElement;
      if root != null {
        if root.context == None {
          root.context := Some(DefaultContext);
        }
        c := root.context.value;
      } else {
        c := DefaultContext;
      }
    }

    /** The setter of `Document.namespaceContext`: writes the root's current
        context; without a root nothing changes. */
    method SetDocumentNamespaceContext(c: NamespaceContext)
      requires kind.DocumentNode?
      modifies (if documentElement == null then {} else {documentElement})`context
      ensures documentElement != null ==> documentElement.context == Some(c)
    {
      if documentElement != null {
        documentElement.context := Some(c);
      }
    }
  }

  /** A new node of the given variant under `parent`, empty, added to `t`;
      a valid tree stays valid. */
  method NewMember(kind: Kind, parent: Node?, ghost t: Tree) returns (n: Node)
    requires parent != null ==> parent.Rooted()
    requires t.Valid()
    modifies t`nodes
    ensures fresh(n) && n.kind == kind && n.parent == parent && n.home == t && n.Rooted()
    ensures n.children == [] && n.attributes == map[] && n.context == None && n.sourceContext == None
    ensures t.nodes == old(t.nodes) + {n} && t.Valid()
  {
    n := new Node(kind, parent, t);
    t.nodes := t.nodes + {n};
    forall x | x in t.nodes
      ensures x.home == t && x.Rooted() && x.Owns(t.nodes)
    {
      if x != n {
        OwnsGrows(x, old(t.nodes), t.nodes);
      }
    }
  }

  /** The chain `parentDocument()` walks: the node, its parent, and so on up to a
      node without a parent. */
  ghost function Ancestry(n: Node): (chain: seq<Node>)
    requires n.Rooted()
    decreases n.depth
    ensures 0 < |chain| && chain[0] == n && chain[|chain| - 1].parent == null
    ensures forall i :: 0 <= i < |chain| ==> chain[i].Rooted()
  {
    if n.parent == null then [n] else [n] + Ancestry(n.parent)
  }

  /** The chain a resolution walk visits: the element, then its parent for as long
      as the parent is an element. */
  ghost function ElementChain(e: Node): (chain: seq<Node>)
    requires e.Rooted()
    decreases e.depth
    ensures 0 < |chain| && chain[0] == e
    ensures forall i :: 0 < i < |chain| ==> chain[i].kind.ElementNode?
    ensures chain[|chain| - 1].parent == null || !chain[|chain| - 1].parent.kind.ElementNode?
  {
    if e.parent != null && e.parent.kind.ElementNode? then [e] + ElementChain(e.parent) else [e]
  }

  /** The namespace context of the given track. */
  function ContextOf(n: Node, t: Track): Option<NamespaceContext>
    reads n
  {
    match t
    case Current => n.context
    case Source => n.sourceContext
  }

  /** The contexts of the given track along `chain`, nearest first. */
  ghost function Contexts(chain: seq<Node>, t: Track): (ctxs: seq<Option<NamespaceContext>>)
    reads chain
    ensures |ctxs| == |chain|
    ensures forall i :: 0 <= i < |chain| ==> ctxs[i] == ContextOf(chain[i], t)
  {
    seq(|chain|, i requires 0 <= i < |chain| reads chain => ContextOf(chain[i], t))
  }

  /** One step of a resolution walk: an element's own context answers first;
      failing that, the walk goes on from the parent when it is an element and
      ends with no answer otherwise. */
  lemma FirstAnswerStep(e: Node, t: Track, q: Query)
    requires e.Rooted()
    ensures FirstAnswer(Contexts(ElementChain(e), t), q) ==
      if Lookup(ContextOf(e, t), q).Some? then Lookup(ContextOf(e, t), q)
      else if e.parent != null && e.parent.kind.ElementNode? then FirstAnswer(Contexts(ElementChain(e.parent), t), q)
      else None
  {
    var ctxs := Contexts(ElementChain(e), t);
    if e.parent != null && e.parent.kind.ElementNode? {
      assert ctxs[1..] == Contexts(ElementChain(e.parent), t);
    } else {
      assert ctxs[1..] == [];
    }
  }

  /** The answer of the first context that answers the query. */
  function FirstAnswer(ctxs: seq<Option<NamespaceContext>>, q: Query): Option<string>
  {
    if ctxs == [] then None
    else if Lookup(ctxs[0], q).Some? then Lookup(ctxs[0], q)
    else FirstAnswer(ctxs[1..], q)
  }

  /** `r` is the nearest answer: some context answers `r` and no context before it
      answers anything; or no context answers and `r` is None. */
  ghost predicate IsNearestAnswer(ctxs: seq<Option<NamespaceContext>>, q: Query, r: Option<string>)
  {
    match r
    case None => forall i :: 0 <= i < |ctxs| ==> Lookup(ctxs[i], q).None?
    case Some(_) =>
      exists i :: 0 <= i < |ctxs| && Lookup(ctxs[i], q) == r &&
        forall j :: 0 <= j < i ==> Lookup(ctxs[j], q).None?
  }

  lemma {:induction false} FirstAnswerIsNearest(ctxs: seq<Option<NamespaceContext>>, q: Query)
    ensures IsNearestAnswer(ctxs, q, FirstAnswer(ctxs, q))
    decreases |ctxs|
  {
    if ctxs != [] && Lookup(ctxs[0], q).None? {
      var tail := ctxs[1..];
      FirstAnswerIsNearest(tail, q);
      var r := FirstAnswer(tail, q);
      if r.Some? {
        var i :| 0 <= i < |tail| && Lookup(tail[i], q) == r &&
          forall j :: 0 <= j < i ==> Lookup(tail[j], q).None?;
        assert ctxs[i + 1] == tail[i];
        forall j | 0 <= j < i + 1
          ensures Lookup(ctxs[j], q).None?
        {
          if j > 0 {
            assert ctxs[j] == tail[j - 1];
          }
        }
      } else {
        forall i | 0 <= i < |ctxs|
          ensures Lookup(ctxs[i], q).None?
        {
          if i > 0 {
            assert ctxs[i] == tail[i - 1];
          }
        }
      }
    }
  }

  /** At most one answer is the nearest one. */
  lemma NearestAnswerIsUnique(ctxs: seq<Option<NamespaceContext>>, q: Query, r1: Option<string>, r2: Option<string>)
    requires IsNearestAnswer(ctxs, q, r1) && IsNearestAnswer(ctxs, q, r2)
    ensures r1 == r2
  {
    if r1.Some? && r2.Some? {
      var i1 :| 0 <= i1 < |ctxs| && Lookup(ctxs[i1], q) == r1 &&
        forall j :: 0 <= j < i1 ==> Lookup(ctxs[j], q).None?;
      var i2 :| 0 <= i2 < |ctxs| && Lookup(ctxs[i2], q) == r2 &&
        forall j :: 0 <= j < i2 ==> Lookup(ctxs[j], q).None?;
      assert i1 == i2;
    }
  }

  /** When no node's context on track `t` changed, no element's resolution on
      that track changed. */
  twostate lemma TrackUnaffected(t: Track)
    requires forall n: Node :: old(allocated(n)) ==> ContextOf(n, t) == old(ContextOf(n, t))
    ensures forall x: Node, q: Query :: old(allocated(x)) && x.Rooted() && x.kind.ElementNode? ==>
      FirstAnswer(Contexts(ElementChain(x), t), q) == old(FirstAnswer(Contexts(ElementChain(x), t), q))
  {
    forall x: Node | old(allocated(x)) && x.Rooted() && x.kind.ElementNode?
      ensures Contexts(ElementChain(x), t) == old(Contexts(ElementChain(x), t))
    {
      ChainAllocated(x);
    }
  }

  /** The elements on the chain of an element that existed before existed too. */
  twostate lemma {:induction false} ChainAllocated(x: Node)
    requires x.Rooted()
    decreases x.depth
    ensures forall i :: 0 <= i < |ElementChain(x)| ==> old(allocated(ElementChain(x)[i]))
  {
    if x.parent != null && x.parent.kind.ElementNode? {
      ChainAllocated(x.parent);
      assert ElementChain(x) == [x] + ElementChain(x.parent);
    }
  }

  /** `copy` is what `clone(parent:)` builds from `orig`: the same variant and
      payload (a Document becomes a plain node), no namespace contexts, and, for an
      element, attributes under the same keys copied with the same names and
      values, and children copied one for one, in order, each under the copy.
      `S` bounds the walk over the original; `R` holds the copy's nodes. */
  ghost predicate Copied(orig: Node, copy: Node, S: set<Node>, R: set<Node>)
    reads S, R
    decreases S
  {
    copy in R &&
    copy.kind == ReparentedKind(orig.kind) &&
    copy.context == None && copy.sourceContext == None &&
    if orig.kind.ElementNode? then
      orig in S &&
      copy.attributes.Keys == orig.attributes.Keys &&
      (forall k :: k in copy.attributes ==>
        copy.attributes[k] in R && copy.attributes[k].parent == copy &&
        copy.attributes[k].kind == orig.attributes[k].kind) &&
      |copy.children| == |orig.children| &&
      forall i :: 0 <= i < |orig.children| ==>
        copy.children[i].parent == copy &&
        Copied(orig.children[i], copy.children[i], S - {orig}, R)
    else
      copy.children == [] && copy.attributes == map[]
  }

  /** `copies` are, one for one and in order, copies of `origs` made under `parent`. */
  ghost predicate CopiedAll(origs: seq<Node>, copies: seq<Node>, parent: Node, S: set<Node>, R: set<Node>)
    reads S, R
  {
    |copies| == |origs| &&
    forall j :: 0 <= j < |origs| ==> copies[j].parent == parent && Copied(origs[j], copies[j], S, R)
  }

  /** Copies stay copies when more nodes are counted as built. */
  lemma CopiedAllGrows(origs: seq<Node>, copies: seq<Node>, parent: Node, S: set<Node>, R1: set<Node>, R2: set<Node>)
    requires CopiedAll(origs, copies, parent, S, R1) && R1 <= R2
    ensures CopiedAll(origs, copies, parent, S, R2)
  {
    forall j | 0 <= j < |origs|
      ensures Copied(origs[j], copies[j], S, R2)
    {
      CopiedGrows(origs[j], copies[j], S, R1, R2);
    }
  }

  /** Appending one more copy, built as the set `made` disjoint from the earlier
      copies' nodes, keeps the copies one for one. */
  lemma CopiesExtend(origs: seq<Node>, copies: seq<Node>, c: Node, parent: Node, S: set<Node>, kids: set<Node>, made: set<Node>)
    requires 0 < |origs| && CopiedAll(origs[..|origs| - 1], copies, parent, S, kids)
    requires Copied(origs[|origs| - 1], c, S, made) && c.parent == parent
    ensures CopiedAll(origs, copies + [c], parent, S, kids + made)
  {
    var n := |copies|;
    forall j | 0 <= j < n
      ensures Copied(origs[j], copies[j], S, kids + made)
    {
      assert origs[..n][j] == origs[j];
      CopiedGrows(origs[j], copies[j], S, kids, kids + made);
    }
    CopiedGrows(origs[n], c, S, made, kids + made);
  }

  /** What a node holds stays held when the set of members grows. */
  lemma OwnsGrows(x: Node, N1: set<Node>, N2: set<Node>)
    requires x.Owns(N1) && N1 <= N2
    ensures x.Owns(N2)
  {
  }

  /** A copy stays a copy when more nodes are counted as built. */
  lemma {:induction false} CopiedGrows(orig: Node, copy: Node, S: set<Node>, R1: set<Node>, R2: set<Node>)
    requires Copied(orig, copy, S, R1) && R1 <= R2
    ensures Copied(orig, copy, S, R2)
    decreases S
  {
    if orig.kind.ElementNode? {
      forall i | 0 <= i < |orig.children|
        ensures Copied(orig.children[i], copy.children[i], S - {orig}, R2)
      {
        CopiedGrows(orig.children[i], copy.children[i], S - {orig}, R1, R2);
      }
    }
  }

  /** The sanity check passes from any member of a valid tree, with the walk bounded
      by any set holding every member at least as deep. */
  lemma {:induction false} ValidTreeIsSane(t: Tree, n: Node, S: set<Node>)
    requires t.Valid() && n in t.nodes
    requires forall x :: x in t.nodes && n.depth <= x.depth ==> x in S
    ensures n.SanityCheck(S)
    decreases S
  {
    forall c | c in n.children
      ensures c.parent == n && c.SanityCheck(S - {n})
    {
      assert c in t.nodes && c.Rooted();
      ValidTreeIsSane(t, c, S - {n});
    }
  }

  /** In a valid tree a node is held in one place only: by one member, at one
      position of its children or under one key of its attributes, never both. */
  lemma ValidTreeHoldsOnce(t: Tree, x: Node, y: Node)
    requires t.Valid() && x in t.nodes && y in t.nodes
    ensures forall i, j :: 0 <= i < |x.children| && 0 <= j < |y.children| && x.children[i] == y.children[j] ==>
      x == y && i == j
    ensures forall i, k :: 0 <= i < |x.children| && k in y.attributes ==> x.children[i] != y.attributes[k]
    ensures forall k, l :: k in x.attributes && l in y.attributes && x.attributes[k] == y.attributes[l] ==>
      x == y && k == l
  {
    forall i, j | 0 <= i < |x.children| && 0 <= j < |y.children| && x.children[i] == y.children[j]
      ensures x == y && i == j
    {
      assert x.children[i] in x.children && y.children[j] in y.children;
    }
    forall i, k | 0 <= i < |x.children| && k in y.attributes
      ensures x.children[i] != y.attributes[k]
    {
      assert x.children[i] in x.children;
    }
  }

  /** Every node of a valid tree passes the sanity check, the tree bounding the walk. */
  lemma ValidTreePassesSanityCheck(t: Tree, n: Node)
    requires t.Valid() && n in t.nodes
    ensures n.SanityCheck(t.nodes)
  {
    ValidTreeIsSane(t, n, t.nodes);
  }
}
