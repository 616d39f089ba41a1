# XMLTools node tree, modelled in Dafny

This project models the in-memory XML node tree of `Sources/XMLTools/DOM.swift`:
- the node variants (plain node, named node, attribute, element, text, CDATA, comment, processing instruction, document);
- the operations that build a tree (`appendElement`, `appendAttribute`, `appendText`, and the single-root `Document.appendElement`);
- the four namespace-resolution walks up the chain of parent elements;
- `parentDocument()`;
- the recursive `clone()` and `clone(parent:)`;
- the document's `namespaceContext` view;
- `sanityCheck()`.

Files:
- `names.dfy` (module `Names`) holds the values the tree is built from. These are qualified names and namespace contexts. Both are defined outside `DOM.swift`. A context is two lookup tables, one for the `[prefix]` subscript and one for `resolvePrefix(forURI:)`.
- `dom.dfy` (module `Dom`) is the tree. Its parts:
  - The Swift class hierarchy becomes one class `Node`.
  - A constant `kind` tells the variants apart. It replaces the `as? Document` / `as? Element` casts, and it carries each variant's immutable payload (name, value, text, target and data).
  - `parent` is a constant, like `parentNode`.
  - `children`, `attributes`, the two namespace contexts and `documentElement` are mutable fields. The operations update them in place.
  - The walks are `while` loops over a cursor, proved against ghost specification functions.
  - The clones are loops that build the copy; the relation `Copied` specifies them.
- `scenarios.dfy` (module `Scenarios`) holds small documents built through the operations, with the outcomes they must have.

Ghost bookkeeping stands beside the Swift fields:
- `depth` is fixed at construction and is larger than the parent's. `Rooted()` says this holds all the way up, so every parent chain is finite and every upward walk terminates.
- `home` is the `Tree` a node was built into. A valid tree is closed under children and attributes, and every member is the parent of what it holds. The append operations and the clones keep their tree valid, and every member of a valid tree passes the sanity check.

## Model

| member | source | states |
|---|---|---|
| `Dom.Lookup` | Sources/XMLTools/DOM.swift:155 | one context's answer to a query (here and at lines 166, 177 and 188): a missing context answers nothing, as the `?.` chaining does; a present one answers exactly when it binds the prefix or URI |
| `Dom.Node.constructor` | Sources/XMLTools/DOM.swift:8-10 | a new node has the given variant and parent, no children, no attributes and no contexts, and a finite parent chain |
| `Dom.Node.Document` | Sources/XMLTools/DOM.swift:280-282 | a new document has no parent, no children and no root, and it is the only member of a new valid tree |
| `Dom.Node.Name` | Sources/XMLTools/DOM.swift:12-14 | `name()` gives a name exactly for named nodes, attributes and elements (the `NamedNode` override at lines 56-58), and that name is the node's own |
| `Dom.Node.ParentDocument` | Sources/XMLTools/DOM.swift:16-25 | the result is the node itself when it is a document, otherwise the first document on its parent chain; it is null exactly when no node on the chain is a document; the walk terminates |
| `Dom.Ancestry` | Sources/XMLTools/DOM.swift:17-23 | the chain `parentDocument()` walks starts at the node and ends at a node without a parent |
| `Dom.Node.AppendElement` | Sources/XMLTools/DOM.swift:115-119 | the old children stay as a prefix and exactly one fresh, empty element follows them; it has the receiver as parent and is the returned node; the attributes are unchanged; a valid tree stays valid |
| `Dom.Node.AppendText` | Sources/XMLTools/DOM.swift:146-150 | the old children stay as a prefix and exactly one fresh text node with the given text follows them, with the receiver as parent; the attributes are unchanged; a valid tree stays valid |
| `Dom.Node.AppendAttribute` | Sources/XMLTools/DOM.swift:132-143 | `attributes[name]` becomes a fresh attribute with the receiver as parent and the given value (none for the value-less overload); it replaces any attribute under that name; every other key and the children are unchanged; a valid tree stays valid |
| `Dom.Node.SetNamespaceContext` | Sources/XMLTools/DOM.swift:107 | assigning an element's current context sets it, and leaves every element's source-context resolution as it was |
| `Dom.Node.SetSourceNamespaceContext` | Sources/XMLTools/DOM.swift:105 | assigning an element's source context sets it, and leaves every element's current-context resolution as it was |
| `Dom.TrackUnaffected` | Sources/XMLTools/DOM.swift:105-107 | when no node's context on one track changed, no element's resolution on that track changed |
| `Dom.ElementChain` | Sources/XMLTools/DOM.swift:153-159 | the chain a resolution walk visits starts at the element and holds only elements; it stops where the parent is missing or is not an element |
| `Dom.Node.Resolve` | Sources/XMLTools/DOM.swift:152-194 | the shared walk returns the first answer along the element chain on the chosen track, which is the nearest answer |
| `Dom.FirstAnswerStep` | Sources/XMLTools/DOM.swift:154-159 | one step of the walk: the element's own context answers first; otherwise the walk continues at an element parent and ends with no answer at any other parent |
| `Dom.FirstAnswerIsNearest` | Sources/XMLTools/DOM.swift:152-161 | the first answer comes from a context with no answering context before it, or there is no answer when no context answers |
| `Dom.NearestAnswerIsUnique` | Sources/XMLTools/DOM.swift:152-161 | at most one result is the nearest answer, so the walks are determined by their specification |
| `Dom.Node.ResolveURI` | Sources/XMLTools/DOM.swift:152-161 | the URI comes from the nearest element whose current context binds the prefix; a missing context binds nothing; the result is none when no element binds it |
| `Dom.Node.ResolvePrefix` | Sources/XMLTools/DOM.swift:163-172 | the prefix comes from the nearest element whose current context binds the URI, or is none |
| `Dom.Node.ResolveURIFromSource` | Sources/XMLTools/DOM.swift:174-183 | as `ResolveURI`, reading only the source contexts |
| `Dom.Node.ResolvePrefixFromSource` | Sources/XMLTools/DOM.swift:185-194 | as `ResolvePrefix`, reading only the source contexts |
| `Dom.ReparentedKind` | Sources/XMLTools/DOM.swift:31-33 | the variant `clone(parent:)` builds: every variant but Document overrides it and keeps its payload (lines 64-66, 96-98, 227-229, 241-243, 249-251, 265-267); a document falls back to the plain node |
| `Dom.DetachedKind` | Sources/XMLTools/DOM.swift:27-29 | the variant `clone()` builds: only named nodes, attributes and elements override it (lines 60-62, 92-94, 196-205) and keep their payload; every other variant falls back to a plain node |
| `Dom.DetachedCopyLosesLeafPayload` | Sources/XMLTools/DOM.swift:27-33 | the two clones differ in variant exactly for text, CDATA, comment and processing-instruction nodes |
| `Dom.Node.CopyInto` | Sources/XMLTools/DOM.swift:207-216 | `clone(parent: p)` of any variant builds a fresh node under `p` that is `Copied` from the original, with every built node fresh and in the new tree, and the tree valid, so no built node is held in two places; a document becomes a plain node and the leaf variants keep their payload (`ReparentedKind`) |
| `Dom.Node.CopyContentsTo` | Sources/XMLTools/DOM.swift:209-214 | the two loops of an element clone: the copy ends `Copied` from the original, built only from fresh nodes, its tree still valid |
| `Dom.Node.CopyAttributesTo` | Sources/XMLTools/DOM.swift:209-211 | the copy gets the original's attribute keys; each entry is a new attribute with the copy as parent and the same name and value; the tree stays valid |
| `Dom.Node.CopyAttributeNodes` | Sources/XMLTools/DOM.swift:209-211 | the loop builds, for every key of the original, one fresh attribute with the copy as parent and the original's name and value |
| `Dom.Node.CopyChildrenTo` | Sources/XMLTools/DOM.swift:212-214 | the copy's children are copies of the original's children, one for one and in order, each with the copy as parent, no two the same node; the tree stays valid |
| `Dom.Node.CopyChildNodes` | Sources/XMLTools/DOM.swift:212-214 | the loop builds one fresh copy per child, in order, each with the copy as parent, no two positions holding the same node |
| `Dom.Node.Clone` | Sources/XMLTools/DOM.swift:196-205 | `clone()` gives a fresh parentless node; an element is copied deeply into a new valid tree, so every copied node is held in one place only; a named node or an attribute keeps its name and value; every other variant yields a plain empty node (lines 27-29); the original is not modified |
| `Dom.Node.CloneUnder` | Sources/XMLTools/DOM.swift:207-216 | `clone(parent:)` gives a fresh node whose parent is the given node, `Copied` from the original into a new valid tree (every copied node held in one place only), its descendants parented inside the copy; the original is not modified, and neither is the given parent, which does not get the copy among its children |
| `Dom.CopiedGrows` | Sources/XMLTools/DOM.swift:201-203 | a copied subtree stays a copy while later siblings are built beside it |
| `Dom.Node.AppendDocumentElement` | Sources/XMLTools/DOM.swift:289-296 | every previous child is removed; the only child is a fresh element with the document as parent and the default context; it becomes `documentElement` |
| `Dom.Node.DocumentNamespaceContext` | Sources/XMLTools/DOM.swift:299-309 | the getter returns the root's context, setting it to the default first when it is missing; without a root it returns the default context and changes nothing |
| `Dom.Node.SetDocumentNamespaceContext` | Sources/XMLTools/DOM.swift:310-312 | the setter writes the root's current context; without a root nothing changes |
| `Dom.Node.SanityCheck` | Sources/XMLTools/DOM.swift:35-40 | `sanityCheck()` passes when every child names this node as parent and passes in turn; children only, never attributes, are visited; the walk is bounded by a set of nodes it may still visit, and a passing check never comes back to the node it started from |
| `Dom.ValidTreeHoldsOnce` | Sources/XMLTools/DOM.swift:115-150 | in a valid tree, the ownership invariant the appends and clones keep: a node is held by one member only, at one position of its children or under one key of its attributes, never both |
| `Dom.ValidTreeIsSane` | Sources/XMLTools/DOM.swift:35-40 | from any member of a valid tree, the sanity check passes: every child names its container as parent, all the way down |
| `Dom.ValidTreePassesSanityCheck` | Sources/XMLTools/DOM.swift:35-40 | every member of a valid tree passes the sanity check |
| `Scenarios.ReplaceAttribute` | Sources/XMLTools/DOM.swift:132-136 | appending attribute `id` twice leaves one attribute, holding the second value |
| `Scenarios.ResolveFromChild` | Sources/XMLTools/DOM.swift:152-161 | a child element finds the prefix its parent binds, finds nothing for an unbound prefix, and gets nothing from the unset source contexts |
| `Scenarios.ResolveUnder` | Sources/XMLTools/DOM.swift:152-183 | the three lookups of the scenario above, for any element under a top element that binds `a` |
| `Scenarios.BuildRootWithId` | Sources/XMLTools/DOM.swift:132-136 | a document's new root element with one attribute `id`, in a valid tree |
| `Scenarios.BuildThreeLevels` | Sources/XMLTools/DOM.swift:115-150 | the appends build a root element with one attribute and one child element holding one text node, in a valid tree |
| `Scenarios.CloneThreeLevels` | Sources/XMLTools/DOM.swift:196-205 | cloning that three-level element gives a parentless copy of the same shape and values, made of other nodes, and leaves the original unchanged |
| `Scenarios.CopyOfThreeLevels` | Sources/XMLTools/DOM.swift:196-216 | what `Copied` implies of a copy of that element, level by level |
| `Scenarios.CloneTwinTexts` | Sources/XMLTools/DOM.swift:201-203 | cloning an element with two equal text children gives two distinct copied children with the same text |
| `Scenarios.TwinCopies` | Sources/XMLTools/DOM.swift:212-214 | what `Copied` and the copy's valid tree imply for those two children: same text, different nodes |
| `Scenarios.FindDocument` | Sources/XMLTools/DOM.swift:16-25 | `parentDocument()` from a text node two levels below a document finds that document |
| `Scenarios.ReadContextTwice` | Sources/XMLTools/DOM.swift:299-309 | reading the document's context twice gives the same context, and the second read leaves the root's context as the first left it |
| `Scenarios.BuiltDocumentIsSane` | Sources/XMLTools/DOM.swift:35-40 | a document built only through the append operations passes the sanity check |

## Left out

- The string overloads (`DOM.swift:110-112`, `122-129`, `285-287`) are left out. They only wrap their argument in `QName(name)`, whose initializer is not part of this model.
- The constants `version`, `encoding` and `standalone` (`DOM.swift:272-276`) have no behaviour and are left out.
- `QName`, `NamespaceContext` and `.defaultContext` are defined outside `DOM.swift` and are not part of this model:
  - A context is modelled as its two lookup tables, with no claim about how they relate.
  - The default context is a fixed constant. Nothing proved depends on what it binds.
  - Names, prefixes and URIs are compared character by character, as sequences of characters. Swift's `String` equality and hashing treat canonically equivalent strings as equal (a precomposed `é` equals `e` followed by a combining acute accent). So where Swift would find one attribute key, one prefix or one URI, the model can see two different ones, and `appendAttribute` can keep two attributes where Swift replaces one.
- `sanityCheck()` is modelled as a ghost predicate, not as a debug-build abort. Release builds skip the check, and this model cannot tell debug builds from release builds.
- Outside code can assign the public `childNodes` and `attributes` directly. The model leaves that out: only the operations of the file change them.
- `lazy var`, reference counting and `@discardableResult` carry no behaviour and are left out.
- `Dom.Node.Clone`, `Dom.Node.CloneUnder`: they require that an element to be copied is a member of a valid tree. The Swift code states no such precondition. Every node made by `Document()`, the appends and the clones is in such a tree, since all of them keep their tree valid. A node made directly with the general constructor `Node(kind, parent, tree)` joins no tree until its caller adds it to one, as those operations do.
- Every member that requires `Rooted()`, a finite parent chain, does so as a model obligation the Swift code does not state: the general constructor (for the parent), `Dom.Node.ParentDocument`, the three element appends, `Dom.Node.Resolve` and the resolution wrappers, `Dom.Node.CloneUnder` (for `p`) and the clone helpers. Every node built through the constructors has one.
- `Dom.Node.CopyChildrenTo`: its loop (`CopyChildNodes`) collects the copied children, and it stores them as the copy's children once, after the loop. The Swift loop appends them one at a time. Nothing in between reads the copy's children, so the resulting tree is the same. `Dom.Node.CopyAttributesTo` does the same with the copied attributes (`CopyAttributeNodes`).
- The clones do not copy the namespace contexts: a copied element has neither context. A copy might be expected to share the original's contexts; the code does not, and the model follows the code.
- Parameterless `clone()` on text, CDATA, comment, processing-instruction and document nodes yields a plain node without its value (`DOM.swift:27-29`). A copy might be expected to keep the leaf value; the code does not, and the model follows the code.
