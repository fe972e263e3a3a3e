/** The tree mxml_load_data builds: what the open elements and the finished trees on the heap have to be. */
module XmlBuilding {
  import opened CString
  import XmlTree
  import XmlParser
  import opened XmlForest
  import opened XmlPreOrder
  import opened XmlWalk
  import opened XmlContent

  /** The forest and its values; the open elements from the root inwards and the finished trees without a parent;
      and what these are to hold. */
  datatype Shape = Shape(f: Forest, vals: map<Node, Value>, path: seq<Node>, roots: seq<Node>,
                         stack: seq<XmlParser.Frame>, trees: seq<XmlTree.Node>)

  const NOTHING := Shape(Forest(map[], map[], map[], 0), map[], [], [], [], [])

  ghost predicate Sized(s: Shape) {
    WellFormed(s.f) && s.vals.Keys == s.f.kids.Keys && |s.path| == |s.stack| && |s.roots| == |s.trees|
  }

  /** The innermost open element holds its frame's children; any other the same and, behind them, the next open one. */
  ghost predicate IsOpen(s: Shape, i: nat)
    requires Sized(s) && i < |s.path|
  {
    var n, frame := s.path[i], s.stack[i];
    && n in s.f.kids && s.vals[n] == ElementValue(frame.name, frame.attrs)
    && (forall m :: m in s.f.kids[n] ==> m in s.f.kids)
    && (i + 1 < |s.path| ==> s.f.kids[n] != [] && Last(s.f.kids[n]) == s.path[i + 1])
    && Trees(s.f, s.vals, Done(s, i)) == frame.children
  }

  /** The finished children of an open element. */
  ghost function Done(s: Shape, i: nat): seq<Node>
    requires i < |s.path| && s.path[i] in s.f.kids && (i + 1 < |s.path| ==> s.f.kids[s.path[i]] != [])
  {
    var ns := s.f.kids[s.path[i]];
    if i + 1 < |s.path| then ns[..|ns| - 1] else ns
  }

  ghost predicate IsRoot(s: Shape, r: nat)
    requires Sized(s) && r < |s.roots|
  {
    s.roots[r] in s.f.kids && s.roots[r] !in s.f.up && TreeOf(s.f, s.vals, s.roots[r]) == s.trees[r]
  }

  ghost predicate Built(s: Shape) {
    && Sized(s)
    && (forall r :: 0 <= r < |s.roots| ==> IsRoot(s, r))
    && (forall i :: 0 <= i < |s.path| ==> IsOpen(s, i))
    && (s.path != [] ==> s.path[0] !in s.f.up && s.path[0] !in s.roots)
  }

  lemma {:induction false} UpIsPath(s: Shape, i: nat)
    requires Built(s) && 0 < i < |s.path|
    ensures s.path[i] in s.f.up && s.path[i - 1] in s.f.kids && s.f.up[s.path[i]] == s.path[i - 1]
    ensures s.path[i] in s.f.kids && s.f.depth[s.path[i]] == s.f.depth[s.path[i - 1]] + 1
  {
    assert IsOpen(s, i - 1);
    assert IsChild(s.f, s.path[i - 1], |s.f.kids[s.path[i - 1]]| - 1);
  }

  lemma {:induction false} PathDepth(s: Shape, i: nat)
    requires Built(s) && i < |s.path|
    ensures s.path[i] in s.f.kids && s.path[0] in s.f.kids && s.f.depth[s.path[i]] == s.f.depth[s.path[0]] + i
  {
    assert IsOpen(s, i);
    if i > 0 {
      UpIsPath(s, i);
      PathDepth(s, i - 1);
    }
  }

  /** Above an open element there are only the open elements in front of it. */
  lemma {:induction false} AbovePath(s: Shape, i: nat, a: Node) returns (j: nat)
    requires Built(s) && i < |s.path| && s.path[i] in s.f.kids && Under(s.f, s.path[i], a)
    ensures j <= i && s.path[j] == a
  {
    if s.path[i] == a {
      j := i;
    } else {
      if i > 0 {
        UpIsPath(s, i);
      }
      j := AbovePath(s, i - 1, a);
    }
  }

  function Innermost(s: Shape): Node
    requires s.path != []
  {
    s.path[|s.path| - 1]
  }

  /** The innermost open element does not lie in a finished tree. */
  lemma {:induction false} RootApart(s: Shape, r: nat)
    requires Built(s) && s.path != [] && Innermost(s) in s.f.kids && r < |s.roots|
    ensures !Under(s.f, Innermost(s), s.roots[r])
  {
    if Under(s.f, Innermost(s), s.roots[r]) {
      var j := AbovePath(s, |s.path| - 1, s.roots[r]);
      assert IsRoot(s, r);
      if j > 0 {
        UpIsPath(s, j);
      }
      assert false;
    }
  }

  lemma {:induction false} ChildApart(s: Shape, i: nat, k: nat)
    requires Built(s) && i < |s.path| && Innermost(s) in s.f.kids && IsOpen(s, i) && k < |Done(s, i)|
    ensures !Under(s.f, Innermost(s), Done(s, i)[k])
  {
    var ns, c := s.f.kids[s.path[i]], Done(s, i)[k];
    assert c == ns[k] && IsChild(s.f, s.path[i], k);
    assert IsChild(s.f, s.path[i], |ns| - 1);
    if Under(s.f, Innermost(s), c) {
      var j := AbovePath(s, |s.path| - 1, c);
      PathDepth(s, i);
      PathDepth(s, j);
      assert false;
    }
  }

  lemma {:induction false} DoneApart(s: Shape, i: nat)
    requires Built(s) && i < |s.path| && Innermost(s) in s.f.kids && IsOpen(s, i)
    ensures forall m :: m in Done(s, i) ==> m in s.f.kids && !Under(s.f, Innermost(s), m)
  {
    var ns := Done(s, i);
    forall m | m in ns ensures m in s.f.kids && !Under(s.f, Innermost(s), m) {
      var k :| 0 <= k < |ns| && ns[k] == m;
      ChildApart(s, i, k);
      assert m in s.f.kids[s.path[i]];
    }
  }

  // ---- a new node -----------------------------------------------------------------------------

  /** A node without children. */
  function LeafTree(v: Value): XmlTree.Node {
    match v
    case ElementValue(name, attrs) => XmlTree.Element(name, attrs, [])
    case OpaqueValue(t) => XmlTree.Opaque(t)
    case TextValue(ws, t) => XmlTree.Text(ws, t)
  }

  /** The forest after mxml_new under the innermost open element, or as a tree of its own. */
  ghost predicate Grown(f: Forest, path: seq<Node>, node: Node, g: Forest)
    requires WellFormed(f) && node !in f.kids
  {
    SproutedWellFormed(f, node);
    if path == [] then g == Sprouted(f, node)
    else
      path[|path| - 1] in f.kids
      && g == Joined(Sprouted(f, node), path[|path| - 1], |f.kids[path[|path| - 1]]|, node)
  }

  lemma {:induction false} GrownKids(f: Forest, path: seq<Node>, node: Node, g: Forest)
    requires WellFormed(f) && node !in f.kids && WellFormed(g) && Grown(f, path, node, g)
    ensures g.kids.Keys == f.kids.Keys + {node} && g.kids[node] == []
    ensures forall x :: x in f.kids ==>
              g.kids[x] == f.kids[x] + if path != [] && x == path[|path| - 1] then [node] else []
    ensures forall x :: x in f.kids ==> (x in g.up <==> x in f.up)
    ensures path == [] ==> node !in g.up
  {
  }

  /** node, which holds v, has been added to s. */
  ghost predicate NodeAdded(s: Shape, node: Node, v: Value, g: Forest) {
    Built(s) && node !in s.f.kids && WellFormed(g) && Grown(s.f, s.path, node, g)
  }

  lemma {:induction false} SameBelow(s: Shape, node: Node, v: Value, g: Forest, n: Node)
    requires NodeAdded(s, node, v, g) && n in s.f.kids && (s.path == [] || !Under(s.f, Innermost(s), n))
    requires g.kids.Keys == s.f.kids.Keys + {node}
    ensures Same(s.f, s.vals, g, s.vals[node := v], n)
  {
    GrownKids(s.f, s.path, node, g);
  }

  /** A tree that does not contain the innermost open element stays the same. */
  lemma {:induction false} Unaffected(s: Shape, node: Node, v: Value, g: Forest, n: Node)
    requires NodeAdded(s, node, v, g) && n in s.f.kids && (s.path == [] || !Under(s.f, Innermost(s), n))
    ensures g.kids.Keys == s.f.kids.Keys + {node}
    ensures TreeOf(g, s.vals[node := v], n) == TreeOf(s.f, s.vals, n)
  {
    GrownKids(s.f, s.path, node, g);
    SameBelow(s, node, v, g, n);
    SameTree(s.f, s.vals, g, s.vals[node := v], n);
  }

  lemma {:induction false} TreesUnaffected(s: Shape, node: Node, v: Value, g: Forest, ns: seq<Node>)
    requires NodeAdded(s, node, v, g)
    requires forall m :: m in ns ==> m in s.f.kids && (s.path == [] || !Under(s.f, Innermost(s), m))
    ensures g.kids.Keys == s.f.kids.Keys + {node}
    ensures Trees(g, s.vals[node := v], ns) == Trees(s.f, s.vals, ns)
    decreases |ns|
  {
    GrownKids(s.f, s.path, node, g);
    if ns != [] {
      Unaffected(s, node, v, g, ns[0]);
      TreesUnaffected(s, node, v, g, ns[1..]);
    }
  }

  lemma {:induction false} LeafAppended(g: Forest, vals: map<Node, Value>, ns: seq<Node>, node: Node)
    requires WellFormed(g) && vals.Keys == g.kids.Keys && node in g.kids && g.kids[node] == []
    requires forall m :: m in ns ==> m in g.kids
    ensures TreeOf(g, vals, node) == LeafTree(vals[node])
    ensures Trees(g, vals, ns + [node]) == Trees(g, vals, ns) + [LeafTree(vals[node])]
  {
    TreesSnoc(g, vals, ns, node);
  }

  /** Only the innermost open element gets a new child. */
  lemma {:induction false} KidsGrown(s: Shape, node: Node, v: Value, g: Forest, i: nat)
    requires NodeAdded(s, node, v, g) && i < |s.path| && s.path[i] in s.f.kids
    ensures s.path[i] in g.kids
    ensures g.kids[s.path[i]] == s.f.kids[s.path[i]] + if i + 1 == |s.path| then [node] else []
  {
    GrownKids(s.f, s.path, node, g);
    if i < |s.path| - 1 {
      PathDepth(s, i);
      PathDepth(s, |s.path| - 1);
    }
  }

  /** The finished children of an open element stay the same. */
  lemma {:induction false} OpenGrown(s: Shape, node: Node, v: Value, g: Forest, i: nat)
    requires NodeAdded(s, node, v, g) && i < |s.path| && IsOpen(s, i) && g.kids.Keys == s.f.kids.Keys + {node}
    ensures Trees(g, s.vals[node := v], Done(s, i)) == s.stack[i].children
  {
    assert IsOpen(s, |s.path| - 1);
    DoneApart(s, i);
    TreesUnaffected(s, node, v, g, Done(s, i));
  }

  lemma {:induction false} RootGrown(s: Shape, node: Node, v: Value, g: Forest, r: nat)
    requires NodeAdded(s, node, v, g) && r < |s.roots| && g.kids.Keys == s.f.kids.Keys + {node}
    ensures s.roots[r] in s.f.kids && s.roots[r] !in g.up
    ensures TreeOf(g, s.vals[node := v], s.roots[r]) == s.trees[r]
  {
    assert IsRoot(s, r);
    GrownKids(s.f, s.path, node, g);
    if s.path != [] {
      assert IsOpen(s, |s.path| - 1);
      RootApart(s, r);
    }
    Unaffected(s, node, v, g, s.roots[r]);
  }

  // ---- the three steps ------------------------------------------------------------------------

  /** The frames after a tree has been added to the innermost open element. */
  function Extended(stack: seq<XmlParser.Frame>, t: XmlTree.Node): seq<XmlParser.Frame>
    requires stack != []
  {
    var top := |stack| - 1;
    stack[..top] + [stack[top].(children := stack[top].children + [t])]
  }

  /** The new node is finished: a child, or a tree of its own. */
  function WithLeaf(s: Shape, node: Node, v: Value, g: Forest): Shape {
    var t := s.(f := g, vals := s.vals[node := v]);
    if s.stack == [] then t.(roots := s.roots + [node], trees := s.trees + [LeafTree(v)])
    else t.(stack := Extended(s.stack, LeafTree(v)))
  }

  /** The new node is the new innermost open element. */
  function WithOpen(s: Shape, node: Node, name: seq<byte>, attrs: seq<XmlTree.Attr>, g: Forest): Shape {
    s.(f := g, vals := s.vals[node := ElementValue(name, attrs)], path := s.path + [node],
       stack := s.stack + [XmlParser.Frame(name, attrs, [])])
  }

  /** The innermost open element is finished. */
  function WithClosed(s: Shape): Shape
    requires s.stack != [] && |s.path| == |s.stack|
  {
    var top := |s.stack| - 1;
    var t := XmlParser.Closed(s.stack[top]);
    if top == 0 then s.(path := [], stack := [], roots := s.roots + [s.path[0]], trees := s.trees + [t])
    else s.(path := s.path[..top], stack := Extended(s.stack[..top], t))
  }

  lemma {:induction false} RootsKept(s: Shape, node: Node, v: Value, g: Forest, t: Shape)
    requires NodeAdded(s, node, v, g) && g.kids.Keys == s.f.kids.Keys + {node}
    requires t.f == g && t.vals == s.vals[node := v] && Sized(t) && s.roots <= t.roots && s.trees <= t.trees
    ensures forall r :: 0 <= r < |s.roots| ==> IsRoot(t, r)
    ensures node !in s.roots && (s.path != [] ==> s.path[0] !in g.up && s.path[0] != node)
  {
    forall r | 0 <= r < |s.roots| ensures IsRoot(t, r) && s.roots[r] != node {
      RootGrown(s, node, v, g, r);
    }
    if s.path != [] {
      assert IsOpen(s, 0);
      GrownKids(s.f, s.path, node, g);
    }
  }

  lemma {:induction false} OpenAfterLeaf(s: Shape, node: Node, v: Value, g: Forest, i: nat)
    requires NodeAdded(s, node, v, g) && i < |s.path|
    requires g.kids.Keys == s.f.kids.Keys + {node} && g.kids[node] == []
    ensures IsOpen(WithLeaf(s, node, v, g), i)
  {
    assert IsOpen(s, i);
    OpenGrown(s, node, v, g, i);
    KidsGrown(s, node, v, g, i);
    var t := WithLeaf(s, node, v, g);
    if i == |s.path| - 1 {
      LeafAppended(g, t.vals, s.f.kids[s.path[i]], node);
      assert Done(t, i) == s.f.kids[s.path[i]] + [node];
    } else {
      assert Done(t, i) == Done(s, i);
    }
  }

  lemma {:induction false} LeafBuilt(s: Shape, node: Node, v: Value, g: Forest)
    requires NodeAdded(s, node, v, g)
    ensures Built(WithLeaf(s, node, v, g))
  {
    if s.path == [] {
      LeafIsRoot(s, node, v, g);
    } else {
      LeafIsChild(s, node, v, g);
    }
  }

  lemma {:induction false} LeafIsRoot(s: Shape, node: Node, v: Value, g: Forest)
    requires NodeAdded(s, node, v, g) && s.path == []
    ensures Built(WithLeaf(s, node, v, g))
  {
    var t := WithLeaf(s, node, v, g);
    GrownKids(s.f, s.path, node, g);
    RootsKept(s, node, v, g, t);
    LeafAppended(g, t.vals, [], node);
    assert t.roots[|s.roots|] == node && t.trees[|s.roots|] == LeafTree(v);
  }

  lemma {:induction false} LeafIsChild(s: Shape, node: Node, v: Value, g: Forest)
    requires NodeAdded(s, node, v, g) && s.path != []
    ensures Built(WithLeaf(s, node, v, g))
  {
    var t := WithLeaf(s, node, v, g);
    GrownKids(s.f, s.path, node, g);
    RootsKept(s, node, v, g, t);
    forall i | 0 <= i < |t.path| ensures IsOpen(t, i) {
      OpenAfterLeaf(s, node, v, g, i);
    }
  }

  lemma {:induction false} OpenAfterOpen(s: Shape, node: Node, name: seq<byte>, attrs: seq<XmlTree.Attr>, g: Forest,
                                         i: nat)
    requires NodeAdded(s, node, ElementValue(name, attrs), g) && i < |s.path| && g.kids.Keys == s.f.kids.Keys + {node}
    ensures IsOpen(WithOpen(s, node, name, attrs, g), i)
  {
    var v, t := ElementValue(name, attrs), WithOpen(s, node, name, attrs, g);
    assert IsOpen(s, i);
    OpenGrown(s, node, v, g, i);
    KidsGrown(s, node, v, g, i);
    assert Done(t, i) == Done(s, i);
  }

  lemma {:induction false} OpenBuilt(s: Shape, node: Node, name: seq<byte>, attrs: seq<XmlTree.Attr>, g: Forest)
    requires NodeAdded(s, node, ElementValue(name, attrs), g)
    ensures Built(WithOpen(s, node, name, attrs, g))
  {
    GrownKids(s.f, s.path, node, g);
    var t := WithOpen(s, node, name, attrs, g);
    RootsKept(s, node, ElementValue(name, attrs), g, t);
    forall i | 0 <= i < |t.path| ensures IsOpen(t, i) {
      if i < |s.path| {
        OpenAfterOpen(s, node, name, attrs, g, i);
      }
    }
  }

  lemma {:induction false} OpenAfterClosed(s: Shape, i: nat)
    requires Built(s) && i < |s.path| - 1 && Innermost(s) in s.f.kids
    requires TreeOf(s.f, s.vals, Innermost(s)) == XmlParser.Closed(s.stack[|s.stack| - 1])
    ensures IsOpen(WithClosed(s), i)
  {
    assert IsOpen(s, i);
    if i == |s.path| - 2 {
      var ns := s.f.kids[s.path[i]];
      assert ns == ns[..|ns| - 1] + [Innermost(s)];
      TreesSnoc(s.f, s.vals, ns[..|ns| - 1], Innermost(s));
    } else {
      assert Done(WithClosed(s), i) == Done(s, i);
    }
  }

  lemma {:induction false} ClosedBuilt(s: Shape)
    requires Built(s) && s.path != []
    ensures Built(WithClosed(s))
  {
    var top, t := |s.stack| - 1, WithClosed(s);
    assert IsOpen(s, top);
    TreeIs(s.f, s.vals, Innermost(s));
    forall r | 0 <= r < |t.roots| ensures IsRoot(t, r) {
      assert r < |s.roots| ==> IsRoot(s, r);
    }
    forall i | 0 <= i < |t.path| ensures IsOpen(t, i) {
      OpenAfterClosed(s, i);
    }
  }
}

/** The variables parent, first and type of mxml_load_data; `nodeSet` says whether node has been assigned. */
module XmlBuilder {
  import opened CString
  import XmlTree
  import XmlParser
  import opened XmlForest
  import opened XmlWalk
  import opened XmlContent
  import opened XmlBuilding

  class Builder {
    var parent: Node?
    var first: Node?
    var mode: XmlParser.Mode
    var nodeSet: bool
    ghost var s: Shape
    ghost var nodes: set<Node>

    ghost predicate Valid()
      reads this, nodes
    {
      && s.f.kids.Keys <= nodes
      && Linked(s.f) && Knows(s.vals, s.f) && Built(s)
      && parent == Last(s.path) && first == (if s.roots != [] then s.roots[0] else First(s.path))
    }

    /** What has been built, in front of the next character. */
    ghost function Tree(): XmlParser.State
      reads this
    {
      XmlParser.State(s.stack, s.trees, [], mode, false, nodeSet)
    }

    constructor ()
      ensures Valid() && s == NOTHING && nodes == {} && Tree() == XmlParser.INIT
    {
      parent, first, mode, nodeSet := null, null, XmlParser.TextMode, false;
      s, nodes := NOTHING, {};
    }

    /** A new shape, whose pointers are in place. */
    method Become(ghost t: Shape, ghost ns: set<Node>, p: Node?, q: Node?, m: XmlParser.Mode)
      requires Linked(t.f) && Knows(t.vals, t.f) && Built(t) && t.f.kids.Keys <= ns
      requires p == Last(t.path) && q == if t.roots != [] then t.roots[0] else First(t.path)
      modifies this
      ensures Valid() && s == t && nodes == ns && mode == m && nodeSet
    {
      parent, first, mode, nodeSet, s, nodes := p, q, m, true, t, ns;
    }

    /** A node without children under parent, or as a tree of its own. */
    method AddLeaf(v: Value)
      requires Valid()
      modifies this, nodes
      ensures Valid() && fresh(nodes - old(nodes))
      ensures Tree() == XmlParser.AddNode(old(Tree()), LeafTree(v))
    {
      ghost var g;
      var node;
      node, g := NewNode(parent, v, s);
      LeafIsBuilt(s, node, v, g, first);
      Become(WithLeaf(s, node, v, g), nodes + {node}, parent, if first == null then node else first, mode);
    }

    /** An element that becomes the parent of what follows. */
    method Open(cb: XmlParser.Callback, name: seq<byte>, attrs: seq<XmlTree.Attr>)
      requires Valid()
      modifies this, nodes
      ensures Valid() && fresh(nodes - old(nodes))
      ensures Tree() == XmlParser.Enter(cb, old(Tree()), name, attrs)
    {
      ghost var g;
      var node;
      node, g := NewNode(parent, ElementValue(name, attrs), s);
      OpenIsBuilt(s, node, name, attrs, g, first);
      var type_ := if cb == XmlParser.OpaqueCallback then XmlParser.OpaqueMode else mode;
      Become(WithOpen(s, node, name, attrs, g), nodes + {node}, node, if first == null then node else first, type_);
    }

    /** The innermost element is left: parent = parent->parent */
    method Close(cb: XmlParser.Callback)
      requires Valid() && s.stack != []
      modifies this
      ensures Valid() && nodes == old(nodes)
      ensures Tree() == XmlParser.Leave(cb, old(Tree()))
    {
      ParentOf(s);
      ClosedIsBuilt(s, first);
      var up := parent.parent;
      var type_ := if cb == XmlParser.OpaqueCallback && up != null then XmlParser.OpaqueMode else mode;
      Become(WithClosed(s), nodes, up, first, type_);
    }

    /** Is there an open element? */
    method HasParent() returns (inside: bool)
      requires Valid()
      ensures inside <==> s.stack != []
    {
      inside := parent != null;
    }

    /** Is there an open element, and is it called that? */
    method ParentIs(name: seq<byte>) returns (same: bool)
      requires Valid()
      ensures same <==> s.stack != [] && name == s.stack[|s.stack| - 1].name
    {
      if parent == null {
        return false;
      }
      assert IsOpen(s, |s.path| - 1);
      same := parent.value.ElementValue? && parent.value.name == name;
    }

    /** The loop that goes up from parent. */
    method Topmost() returns (node: Node)
      requires Valid() && parent != null
      ensures node == s.path[0]
    {
      node := parent;
      ghost var j := |s.path| - 1;
      while node.parent != null
        invariant 0 <= j < |s.path| && node == s.path[j]
        decreases j
      {
        UpOfPath(s, j);
        node := node.parent;
        j := j - 1;
      }
      UpOfPath(s, j);
    }

    /** The end of mxml_load_data: the tree read, or null if an element other than it has not been closed. */
    method Result() returns (root: Node?)
      requires Valid()
      ensures Stands(XmlParser.Finish(Tree()), root, s.vals, s.f)
    {
      ResultIs(s);
      if parent == null {
        return first;
      }
      root := Topmost();
      if root != parent {
        return null;
      }
    }
  }

  /** How the result of a load stands on the heap: as a tree of its own, or not at all. */
  ghost predicate Stands(o: XmlParser.Outcome, root: Node?, vals: map<Node, Value>, f: Forest)
    requires WellFormed(f) && vals.Keys == f.kids.Keys
  {
    if o.Loaded? then root != null && root in f.kids && root !in f.up && TreeOf(f, vals, root) == o.node
    else o == XmlParser.Null && root == null
  }

  /** The outermost open element, if it is the only one, and the first finished tree. */
  lemma {:induction false} ResultIs(s: Shape)
    requires Built(s)
    ensures s.path == [] && s.roots != [] ==>
              s.roots[0] in s.f.kids && s.roots[0] !in s.f.up && TreeOf(s.f, s.vals, s.roots[0]) == s.trees[0]
    ensures |s.path| == 1 ==>
              s.path[0] in s.f.kids && s.path[0] !in s.f.up
              && TreeOf(s.f, s.vals, s.path[0]) == XmlParser.Closed(s.stack[0])
    ensures |s.path| > 1 ==> s.path[0] != Innermost(s)
  {
    if s.path == [] && s.roots != [] {
      assert IsRoot(s, 0);
    }
    if |s.path| == 1 {
      assert IsOpen(s, 0);
      TreeIs(s.f, s.vals, s.path[0]);
    }
    if |s.path| > 1 {
      PathDepth(s, |s.path| - 1);
    }
  }

  /** mxml_new under parent */
  method NewNode(parent: Node?, v: Value, ghost s: Shape) returns (node: Node, ghost g: Forest)
    requires Linked(s.f) && Knows(s.vals, s.f) && Built(s) && parent == Last(s.path)
    modifies s.f.kids.Keys`parent, s.f.kids.Keys`prev, s.f.kids.Keys`next, s.f.kids.Keys`child, s.f.kids.Keys`last_child
    ensures fresh(node) && Linked(g) && NodeAdded(s, node, v, g) && Knows(s.vals[node := v], g)
  {
    InnermostIsNode(s);
    node, g := Allocated(parent, v, s.vals, s.f);
    NewIsAdded(s, parent, node, v, g);
  }

  lemma {:induction false} InnermostIsNode(s: Shape)
    requires Built(s)
    ensures s.path != [] ==> Innermost(s) in s.f.kids
  {
    assert s.path != [] ==> IsOpen(s, |s.path| - 1);
  }

  method Allocated(parent: Node?, v: Value, ghost vals: map<Node, Value>, ghost f: Forest)
    returns (node: Node, ghost g: Forest)
    requires Linked(f) && Knows(vals, f) && (parent != null ==> parent in f.kids)
    modifies f.kids.Keys`parent, f.kids.Keys`prev, f.kids.Keys`next, f.kids.Keys`child, f.kids.Keys`last_child
    ensures fresh(node) && node !in f.kids && WellFormed(Sprouted(f, node)) && Linked(g) && Knows(vals[node := v], g)
    ensures g == if parent == null then Sprouted(f, node)
                 else Joined(Sprouted(f, node), parent, |f.kids[parent]|, node)
  {
    node, g := NewApart(parent, v, vals, f);
    KnowsOneMore(vals, f, node, v, g);
  }

  /** mxml_new, which leaves the values of all other nodes alone */
  method NewApart(parent: Node?, v: Value, ghost vals: map<Node, Value>, ghost f: Forest)
    returns (node: Node, ghost g: Forest)
    requires Linked(f) && Knows(vals, f) && (parent != null ==> parent in f.kids)
    modifies f.kids.Keys`parent, f.kids.Keys`prev, f.kids.Keys`next, f.kids.Keys`child, f.kids.Keys`last_child
    ensures fresh(node) && node.value == v && WellFormed(Sprouted(f, node)) && Linked(g) && Knows(vals, f)
    ensures g == if parent == null then Sprouted(f, node)
                 else Joined(Sprouted(f, node), parent, |f.kids[parent]|, node)
  {
    node, g := New(parent, v, f);
  }

  lemma {:induction false} KnowsOneMore(vals: map<Node, Value>, f: Forest, node: Node, v: Value, g: Forest)
    requires Knows(vals, f) && node.value == v && g.kids.Keys == f.kids.Keys + {node}
    ensures Knows(vals[node := v], g)
  {
  }

  lemma {:induction false} NewIsAdded(s: Shape, parent: Node?, node: Node, v: Value, g: Forest)
    requires Built(s) && parent == Last(s.path) && node !in s.f.kids && WellFormed(g)
    requires s.path != [] ==> Innermost(s) in s.f.kids
    requires WellFormed(Sprouted(s.f, node))
    requires g == if parent == null then Sprouted(s.f, node)
                  else Joined(Sprouted(s.f, node), parent, |s.f.kids[parent]|, node)
    ensures NodeAdded(s, node, v, g)
  {
  }

  lemma {:induction false} LeafIsBuilt(s: Shape, node: Node, v: Value, g: Forest, first: Node?)
    requires NodeAdded(s, node, v, g) && first == if s.roots != [] then s.roots[0] else First(s.path)
    ensures var t := WithLeaf(s, node, v, g);
            && Built(t) && t.f == g && t.vals == s.vals[node := v] && t.path == s.path
            && t.stack == (if s.stack == [] then [] else Extended(s.stack, LeafTree(v)))
            && t.trees == s.trees + (if s.stack == [] then [LeafTree(v)] else [])
            && (if first == null then node else first) == if t.roots != [] then t.roots[0] else First(t.path)
    ensures g.kids.Keys == s.f.kids.Keys + {node}
  {
    LeafBuilt(s, node, v, g);
    GrownKids(s.f, s.path, node, g);
  }

  lemma {:induction false} OpenIsBuilt(s: Shape, node: Node, name: seq<byte>, attrs: seq<XmlTree.Attr>, g: Forest,
                                       first: Node?)
    requires NodeAdded(s, node, ElementValue(name, attrs), g)
    requires first == if s.roots != [] then s.roots[0] else First(s.path)
    ensures var t := WithOpen(s, node, name, attrs, g);
            && Built(t) && Last(t.path) == node
            && (if first == null then node else first) == if t.roots != [] then t.roots[0] else First(t.path)
    ensures g.kids.Keys == s.f.kids.Keys + {node}
  {
    OpenBuilt(s, node, name, attrs, g);
    GrownKids(s.f, s.path, node, g);
  }

  lemma {:induction false} ClosedIsBuilt(s: Shape, first: Node?)
    requires Built(s) && s.path != [] && first == if s.roots != [] then s.roots[0] else First(s.path)
    ensures var t := WithClosed(s);
            Built(t) && t.f == s.f && t.vals == s.vals && first == if t.roots != [] then t.roots[0] else First(t.path)
    ensures Last(WithClosed(s).path) == if |s.path| == 1 then null else s.path[|s.path| - 2]
  {
    ClosedBuilt(s);
  }

  lemma {:induction false} ParentOf(s: Shape)
    requires Linked(s.f) && Built(s) && s.path != []
    ensures Innermost(s).parent == if |s.path| == 1 then null else s.path[|s.path| - 2]
  {
    UpOfPath(s, |s.path| - 1);
  }

  lemma {:induction false} UpOfPath(s: Shape, j: nat)
    requires Linked(s.f) && Built(s) && j < |s.path|
    ensures s.path[j] in s.f.kids && s.path[j].parent == if j == 0 then null else s.path[j - 1]
    ensures j > 0 ==> s.path[j - 1] in s.f.kids
  {
    assert IsOpen(s, j);
    assert Here(s.path[j]) == LinksOf(s.f, s.path[j]);
    if j > 0 {
      UpIsPath(s, j);
    }
  }
}
