/** The trees, as values, that the nodes of a forest hold. */
module XmlContent {
  import opened CString
  import XmlTree
  import opened XmlForest
  import opened XmlPreOrder
  import opened XmlWalk

  /** The element, or text, at n. */
  ghost function TreeOf(f: Forest, vals: map<Node, Value>, n: Node): (t: XmlTree.Node)
    requires WellFormed(f) && vals.Keys == f.kids.Keys && n in f.kids
    decreases f.bound - f.depth[n], |f.kids[n]| + 1
  {
    match vals[n]
    case ElementValue(name, attrs) => XmlTree.Element(name, attrs, TreesFrom(f, vals, n, 0))
    case OpaqueValue(t) => XmlTree.Opaque(t)
    case TextValue(ws, t) => XmlTree.Text(ws, t)
  }

  ghost function TreesFrom(f: Forest, vals: map<Node, Value>, n: Node, i: nat): seq<XmlTree.Node>
    requires WellFormed(f) && vals.Keys == f.kids.Keys && n in f.kids && i <= |f.kids[n]|
    decreases f.bound - f.depth[n], |f.kids[n]| - i
  {
    if i == |f.kids[n]| then []
    else
      assert IsChild(f, n, i);
      [TreeOf(f, vals, f.kids[n][i])] + TreesFrom(f, vals, n, i + 1)
  }

  /** The trees of a list of nodes. */
  ghost function Trees(f: Forest, vals: map<Node, Value>, ns: seq<Node>): (ts: seq<XmlTree.Node>)
    requires WellFormed(f) && vals.Keys == f.kids.Keys && forall m :: m in ns ==> m in f.kids
    ensures |ts| == |ns|
    decreases |ns|
  {
    if ns == [] then [] else [TreeOf(f, vals, ns[0])] + Trees(f, vals, ns[1..])
  }

  /** An element holds the trees of its children. */
  lemma {:induction false} TreeIs(f: Forest, vals: map<Node, Value>, n: Node)
    requires WellFormed(f) && vals.Keys == f.kids.Keys && n in f.kids && vals[n].ElementValue?
    ensures forall m :: m in f.kids[n] ==> m in f.kids
    ensures TreeOf(f, vals, n) == XmlTree.Element(vals[n].name, vals[n].attrs, Trees(f, vals, f.kids[n]))
  {
    AllChildren(f, n);
    TreesFromIs(f, vals, n, 0);
    assert f.kids[n][0..] == f.kids[n];
  }

  lemma {:induction false} TreesFromIs(f: Forest, vals: map<Node, Value>, n: Node, i: nat)
    requires WellFormed(f) && vals.Keys == f.kids.Keys && n in f.kids && i <= |f.kids[n]|
    requires forall m :: m in f.kids[n] ==> m in f.kids
    ensures TreesFrom(f, vals, n, i) == Trees(f, vals, f.kids[n][i..])
    decreases |f.kids[n]| - i
  {
    if i < |f.kids[n]| {
      TreesFromIs(f, vals, n, i + 1);
      assert f.kids[n][i..][1..] == f.kids[n][i + 1..];
    }
  }

  lemma {:induction false} TreesSnoc(f: Forest, vals: map<Node, Value>, ns: seq<Node>, n: Node)
    requires WellFormed(f) && vals.Keys == f.kids.Keys && n in f.kids && forall m :: m in ns ==> m in f.kids
    ensures Trees(f, vals, ns + [n]) == Trees(f, vals, ns) + [TreeOf(f, vals, n)]
    decreases |ns|
  {
    if ns == [] {
      assert ns + [n] == [n] && [n][1..] == [];
    } else {
      assert (ns + [n])[0] == ns[0] && (ns + [n])[1..] == ns[1..] + [n];
      TreesSnoc(f, vals, ns[1..], n);
    }
  }

  /** Nothing at or below n has changed. */
  ghost predicate Same(f: Forest, vals: map<Node, Value>, g: Forest, vals': map<Node, Value>, n: Node)
    requires WellFormed(f) && vals.Keys == f.kids.Keys && WellFormed(g) && vals'.Keys == g.kids.Keys
  {
    forall x :: x in f.kids && Under(f, x, n) ==> x in g.kids && g.kids[x] == f.kids[x] && vals'[x] == vals[x]
  }

  lemma {:induction false} SameTree(f: Forest, vals: map<Node, Value>, g: Forest, vals': map<Node, Value>, n: Node)
    requires WellFormed(f) && vals.Keys == f.kids.Keys && WellFormed(g) && vals'.Keys == g.kids.Keys
    requires n in f.kids && Same(f, vals, g, vals', n)
    ensures n in g.kids && TreeOf(g, vals', n) == TreeOf(f, vals, n)
    decreases f.bound - f.depth[n], |f.kids[n]| + 1
  {
    assert Under(f, n, n);
    SameTreesFrom(f, vals, g, vals', n, 0);
  }

  lemma {:induction false} SameTreesFrom(f: Forest, vals: map<Node, Value>, g: Forest, vals': map<Node, Value>, n: Node,
                                         i: nat)
    requires WellFormed(f) && vals.Keys == f.kids.Keys && WellFormed(g) && vals'.Keys == g.kids.Keys
    requires n in f.kids && Same(f, vals, g, vals', n) && n in g.kids && g.kids[n] == f.kids[n] && i <= |f.kids[n]|
    ensures TreesFrom(g, vals', n, i) == TreesFrom(f, vals, n, i)
    decreases f.bound - f.depth[n], |f.kids[n]| - i
  {
    if i < |f.kids[n]| {
      var c := f.kids[n][i];
      assert IsChild(f, n, i) && IsChild(g, n, i);
      assert Parent(f, c) && Under(f, n, n) && Under(f, c, n);
      forall x | x in f.kids && Under(f, x, c) ensures Under(f, x, n) {
        UnderTransitive(f, x, c, n);
      }
      SameTree(f, vals, g, vals', c);
      SameTreesFrom(f, vals, g, vals', n, i + 1);
    }
  }

  /** The trees from a node of a list of siblings on. */
  ghost function TreesOnwards(f: Forest, vals: map<Node, Value>, n: Node?): seq<XmlTree.Node>
    requires WellFormed(f) && vals.Keys == f.kids.Keys && (n != null ==> n in f.kids)
  {
    if n == null then [] else Trees(f, vals, Onwards(f, n))
  }
}

/** mxml_write_node and what is built on it, on the nodes of the heap. */
module XmlSaver {
  import opened CString
  import opened XmlEntity
  import XmlTree
  import opened XmlPrinter
  import opened XmlNulFree
  import opened XmlWriter
  import opened XmlForest
  import opened XmlPreOrder
  import opened XmlWalk
  import opened XmlContent

  lemma {:induction false} OnwardsTrees(f: Forest, vals: map<Node, Value>, n: Node)
    requires Linked(f) && vals.Keys == f.kids.Keys && n in f.kids
    ensures n.next != null ==> n.next in f.kids && f.depth[n.next] == f.depth[n]
    ensures n.next != null ==> |Onwards(f, n.next)| < |Onwards(f, n)|
    ensures TreesOnwards(f, vals, n) == [TreeOf(f, vals, n)] + TreesOnwards(f, vals, n.next)
  {
    OnwardsStep(f, n);
    assert Here(n) == LinksOf(f, n);
    if n in f.up {
      var p, i := f.up[n], Rank(f, n);
      if i + 1 < |f.kids[p]| {
        assert IsChild(f, p, i + 1) && IsChild(f, p, i);
      }
    }
    if n.next == null {
      assert [n][1..] == [];
    } else {
      assert ([n] + Onwards(f, n.next))[1..] == Onwards(f, n.next);
    }
  }

  /** From its first child on, a node's children are all there. */
  lemma {:induction false} ChildTrees(f: Forest, vals: map<Node, Value>, n: Node)
    requires Linked(f) && vals.Keys == f.kids.Keys && n in f.kids && vals[n].ElementValue?
    ensures n.child != null ==> n.child in f.kids && f.depth[n.child] == f.depth[n] + 1
    ensures n.child == null <==> TreesOnwards(f, vals, n.child) == []
    ensures TreeOf(f, vals, n) == XmlTree.Element(vals[n].name, vals[n].attrs, TreesOnwards(f, vals, n.child))
  {
    TreeIs(f, vals, n);
    assert Here(n) == LinksOf(f, n);
    if f.kids[n] != [] {
      assert IsChild(f, n, 0);
      IndexIs(f, n, 0);
      assert f.kids[n][0..] == f.kids[n];
    }
  }

  /** mxml_write_node: the node, its children by recursion, then its following siblings by the loop. */
  method WriteNodes(start: Node?, p: StringSink, col0: nat, wrap: int, ghost vals: map<Node, Value>, ghost f: Forest)
    returns (col: nat)
    requires p.Valid() && Linked(f) && Knows(vals, f) && (start != null ==> start in f.kids)
    modifies p, p.buffer
    ensures p.Valid() && Linked(f) && Knows(vals, f)
    ensures p.written == old(p.written) + NodesBytes(TreesOnwards(f, vals, start), col0, wrap)
    ensures col == NodesCol(TreesOnwards(f, vals, start), col0, wrap)
    decreases if start == null then 0 else f.bound - f.depth[start] + 1, 0
  {
    ghost var all := TreesOnwards(f, vals, start);
    ghost var target := p.written + NodesBytes(all, col0, wrap);
    var node := start;
    col := col0;
    while node != null
      invariant p.Valid() && Linked(f) && Knows(vals, f)
      invariant node != null ==> start != null && node in f.kids && f.depth[node] == f.depth[start]
      invariant NodesCol(TreesOnwards(f, vals, node), col, wrap) == NodesCol(all, col0, wrap)
      invariant p.written + NodesBytes(TreesOnwards(f, vals, node), col, wrap) == target
      decreases if node == null then 0 else |Onwards(f, node)| + 1
    {
      ghost var t, rest := TreeOf(f, vals, node), TreesOnwards(f, vals, node.next);
      OnwardsTrees(f, vals, node);
      assert ([t] + rest)[1..] == rest;
      Associative(p.written, NodeBytes(t, col, wrap), NodesBytes(rest, NodeCol(t, col, wrap), wrap));
      col := WriteNode(node, p, col, wrap, vals, f);
      node := node.next;
    }
    assert p.written + [] == p.written;
  }

  /** The switch on the node's type. */
  method WriteNode(node: Node, p: StringSink, col0: nat, wrap: int, ghost vals: map<Node, Value>, ghost f: Forest)
    returns (col: nat)
    requires p.Valid() && Linked(f) && Knows(vals, f) && node in f.kids
    modifies p, p.buffer
    ensures p.Valid() && Linked(f) && Knows(vals, f)
    ensures p.written == old(p.written) + NodeBytes(TreeOf(f, vals, node), col0, wrap)
    ensures col == NodeCol(TreeOf(f, vals, node), col0, wrap)
    decreases f.bound - f.depth[node], 4
  {
    match node.value
    case OpaqueValue(t) =>
      WriteString(t, p);
      col := col0 + |t|;
    case TextValue(ws, t) =>
      col := WriteText(XmlTree.Text(ws, t), p, col0, wrap);
    case ElementValue(_, _) =>
      col := WriteElement(node, p, col0, wrap, vals, f);
  }

  /** The start tag does not depend on the children. */
  lemma {:induction false} TagsAgree(name: seq<byte>, attrs: seq<XmlTree.Attr>, ts: seq<XmlTree.Node>, col: nat,
                                     wrap: int)
    ensures OpenTag(XmlTree.Element(name, attrs, []), col, wrap) == OpenTag(XmlTree.Element(name, attrs, ts), col, wrap)
    ensures OpenCol(XmlTree.Element(name, attrs, []), col, wrap) == OpenCol(XmlTree.Element(name, attrs, ts), col, wrap)
  {
  }

  /** The start tag, which is stored apart from the tree. */
  method OpenApart(n: XmlTree.Node, p: StringSink, col0: nat, wrap: int, ghost vals: map<Node, Value>, ghost f: Forest)
    returns (col: nat)
    requires p.Valid() && n.Element? && Linked(f) && Knows(vals, f)
    modifies p, p.buffer
    ensures p.Valid() && Linked(f) && Knows(vals, f)
    ensures p.written == old(p.written) + OpenTag(n, col0, wrap) && col == OpenCol(n, col0, wrap)
  {
    col := WriteOpenTag(n, p, col0, wrap);
  }

  method WriteElement(node: Node, p: StringSink, col0: nat, wrap: int, ghost vals: map<Node, Value>, ghost f: Forest)
    returns (col: nat)
    requires p.Valid() && Linked(f) && Knows(vals, f) && node in f.kids && node.value.ElementValue?
    modifies p, p.buffer
    ensures p.Valid() && Linked(f) && Knows(vals, f)
    ensures p.written == old(p.written) + NodeBytes(TreeOf(f, vals, node), col0, wrap)
    ensures col == NodeCol(TreeOf(f, vals, node), col0, wrap)
    decreases f.bound - f.depth[node], 3
  {
    ChildTrees(f, vals, node);
    ghost var ts := TreesOnwards(f, vals, node.child);
    ghost var t := XmlTree.Element(node.value.name, node.value.attrs, ts);
    Associative(p.written, OpenTag(t, col0, wrap), TailBytes(t, col0, wrap));
    TagsAgree(node.value.name, node.value.attrs, ts, col0, wrap);
    col := OpenApart(XmlTree.Element(node.value.name, node.value.attrs, []), p, col0, wrap, vals, f);
    col := WriteTail(node.child, node.value.name, t.attrs, p, col, col0, wrap, f.depth[node], ts, vals, f);
  }

  /** What follows the attributes; ts are the children, from `child` on, of a node at this depth. */
  method WriteTail(child: Node?, name: seq<byte>, ghost attrs: seq<XmlTree.Attr>, p: StringSink, col1: nat,
                   ghost col0: nat, wrap: int, ghost depth: nat, ghost ts: seq<XmlTree.Node>,
                   ghost vals: map<Node, Value>, ghost f: Forest) returns (col: nat)
    requires p.Valid() && Linked(f) && Knows(vals, f) && depth <= f.bound
    requires child != null ==> child in f.kids && f.depth[child] == depth + 1
    requires ts == TreesOnwards(f, vals, child) && (child == null <==> ts == [])
    requires col1 == OpenCol(XmlTree.Element(name, attrs, ts), col0, wrap)
    modifies p, p.buffer
    ensures p.Valid() && Linked(f) && Knows(vals, f)
    ensures p.written == old(p.written) + TailBytes(XmlTree.Element(name, attrs, ts), col0, wrap)
    ensures col == NodeCol(XmlTree.Element(name, attrs, ts), col0, wrap)
    decreases f.bound - depth, 2
  {
    if child != null {
      TailOfParent(name, attrs, ts, col0, wrap, col1);
      col := WriteBody(child, name, p, col1, wrap, ts, vals, f);
    } else {
      TailOfLeaf(name, attrs, col0, wrap, col1);
      col := EmptyApart(name, p, col1, vals, f);
    }
  }

  lemma {:induction false} TailOfParent(name: seq<byte>, attrs: seq<XmlTree.Attr>, ts: seq<XmlTree.Node>, col0: nat,
                                        wrap: int, col1: nat)
    requires ts != [] && col1 == OpenCol(XmlTree.Element(name, attrs, ts), col0, wrap)
    ensures TailBytes(XmlTree.Element(name, attrs, ts), col0, wrap)
            == [GT] + NodesBytes(ts, col1 + 1, wrap) + EndTag(name)
    ensures NodeCol(XmlTree.Element(name, attrs, ts), col0, wrap)
            == NodesCol(ts, col1 + 1, wrap) + if IsSpecial(name) then 0 else |name| + 3
  {
  }

  lemma {:induction false} TailOfLeaf(name: seq<byte>, attrs: seq<XmlTree.Attr>, col0: nat, wrap: int, col1: nat)
    requires col1 == OpenCol(XmlTree.Element(name, attrs, []), col0, wrap)
    ensures TailBytes(XmlTree.Element(name, attrs, []), col0, wrap)
            == if IsSpecial(name) then [GT] else [SPACE, SLASH, GT]
    ensures NodeCol(XmlTree.Element(name, attrs, []), col0, wrap) == col1 + if IsSpecial(name) then 1 else 3
  {
  }

  /** One character, which is stored apart from the tree. */
  method PutApart(ch: byte, p: StringSink, ghost vals: map<Node, Value>, ghost f: Forest)
    requires p.Valid() && Linked(f) && Knows(vals, f)
    modifies p, p.buffer
    ensures p.Valid() && Linked(f) && Knows(vals, f) && p.written == old(p.written) + [ch]
  {
    p.Putc(ch);
  }

  /** The children from `child` on, and the end tag. */
  method WriteBody(child: Node, name: seq<byte>, p: StringSink, col1: nat, wrap: int, ghost ts: seq<XmlTree.Node>,
                   ghost vals: map<Node, Value>, ghost f: Forest) returns (col: nat)
    requires p.Valid() && Linked(f) && Knows(vals, f) && child in f.kids && ts == TreesOnwards(f, vals, child)
    modifies p, p.buffer
    ensures p.Valid() && Linked(f) && Knows(vals, f)
    ensures p.written == old(p.written) + ([GT] + NodesBytes(ts, col1 + 1, wrap) + EndTag(name))
    ensures col == NodesCol(ts, col1 + 1, wrap) + if IsSpecial(name) then 0 else |name| + 3
    decreases f.bound - f.depth[child] + 1, 1
  {
    ghost var before := p.written;
    PutApart(GT, p, vals, f);
    col := WriteNodes(child, p, col1 + 1, wrap, vals, f);
    col := WriteClose(name, p, col, before, NodesBytes(ts, col1 + 1, wrap), vals, f);
  }

  /** The end tag, which ? and ! elements do not have. */
  method WriteClose(name: seq<byte>, p: StringSink, col0: nat, ghost before: seq<byte>, ghost body: seq<byte>,
                    ghost vals: map<Node, Value>, ghost f: Forest) returns (col: nat)
    requires p.Valid() && p.written == before + [GT] + body && Linked(f) && Knows(vals, f)
    modifies p, p.buffer
    ensures p.Valid() && p.written == before + ([GT] + body + EndTag(name)) && Linked(f) && Knows(vals, f)
    ensures col == col0 + if IsSpecial(name) then 0 else |name| + 3
  {
    col := col0;
    Associative(before, [GT], body);
    Associative(before, [GT] + body, EndTag(name));
    if name == [] || (name[0] != BANG && name[0] != QUESTION) {
      WriteEndTag(name, p);
      col := col + |name| + 3;
    } else {
      assert p.written + [] == p.written;
    }
  }

  /** The end of an element without children. */
  method EmptyApart(name: seq<byte>, p: StringSink, col0: nat, ghost vals: map<Node, Value>, ghost f: Forest)
    returns (col: nat)
    requires p.Valid() && Linked(f) && Knows(vals, f)
    modifies p, p.buffer
    ensures Linked(f) && Knows(vals, f)
    ensures p.Valid() && p.written == old(p.written) + if IsSpecial(name) then [GT] else [SPACE, SLASH, GT]
    ensures col == col0 + if IsSpecial(name) then 1 else 3
  {
    col := WriteEmpty(name, p, col0);
  }

  method WriteEmpty(name: seq<byte>, p: StringSink, col0: nat) returns (col: nat)
    requires p.Valid()
    modifies p, p.buffer
    ensures p.Valid() && p.written == old(p.written) + if IsSpecial(name) then [GT] else [SPACE, SLASH, GT]
    ensures col == col0 + if IsSpecial(name) then 1 else 3
  {
    if name != [] && (name[0] == BANG || name[0] == QUESTION) {
      p.Putc(GT);
      col := col0 + 1;
    } else {
      p.Putc(SPACE);
      p.Putc(SLASH);
      p.Putc(GT);
      col := col0 + 3;
    }
  }

  /** The text of mxmlSaveString: the node and, unless the column is 0, a newline; ts are the trees it writes. */
  method WriteDocument(node: Node?, p: StringSink, wrap: int, ghost ts: seq<XmlTree.Node>, ghost vals: map<Node, Value>,
                       ghost f: Forest)
    requires p.Valid() && p.written == [] && Linked(f) && Knows(vals, f) && (node != null ==> node in f.kids)
    requires ts == TreesOnwards(f, vals, node)
    modifies p, p.buffer
    ensures p.Valid() && p.written == Print(ts, wrap) && Linked(f) && Knows(vals, f)
  {
    var col := WriteNodes(node, p, 0, wrap, vals, f);
    assert p.written == NodesBytes(ts, 0, wrap);
    if col > 0 {
      PutApart(NEWLINE, p, vals, f);
    }
  }

  method TerminateApart(p: StringSink, ghost vals: map<Node, Value>, ghost f: Forest)
    requires p.Valid() && p.buffer.Length > 0 && Linked(f) && Knows(vals, f)
    modifies p.buffer
    ensures Saved(p.buffer[..], p.pos, p.written) && Linked(f) && Knows(vals, f)
  {
    TerminateString(p);
  }

  /** mxmlSaveString: the size of the whole text, and as much of it as fits, always terminated. */
  method SaveString(node: Node?, buffer: array<byte>, wrap: int, ghost ts: seq<XmlTree.Node>,
                    ghost vals: map<Node, Value>, ghost f: Forest) returns (n: nat)
    requires buffer.Length > 0 && Linked(f) && Knows(vals, f) && (node != null ==> node in f.kids)
    requires ts == TreesOnwards(f, vals, node)
    modifies buffer
    ensures Linked(f) && Knows(vals, f)
    ensures Saved(buffer[..], n, Print(ts, wrap))
  {
    var p := new StringSink(buffer);
    WriteDocument(node, p, wrap, ts, vals, f);
    n := p.pos;
    TerminateApart(p, vals, f);
  }

  /** mxmlSaveString into a new buffer, and the C string in it if the text fits. */
  method SaveInto(size: nat, node: Node?, wrap: int, ghost ts: seq<XmlTree.Node>, ghost vals: map<Node, Value>,
                  ghost f: Forest) returns (n: nat, s: seq<byte>)
    requires size > 0 && Linked(f) && Knows(vals, f) && (node != null ==> node in f.kids)
    requires ts == TreesOnwards(f, vals, node) && CStrings(ts)
    ensures n == |Print(ts, wrap)| && (n < size ==> s == Print(ts, wrap))
  {
    var buffer := new byte[size](_ => 0);
    assert Linked(f) && Knows(vals, f);
    n := SaveString(node, buffer, wrap, ts, vals, f);
    PrintNulFree(ts, wrap);
    s := CStr(buffer[..]);
    if n < size {
      CStrStops(buffer[..], n);
    }
  }

  /** mxmlSaveAllocString: a first try in 8192 bytes, a second in exactly the size needed. */
  method SaveAllocString(node: Node?, wrap: int, ghost ts: seq<XmlTree.Node>, ghost vals: map<Node, Value>,
                         ghost f: Forest) returns (s: seq<byte>)
    requires Linked(f) && Knows(vals, f) && (node != null ==> node in f.kids)
    requires ts == TreesOnwards(f, vals, node) && CStrings(ts)
    ensures s == Print(ts, wrap)
  {
    var bytes;
    bytes, s := SaveInto(8192, node, wrap, ts, vals, f);
    if bytes <= 0 {
      return [];
    }
    if bytes >= 8192 - 1 {
      bytes, s := SaveInto(bytes + 1, node, wrap, ts, vals, f);
    }
  }
}
