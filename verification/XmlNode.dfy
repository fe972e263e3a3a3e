/** jni/xml/mxml-node.c: trees of nodes linked by parent, sibling and child pointers. A Forest is the shape the
    pointers are meant to have. */
module XmlForest {
  import opened CString
  import opened XmlTree

  datatype Value =
    | ElementValue(name: seq<byte>, attrs: seq<Attr>)
    | OpaqueValue(opaque_: seq<byte>)
    | TextValue(whitespace: bool, text: seq<byte>)

  class Node {
    var value: Value
    var parent: Node?
    var prev: Node?
    var next: Node?
    var child: Node?
    var last_child: Node?
    var ref_count: int

    /** calloc in mxml_new */
    constructor (v: Value)
      ensures value == v && ref_count == 1
      ensures parent == null && prev == null && next == null && child == null && last_child == null
    {
      value := v;
      parent, prev, next, child, last_child := null, null, null, null, null;
      ref_count := 1;
    }
  }

  /** For every node its children in order, for every node but the roots its parent, and a level, one more than
      the parent's. */
  datatype Forest = Forest(kids: map<Node, seq<Node>>, up: map<Node, Node>, depth: map<Node, nat>, bound: nat)

  /** The i-th child of p: a node, not listed twice, one level below p. */
  ghost predicate IsChild(f: Forest, p: Node, i: nat)
    requires p in f.kids && i < |f.kids[p]|
  {
    var c := f.kids[p][i];
    && c in f.kids && c in f.up && f.up[c] == p
    && p in f.depth && c in f.depth && f.depth[c] == f.depth[p] + 1
    && forall j :: 0 <= j < i ==> f.kids[p][j] != c
  }

  /** A forest: parents and children agree, no node has two places, and levels make cycles impossible. */
  ghost predicate WellFormed(f: Forest) {
    && f.depth.Keys == f.kids.Keys && f.up.Keys <= f.kids.Keys
    && (forall p, i :: p in f.kids && 0 <= i < |f.kids[p]| ==> IsChild(f, p, i))
    && (forall n :: n in f.up ==> f.up[n] in f.kids && n in f.kids[f.up[n]])
    && (forall n :: n in f.depth ==> f.depth[n] <= f.bound)
  }

  function First(s: seq<Node>): Node? { if s == [] then null else s[0] }

  function Last(s: seq<Node>): Node? { if s == [] then null else s[|s| - 1] }

  /** The five pointers of a node. */
  datatype Links = Links(parent: Node?, prev: Node?, next: Node?, child: Node?, last_child: Node?)

  function Here(n: Node): Links
    reads n
  {
    Links(n.parent, n.prev, n.next, n.child, n.last_child)
  }

  function Before(s: seq<Node>, i: nat): Node?
    requires i < |s|
  {
    if i == 0 then null else s[i - 1]
  }

  function After(s: seq<Node>, i: nat): Node?
    requires i < |s|
  {
    if i + 1 == |s| then null else s[i + 1]
  }

  /** The pointers n has in the forest f. */
  ghost function LinksOf(f: Forest, n: Node): Links
    requires WellFormed(f) && n in f.kids
  {
    var first, last := First(f.kids[n]), Last(f.kids[n]);
    if n !in f.up then Links(null, null, null, first, last)
    else
      var s := f.kids[f.up[n]];
      var i := IndexOf(s, n);
      Links(f.up[n], Before(s, i), After(s, i), first, last)
  }

  /** The pointers of all nodes have the shape f. */
  ghost predicate Linked(f: Forest)
    reads f.kids.Keys
  {
    WellFormed(f) && forall n :: n in f.kids ==> Here(n) == LinksOf(f, n)
  }

  /** x is a or lies below a. */
  ghost predicate Under(f: Forest, x: Node, a: Node)
    requires WellFormed(f) && x in f.kids
    decreases f.depth[x]
  {
    x == a || (x in f.up && Parent(f, x) && Under(f, f.up[x], a))
  }

  ghost predicate Parent(f: Forest, x: Node)
    requires WellFormed(f) && x in f.up
    ensures f.up[x] in f.kids && f.depth[x] == f.depth[f.up[x]] + 1
  {
    var p := f.up[x];
    assert x in f.kids[p];
    var i :| 0 <= i < |f.kids[p]| && f.kids[p][i] == x;
    IsChild(f, p, i)
  }

  // ---- lists of children ----------------------------------------------------------------------

  function Inserted(s: seq<Node>, i: nat, n: Node): seq<Node>
    requires i <= |s|
  {
    s[..i] + [n] + s[i..]
  }

  function Without(s: seq<Node>, i: nat): seq<Node>
    requires i < |s|
  {
    s[..i] + s[i + 1..]
  }

  ghost function IndexOf(s: seq<Node>, n: Node): (i: nat)
    requires n in s
    ensures i < |s| && s[i] == n
  {
    var i :| 0 <= i < |s| && s[i] == n;
    i
  }

  /** The forest after node has been taken from its parent. */
  ghost function Removed(f: Forest, node: Node): Forest
    requires WellFormed(f) && node in f.kids
  {
    if node !in f.up then f
    else
      var p := f.up[node];
      f.(kids := f.kids[p := Without(f.kids[p], IndexOf(f.kids[p], node))], up := f.up - {node})
  }

  lemma {:induction false} RemovedWellFormed(f: Forest, node: Node)
    requires WellFormed(f) && node in f.kids
    ensures WellFormed(Removed(f, node))
  {
    if node in f.up {
      var p := f.up[node];
      var s, k, g := f.kids[p], IndexOf(f.kids[p], node), Removed(f, node);
      forall q, i | q in g.kids && 0 <= i < |g.kids[q]| ensures IsChild(g, q, i) {
        if q == p {
          var j := if i < k then i else i + 1;
          assert IsChild(f, p, j) && IsChild(f, p, k);
          forall m | 0 <= m < i ensures g.kids[p][m] != g.kids[p][i] {
            assert g.kids[p][m] == s[if m < k then m else m + 1];
          }
        } else {
          assert IsChild(f, q, i);
        }
      }
      forall n | n in g.up ensures g.up[n] in g.kids && n in g.kids[g.up[n]] {
        if g.up[n] == p {
          var i := IndexOf(s, n);
          assert g.kids[p][if i < k then i else i - 1] == n;
        }
      }
    }
  }

  lemma {:induction false} IndexIs(f: Forest, p: Node, i: nat)
    requires WellFormed(f) && p in f.kids && i < |f.kids[p]|
    ensures f.kids[p][i] in f.up && f.up[f.kids[p][i]] == p && IndexOf(f.kids[p], f.kids[p][i]) == i
  {
    var j := IndexOf(f.kids[p], f.kids[p][i]);
    assert IsChild(f, p, i) && IsChild(f, p, j);
  }

  /** The pointer updates of mxmlRemove: l are the pointers of node, m those of n. */
  function Unlinked(m: Links, n: Node, node: Node, l: Links): Links {
    if n == node then m.(parent := null, prev := null, next := null)
    else
      m.(prev := if l.next == n then l.prev else m.prev,
         next := if l.prev == n then l.next else m.next,
         child := if l.parent == n && l.prev == null then l.next else m.child,
         last_child := if l.parent == n && l.next == null then l.prev else m.last_child)
  }

  lemma {:induction false} RemovedEnds(f: Forest, node: Node, n: Node)
    requires WellFormed(f) && node in f.up && n in f.kids && n != node
    requires WellFormed(Removed(f, node))
    ensures var g, l, m := Removed(f, node), LinksOf(f, node), Unlinked(LinksOf(f, n), n, node, LinksOf(f, node));
            First(g.kids[n]) == m.child && Last(g.kids[n]) == m.last_child
  {
    var p := f.up[node];
    if n == p {
      var s, k := f.kids[p], IndexOf(f.kids[p], node);
      WithoutEnds(s, k);
    }
  }

  lemma {:induction false} WithoutEnds(s: seq<Node>, k: nat)
    requires k < |s|
    ensures First(Without(s, k)) == if k == 0 then After(s, k) else s[0]
    ensures Last(Without(s, k)) == if k + 1 == |s| then Before(s, k) else s[|s| - 1]
  {
  }

  /** A sibling of the removed node. */
  lemma {:induction false} RemovedSibling(f: Forest, node: Node, n: Node)
    requires WellFormed(f) && node in f.up && n in f.up && n != node && f.up[n] == f.up[node]
    requires WellFormed(Removed(f, node))
    ensures var g, m := LinksOf(Removed(f, node), n), Unlinked(LinksOf(f, n), n, node, LinksOf(f, node));
            g.parent == m.parent && g.prev == m.prev && g.next == m.next
  {
    var p, g := f.up[node], Removed(f, node);
    var s, k, i := f.kids[p], IndexOf(f.kids[p], node), IndexOf(f.kids[p], n);
    var i' := if i < k then i else i - 1;
    assert g.kids[p][i'] == n;
    IndexIs(g, p, i');
    if k > 0 {
      IndexIs(f, p, k - 1);
    }
    if k + 1 < |s| {
      IndexIs(f, p, k + 1);
    }
  }

  /** A node in another list of siblings. */
  lemma {:induction false} RemovedElsewhere(f: Forest, node: Node, n: Node)
    requires WellFormed(f) && node in f.up && n in f.kids && n != node && (n in f.up ==> f.up[n] != f.up[node])
    requires WellFormed(Removed(f, node))
    ensures var g, m := LinksOf(Removed(f, node), n), Unlinked(LinksOf(f, n), n, node, LinksOf(f, node));
            g.parent == m.parent && g.prev == m.prev && g.next == m.next
  {
    var p := f.up[node];
    var s, k := f.kids[p], IndexOf(f.kids[p], node);
    if k > 0 {
      IndexIs(f, p, k - 1);
    }
    if k + 1 < |s| {
      IndexIs(f, p, k + 1);
    }
  }

  lemma {:induction false} RemovedLinks(f: Forest, node: Node, n: Node)
    requires WellFormed(f) && node in f.up && n in f.kids
    requires WellFormed(Removed(f, node))
    ensures LinksOf(Removed(f, node), n) == Unlinked(LinksOf(f, n), n, node, LinksOf(f, node))
  {
    if n == node {
      IndexIs(f, f.up[n], IndexOf(f.kids[f.up[n]], n));
      assert IsChild(f, f.up[n], IndexOf(f.kids[f.up[n]], n));
    } else {
      RemovedEnds(f, node, n);
      if n in f.up && f.up[n] == f.up[node] {
        RemovedSibling(f, node, n);
      } else {
        RemovedElsewhere(f, node, n);
      }
    }
  }

  /** The pointer part of mxmlRemove. */
  method Unlink(node: Node, ghost nodes: set<Node>)
    requires node in nodes && node.parent != null && node.parent in nodes && node.parent != node
    requires node.prev != null ==> node.prev in nodes && node.prev != node
    requires node.next != null ==> node.next in nodes && node.next != node
    modifies nodes`parent, nodes`prev, nodes`next, nodes`child, nodes`last_child
    ensures forall n :: n in nodes ==> Here(n) == Unlinked(old(Here(n)), n, node, old(Here(node)))
  {
    if node.prev != null {
      node.prev.next := node.next;
    } else {
      node.parent.child := node.next;
    }
    if node.next != null {
      node.next.prev := node.prev;
    } else {
      node.parent.last_child := node.prev;
    }
    node.parent, node.prev, node.next := null, null, null;
  }

  /** mxmlRemove */
  method Remove(node: Node?, ghost f: Forest) returns (ghost g: Forest)
    requires Linked(f) && (node != null ==> node in f.kids)
    modifies f.kids.Keys`parent, f.kids.Keys`prev, f.kids.Keys`next, f.kids.Keys`child, f.kids.Keys`last_child
    ensures g == (if node == null then f else Removed(f, node)) && Linked(g)
  {
    g := f;
    if node == null || node.parent == null {
      return;
    }
    NeighboursAreNodes(f, node);
    Unlink(node, f.kids.Keys);
    g := Removed(f, node);
    RemovedWellFormed(f, node);
    forall n | n in g.kids ensures Here(n) == LinksOf(g, n) {
      RemovedLinks(f, node, n);
    }
  }

  /** The pointers of a node lead to other nodes of the forest. */
  lemma {:induction false} NeighboursAreNodes(f: Forest, n: Node)
    requires WellFormed(f) && n in f.kids
    ensures var l := LinksOf(f, n);
            && (l.parent != null ==> l.parent in f.kids && l.parent != n)
            && (l.prev != null ==> l.prev in f.kids && l.prev in f.up && l.prev != n)
            && (l.next != null ==> l.next in f.kids && l.next in f.up && l.next != n)
            && (l.child != null ==> l.child in f.kids) && (l.last_child != null ==> l.last_child in f.kids)
  {
    if n in f.up {
      var p := f.up[n];
      var s := f.kids[p];
      var i := IndexOf(s, n);
      assert IsChild(f, p, i);
      assert i > 0 ==> IsChild(f, p, i - 1);
      assert i + 1 < |s| ==> IsChild(f, p, i + 1);
    }
    if f.kids[n] != [] {
      assert IsChild(f, n, 0) && IsChild(f, n, |f.kids[n]| - 1);
    }
  }

  // ---- adding ---------------------------------------------------------------------------------

  datatype Where = AddBefore | AddAfter

  /** Position among the children of parent that mxmlAdd chooses: next to child, if that is a child of parent,
      else at the beginning or the end. */
  ghost function Place(f: Forest, parent: Node, wh: Where, child: Node?): (i: nat)
    requires parent in f.kids
    ensures i <= |f.kids[parent]|
  {
    var s := f.kids[parent];
    match wh
    case AddBefore => if child != null && child in s then IndexOf(s, child) else 0
    case AddAfter => if child != null && child in s then IndexOf(s, child) + 1 else |s|
  }

  /** The forest after the root `node` has become the i-th child of `parent`. */
  ghost function Joined(f: Forest, parent: Node, i: nat, node: Node): Forest
    requires WellFormed(f) && parent in f.kids && node in f.kids && i <= |f.kids[parent]|
  {
    Forest(f.kids[parent := Inserted(f.kids[parent], i, node)], f.up[node := parent],
      map x | x in f.kids :: Shifted(f, parent, node, x), f.bound + f.depth[parent] + 1)
  }

  ghost function Shifted(f: Forest, parent: Node, node: Node, x: Node): nat
    requires WellFormed(f) && parent in f.kids && node in f.kids && x in f.kids
  {
    if Under(f, x, node) then
      UnderIsDeeper(f, x, node);
      f.depth[x] - f.depth[node] + f.depth[parent] + 1
    else f.depth[x]
  }

  lemma {:induction false} UnderIsDeeper(f: Forest, x: Node, a: Node)
    requires WellFormed(f) && x in f.kids && Under(f, x, a)
    ensures a in f.kids && f.depth[x] >= f.depth[a] && (f.depth[x] == f.depth[a] ==> x == a)
    decreases f.depth[x]
  {
    if x != a {
      UnderIsDeeper(f, f.up[x], a);
    }
  }

  lemma {:induction false} JoinedChild(f: Forest, parent: Node, at: nat, node: Node, q: Node, i: nat)
    requires WellFormed(f) && parent in f.kids && node in f.kids && at <= |f.kids[parent]|
    requires node !in f.up && !Under(f, parent, node)
    requires q in f.kids && i < |Joined(f, parent, at, node).kids[q]|
    ensures IsChild(Joined(f, parent, at, node), q, i)
  {
    var g, s := Joined(f, parent, at, node), f.kids[q];
    var c := g.kids[q][i];
    if q == parent && i == at {
      assert Under(f, node, node);
      forall j | 0 <= j < i ensures g.kids[q][j] != c {
        assert IsChild(f, q, j);
      }
    } else {
      var k := if q == parent && i > at then i - 1 else i;
      assert IsChild(f, q, k);
      assert Parent(f, c);
      assert Under(f, c, node) == Under(f, q, node);
      forall j | 0 <= j < i ensures g.kids[q][j] != c {
        if q != parent || j != at {
          assert g.kids[q][j] == s[if q == parent && j > at then j - 1 else j];
        }
      }
    }
  }

  lemma {:induction false} JoinedWellFormed(f: Forest, parent: Node, at: nat, node: Node)
    requires WellFormed(f) && parent in f.kids && node in f.kids && at <= |f.kids[parent]|
    requires node !in f.up && !Under(f, parent, node)
    ensures WellFormed(Joined(f, parent, at, node))
  {
    var g := Joined(f, parent, at, node);
    forall q, i | q in g.kids && 0 <= i < |g.kids[q]| ensures IsChild(g, q, i) {
      JoinedChild(f, parent, at, node, q, i);
    }
    forall n | n in g.up ensures g.up[n] in g.kids && n in g.kids[g.up[n]] {
      if n == node {
        assert g.kids[parent][at] == node;
      } else if g.up[n] == parent {
        var i := IndexOf(f.kids[parent], n);
        assert g.kids[parent][if i < at then i else i + 1] == n;
      }
    }
    forall x | x in g.depth ensures g.depth[x] <= g.bound {
      assert f.depth[x] <= f.bound;
      assert f.depth[node] >= 0;
    }
  }

  /** The neighbours of position i. */
  function BeforeGap(s: seq<Node>, i: nat): Node?
    requires i <= |s|
  {
    if i == 0 then null else s[i - 1]
  }

  function AfterGap(s: seq<Node>, i: nat): Node?
    requires i <= |s|
  {
    if i == |s| then null else s[i]
  }

  /** The pointer updates of mxmlAdd: node goes under parent, between `before` and `after`; m are the pointers
      of n. */
  function Spliced(m: Links, n: Node, node: Node, parent: Node, before: Node?, after: Node?): Links {
    if n == node then Links(parent, before, after, m.child, m.last_child)
    else
      m.(prev := if after == n then node else m.prev,
         next := if before == n then node else m.next,
         child := if n == parent && before == null then node else m.child,
         last_child := if n == parent && after == null then node else m.last_child)
  }

  lemma {:induction false} JoinedEnds(f: Forest, parent: Node, at: nat, node: Node, n: Node)
    requires WellFormed(f) && parent in f.kids && node in f.kids && at <= |f.kids[parent]| && parent != node
    requires n in f.kids
    ensures var g, s := Joined(f, parent, at, node), f.kids[parent];
            var m := Spliced(LinksOf(f, n), n, node, parent, BeforeGap(s, at), AfterGap(s, at));
            First(g.kids[n]) == m.child && Last(g.kids[n]) == m.last_child
  {
    InsertedEnds(f.kids[parent], at, node);
  }

  lemma {:induction false} InsertedEnds(s: seq<Node>, at: nat, node: Node)
    requires at <= |s|
    ensures First(Inserted(s, at, node)) == if at == 0 then node else First(s)
    ensures Last(Inserted(s, at, node)) == if at == |s| then node else Last(s)
  {
  }

  /** A child of parent before the addition. */
  lemma {:induction false} JoinedSibling(f: Forest, parent: Node, at: nat, node: Node, n: Node)
    requires WellFormed(f) && parent in f.kids && node in f.kids && at <= |f.kids[parent]|
    requires node !in f.up && n in f.up && f.up[n] == parent
    requires WellFormed(Joined(f, parent, at, node))
    ensures var g, s := LinksOf(Joined(f, parent, at, node), n), f.kids[parent];
            var m := Spliced(LinksOf(f, n), n, node, parent, BeforeGap(s, at), AfterGap(s, at));
            g.parent == m.parent && g.prev == m.prev && g.next == m.next
  {
    var g, s := Joined(f, parent, at, node), f.kids[parent];
    var i := IndexOf(s, n);
    var i' := if i < at then i else i + 1;
    assert g.kids[parent][i'] == n;
    IndexIs(g, parent, i');
    if at > 0 {
      IndexIs(f, parent, at - 1);
    }
    if at < |s| {
      IndexIs(f, parent, at);
    }
  }

  lemma {:induction false} JoinedElsewhere(f: Forest, parent: Node, at: nat, node: Node, n: Node)
    requires WellFormed(f) && parent in f.kids && node in f.kids && at <= |f.kids[parent]|
    requires node !in f.up && n in f.kids && n != node && (n in f.up ==> f.up[n] != parent)
    requires WellFormed(Joined(f, parent, at, node))
    ensures var g, s := LinksOf(Joined(f, parent, at, node), n), f.kids[parent];
            var m := Spliced(LinksOf(f, n), n, node, parent, BeforeGap(s, at), AfterGap(s, at));
            g.parent == m.parent && g.prev == m.prev && g.next == m.next
  {
    if at > 0 {
      IndexIs(f, parent, at - 1);
    }
    if at < |f.kids[parent]| {
      IndexIs(f, parent, at);
    }
  }

  lemma {:induction false} JoinedLinks(f: Forest, parent: Node, at: nat, node: Node, n: Node)
    requires WellFormed(f) && parent in f.kids && node in f.kids && at <= |f.kids[parent]| && parent != node
    requires node !in f.up && n in f.kids
    requires WellFormed(Joined(f, parent, at, node))
    ensures var s := f.kids[parent];
            LinksOf(Joined(f, parent, at, node), n)
            == Spliced(LinksOf(f, n), n, node, parent, BeforeGap(s, at), AfterGap(s, at))
  {
    JoinedEnds(f, parent, at, node, n);
    if n == node {
      var g := Joined(f, parent, at, node);
      assert g.kids[parent][at] == node;
      IndexIs(g, parent, at);
    } else if n in f.up && f.up[n] == parent {
      JoinedSibling(f, parent, at, node, n);
    } else {
      JoinedElsewhere(f, parent, at, node, n);
    }
  }

  /** The new neighbours as mxmlAdd finds them. */
  function GapBefore(parent: Node, wh: Where, child: Node?): Node?
    reads parent, child
  {
    match wh
    case AddBefore => if child == null || child == parent.child || child.parent != parent then null else child.prev
    case AddAfter =>
      if child == null || child == parent.last_child || child.parent != parent then parent.last_child else child
  }

  function GapAfter(parent: Node, wh: Where, child: Node?): Node?
    reads parent, child
  {
    match wh
    case AddBefore => if child == null || child == parent.child || child.parent != parent then parent.child else child
    case AddAfter => if child == null || child == parent.last_child || child.parent != parent then null else child.next
  }

  /** The pointers mxmlAdd follows lead to other nodes than the one it adds. */
  ghost predicate CanLink(parent: Node, child: Node?, node: Node, nodes: set<Node>)
    reads nodes
  {
    && parent in nodes && node in nodes && parent != node && node.prev == null && node.next == null
    && (parent.child != null ==> parent.child in nodes && parent.child != node)
    && (parent.last_child != null ==> parent.last_child in nodes && parent.last_child != node)
    && (parent.child == null <==> parent.last_child == null)
    && (child != null ==>
          && child in nodes && child != node && child.prev != child && child.next != child
          && (child.prev != null ==> child.prev in nodes && child.prev != node)
          && (child.next != null ==> child.next in nodes && child.next != node))
  }

  /** The pointer part of mxmlAdd, for a node without parent and siblings. */
  method Link(parent: Node, wh: Where, child: Node?, node: Node, ghost nodes: set<Node>)
    requires CanLink(parent, child, node, nodes)
    modifies nodes`parent, nodes`prev, nodes`next, nodes`child, nodes`last_child
    ensures forall n :: n in nodes ==>
              Here(n) == Spliced(old(Here(n)), n, node, parent, old(GapBefore(parent, wh, child)),
                  old(GapAfter(parent, wh, child)))
  {
    match wh {
      case AddBefore => LinkBefore(parent, child, node, nodes);
      case AddAfter => LinkAfter(parent, child, node, nodes);
    }
  }

  method LinkBefore(parent: Node, child: Node?, node: Node, ghost nodes: set<Node>)
    requires CanLink(parent, child, node, nodes)
    modifies nodes`parent, nodes`prev, nodes`next, nodes`child, nodes`last_child
    ensures forall n :: n in nodes ==>
              Here(n) == Spliced(old(Here(n)), n, node, parent,
                                 old(GapBefore(parent, AddBefore, child)), old(GapAfter(parent, AddBefore, child)))
  {
    node.parent := parent;
    if child == null || child == parent.child || child.parent != parent {
      node.next := parent.child;
      if parent.child != null {
        parent.child.prev := node;
      } else {
        parent.last_child := node;
      }
      parent.child := node;
    } else {
      node.next := child;
      node.prev := child.prev;
      if child.prev != null {
        child.prev.next := node;
      } else {
        parent.child := node;
      }
      child.prev := node;
    }
  }

  method LinkAfter(parent: Node, child: Node?, node: Node, ghost nodes: set<Node>)
    requires CanLink(parent, child, node, nodes)
    modifies nodes`parent, nodes`prev, nodes`next, nodes`child, nodes`last_child
    ensures forall n :: n in nodes ==>
              Here(n) == Spliced(old(Here(n)), n, node, parent,
                                 old(GapBefore(parent, AddAfter, child)), old(GapAfter(parent, AddAfter, child)))
  {
    node.parent := parent;
    if child == null || child == parent.last_child || child.parent != parent {
      node.prev := parent.last_child;
      if parent.last_child != null {
        parent.last_child.next := node;
      } else {
        parent.child := node;
      }
      parent.last_child := node;
    } else {
      node.prev := child;
      node.next := child.next;
      if child.next != null {
        child.next.prev := node;
      } else {
        parent.last_child := node;
      }
      child.next := node;
    }
  }

  /** mxmlAdd's neighbours are those of the chosen position. */
  lemma {:induction false} GapIsPlace(f: Forest, parent: Node, wh: Where, child: Node?)
    requires Linked(f) && parent in f.kids && (child != null ==> child in f.kids)
    ensures var s, i := f.kids[parent], Place(f, parent, wh, child);
            GapBefore(parent, wh, child) == BeforeGap(s, i) && GapAfter(parent, wh, child) == AfterGap(s, i)
  {
    var s := f.kids[parent];
    assert Here(parent) == LinksOf(f, parent);
    if child != null {
      assert Here(child) == LinksOf(f, child);
      if child in s {
        IndexIs(f, parent, IndexOf(s, child));
        IndexIs(f, parent, 0);
        IndexIs(f, parent, |s| - 1);
      }
    }
  }

  /** The forest mxmlAdd makes. */
  ghost function Added(f: Forest, parent: Node, wh: Where, child: Node?, node: Node): Forest
    requires WellFormed(f) && parent in f.kids && node in f.kids
  {
    RemovedWellFormed(f, node);
    var f1 := Removed(f, node);
    Joined(f1, parent, Place(f1, parent, wh, child), node)
  }

  lemma {:induction false} UnderAfterRemoval(f: Forest, node: Node, x: Node)
    requires WellFormed(f) && node in f.kids && x in f.kids && WellFormed(Removed(f, node))
    ensures Under(Removed(f, node), x, node) == Under(f, x, node)
    decreases f.depth[x]
  {
    if x != node && x in f.up {
      assert Parent(f, x) && Parent(Removed(f, node), x);
      UnderAfterRemoval(f, node, f.up[x]);
    }
  }

  /** mxmlAdd: node, wherever it was, ends up next to child or at an end of parent's children. */
  method Add(parent: Node?, wh: Where, child: Node?, node: Node?, ghost f: Forest) returns (ghost g: Forest)
    requires Linked(f) && (parent != null ==> parent in f.kids) && (node != null ==> node in f.kids)
    requires child != null ==> child in f.kids && child != node
    requires parent != null && node != null ==> !Under(f, parent, node)
    modifies f.kids.Keys`parent, f.kids.Keys`prev, f.kids.Keys`next, f.kids.Keys`child, f.kids.Keys`last_child
    ensures Linked(g)
    ensures g == if parent == null || node == null then f else Added(f, parent, wh, child, node)
  {
    g := f;
    if parent == null || node == null {
      return;
    }
    ghost var f1 := Removed(f, node);
    RemovedWellFormed(f, node);
    if node.parent != null {
      f1 := Remove(node, f);
    }
    UnderAfterRemoval(f, node, parent);
    g := AddRoot(parent, wh, child, node, f1);
  }

  /** mxmlAdd for a node without parent. */
  method AddRoot(parent: Node, wh: Where, child: Node?, node: Node, ghost f: Forest) returns (ghost g: Forest)
    requires Linked(f) && parent in f.kids && node in f.kids && node !in f.up && !Under(f, parent, node)
    requires child != null ==> child in f.kids && child != node
    modifies f.kids.Keys`parent, f.kids.Keys`prev, f.kids.Keys`next, f.kids.Keys`child, f.kids.Keys`last_child
    ensures g == Joined(f, parent, Place(f, parent, wh, child), node) && Linked(g)
  {
    ghost var at := Place(f, parent, wh, child);
    g := Joined(f, parent, at, node);
    assert parent != node;
    GapIsPlace(f, parent, wh, child);
    Linkable(f, parent, child, node);
    Link(parent, wh, child, node, f.kids.Keys);
    JoinedWellFormed(f, parent, at, node);
    forall n | n in g.kids ensures Here(n) == LinksOf(g, n) {
      JoinedLinks(f, parent, at, node, n);
    }
  }

  lemma {:induction false} Linkable(f: Forest, parent: Node, child: Node?, node: Node)
    requires Linked(f) && parent in f.kids && node in f.kids && node !in f.up && parent != node
    requires child != null ==> child in f.kids && child != node
    ensures CanLink(parent, child, node, f.kids.Keys)
  {
    var s := f.kids[parent];
    assert Here(parent) == LinksOf(f, parent) && Here(node) == LinksOf(f, node);
    if s != [] {
      assert IsChild(f, parent, 0) && IsChild(f, parent, |s| - 1);
    }
    if child != null {
      assert Here(child) == LinksOf(f, child);
      NeighboursAreNodes(f, child);
    }
  }

  /** What "before" and "after" mean: node is next to child if child is a child of parent, else at that end of
      the list. */
  lemma {:induction false} AddedNextTo(f: Forest, parent: Node, wh: Where, child: Node?, node: Node)
    requires WellFormed(f) && parent in f.kids && node in f.kids && !Under(f, parent, node) && child != node
    ensures WellFormed(Added(f, parent, wh, child, node))
    ensures var l, s := LinksOf(Added(f, parent, wh, child, node), node), Removed(f, node).kids[parent];
            && l.parent == parent
            && (wh == AddBefore ==> l.next == (if child != null && child in s then child else First(s)))
            && (wh == AddAfter ==> l.prev == (if child != null && child in s then child else Last(s)))
            && (child == null || child !in s ==> if wh == AddBefore then l.prev == null else l.next == null)
  {
    RemovedWellFormed(f, node);
    UnderAfterRemoval(f, node, parent);
    var f1 := Removed(f, node);
    var at := Place(f1, parent, wh, child);
    JoinedWellFormed(f1, parent, at, node);
    JoinedLinks(f1, parent, at, node, node);
  }

  /** Removing a node that was added brings the old children back. */
  lemma {:induction false} RemoveUndoesAdd(f: Forest, parent: Node, at: nat, node: Node)
    requires WellFormed(f) && parent in f.kids && node in f.kids && at <= |f.kids[parent]|
    requires !Under(f, parent, node) && node !in f.up
    ensures WellFormed(Joined(f, parent, at, node))
    ensures var g := Removed(Joined(f, parent, at, node), node); g.kids == f.kids && g.up == f.up
  {
    JoinedWellFormed(f, parent, at, node);
    var g := Joined(f, parent, at, node);
    assert IndexOf(g.kids[parent], node) == at by {
      assert g.kids[parent][at] == node;
      IndexIs(g, parent, at);
    }
    WithoutInserted(f.kids[parent], at, node);
    assert Removed(g, node).kids == f.kids;
  }

  lemma {:induction false} WithoutInserted(s: seq<Node>, at: nat, node: Node)
    requires at <= |s|
    ensures Without(Inserted(s, at, node), at) == s
  {
  }

  /** If node is parent or lies above it, no forest has the resulting parents: mxmlAdd makes a cycle. */
  lemma {:induction false} AddingAboveIsCyclic(f: Forest, g: Forest, parent: Node, node: Node)
    requires WellFormed(f) && parent in f.kids && node in f.kids && Under(f, parent, node) && WellFormed(g)
    ensures g.up != f.up[node := parent]
  {
    if g.up == f.up[node := parent] {
      assert Parent(g, node);
      ChainKept(f, g, parent, parent, node);
      assert false;
    }
  }

  lemma {:induction false} ChainKept(f: Forest, g: Forest, x: Node, parent: Node, node: Node)
    requires WellFormed(f) && WellFormed(g) && x in f.kids && x in g.kids && Under(f, x, node)
    requires g.up == f.up[node := parent]
    ensures node in g.kids && g.depth[x] >= g.depth[node]
    decreases f.depth[x]
  {
    if x != node {
      assert Parent(f, x) && Parent(g, x);
      ChainKept(f, g, f.up[x], parent, node);
    }
  }

  // ---- runs -----------------------------------------------------------------------------------

  datatype Op = AddOp(parent: Node, wh: Where, child: Node?, node: Node) | RemoveOp(node: Node)

  /** The calls that mxmlAdd's condition and the nodes at hand allow. */
  ghost predicate Allowed(f: Forest, op: Op)
    requires WellFormed(f)
  {
    match op
    case RemoveOp(node) => node in f.kids
    case AddOp(parent, _, child, node) =>
      parent in f.kids && node in f.kids && (child != null ==> child in f.kids && child != node)
      && !Under(f, parent, node)
  }

  ghost function Do(f: Forest, op: Op): Forest
    requires WellFormed(f) && Allowed(f, op)
  {
    match op
    case RemoveOp(node) => Removed(f, node)
    case AddOp(parent, wh, child, node) => Added(f, parent, wh, child, node)
  }

  ghost predicate IsRun(f: Forest, ops: seq<Op>, g: Forest)
    decreases |ops|
  {
    if ops == [] then g == f
    else WellFormed(f) && Allowed(f, ops[0]) && IsRun(Do(f, ops[0]), ops[1..], g)
  }

  lemma {:induction false} DoKeepsForest(f: Forest, op: Op)
    requires WellFormed(f) && Allowed(f, op)
    ensures WellFormed(Do(f, op)) && Do(f, op).kids.Keys == f.kids.Keys
  {
    RemovedWellFormed(f, op.node);
    if op.AddOp? {
      var f1 := Removed(f, op.node);
      UnderAfterRemoval(f, op.node, op.parent);
      JoinedWellFormed(f1, op.parent, Place(f1, op.parent, op.wh, op.child), op.node);
    }
  }

  /** Every sequence of additions and removals keeps the forest well formed, with the same nodes. */
  lemma {:induction false} RunsKeepForest(f: Forest, ops: seq<Op>, g: Forest)
    requires WellFormed(f) && IsRun(f, ops, g)
    ensures WellFormed(g) && g.kids.Keys == f.kids.Keys
    decreases |ops|
  {
    if ops != [] {
      DoKeepsForest(f, ops[0]);
      RunsKeepForest(Do(f, ops[0]), ops[1..], g);
    }
  }

  // ---- new nodes and reference counts ---------------------------------------------------------

  /** The forest with one more tree, of one node. */
  function Sprouted(f: Forest, node: Node): Forest {
    f.(kids := f.kids[node := []], depth := f.depth[node := 0])
  }

  lemma {:induction false} SproutedWellFormed(f: Forest, node: Node)
    requires WellFormed(f) && node !in f.kids
    ensures WellFormed(Sprouted(f, node))
    ensures LinksOf(Sprouted(f, node), node) == Links(null, null, null, null, null)
    ensures forall n :: n in f.kids ==> LinksOf(Sprouted(f, node), n) == LinksOf(f, n)
  {
    var g := Sprouted(f, node);
    forall p, i | p in g.kids && 0 <= i < |g.kids[p]| ensures IsChild(g, p, i) {
      assert IsChild(f, p, i);
    }
  }

  lemma {:induction false} FreshIsApart(f: Forest, node: Node, x: Node)
    requires WellFormed(f) && node !in f.kids && WellFormed(Sprouted(f, node)) && x in f.kids
    ensures !Under(Sprouted(f, node), x, node)
    decreases f.depth[x]
  {
    if x in f.up {
      assert Parent(f, x) && Parent(Sprouted(f, node), x);
      FreshIsApart(f, node, f.up[x]);
    }
  }

  method Allocate(value: Value, ghost f: Forest) returns (node: Node)
    requires Linked(f)
    ensures fresh(node) && node.value == value && node.ref_count == 1
    ensures node !in f.kids && Linked(Sprouted(f, node))
  {
    node := new Node(value);
    SproutedWellFormed(f, node);
  }

  /** mxml_new under a parent: the new node is its last child. */
  method NewChild(parent: Node, value: Value, ghost f: Forest) returns (node: Node, ghost g: Forest)
    requires Linked(f) && parent in f.kids
    modifies f.kids.Keys`parent, f.kids.Keys`prev, f.kids.Keys`next, f.kids.Keys`child, f.kids.Keys`last_child
    ensures fresh(node) && node.value == value && node.ref_count == 1 && Linked(g)
    ensures WellFormed(Sprouted(f, node))
    ensures g == Joined(Sprouted(f, node), parent, |f.kids[parent]|, node)
  {
    node := Allocate(value, f);
    ghost var h := Sprouted(f, node);
    assert Place(h, parent, AddAfter, null) == |f.kids[parent]|;
    FreshIsApart(f, node, parent);
    g := AddRoot(parent, AddAfter, null, node, h);
  }

  /** mxml_new: a node with reference count 1, as the last child of parent if there is one. */
  method New(parent: Node?, value: Value, ghost f: Forest) returns (node: Node, ghost g: Forest)
    requires Linked(f) && (parent != null ==> parent in f.kids)
    modifies f.kids.Keys`parent, f.kids.Keys`prev, f.kids.Keys`next, f.kids.Keys`child, f.kids.Keys`last_child
    ensures fresh(node) && node.value == value && node.ref_count == 1 && Linked(g)
    ensures WellFormed(Sprouted(f, node))
    ensures g == if parent == null then Sprouted(f, node)
                 else Joined(Sprouted(f, node), parent, |f.kids[parent]|, node)
  {
    if parent == null {
      node := Allocate(value, f);
      g := Sprouted(f, node);
    } else {
      node, g := NewChild(parent, value, f);
    }
  }
}
