/** Document order, and what of it lies before and after a node. */
module XmlPreOrder {
  import opened CString
  import opened XmlForest

  /** n and everything below it, in document order. */
  ghost function Pre(f: Forest, n: Node): (s: seq<Node>)
    requires WellFormed(f) && n in f.kids
    ensures s != [] && s[0] == n
    decreases f.bound - f.depth[n], |f.kids[n]| + 1
  {
    [n] + PreFrom(f, n, 0)
  }

  /** The subtrees of the children of n from the i-th on. */
  ghost function PreFrom(f: Forest, n: Node, i: nat): seq<Node>
    requires WellFormed(f) && n in f.kids && i <= |f.kids[n]|
    decreases f.bound - f.depth[n], |f.kids[n]| - i
  {
    if i == |f.kids[n]| then []
    else
      assert IsChild(f, n, i);
      Pre(f, f.kids[n][i]) + PreFrom(f, n, i + 1)
  }

  /** The subtrees of the first i children of n. */
  ghost function PreTo(f: Forest, n: Node, i: nat): seq<Node>
    requires WellFormed(f) && n in f.kids && i <= |f.kids[n]|
    decreases i
  {
    if i == 0 then []
    else
      assert IsChild(f, n, i - 1);
      PreTo(f, n, i - 1) + Pre(f, f.kids[n][i - 1])
  }

  /** Position of n among its siblings. */
  ghost function Rank(f: Forest, n: Node): (i: nat)
    requires WellFormed(f) && n in f.up
    ensures f.up[n] in f.kids && i < |f.kids[f.up[n]]| && f.kids[f.up[n]][i] == n
    ensures f.depth[n] == f.depth[f.up[n]] + 1
  {
    var i := IndexOf(f.kids[f.up[n]], n);
    assert IsChild(f, f.up[n], i);
    i
  }

  /** What of the tree below `top` comes behind the subtree of n. */
  ghost function Rest(f: Forest, top: Node, n: Node): seq<Node>
    requires WellFormed(f) && n in f.kids && Under(f, n, top)
    decreases f.depth[n]
  {
    if n == top then [] else PreFrom(f, f.up[n], Rank(f, n) + 1) + Rest(f, top, f.up[n])
  }

  /** What comes behind n. */
  ghost function Todo(f: Forest, top: Node, n: Node): seq<Node>
    requires WellFormed(f) && n in f.kids && Under(f, n, top)
  {
    PreFrom(f, n, 0) + Rest(f, top, n)
  }

  /** What comes in front of n. */
  ghost function Past(f: Forest, top: Node, n: Node): seq<Node>
    requires WellFormed(f) && n in f.kids && Under(f, n, top)
    decreases f.depth[n]
  {
    if n == top then [] else Past(f, top, f.up[n]) + [f.up[n]] + PreTo(f, f.up[n], Rank(f, n))
  }

  lemma {:induction false} ToFrom(f: Forest, n: Node, i: nat)
    requires WellFormed(f) && n in f.kids && i <= |f.kids[n]|
    ensures PreFrom(f, n, 0) == PreTo(f, n, i) + PreFrom(f, n, i)
    decreases i
  {
    if i > 0 {
      assert IsChild(f, n, i - 1);
      ToFrom(f, n, i - 1);
    }
  }

  /** Document order is what comes in front of n, n, and what comes behind. */
  lemma {:induction false} PastAndTodo(f: Forest, top: Node, n: Node)
    requires WellFormed(f) && n in f.kids && top in f.kids && Under(f, n, top)
    ensures Pre(f, top) == Past(f, top, n) + [n] + Todo(f, top, n)
    decreases f.depth[n]
  {
    if n != top {
      var p, i := f.up[n], Rank(f, n);
      PastAndTodo(f, top, p);
      ToFrom(f, p, i);
      Regroup(Past(f, top, p) + [p], PreTo(f, p, i), [n], PreFrom(f, n, 0), PreFrom(f, p, i + 1), Rest(f, top, p));
    }
  }

  lemma {:induction false} Regroup(a: seq<Node>, b: seq<Node>, n: seq<Node>, c: seq<Node>, d: seq<Node>, r: seq<Node>)
    ensures a + ((b + ((n + c) + d)) + r) == (a + b) + n + (c + (d + r))
  {
  }

  lemma {:induction false} RestOfChild(f: Forest, top: Node, p: Node, i: nat)
    requires WellFormed(f) && p in f.kids && top in f.kids && i < |f.kids[p]| && Under(f, p, top)
    ensures var m := f.kids[p][i];
            && m in f.kids && m in f.up && Under(f, m, top) && m != top
            && PreFrom(f, p, i) + Rest(f, top, p) == [m] + Todo(f, top, m)
  {
    var m := f.kids[p][i];
    UnderChild(f, top, p, i);
    assert IsChild(f, p, i);
    UnderIsDeeper(f, p, top);
    Associative([m], PreFrom(f, m, 0), PreFrom(f, p, i + 1));
    Associative([m], PreFrom(f, m, 0) + PreFrom(f, p, i + 1), Rest(f, top, p));
    Associative(PreFrom(f, m, 0), PreFrom(f, p, i + 1), Rest(f, top, p));
  }

  /** The first node behind the subtree of n: the next sibling, or that of the nearest ancestor that has one. */
  ghost function Following(f: Forest, top: Node, n: Node): (m: Node?)
    requires WellFormed(f) && n in f.kids && Under(f, n, top)
    ensures m != null ==> m in f.kids
    decreases f.depth[n]
  {
    if n == top then null
    else
      var p, i := f.up[n], Rank(f, n);
      if i + 1 < |f.kids[p]| then
        assert IsChild(f, p, i + 1);
        f.kids[p][i + 1]
      else Following(f, top, p)
  }

  lemma {:induction false} UnderChild(f: Forest, top: Node, p: Node, i: nat)
    requires WellFormed(f) && p in f.kids && i < |f.kids[p]| && Under(f, p, top)
    ensures var c := f.kids[p][i]; c in f.up && f.up[c] == p && Rank(f, c) == i && Under(f, c, top)
  {
    assert IsChild(f, p, i);
    assert Parent(f, f.kids[p][i]);
    IndexIs(f, p, i);
  }

  /** Behind the subtree of n comes Following(n), and then what is behind that. */
  lemma {:induction false} RestIsFollowing(f: Forest, top: Node, n: Node)
    requires WellFormed(f) && n in f.kids && top in f.kids && Under(f, n, top)
    ensures var m := Following(f, top, n);
            if m == null then Rest(f, top, n) == []
            else Under(f, m, top) && m != top && Rest(f, top, n) == [m] + Todo(f, top, m)
    decreases f.depth[n]
  {
    if n != top {
      var p, i := f.up[n], Rank(f, n);
      if i + 1 < |f.kids[p]| {
        RestOfChild(f, top, p, i + 1);
      } else {
        RestIsFollowing(f, top, p);
        assert PreFrom(f, p, i + 1) == [];
      }
    }
  }

  /** The step of the walk that descends. */
  lemma {:induction false} TodoIsChild(f: Forest, top: Node, n: Node)
    requires WellFormed(f) && n in f.kids && top in f.kids && Under(f, n, top) && f.kids[n] != []
    ensures var m := f.kids[n][0];
            m in f.kids && Under(f, m, top) && m != top && Todo(f, top, n) == [m] + Todo(f, top, m)
  {
    RestOfChild(f, top, n, 0);
  }

  /** The node in front of m in document order is n if m is the node behind n. */
  lemma {:induction false} PastOfNext(f: Forest, top: Node, n: Node, m: Node)
    requires WellFormed(f) && n in f.kids && m in f.kids && top in f.kids && Under(f, n, top) && Under(f, m, top)
    requires Todo(f, top, n) == [m] + Todo(f, top, m)
    ensures Past(f, top, m) == Past(f, top, n) + [n]
  {
    PastAndTodo(f, top, n);
    PastAndTodo(f, top, m);
    var k := |Past(f, top, n)|;
    assert Pre(f, top)[..k + 1] == Past(f, top, n) + [n];
    assert |Past(f, top, m)| == k + 1;
    assert Pre(f, top)[..k + 1] == Past(f, top, m);
  }

  // ---- every node once ------------------------------------------------------------------------

  ghost predicate Distinct(s: seq<Node>) { forall i, j :: 0 <= i < j < |s| ==> s[i] != s[j] }

  lemma {:induction false} DistinctConcat(a: seq<Node>, b: seq<Node>)
    requires Distinct(a) && Distinct(b) && forall x :: x in a ==> x !in b
    ensures Distinct(a + b)
  {
    forall i, j | 0 <= i < j < |a + b| ensures (a + b)[i] != (a + b)[j] {
      if i < |a| <= j {
        assert (a + b)[i] in a && (a + b)[j] in b;
      }
    }
  }

  lemma {:induction false} UnderTransitive(f: Forest, x: Node, b: Node, a: Node)
    requires WellFormed(f) && x in f.kids && b in f.kids && Under(f, x, b) && Under(f, b, a)
    ensures Under(f, x, a)
    decreases f.depth[x]
  {
    if x != b {
      UnderTransitive(f, f.up[x], b, a);
    }
  }

  /** Nodes on one level have nothing below them in common. */
  lemma {:induction false} OnlyOneAbove(f: Forest, x: Node, a: Node, b: Node)
    requires WellFormed(f) && x in f.kids && a in f.kids && b in f.kids
    requires Under(f, x, a) && Under(f, x, b) && f.depth[a] == f.depth[b]
    ensures a == b
    decreases f.depth[x]
  {
    UnderIsDeeper(f, x, a);
    UnderIsDeeper(f, x, b);
    if x != a && x != b {
      OnlyOneAbove(f, f.up[x], a, b);
    }
  }

  /** The subtree of n consists of n and the nodes below it. */
  lemma {:induction false} PreIsUnder(f: Forest, n: Node)
    requires WellFormed(f) && n in f.kids
    ensures forall x :: x in Pre(f, n) ==> x in f.kids && Under(f, x, n)
    ensures Distinct(Pre(f, n))
    decreases f.bound - f.depth[n], |f.kids[n]| + 1
  {
    PreFromIsUnder(f, n, 0);
    if n in PreFrom(f, n, 0) {
      assert false;
    }
    DistinctConcat([n], PreFrom(f, n, 0));
  }

  lemma {:induction false} PreFromIsUnder(f: Forest, n: Node, i: nat)
    requires WellFormed(f) && n in f.kids && i <= |f.kids[n]|
    ensures forall x :: x in PreFrom(f, n, i) ==>
              x in f.kids && Under(f, x, n) && x != n && exists j :: i <= j < |f.kids[n]| && Under(f, x, f.kids[n][j])
    ensures Distinct(PreFrom(f, n, i))
    decreases f.bound - f.depth[n], |f.kids[n]| - i
  {
    if i < |f.kids[n]| {
      var c := f.kids[n][i];
      assert IsChild(f, n, i);
      PreIsUnder(f, c);
      PreFromIsUnder(f, n, i + 1);
      UnderChild(f, n, n, i);
      forall x | x in Pre(f, c) ensures Under(f, x, n) && x != n && x !in PreFrom(f, n, i + 1) {
        UnderTransitive(f, x, c, n);
        UnderIsDeeper(f, x, c);
        if x in PreFrom(f, n, i + 1) {
          var j :| i + 1 <= j < |f.kids[n]| && Under(f, x, f.kids[n][j]);
          assert IsChild(f, n, j);
          OnlyOneAbove(f, x, c, f.kids[n][j]);
          assert false;
        }
      }
      DistinctConcat(Pre(f, c), PreFrom(f, n, i + 1));
    }
  }

  /** Everything below n is in its subtree. */
  lemma {:induction false} UnderIsPre(f: Forest, n: Node, x: Node)
    requires WellFormed(f) && n in f.kids && x in f.kids && Under(f, x, n)
    ensures x in Pre(f, n)
  {
    PastAndTodo(f, n, x);
  }

  /** Document order lists exactly the nodes under top, each once. */
  lemma {:induction false} PreIsExact(f: Forest, top: Node)
    requires WellFormed(f) && top in f.kids
    ensures Distinct(Pre(f, top))
    ensures forall x :: x in Pre(f, top) <==> x in f.kids && Under(f, x, top)
  {
    PreIsUnder(f, top);
    forall x | x in f.kids && Under(f, x, top) ensures x in Pre(f, top) {
      UnderIsPre(f, top, x);
    }
  }
}

/** jni/xml/mxml-search.c: walking the tree without a stack, and searching it. */
module XmlWalk {
  import opened CString
  import XmlTree
  import opened XmlForest
  import opened XmlPreOrder

  /** MXML_NO_DESCEND, MXML_DESCEND, MXML_DESCEND_FIRST */
  datatype Descend = NoDescend | AllLevels | FirstLevel

  /** The node mxmlWalkNext leads to. */
  ghost function NextNode(f: Forest, top: Node, n: Node, descend: Descend): (m: Node?)
    requires WellFormed(f) && n in f.kids && Under(f, n, top)
    ensures m != null ==> m in f.kids
  {
    if f.kids[n] != [] && descend != NoDescend then
      assert IsChild(f, n, 0);
      f.kids[n][0]
    else Following(f, top, n)
  }

  /** top is n or lies above it. */
  ghost predicate IsAbove(f: Forest, top: Node?, n: Node)
    requires WellFormed(f) && n in f.kids
  {
    top != null && top in f.kids && Under(f, n, top)
  }

  ghost function RootOf(f: Forest, n: Node): (r: Node)
    requires WellFormed(f) && n in f.kids
    ensures r in f.kids && r !in f.up && Under(f, n, r)
    decreases f.depth[n]
  {
    if n in f.up then
      assert Parent(f, n);
      RootOf(f, f.up[n])
    else n
  }

  /** What bounds a step from n: top if it is above n, else the root of n's tree. */
  ghost function Bound(f: Forest, top: Node?, n: Node): (b: Node)
    requires WellFormed(f) && n in f.kids
    ensures b in f.kids && Under(f, n, b)
  {
    if IsAbove(f, top, n) then top else RootOf(f, n)
  }

  /** One node up, what is above and what bounds does not change. */
  lemma {:induction false} BoundOfParent(f: Forest, top: Node?, n: Node)
    requires WellFormed(f) && n in f.up && n != top
    ensures n in f.kids && f.up[n] in f.kids && f.depth[f.up[n]] < f.depth[n]
    ensures Bound(f, top, f.up[n]) == Bound(f, top, n) && n != Bound(f, top, n)
  {
    assert Parent(f, n);
  }

  /** mxmlWalkNext */
  method WalkNext(start: Node?, top: Node?, descend: Descend, ghost f: Forest) returns (m: Node?)
    requires Linked(f) && (start != null ==> start in f.kids)
    ensures m == if start == null then null else NextNode(f, Bound(f, top, start), start, descend)
  {
    if start == null {
      return null;
    }
    assert Here(start) == LinksOf(f, start);
    if start.child != null && descend != NoDescend {
      return start.child;
    }
    m := WalkOn(start, top, f);
  }

  /** The rest of mxmlWalkNext, which does not descend. */
  method WalkOn(start: Node, top: Node?, ghost f: Forest) returns (m: Node?)
    requires Linked(f) && start in f.kids
    ensures m == Following(f, Bound(f, top, start), start)
  {
    var node := start;
    ghost var b := Bound(f, top, start);
    assert Here(node) == LinksOf(f, node);
    if node == top {
      return null;
    }
    if node.next != null {
      BoundOfParent(f, top, node);
      return node.next;
    }
    if node.parent != null && node.parent != top {
      BoundOfParent(f, top, node);
      assert Rank(f, node) >= 0;
      node := node.parent;
      assert Here(node) == LinksOf(f, node);
      while node.next == null
        invariant node in f.kids && node != top && Bound(f, top, node) == b && Here(node) == LinksOf(f, node)
        invariant Following(f, b, start) == Following(f, b, node)
        decreases f.depth[node]
      {
        if node.parent == top || node.parent == null {
          EndOfWalk(f, top, node);
          return null;
        }
        BoundOfParent(f, top, node);
        assert Rank(f, node) >= 0;
        node := node.parent;
        assert Here(node) == LinksOf(f, node);
      }
      BoundOfParent(f, top, node);
      return node.next;
    }
    EndOfWalk(f, top, node);
    return null;
  }

  /** The last child of the bound, and the root, have nothing behind them. */
  lemma {:induction false} EndOfWalk(f: Forest, top: Node?, node: Node)
    requires Linked(f) && node in f.kids && node != top && node.next == null
    requires node.parent == null || node.parent == top
    ensures Following(f, Bound(f, top, node), node) == null
  {
    assert Here(node) == LinksOf(f, node);
    if node in f.up {
      BoundOfParent(f, top, node);
      assert Rank(f, node) >= 0;
      assert Following(f, node.parent, node.parent) == null;
    }
  }

  /** Walking on, with descent, leads to the first of the nodes still to come; without descent, to the first one
      behind the subtree. */
  lemma {:induction false} NextIsFirst(f: Forest, top: Node, n: Node, descend: Descend)
    requires WellFormed(f) && n in f.kids && top in f.kids && Under(f, n, top)
    ensures var m, s := NextNode(f, top, n, descend), if descend == NoDescend then Rest(f, top, n) else Todo(f, top, n);
            if m == null then s == []
            else Under(f, m, top) && m != top && s == [m] + Todo(f, top, m)
  {
    RestIsFollowing(f, top, n);
    if descend != NoDescend {
      if f.kids[n] == [] {
        assert PreFrom(f, n, 0) + Rest(f, top, n) == Rest(f, top, n);
      } else {
        TodoIsChild(f, top, n);
      }
    }
  }

  /** Iterating mxmlWalkNext from top visits everything behind top in document order, and stops. */
  method WalkAll(top: Node, ghost f: Forest) returns (visited: seq<Node>)
    requires Linked(f) && top in f.kids
    ensures visited == Todo(f, top, top)
  {
    visited := [];
    var node := WalkNext(top, top, AllLevels, f);
    CandidatesAhead(f, top, top, AllLevels);
    ghost var all := Todo(f, top, top);
    ghost var left := all;
    while node != null
      invariant node != null ==> node in f.kids
      invariant left == Ahead(f, top, AllLevels, node)
      invariant all == visited + left
      decreases |left|
    {
      var here: Node := node;
      node := NextCandidate(here, top, AllLevels, left, f);
      Shift(visited, left, here);
      visited := visited + [here];
      left := left[1..];
    }
  }

  lemma {:induction false} Shift(a: seq<Node>, b: seq<Node>, n: Node)
    requires b != [] && b[0] == n
    ensures a + b == (a + [n]) + b[1..]
  {
  }

  /** These are the nodes below top, each once. */
  lemma {:induction false} WalkIsExact(f: Forest, top: Node)
    requires WellFormed(f) && top in f.kids
    ensures Pre(f, top) == [top] + Todo(f, top, top) && Distinct(Todo(f, top, top))
    ensures forall x :: x in Todo(f, top, top) <==> x in f.kids && Under(f, x, top) && x != top
  {
    PreIsExact(f, top);
    PastAndTodo(f, top, top);
    assert Pre(f, top) == [top] + Todo(f, top, top);
    WithoutFirst(Pre(f, top), top);
  }

  lemma {:induction false} WithoutFirst(s: seq<Node>, top: Node)
    requires s != [] && s[0] == top && Distinct(s)
    ensures Distinct(s[1..]) && forall x :: x in s[1..] <==> x in s && x != top
  {
    forall x | x in s && x != top ensures x in s[1..] {
      var i :| 0 <= i < |s| && s[i] == x;
      assert s[1..][i - 1] == x;
    }
  }

  /** A list of nodes in document order up to top; from there on, only what is below top. */
  ghost function UpTo(f: Forest, top: Node, s: seq<Node>): seq<Node>
    requires WellFormed(f) && top in f.kids
  {
    if s == [] then []
    else if s[0] == top then [top] + Todo(f, top, top)
    else [s[0]] + UpTo(f, top, s[1..])
  }

  /** What a walk with descent visits behind n: below top, what is still to come of it; from elsewhere, what comes
      behind n in its tree, but a walk that meets top stops at its end. */
  ghost function Coming(f: Forest, top: Node, n: Node): seq<Node>
    requires WellFormed(f) && n in f.kids && top in f.kids
  {
    if Under(f, n, top) then Todo(f, top, n) else UpTo(f, top, Todo(f, RootOf(f, n), n))
  }

  /** The node behind n hangs from n or from a node above it. */
  lemma {:induction false} FollowingParent(f: Forest, b: Node, n: Node)
    requires WellFormed(f) && n in f.kids && Under(f, n, b)
    ensures var m := Following(f, b, n);
            m != null ==> m in f.up && f.up[m] in f.kids && Under(f, n, f.up[m])
    decreases f.depth[n]
  {
    if n != b {
      var p, i := f.up[n], Rank(f, n);
      assert Parent(f, n) && Under(f, p, p);
      if i + 1 < |f.kids[p]| {
        UnderChild(f, p, p, i + 1);
      } else {
        FollowingParent(f, b, p);
      }
    }
  }

  /** A walk enters the tree below top by top itself. */
  lemma {:induction false} EntersByTop(f: Forest, top: Node, b: Node, n: Node)
    requires WellFormed(f) && n in f.kids && top in f.kids && Under(f, n, b) && !Under(f, n, top)
    ensures var m := NextNode(f, b, n, AllLevels); m != null && Under(f, m, top) ==> m == top
  {
    var m := NextNode(f, b, n, AllLevels);
    if m != null && Under(f, m, top) && m != top {
      if f.kids[n] != [] {
        UnderChild(f, n, n, 0);
      } else {
        FollowingParent(f, b, n);
        UnderTransitive(f, n, f.up[m], top);
      }
      assert false;
    }
  }

  lemma {:induction false} SameRoot(f: Forest, n: Node, r: Node)
    requires WellFormed(f) && n in f.kids && r in f.kids && r !in f.up && Under(f, n, r)
    ensures RootOf(f, n) == r
    decreases f.depth[n]
  {
    if n in f.up {
      assert Parent(f, n);
      SameRoot(f, f.up[n], r);
    }
  }

  /** One step of a walk with descent, from anywhere. */
  lemma {:induction false} ComingStep(f: Forest, top: Node, n: Node)
    requires WellFormed(f) && n in f.kids && top in f.kids
    ensures var m := NextNode(f, Bound(f, top, n), n, AllLevels);
            Coming(f, top, n) == if m == null then [] else [m] + Coming(f, top, m)
  {
    var b := Bound(f, top, n);
    var m := NextNode(f, b, n, AllLevels);
    NextIsFirst(f, b, n, AllLevels);
    if m != null && !Under(f, n, top) {
      EntersByTop(f, top, b, n);
      SameRoot(f, m, b);
      assert ([m] + Todo(f, b, m))[1..] == Todo(f, b, m);
    }
  }

  /** The current node of a search and the candidates behind it. */
  ghost function Ahead(f: Forest, top: Node, descend: Descend, node: Node?): seq<Node>
    requires WellFormed(f) && top in f.kids && (node != null ==> node in f.kids)
  {
    if node == null then []
    else if descend == AllLevels then [node] + Coming(f, top, node)
    else Onwards(f, node)
  }

  // ---- backwards ------------------------------------------------------------------------------

  /** The last node of the subtree of n. */
  ghost function LastBelow(f: Forest, n: Node): (m: Node)
    requires WellFormed(f) && n in f.kids
    ensures m in f.kids
    decreases f.bound - f.depth[n]
  {
    var s := f.kids[n];
    if s == [] then n
    else
      assert IsChild(f, n, |s| - 1);
      LastBelow(f, s[|s| - 1])
  }

  /** The node mxmlWalkPrev leads to. */
  ghost function PrevNode(f: Forest, top: Node?, n: Node, descend: Descend): (m: Node?)
    requires WellFormed(f) && n in f.kids
  {
    if n == top || n !in f.up then null
    else
      var p, i := f.up[n], Rank(f, n);
      if i > 0 then
        assert IsChild(f, p, i - 1);
        var sibling := f.kids[p][i - 1];
        if f.kids[sibling] != [] && descend != NoDescend then LastBelow(f, sibling) else sibling
      else if p != top then p
      else null
  }

  /** mxmlWalkPrev */
  method WalkPrev(start: Node?, top: Node?, descend: Descend, ghost f: Forest) returns (m: Node?)
    requires Linked(f) && (start != null ==> start in f.kids)
    ensures m == if start == null then null else PrevNode(f, top, start, descend)
  {
    if start == null || start == top {
      return null;
    }
    assert Here(start) == LinksOf(f, start);
    if start.prev != null {
      assert IsChild(f, f.up[start], Rank(f, start) - 1);
      assert Here(start.prev) == LinksOf(f, start.prev);
      if start.prev.last_child != null && descend != NoDescend {
        m := LastDescendant(start.prev, f);
      } else {
        m := start.prev;
      }
    } else if start.parent != top {
      m := start.parent;
    } else {
      m := null;
    }
    assert start in f.up ==> Rank(f, start) >= 0;
  }

  /** The loop of mxmlWalkPrev that goes down along the last children. */
  method LastDescendant(sibling: Node, ghost f: Forest) returns (node: Node)
    requires Linked(f) && sibling in f.kids && sibling.last_child != null
    ensures node == LastBelow(f, sibling)
  {
    assert Here(sibling) == LinksOf(f, sibling);
    assert IsChild(f, sibling, |f.kids[sibling]| - 1);
    node := sibling.last_child;
    assert Here(node) == LinksOf(f, node);
    while node.last_child != null
      invariant node in f.kids && Here(node) == LinksOf(f, node)
      invariant LastBelow(f, node) == LastBelow(f, sibling)
      decreases f.bound - f.depth[node]
    {
      assert IsChild(f, node, |f.kids[node]| - 1);
      node := node.last_child;
      assert Here(node) == LinksOf(f, node);
    }
  }

  lemma {:induction false} LastBelowIsLast(f: Forest, n: Node)
    requires WellFormed(f) && n in f.kids
    ensures Last(Pre(f, n)) == LastBelow(f, n)
    decreases f.bound - f.depth[n]
  {
    var k := |f.kids[n]|;
    if k > 0 {
      assert IsChild(f, n, k - 1);
      LastBelowIsLast(f, f.kids[n][k - 1]);
      ToFrom(f, n, k);
      assert PreFrom(f, n, 0) == PreTo(f, n, k);
    }
  }

  /** Walking back leads to the node in front, unless that is top or nothing. */
  lemma {:induction false} PrevIsLast(f: Forest, top: Node, n: Node, descend: Descend)
    requires WellFormed(f) && n in f.kids && top in f.kids && Under(f, n, top) && descend != NoDescend
    ensures PrevNode(f, top, n, descend) == if |Past(f, top, n)| <= 1 then null else Last(Past(f, top, n))
  {
    if n != top {
      var p, i := f.up[n], Rank(f, n);
      if i > 0 {
        assert IsChild(f, p, i - 1);
        LastBelowIsLast(f, f.kids[p][i - 1]);
      } else if p != top {
        assert |Past(f, top, p)| >= 1;
      }
    }
  }

  /** From a node that top is not above, walking back leads on to the root. */
  lemma {:induction false} PrevOutside(f: Forest, top: Node?, n: Node, descend: Descend)
    requires WellFormed(f) && n in f.kids && !IsAbove(f, top, n) && descend != NoDescend
    ensures var past := Past(f, RootOf(f, n), n);
            PrevNode(f, top, n, descend) == if past == [] then null else Last(past)
  {
    if n in f.up {
      var p, i, r := f.up[n], Rank(f, n), RootOf(f, n);
      assert Parent(f, n) && Under(f, p, p) && n != r;
      assert p != top;
      if i > 0 {
        assert IsChild(f, p, i - 1);
        LastBelowIsLast(f, f.kids[p][i - 1]);
      }
    }
  }

  /** mxmlWalkPrev undoes mxmlWalkNext below top. */
  lemma {:induction false} PrevUndoesNext(f: Forest, top: Node, n: Node)
    requires WellFormed(f) && n in f.kids && top in f.kids && Under(f, n, top)
    ensures var m := NextNode(f, top, n, AllLevels);
            m != null ==> Under(f, m, top) && PrevNode(f, top, m, AllLevels) == if n == top then null else n
  {
    var m := NextNode(f, top, n, AllLevels);
    if m != null {
      NextIsFirst(f, top, n, AllLevels);
      PastOfNext(f, top, n, m);
      PrevIsLast(f, top, m, AllLevels);
    }
  }

  // ---- searching ------------------------------------------------------------------------------

  /** An element with that name and attribute; None is a wildcard. */
  predicate Matches(v: Value, name: Option<seq<byte>>, attr: Option<seq<byte>>,
                    value: Option<seq<byte>>)
  {
    && v.ElementValue? && (name.None? || v.name == name.value)
    && (attr.None?
        || (XmlTree.GetAttr(v.attrs, attr.value).Some?
            && (value.None? || XmlTree.GetAttr(v.attrs, attr.value) == value)))
  }

  /** vals says what the nodes of the forest hold. */
  ghost predicate Knows(vals: map<Node, Value>, f: Forest)
    reads f.kids.Keys
  {
    vals.Keys == f.kids.Keys && forall n :: n in f.kids ==> n.value == vals[n]
  }

  /** The first matching node of a list. */
  ghost function FirstMatching(vals: map<Node, Value>, s: seq<Node>, name: Option<seq<byte>>,
                            attr: Option<seq<byte>>, value: Option<seq<byte>>): Node?
  {
    if s == [] then null
    else if s[0] in vals && Matches(vals[s[0]], name, attr, value) then s[0]
    else FirstMatching(vals, s[1..], name, attr, value)
  }

  /** n and its following siblings. */
  ghost function Onwards(f: Forest, n: Node): (s: seq<Node>)
    requires WellFormed(f) && n in f.kids
    ensures forall x :: x in s ==> x in f.kids
  {
    if n in f.up then
      AllChildren(f, f.up[n]);
      f.kids[f.up[n]][Rank(f, n)..]
    else [n]
  }

  lemma {:induction false} AllChildren(f: Forest, p: Node)
    requires WellFormed(f) && p in f.kids
    ensures forall x :: x in f.kids[p] ==> x in f.kids
  {
    forall x | x in f.kids[p] ensures x in f.kids {
      assert IsChild(f, p, IndexOf(f.kids[p], x));
    }
  }

  lemma {:induction false} OnwardsStep(f: Forest, n: Node)
    requires Linked(f) && n in f.kids
    ensures n.next != null ==> n.next in f.kids && Onwards(f, n) == [n] + Onwards(f, n.next)
    ensures n.next == null ==> Onwards(f, n) == [n]
  {
    assert Here(n) == LinksOf(f, n);
    if n in f.up {
      var p, i := f.up[n], Rank(f, n);
      if i + 1 < |f.kids[p]| {
        assert IsChild(f, p, i + 1);
        IndexIs(f, p, i + 1);
        assert f.kids[p][i..] == [n] + f.kids[p][i + 1..];
      }
    }
  }

  /** The candidates mxmlFindElement looks at: everything still to come, or only one list of siblings. */
  ghost function Candidates(f: Forest, top: Node, n: Node, descend: Descend): seq<Node>
    requires WellFormed(f) && n in f.kids && top in f.kids
  {
    if descend == AllLevels then Coming(f, top, n)
    else
      var m := NextNode(f, Bound(f, top, n), n, descend);
      if m == null then [] else Onwards(f, m)
  }

  /** Descending once from top, the candidates are its children. */
  lemma {:induction false} FirstCandidates(f: Forest, top: Node)
    requires WellFormed(f) && top in f.kids
    ensures Candidates(f, top, top, FirstLevel) == f.kids[top]
  {
    var s := f.kids[top];
    assert Under(f, top, top) && Bound(f, top, top) == top;
    if s != [] {
      assert IsChild(f, top, 0) && s[0..] == s;
      UnderChild(f, top, top, 0);
    }
  }

  /** Without descending from a child of top, they are the children behind it. */
  lemma {:induction false} NextCandidates(f: Forest, top: Node, i: nat)
    requires WellFormed(f) && top in f.kids && i < |f.kids[top]|
    ensures var c := f.kids[top][i]; c in f.kids && Candidates(f, top, c, NoDescend) == f.kids[top][i + 1..]
  {
    var s, c := f.kids[top], f.kids[top][i];
    assert IsChild(f, top, i) && c != top;
    UnderChild(f, top, top, i);
    if i + 1 < |s| {
      assert IsChild(f, top, i + 1);
      UnderChild(f, top, top, i + 1);
      assert Following(f, top, c) == s[i + 1];
    } else {
      assert Following(f, top, top) == null;
      assert Following(f, top, c) == null;
    }
  }

  lemma {:induction false} CandidatesAhead(f: Forest, top: Node, n: Node, descend: Descend)
    requires WellFormed(f) && n in f.kids && top in f.kids
    ensures Candidates(f, top, n, descend) == Ahead(f, top, descend, NextNode(f, Bound(f, top, n), n, descend))
  {
    if descend == AllLevels {
      ComingStep(f, top, n);
    }
  }

  /** The step to the next candidate; s are the candidates from the current one on. */
  method NextCandidate(node: Node, top: Node, descend: Descend, ghost s: seq<Node>, ghost f: Forest) returns (m: Node?)
    requires Linked(f) && top in f.kids && node in f.kids && s == Ahead(f, top, descend, node)
    ensures m != null ==> m in f.kids
    ensures s != [] && s[0] == node && s[1..] == Ahead(f, top, descend, m)
  {
    if descend == AllLevels {
      m := WalkNext(node, top, AllLevels, f);
      ComingStep(f, top, node);
    } else {
      m := node.next;
      OnwardsStep(f, node);
    }
  }

  /** mxmlFindElement: the first candidate that matches. */
  method FindElement(start: Node?, top: Node?, name: Option<seq<byte>>, attr: Option<seq<byte>>,
                     value: Option<seq<byte>>, descend: Descend, ghost vals: map<Node, Value>, ghost f: Forest)
    returns (m: Node?)
    requires Linked(f) && Knows(vals, f) && (top != null ==> top in f.kids) && (start != null ==> start in f.kids)
    ensures m == if start == null || top == null || (attr.None? && value.Some?) then null
                 else FirstMatching(vals, Candidates(f, top, start, descend), name, attr, value)
  {
    if start == null || top == null || (attr.None? && value.Some?) {
      return null;
    }
    var node := WalkNext(start, top, descend, f);
    CandidatesAhead(f, top, start, descend);
    m := FindFrom(node, top, name, attr, value, descend, Candidates(f, top, start, descend), vals, f);
  }

  /** The loop of mxmlFindElement; all are the candidates from `first` on. */
  method FindFrom(first: Node?, top: Node, name: Option<seq<byte>>, attr: Option<seq<byte>>,
                  value: Option<seq<byte>>, descend: Descend, ghost all: seq<Node>,
                  ghost vals: map<Node, Value>, ghost f: Forest)
    returns (node: Node?)
    requires Linked(f) && Knows(vals, f) && top in f.kids
    requires first != null ==> first in f.kids
    requires all == Ahead(f, top, descend, first)
    ensures node == FirstMatching(vals, all, name, attr, value)
  {
    ghost var s := all;
    node := first;
    while node != null
      invariant node != null ==> node in f.kids
      invariant s == Ahead(f, top, descend, node)
      invariant FirstMatching(vals, all, name, attr, value) == FirstMatching(vals, s, name, attr, value)
      decreases |s|
    {
      var next := NextCandidate(node, top, descend, s, f);
      if Matches(node.value, name, attr, value) {
        return;
      }
      node := next;
      s := s[1..];
    }
  }
}
