/** mxmlDelete, mxmlRetain and mxmlRelease of jni/xml/mxml-node.c. */
module XmlDelete {
  import opened CString
  import opened XmlForest
  import opened XmlPreOrder

  /** The nodes of a subtree in the order in which mxmlDelete frees them: children first. */
  ghost function Post(f: Forest, n: Node): seq<Node>
    requires WellFormed(f) && n in f.kids
    decreases f.bound - f.depth[n], |f.kids[n]| + 1
  {
    PostFrom(f, n, 0) + [n]
  }

  ghost function PostFrom(f: Forest, n: Node, i: nat): seq<Node>
    requires WellFormed(f) && n in f.kids && i <= |f.kids[n]|
    decreases f.bound - f.depth[n], |f.kids[n]| - i
  {
    if i == |f.kids[n]| then []
    else
      assert IsChild(f, n, i);
      Post(f, f.kids[n][i]) + PostFrom(f, n, i + 1)
  }

  /** Exactly the nodes of the subtree are freed, each as often as it occurs there: once. */
  lemma {:induction false} FreedOnce(f: Forest, n: Node)
    requires WellFormed(f) && n in f.kids
    ensures multiset(Post(f, n)) == multiset(Pre(f, n)) && Distinct(Pre(f, n))
    ensures forall x :: x in Post(f, n) <==> x in f.kids && Under(f, x, n)
  {
    PostIsPre(f, n);
    PreIsExact(f, n);
    forall x ensures x in Post(f, n) <==> x in Pre(f, n) {
      assert x in Post(f, n) <==> x in multiset(Post(f, n));
      assert x in Pre(f, n) <==> x in multiset(Pre(f, n));
    }
  }

  lemma {:induction false} PostIsPre(f: Forest, n: Node)
    requires WellFormed(f) && n in f.kids
    ensures multiset(Post(f, n)) == multiset(Pre(f, n))
    decreases f.bound - f.depth[n], |f.kids[n]| + 1
  {
    PostFromIsPreFrom(f, n, 0);
  }

  lemma {:induction false} PostFromIsPreFrom(f: Forest, n: Node, i: nat)
    requires WellFormed(f) && n in f.kids && i <= |f.kids[n]|
    ensures multiset(PostFrom(f, n, i)) == multiset(PreFrom(f, n, i))
    decreases f.bound - f.depth[n], |f.kids[n]| - i
  {
    if i < |f.kids[n]| {
      assert IsChild(f, n, i);
      PostIsPre(f, f.kids[n][i]);
      PostFromIsPreFrom(f, n, i + 1);
    }
  }

  /** A child stands in front of its parent, so nothing is freed that is still pointed to from below. */
  ghost predicate ChildrenFirst(f: Forest, s: seq<Node>) {
    forall i, j :: 0 <= i < |s| && 0 <= j < |s| && s[i] in f.up && f.up[s[i]] == s[j] ==> i < j
  }

  ghost predicate NoParentIn(f: Forest, a: seq<Node>, b: seq<Node>) {
    forall x :: x in b && x in f.up ==> f.up[x] !in a
  }

  lemma {:induction false} ChildrenFirstConcat(f: Forest, a: seq<Node>, b: seq<Node>)
    requires ChildrenFirst(f, a) && ChildrenFirst(f, b) && NoParentIn(f, a, b)
    ensures ChildrenFirst(f, a + b)
  {
    var s := a + b;
    forall i, j | 0 <= i < |s| && 0 <= j < |s| && s[i] in f.up && f.up[s[i]] == s[j] ensures i < j {
      assert i >= |a| ==> s[i] in b;
      assert j < |a| ==> s[j] in a;
    }
  }

  lemma {:induction false} PostFromIn(f: Forest, n: Node, i: nat)
    requires WellFormed(f) && n in f.kids && i <= |f.kids[n]|
    ensures forall x :: x in PostFrom(f, n, i) <==> x in PreFrom(f, n, i)
  {
    PostFromIsPreFrom(f, n, i);
    forall x ensures x in PostFrom(f, n, i) <==> x in PreFrom(f, n, i) {
      assert x in PostFrom(f, n, i) <==> x in multiset(PostFrom(f, n, i));
      assert x in PreFrom(f, n, i) <==> x in multiset(PreFrom(f, n, i));
    }
  }

  /** The parents of what is freed behind a child's subtree are not in that subtree. */
  lemma {:induction false} SubtreesApart(f: Forest, n: Node, i: nat)
    requires WellFormed(f) && n in f.kids && i < |f.kids[n]| && f.kids[n][i] in f.kids
    ensures NoParentIn(f, Post(f, f.kids[n][i]), PostFrom(f, n, i + 1))
  {
    var c := f.kids[n][i];
    PostFromIn(f, n, i + 1);
    PreFromIsUnder(f, n, i + 1);
    FreedOnce(f, c);
    assert IsChild(f, n, i);
    forall x | x in PostFrom(f, n, i + 1) && x in f.up ensures f.up[x] !in Post(f, c) {
      var j :| i + 1 <= j < |f.kids[n]| && Under(f, x, f.kids[n][j]);
      assert IsChild(f, n, j);
      ParentApart(f, x, c, f.kids[n][j], n);
    }
  }

  lemma {:induction false} ParentApart(f: Forest, x: Node, c: Node, d: Node, n: Node)
    requires WellFormed(f) && x in f.up && x in f.kids && n in f.kids
    requires c in f.up && f.up[c] == n && d in f.up && f.up[d] == n && c in f.kids && d in f.kids && c != d
    requires Under(f, x, d)
    ensures f.up[x] in f.kids && !Under(f, f.up[x], c)
  {
    assert Parent(f, x) && Parent(f, c) && Parent(f, d);
    if Under(f, f.up[x], c) {
      UnderIsDeeper(f, f.up[x], c);
      if x == d {
        assert false;
      } else {
        OnlyOneAbove(f, f.up[x], c, d);
      }
    }
  }

  lemma {:induction false} FreedChildrenFirst(f: Forest, n: Node)
    requires WellFormed(f) && n in f.kids
    ensures ChildrenFirst(f, Post(f, n))
    decreases f.bound - f.depth[n], |f.kids[n]| + 1
  {
    PostFromChildrenFirst(f, n, 0);
    PostFromIn(f, n, 0);
    PreFromIsUnder(f, n, 0);
    if n in f.up {
      assert Parent(f, n);
      if f.up[n] in PostFrom(f, n, 0) {
        UnderIsDeeper(f, f.up[n], n);
        assert false;
      }
    }
    ChildrenFirstConcat(f, PostFrom(f, n, 0), [n]);
  }

  lemma {:induction false} PostFromChildrenFirst(f: Forest, n: Node, i: nat)
    requires WellFormed(f) && n in f.kids && i <= |f.kids[n]|
    ensures ChildrenFirst(f, PostFrom(f, n, i))
    decreases f.bound - f.depth[n], |f.kids[n]| - i
  {
    if i < |f.kids[n]| {
      assert IsChild(f, n, i);
      FreedChildrenFirst(f, f.kids[n][i]);
      PostFromChildrenFirst(f, n, i + 1);
      SubtreesApart(f, n, i);
      ChildrenFirstConcat(f, Post(f, f.kids[n][i]), PostFrom(f, n, i + 1));
    }
  }

  // ---- the forest that is left ----------------------------------------------------------------

  /** The nodes of g are nodes of f, with the same parents and levels. */
  ghost predicate Carved(f: Forest, g: Forest) {
    && g.kids.Keys <= f.kids.Keys && g.up.Keys == f.up.Keys * g.kids.Keys
    && (forall x :: x in g.up ==> g.up[x] == f.up[x])
    && g.depth.Keys == g.kids.Keys && (forall x :: x in g.depth ==> x in f.depth && g.depth[x] == f.depth[x])
    && g.bound == f.bound
  }

  lemma {:induction false} CarvedTransitive(f: Forest, h: Forest, g: Forest)
    requires Carved(f, h) && Carved(h, g)
    ensures Carved(f, g)
  {
  }

  /** g is f without the subtree of node: everything else, and one entry less in the parent's list. */
  ghost predicate Gone(f: Forest, g: Forest, node: Node)
    requires WellFormed(f) && node in f.kids
  {
    Carved(f, g) && GoneNodes(f, g, node) && GoneKids(f, g, node)
  }

  ghost predicate GoneNodes(f: Forest, g: Forest, node: Node)
    requires WellFormed(f) && node in f.kids
  {
    forall x :: x in f.kids ==> (x in g.kids <==> !Under(f, x, node))
  }

  ghost predicate GoneKids(f: Forest, g: Forest, node: Node)
    requires WellFormed(f) && node in f.kids
  {
    forall x :: x in g.kids ==> x in f.kids && g.kids[x] == Removed(f, node).kids[x]
  }

  /** x is below one of the first k children of node. */
  ghost predicate BelowFirst(f: Forest, node: Node, k: nat, x: Node)
    requires WellFormed(f) && node in f.kids && k <= |f.kids[node]| && x in f.kids
  {
    exists j :: 0 <= j < k && Under(f, x, f.kids[node][j])
  }

  /** h is f without the subtrees of the first k children of node. */
  ghost predicate Partly(f: Forest, h: Forest, node: Node, k: nat)
    requires WellFormed(f) && node in f.kids && k <= |f.kids[node]|
  {
    Carved(f, h) && PartlyNodes(f, h, node, k) && PartlyKids(f, h, node, k)
  }

  ghost predicate PartlyNodes(f: Forest, h: Forest, node: Node, k: nat)
    requires WellFormed(f) && node in f.kids && k <= |f.kids[node]|
  {
    forall x :: x in f.kids ==> (x in h.kids <==> !BelowFirst(f, node, k, x))
  }

  ghost predicate PartlyKids(f: Forest, h: Forest, node: Node, k: nat)
    requires WellFormed(f) && node in f.kids && k <= |f.kids[node]|
  {
    forall x :: x in h.kids ==> x in f.kids && h.kids[x] == if x == node then f.kids[node][k..] else f.kids[x]
  }

  /** Below-ness does not change for the nodes that are left. */
  lemma {:induction false} UnderPartly(f: Forest, h: Forest, node: Node, k: nat, x: Node, a: Node)
    requires WellFormed(f) && WellFormed(h) && node in f.kids && k <= |f.kids[node]| && Partly(f, h, node, k)
    requires x in h.kids
    ensures Under(h, x, a) == Under(f, x, a)
    decreases f.depth[x]
  {
    if x != a && x in f.up {
      assert Parent(f, x) && Parent(h, x);
      UnderPartly(f, h, node, k, f.up[x], a);
    }
  }

  /** Nothing under the k-th child lies under an earlier one. */
  lemma {:induction false} ChildIsLeft(f: Forest, h: Forest, node: Node, k: nat, x: Node)
    requires WellFormed(f) && WellFormed(h) && node in f.kids && k < |f.kids[node]| && Partly(f, h, node, k)
    requires x in f.kids && Under(f, x, f.kids[node][k])
    ensures x in h.kids && x != node
  {
    var c := f.kids[node][k];
    assert IsChild(f, node, k);
    UnderIsDeeper(f, x, c);
    if BelowFirst(f, node, k, x) {
      var j :| 0 <= j < k && Under(f, x, f.kids[node][j]);
      assert IsChild(f, node, j);
      OnlyOneAbove(f, x, c, f.kids[node][j]);
      assert false;
    }
  }

  /** The subtree of the k-th child is still the same. */
  lemma {:induction false} PostSame(f: Forest, h: Forest, node: Node, k: nat, n: Node)
    requires WellFormed(f) && WellFormed(h) && node in f.kids && k < |f.kids[node]| && Partly(f, h, node, k)
    requires n in f.kids && Under(f, n, f.kids[node][k])
    ensures n in h.kids && Post(h, n) == Post(f, n)
    decreases f.bound - f.depth[n], |f.kids[n]| + 1
  {
    ChildIsLeft(f, h, node, k, n);
    PostFromSame(f, h, node, k, n, 0);
  }

  lemma {:induction false} PostFromSame(f: Forest, h: Forest, node: Node, k: nat, n: Node, i: nat)
    requires WellFormed(f) && WellFormed(h) && node in f.kids && k < |f.kids[node]| && Partly(f, h, node, k)
    requires n in f.kids && n in h.kids && n != node && Under(f, n, f.kids[node][k]) && i <= |f.kids[n]|
    ensures PostFrom(h, n, i) == PostFrom(f, n, i)
    decreases f.bound - f.depth[n], |f.kids[n]| - i
  {
    if i < |f.kids[n]| {
      assert IsChild(f, n, i);
      UnderChild(f, f.kids[node][k], n, i);
      PostSame(f, h, node, k, f.kids[n][i]);
      PostFromSame(f, h, node, k, n, i + 1);
    }
  }

  lemma {:induction false} RemovedFirst(h: Forest, node: Node)
    requires WellFormed(h) && node in h.kids && h.kids[node] != []
    ensures var c := h.kids[node][0];
            c in h.kids && c in h.up && Removed(h, c).kids == h.kids[node := h.kids[node][1..]]
  {
    assert IsChild(h, node, 0);
    IndexIs(h, node, 0);
    assert Without(h.kids[node], 0) == h.kids[node][1..];
  }

  /** Deleting the first remaining child takes the next step. */
  lemma {:induction false} PartlyStep(f: Forest, h: Forest, g: Forest, node: Node, k: nat)
    requires WellFormed(f) && WellFormed(h) && node in f.kids && k < |f.kids[node]| && Partly(f, h, node, k)
    requires node in h.kids && f.kids[node][k] in h.kids && Gone(h, g, f.kids[node][k])
    ensures Partly(f, g, node, k + 1)
  {
    StepNodes(f, h, g, node, k);
    StepKids(f, h, g, node, k);
    CarvedTransitive(f, h, g);
  }

  lemma {:induction false} StepKids(f: Forest, h: Forest, g: Forest, node: Node, k: nat)
    requires WellFormed(f) && WellFormed(h) && node in f.kids && k < |f.kids[node]| && PartlyKids(f, h, node, k)
    requires node in h.kids && f.kids[node][k] in h.kids && GoneKids(h, g, f.kids[node][k])
    ensures PartlyKids(f, g, node, k + 1)
  {
    assert h.kids[node] == f.kids[node][k..] && h.kids[node][0] == f.kids[node][k];
    RemovedFirst(h, node);
    assert f.kids[node][k..][1..] == f.kids[node][k + 1..];
  }

  lemma {:induction false} StepNodes(f: Forest, h: Forest, g: Forest, node: Node, k: nat)
    requires WellFormed(f) && WellFormed(h) && node in f.kids && k < |f.kids[node]| && Partly(f, h, node, k)
    requires f.kids[node][k] in h.kids && Carved(h, g) && GoneNodes(h, g, f.kids[node][k])
    ensures PartlyNodes(f, g, node, k + 1)
  {
    forall x | x in f.kids ensures x in g.kids <==> !BelowFirst(f, node, k + 1, x) {
      BelowNext(f, node, k, x);
      if x in h.kids {
        UnderPartly(f, h, node, k, x, f.kids[node][k]);
      }
    }
  }

  lemma {:induction false} BelowNext(f: Forest, node: Node, k: nat, x: Node)
    requires WellFormed(f) && node in f.kids && k < |f.kids[node]| && x in f.kids
    ensures BelowFirst(f, node, k + 1, x) <==> BelowFirst(f, node, k, x) || Under(f, x, f.kids[node][k])
  {
  }

  lemma {:induction false} NoneBelowNone(f: Forest, node: Node)
    requires WellFormed(f) && node in f.kids
    ensures Partly(f, f, node, 0)
  {
  }

  /** Under node are node and what is under its children. */
  lemma {:induction false} UnderIsBelow(f: Forest, node: Node, x: Node)
    requires WellFormed(f) && node in f.kids && x in f.kids
    ensures Under(f, x, node) <==> x == node || BelowFirst(f, node, |f.kids[node]|, x)
    ensures BelowFirst(f, node, |f.kids[node]|, x) ==> x != node
    decreases f.depth[x]
  {
    if BelowFirst(f, node, |f.kids[node]|, x) {
      var j :| 0 <= j < |f.kids[node]| && Under(f, x, f.kids[node][j]);
      assert IsChild(f, node, j);
      UnderIsDeeper(f, x, f.kids[node][j]);
      UnderChild(f, node, node, j);
      UnderTransitive(f, x, f.kids[node][j], node);
    }
    if Under(f, x, node) && x != node {
      assert Parent(f, x);
      var p := f.up[x];
      if p == node {
        assert f.kids[node][Rank(f, x)] == x && Under(f, x, x);
      } else {
        UnderIsBelow(f, node, p);
        var j :| 0 <= j < |f.kids[node]| && Under(f, p, f.kids[node][j]);
        assert Under(f, x, f.kids[node][j]);
      }
    }
  }

  /** The forest without the node, which has neither parent nor children. */
  ghost function Freed(h: Forest, node: Node): Forest {
    Forest(h.kids - {node}, h.up, h.depth - {node}, h.bound)
  }

  lemma {:induction false} FreedWellFormed(h: Forest, node: Node)
    requires WellFormed(h) && node in h.kids && node !in h.up && h.kids[node] == []
    ensures WellFormed(Freed(h, node))
    ensures forall x :: x in Freed(h, node).kids ==> LinksOf(Freed(h, node), x) == LinksOf(h, x)
  {
    var g := Freed(h, node);
    forall p, i | p in g.kids && 0 <= i < |g.kids[p]| ensures IsChild(g, p, i) {
      assert IsChild(h, p, i);
    }
  }

  lemma {:induction false} FreedIsCarved(h: Forest, node: Node)
    requires WellFormed(h) && node in h.kids && node !in h.up
    ensures Carved(h, Freed(h, node))
  {
  }

  lemma {:induction false} FreedIsGone(f: Forest, h: Forest, node: Node)
    requires WellFormed(f) && WellFormed(h) && node in f.kids && node !in f.up && Partly(f, h, node, |f.kids[node]|)
    requires node in h.kids
    ensures Gone(f, Freed(h, node), node)
  {
    var g := Freed(h, node);
    FreedIsCarved(h, node);
    CarvedTransitive(f, h, g);
    assert GoneNodes(f, g, node) by {
      forall x | x in f.kids ensures x in g.kids <==> !Under(f, x, node) {
        UnderIsBelow(f, node, x);
      }
    }
    assert GoneKids(f, g, node);
  }

  /** Below-ness and subtrees do not change when node is taken from its parent. */
  lemma {:induction false} GoneAfterRemoval(f: Forest, g: Forest, node: Node)
    requires WellFormed(f) && node in f.kids && WellFormed(Removed(f, node)) && Gone(Removed(f, node), g, node)
    ensures Gone(f, g, node)
  {
    var f1 := Removed(f, node);
    assert Under(f1, node, node);
    assert Carved(f, g);
    assert GoneKids(f, g, node) by {
      assert Removed(f1, node) == f1;
    }
    assert GoneNodes(f, g, node) by {
      forall x | x in f.kids ensures x in g.kids <==> !Under(f, x, node) {
        UnderAfterRemoval(f, node, x);
      }
    }
  }

  lemma {:induction false} PostAfterRemoval(f: Forest, node: Node, n: Node)
    requires WellFormed(f) && node in f.kids && WellFormed(Removed(f, node)) && n in f.kids && Under(f, n, node)
    ensures Post(Removed(f, node), n) == Post(f, n)
    decreases f.bound - f.depth[n], |f.kids[n]| + 1
  {
    KidsAfterRemoval(f, node, n);
    PostFromAfterRemoval(f, node, n, 0);
  }

  lemma {:induction false} KidsAfterRemoval(f: Forest, node: Node, n: Node)
    requires WellFormed(f) && node in f.kids && n in f.kids && Under(f, n, node)
    ensures Removed(f, node).kids[n] == f.kids[n]
  {
    UnderIsDeeper(f, n, node);
    if node in f.up {
      assert Parent(f, node);
    }
  }

  lemma {:induction false} PostFromAfterRemoval(f: Forest, node: Node, n: Node, i: nat)
    requires WellFormed(f) && node in f.kids && WellFormed(Removed(f, node)) && n in f.kids && Under(f, n, node)
    requires Removed(f, node).kids[n] == f.kids[n] && i <= |f.kids[n]|
    ensures PostFrom(Removed(f, node), n, i) == PostFrom(f, n, i)
    decreases f.bound - f.depth[n], |f.kids[n]| - i
  {
    if i < |f.kids[n]| {
      assert IsChild(f, n, i);
      UnderChild(f, node, n, i);
      PostAfterRemoval(f, node, f.kids[n][i]);
      PostFromAfterRemoval(f, node, n, i + 1);
    }
  }

  // ---- mxmlDelete -----------------------------------------------------------------------------

  /** mxmlDelete: takes node from its parent and frees its subtree; `freed` are the calls of free() in order. */
  method Delete(node: Node, ghost f: Forest) returns (freed: seq<Node>, ghost g: Forest)
    requires Linked(f) && node in f.kids
    modifies f.kids.Keys`parent, f.kids.Keys`prev, f.kids.Keys`next, f.kids.Keys`child, f.kids.Keys`last_child
    ensures Linked(g) && Gone(f, g, node)
    ensures freed == Post(f, node)
    decreases f.bound - f.depth[node], 3
  {
    ghost var f1 := Remove(node, f);
    KidsAfterRemoval(f, node, node);
    freed, g := DeleteRoot(node, f1);
    GoneAfterRemoval(f, g, node);
    PostAfterRemoval(f, node, node);
  }

  /** The rest of mxmlDelete, once node has no parent. */
  method DeleteRoot(node: Node, ghost f: Forest) returns (freed: seq<Node>, ghost g: Forest)
    requires Linked(f) && node in f.kids && node !in f.up
    modifies f.kids.Keys`parent, f.kids.Keys`prev, f.kids.Keys`next, f.kids.Keys`child, f.kids.Keys`last_child
    ensures Linked(g) && Gone(f, g, node)
    ensures freed == Post(f, node)
    decreases f.bound - f.depth[node], 2
  {
    ghost var h;
    freed, h := DeleteKids(node, f);
    freed := freed + [node];
    g := Freed(h, node);
    FreedWellFormed(h, node);
    FreedIsGone(f, h, node);
  }

  /** The loop of mxmlDelete. */
  method DeleteKids(node: Node, ghost f: Forest) returns (freed: seq<Node>, ghost h: Forest)
    requires Linked(f) && node in f.kids && node !in f.up
    modifies f.kids.Keys`parent, f.kids.Keys`prev, f.kids.Keys`next, f.kids.Keys`child, f.kids.Keys`last_child
    ensures Linked(h) && Partly(f, h, node, |f.kids[node]|) && node in h.kids && h.kids[node] == []
    ensures Post(f, node) == freed + [node]
    decreases f.bound - f.depth[node], 1
  {
    ghost var k := 0;
    h, freed := f, [];
    NoneBelowNone(f, node);
    while node.child != null
      invariant Linked(h) && h.kids.Keys <= f.kids.Keys && node in h.kids
      invariant k <= |f.kids[node]| && Partly(f, h, node, k)
      invariant PostFrom(f, node, 0) == freed + PostFrom(f, node, k)
      decreases |f.kids[node]| - k
    {
      var more: seq<Node>;
      more, h := DeleteFirstKid(node, k, f, h);
      Associative(freed, more, PostFrom(f, node, k + 1));
      freed, k := freed + more, k + 1;
    }
    NoChildLeft(f, h, node, k);
  }

  /** One turn of that loop: the first child that is left. */
  method DeleteFirstKid(node: Node, ghost k: nat, ghost f: Forest, ghost h: Forest)
    returns (freed: seq<Node>, ghost g: Forest)
    requires WellFormed(f) && Linked(h) && h.kids.Keys <= f.kids.Keys && node in f.kids && node in h.kids
    requires k <= |f.kids[node]| && Partly(f, h, node, k) && node.child != null
    modifies h.kids.Keys`parent, h.kids.Keys`prev, h.kids.Keys`next, h.kids.Keys`child, h.kids.Keys`last_child
    ensures k < |f.kids[node]| && Linked(g) && g.kids.Keys <= f.kids.Keys && node in g.kids && Partly(f, g, node, k + 1)
    ensures PostFrom(f, node, k) == freed + PostFrom(f, node, k + 1)
    decreases f.bound - f.depth[node], 0
  {
    FirstChildLeft(f, h, node, k);
    freed, g := Delete(node.child, h);
    PartlyStep(f, h, g, node, k);
  }

  lemma {:induction false} NoChildLeft(f: Forest, h: Forest, node: Node, k: nat)
    requires WellFormed(f) && Linked(h) && node in f.kids && k <= |f.kids[node]| && Partly(f, h, node, k)
    requires node in h.kids && node.child == null
    ensures k == |f.kids[node]| && h.kids[node] == []
  {
  }

  lemma {:induction false} FirstChildLeft(f: Forest, h: Forest, node: Node, k: nat)
    requires WellFormed(f) && Linked(h) && node in f.kids && k <= |f.kids[node]| && Partly(f, h, node, k)
    requires node in h.kids && node.child != null
    ensures k < |f.kids[node]| && node.child == f.kids[node][k] && node.child in h.kids
    ensures h.depth[node.child] == f.depth[node] + 1 && !Under(h, node, node.child)
    ensures PostFrom(f, node, k) == Post(h, node.child) + PostFrom(f, node, k + 1)
  {
    assert Here(node) == LinksOf(h, node);
    var c := f.kids[node][k];
    assert IsChild(h, node, 0) && IsChild(f, node, k);
    assert Under(f, c, c);
    PostSame(f, h, node, k, c);
    if Under(h, node, c) {
      UnderIsDeeper(h, node, c);
      assert false;
    }
  }

  // ---- reference counts -----------------------------------------------------------------------

  /** mxmlRetain */
  method Retain(node: Node?) returns (count: int)
    modifies (if node == null then {} else {node})`ref_count
    ensures node == null ==> count == -1
    ensures node != null ==> count == node.ref_count == old(node.ref_count) + 1
  {
    if node == null {
      return -1;
    }
    node.ref_count := node.ref_count + 1;
    count := node.ref_count;
  }

  /** mxmlRelease: the node and its subtree are deleted when the count is used up. */
  method Release(node: Node?, ghost f: Forest) returns (count: int, freed: seq<Node>, ghost g: Forest)
    requires Linked(f) && (node != null ==> node in f.kids)
    modifies f.kids.Keys`parent, f.kids.Keys`prev, f.kids.Keys`next, f.kids.Keys`child, f.kids.Keys`last_child
    modifies (if node == null then {} else {node})`ref_count
    ensures Linked(g)
    ensures node == null ==> count == -1 && freed == [] && g == f
    ensures node != null && old(node.ref_count) > 1 ==> count == old(node.ref_count) - 1 && freed == [] && g == f
    ensures node != null && old(node.ref_count) <= 1 ==> count == 0 && Gone(f, g, node) && freed == Post(f, node)
    ensures node != null ==> node.ref_count == old(node.ref_count) - 1
  {
    freed, g := [], f;
    if node == null {
      return -1, [], f;
    }
    node.ref_count := node.ref_count - 1;
    if node.ref_count <= 0 {
      freed, g := Delete(node, f);
      count := 0;
    } else {
      count := node.ref_count;
    }
  }

  datatype Call = RetainCall | ReleaseCall

  /** The count of a new node after some calls; None once the node has been deleted. */
  function CountAfter(calls: seq<Call>): (r: int)
    decreases |calls|
  {
    if calls == [] then 1
    else
      var before := CountAfter(calls[..|calls| - 1]);
      if before <= 0 then 0
      else if calls[|calls| - 1] == RetainCall then before + 1
      else before - 1
  }

  function Releases(calls: seq<Call>): nat
    decreases |calls|
  {
    if calls == [] then 0
    else Releases(calls[..|calls| - 1]) + if calls[|calls| - 1] == ReleaseCall then 1 else 0
  }

  /** Over every run, the node is deleted exactly when the releases outnumber the retains for the first time. */
  lemma {:induction false} DeletedWhenReleased(calls: seq<Call>)
    ensures CountAfter(calls) == 0 <==> Outnumbered(calls)
    ensures CountAfter(calls) != 0 ==> CountAfter(calls) == 1 + |calls| - 2 * Releases(calls)
    decreases |calls|
  {
    assert calls[..|calls|] == calls;
    if calls == [] {
      assert forall k: nat :: k <= |calls| ==> calls[..k] == [];
    } else {
      DeletedWhenReleased(calls[..|calls| - 1]);
      OutnumberedLater(calls);
    }
  }

  /** The releases have outnumbered the retains at some point. */
  ghost predicate Outnumbered(calls: seq<Call>) {
    exists k: nat :: k <= |calls| && 2 * Releases(calls[..k]) > k
  }

  lemma {:induction false} OutnumberedLater(calls: seq<Call>)
    requires calls != []
    ensures Outnumbered(calls) <==> Outnumbered(calls[..|calls| - 1]) || 2 * Releases(calls) > |calls|
  {
    var front := calls[..|calls| - 1];
    assert calls[..|calls|] == calls;
    forall k: nat | k <= |front| ensures front[..k] == calls[..k] {
    }
    if Outnumbered(front) {
      var k: nat :| k <= |front| && 2 * Releases(front[..k]) > k;
      assert 2 * Releases(calls[..k]) > k;
    }
    if Outnumbered(calls) {
      var k: nat :| k <= |calls| && 2 * Releases(calls[..k]) > k;
      assert k < |calls| ==> 2 * Releases(front[..k]) > k;
    }
  }

  /** A deleted node stays deleted. */
  lemma {:induction false} StaysDeleted(calls: seq<Call>, i: nat)
    requires i <= |calls| && CountAfter(calls[..i]) == 0
    ensures CountAfter(calls) == 0
    decreases |calls|
  {
    if i < |calls| {
      var n := |calls| - 1;
      assert calls[..n][..i] == calls[..i];
      StaysDeleted(calls[..n], i);
    } else {
      assert calls[..i] == calls;
    }
  }

  method CallOne(node: Node, call: Call, ghost f: Forest) returns (deleted: bool, freed: seq<Node>, ghost g: Forest)
    requires Linked(f) && node in f.kids && node.ref_count >= 1
    modifies f.kids.Keys`parent, f.kids.Keys`prev, f.kids.Keys`next, f.kids.Keys`child, f.kids.Keys`last_child
    modifies node`ref_count
    ensures node.ref_count == old(node.ref_count) + if call == RetainCall then 1 else -1
    ensures Linked(g) && deleted == (node.ref_count == 0)
    ensures if deleted then Gone(f, g, node) && freed == Post(f, node) else g == f && freed == []
  {
    deleted, freed, g := false, [], f;
    var count;
    if call == RetainCall {
      count := Retain(node);
    } else {
      count, freed, g := Release(node, f);
      deleted := count == 0;
    }
  }

  /** Calls of mxmlRetain and mxmlRelease for a new node, up to the one that deletes it: the node and its subtree are
      freed, each node once, if the releases ever outnumber the retains, and else nothing is. */
  method CallAll(node: Node, calls: seq<Call>, ghost f: Forest) returns (freed: seq<Node>, ghost g: Forest)
    requires Linked(f) && node in f.kids && node.ref_count == 1
    modifies f.kids.Keys`parent, f.kids.Keys`prev, f.kids.Keys`next, f.kids.Keys`child, f.kids.Keys`last_child
    modifies node`ref_count
    ensures Linked(g)
    ensures if Outnumbered(calls)
            then Gone(f, g, node) && freed == Post(f, node)
            else g == f && freed == [] && node.ref_count == 1 + |calls| - 2 * Releases(calls)
  {
    freed, g := [], f;
    DeletedWhenReleased(calls);
    var i := 0;
    while i < |calls|
      invariant 0 <= i <= |calls| && Linked(f) && g == f && freed == []
      invariant node.ref_count == CountAfter(calls[..i]) >= 1
    {
      assert calls[..i + 1][..i] == calls[..i];
      var deleted;
      deleted, freed, g := CallOne(node, calls[i], f);
      if deleted {
        StaysDeleted(calls, i + 1);
        return;
      }
      i := i + 1;
    }
    assert calls[..i] == calls;
  }
}
