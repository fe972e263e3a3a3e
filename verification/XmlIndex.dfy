/** jni/xml/mxml-index.c: the order of an index, and its quicksort. */
module XmlIndexSort {
  import opened CString
  import XmlTree
  import opened XmlForest

  type Name = Option<seq<byte>>

  /** An element that has the attribute of the index, if the index has one. */
  predicate Indexable(attr: Name, v: Value) {
    v.ElementValue? && (attr.Some? ==> XmlTree.GetAttr(v.attrs, attr.value).Some?)
  }

  function AttrOf(attr: Name, v: Value): seq<byte>
    requires Indexable(attr, v)
  {
    if attr.Some? then XmlTree.GetAttr(v.attrs, attr.value).value else []
  }

  /** index_compare: by element name, then by the value of the attribute. */
  function Compare(attr: Name, a: Value, b: Value): int
    requires Indexable(attr, a) && Indexable(attr, b)
  {
    var diff := Strcmp(a.name, b.name);
    if diff != 0 then diff else Strcmp(AttrOf(attr, a), AttrOf(attr, b))
  }

  predicate Leq(attr: Name, a: Value, b: Value) {
    Indexable(attr, a) && Indexable(attr, b) && Compare(attr, a, b) <= 0
  }

  lemma {:induction false} CompareFlips(attr: Name, a: Value, b: Value)
    requires Indexable(attr, a) && Indexable(attr, b)
    ensures Compare(attr, a, b) < 0 <==> Compare(attr, b, a) > 0
    ensures Compare(attr, a, b) == 0 <==> Compare(attr, b, a) == 0
    ensures Compare(attr, a, a) == 0
  {
    StrcmpFlip(a.name, b.name);
    StrcmpFlip(b.name, a.name);
    StrcmpFlip(AttrOf(attr, a), AttrOf(attr, b));
    StrcmpFlip(AttrOf(attr, b), AttrOf(attr, a));
    StrcmpZero(a.name, a.name);
    StrcmpZero(AttrOf(attr, a), AttrOf(attr, a));
  }

  lemma {:induction false} LeqTransitive(attr: Name, a: Value, b: Value, c: Value)
    requires Leq(attr, a, b) && Leq(attr, b, c)
    ensures Leq(attr, a, c)
  {
    StrcmpTransitive(a.name, b.name, c.name);
    if a.name == b.name && b.name == c.name {
      StrcmpZero(a.name, a.name);
      StrcmpTransitive(AttrOf(attr, a), AttrOf(attr, b), AttrOf(attr, c));
    }
    StrcmpZero(a.name, b.name);
    StrcmpZero(b.name, c.name);
    StrcmpZero(a.name, c.name);
  }

  /** The nodes hold these values, which belong in the index. */
  ghost predicate Holds(s: seq<Node>, vals: map<Node, Value>, attr: Name)
    reads s
  {
    forall n :: n in s ==> n in vals && n.value == vals[n] && Indexable(attr, vals[n])
  }

  /** The same for values that are known to be there. */
  ghost predicate AllIndexable(s: seq<Node>, vals: map<Node, Value>, attr: Name) {
    forall k :: 0 <= k < |s| ==> s[k] in vals && Indexable(attr, vals[s[k]])
  }

  lemma {:induction false} HoldsAll(s: seq<Node>, vals: map<Node, Value>, attr: Name)
    requires Holds(s, vals, attr)
    ensures AllIndexable(s, vals, attr)
  {
  }

  ghost predicate NodeLeq(vals: map<Node, Value>, attr: Name, a: Node, b: Node) {
    a in vals && b in vals && Leq(attr, vals[a], vals[b])
  }

  /** Sorted from lo up to, not including, hi. */
  ghost predicate Sorted(vals: map<Node, Value>, attr: Name, s: seq<Node>, lo: nat, hi: nat)
    requires lo <= hi <= |s|
  {
    forall i, j :: lo <= i < j < hi ==> NodeLeq(vals, attr, s[i], s[j])
  }

  /** Everything in [lo, mid) goes before everything in [mid, hi). */
  ghost predicate Split(vals: map<Node, Value>, attr: Name, s: seq<Node>, lo: nat, mid: nat, hi: nat)
    requires lo <= mid <= hi <= |s|
  {
    forall i, j :: lo <= i < mid <= j < hi ==> NodeLeq(vals, attr, s[i], s[j])
  }

  /** t is s with the part [lo, hi) permuted. */
  ghost predicate Permuted(s: seq<Node>, t: seq<Node>, lo: nat, hi: nat) {
    && lo <= hi <= |s| == |t| && t[..lo] == s[..lo] && t[hi..] == s[hi..]
    && multiset(t[lo..hi]) == multiset(s[lo..hi])
  }

  lemma {:induction false} PermutedTransitive(s: seq<Node>, t: seq<Node>, u: seq<Node>, lo: nat, hi: nat)
    requires Permuted(s, t, lo, hi) && Permuted(t, u, lo, hi)
    ensures Permuted(s, u, lo, hi)
  {
  }

  /** A permutation of a part is a permutation of more. */
  lemma {:induction false} PermutedWider(s: seq<Node>, t: seq<Node>, lo: nat, hi: nat, lo': nat, hi': nat)
    requires Permuted(s, t, lo, hi) && lo' <= lo && hi <= hi' <= |s|
    ensures Permuted(s, t, lo', hi')
  {
    assert s[lo'..hi'] == s[lo'..lo] + s[lo..hi] + s[hi..hi'];
    assert t[lo'..hi'] == t[lo'..lo] + t[lo..hi] + t[hi..hi'];
    assert s[lo'..lo] == s[..lo][lo'..] && t[lo'..lo] == t[..lo][lo'..];
    assert s[hi..hi'] == s[hi..][..hi' - hi] && t[hi..hi'] == t[hi..][..hi' - hi];
    assert s[..lo'] == s[..lo][..lo'] && t[..lo'] == t[..lo][..lo'];
    assert s[hi'..] == s[hi..][hi' - hi..] && t[hi'..] == t[hi..][hi' - hi..];
  }

  /** What is in the permuted part was there before; outside nothing changes. */
  lemma {:induction false} PermutedFrom(s: seq<Node>, t: seq<Node>, lo: nat, hi: nat, j: nat) returns (i: nat)
    requires Permuted(s, t, lo, hi) && j < |t|
    ensures i < |s| && s[i] == t[j] && (if lo <= j < hi then lo <= i < hi else i == j)
  {
    if lo <= j < hi {
      assert t[j] in t[lo..hi] by {
        assert t[lo..hi][j - lo] == t[j];
      }
      assert t[j] in multiset(t[lo..hi]);
      assert t[j] in s[lo..hi];
      var k :| 0 <= k < hi - lo && s[lo..hi][k] == t[j];
      i := lo + k;
    } else if j < lo {
      assert s[..lo][j] == t[..lo][j];
      i := j;
    } else {
      assert s[hi..][j - hi] == t[hi..][j - hi];
      i := j;
    }
  }

  /** A permutation inside one side keeps a split. */
  lemma {:induction false} SplitKept(vals: map<Node, Value>, attr: Name, s: seq<Node>, t: seq<Node>,
                                     lo: nat, mid: nat, hi: nat, from: nat, to: nat)
    requires lo <= mid <= hi <= |s| && Split(vals, attr, s, lo, mid, hi)
    requires Permuted(s, t, from, to) && ((lo <= from && to <= mid) || (mid <= from && to <= hi))
    ensures Split(vals, attr, t, lo, mid, hi)
  {
    forall i, j | lo <= i < mid <= j < hi ensures NodeLeq(vals, attr, t[i], t[j]) {
      var i' := PermutedFrom(s, t, from, to, i);
      var j' := PermutedFrom(s, t, from, to, j);
    }
  }

  lemma {:induction false} SortedKept(vals: map<Node, Value>, attr: Name, s: seq<Node>, t: seq<Node>,
                                      lo: nat, hi: nat, from: nat, to: nat)
    requires lo <= hi <= |s| && Sorted(vals, attr, s, lo, hi)
    requires Permuted(s, t, from, to) && (to <= lo || hi <= from)
    ensures Sorted(vals, attr, t, lo, hi)
  {
  }

  lemma {:induction false} HoldsKept(s: seq<Node>, t: seq<Node>, lo: nat, hi: nat, vals: map<Node, Value>, attr: Name)
    requires Holds(s, vals, attr) && Permuted(s, t, lo, hi)
    ensures Holds(t, vals, attr)
  {
    forall n | n in t ensures n in s {
      var j :| 0 <= j < |t| && t[j] == n;
      var i := PermutedFrom(s, t, lo, hi, j);
    }
  }

  lemma {:induction false} SwapPermutes(s: seq<Node>, t: seq<Node>, lo: nat, hi: nat, i: nat, j: nat)
    requires lo <= i < hi <= |s| && lo <= j < hi && t == s[i := s[j]][j := s[i]]
    ensures Permuted(s, t, lo, hi)
  {
  }

  // ---- index_sort -----------------------------------------------------------------------------

  /** index_compare on two nodes of the index, whose contents are s. */
  method CompareNodes(nodes: array<Node>, i: nat, j: nat, attr: Name, ghost s: seq<Node>, ghost vals: map<Node, Value>)
    returns (diff: int)
    requires i < nodes.Length && j < nodes.Length && s == nodes[..] && Holds(s, vals, attr)
    ensures s[i] in vals && s[j] in vals && Indexable(attr, vals[s[i]]) && Indexable(attr, vals[s[j]])
    ensures diff == Compare(attr, vals[s[i]], vals[s[j]])
    ensures diff <= 0 <==> NodeLeq(vals, attr, s[i], s[j])
  {
    assert s[i] in s && s[j] in s;
    diff := Compare(attr, nodes[i].value, nodes[j].value);
  }

  /** Move right while the node is not behind the pivot. */
  method ScanRight(nodes: array<Node>, left: nat, from: nat, right: nat, attr: Name, ghost s: seq<Node>,
                   ghost vals: map<Node, Value>) returns (templ: nat)
    requires left <= from <= right < nodes.Length && s == nodes[..] && Holds(s, vals, attr)
    requires from < right ==> NodeLeq(vals, attr, s[from], s[left])
    ensures from <= templ <= right && (from < right ==> from < templ)
    ensures forall k :: from <= k < templ ==> NodeLeq(vals, attr, s[k], s[left])
  {
    templ := from;
    while templ < right
      invariant from <= templ <= right
      invariant forall k :: from <= k < templ ==> NodeLeq(vals, attr, s[k], s[left])
    {
      var diff := CompareNodes(nodes, templ, left, attr, s, vals);
      if diff > 0 {
        return;
      }
      templ := templ + 1;
    }
  }

  /** Move left while the node is behind the pivot. */
  method ScanLeft(nodes: array<Node>, left: nat, from: nat, attr: Name, ghost s: seq<Node>,
                  ghost vals: map<Node, Value>) returns (tempr: nat)
    requires left <= from < nodes.Length && s == nodes[..] && Holds(s, vals, attr)
    ensures left <= tempr <= from && NodeLeq(vals, attr, s[tempr], s[left])
    ensures forall k :: tempr < k <= from ==> !NodeLeq(vals, attr, s[k], s[left])
  {
    tempr := from;
    while tempr > left
      invariant left <= tempr <= from
      invariant forall k :: tempr < k <= from ==> !NodeLeq(vals, attr, s[k], s[left])
    {
      var diff := CompareNodes(nodes, tempr, left, attr, s, vals);
      if diff <= 0 {
        return;
      }
      tempr := tempr - 1;
    }
    PivotLeq(s, left, attr, vals);
  }

  lemma {:induction false} PivotLeq(s: seq<Node>, left: nat, attr: Name, vals: map<Node, Value>)
    requires left < |s| && Holds(s, vals, attr)
    ensures NodeLeq(vals, attr, s[left], s[left])
  {
    assert s[left] in s;
    CompareFlips(attr, vals[s[left]], vals[s[left]]);
  }

  /** The part of s around the pivot s[left]: not behind it in front of templ, behind it from tempr on. */
  ghost predicate Around(vals: map<Node, Value>, attr: Name, s: seq<Node>, left: nat, templ: nat, tempr: nat,
                         right: nat)
    requires left <= templ <= right < |s| && left <= tempr <= right
  {
    && (forall k :: left <= k < templ ==> NodeLeq(vals, attr, s[k], s[left]))
    && (forall k :: tempr < k <= right ==> !NodeLeq(vals, attr, s[k], s[left]))
  }

  /** Around, and the node the next scan starts from, or the search ended at, is not behind the pivot. */
  ghost predicate AroundTurned(vals: map<Node, Value>, attr: Name, s: seq<Node>, left: nat, templ: nat, tempr: nat,
                               right: nat)
    requires left <= templ <= right < |s| && left <= tempr <= right
  {
    && Around(vals, attr, s, left, templ, tempr, right)
    && NodeLeq(vals, attr, s[if templ < tempr then templ else tempr], s[left])
  }

  method Swap(nodes: array<Node>, i: nat, j: nat, lo: nat, hi: nat, attr: Name, ghost s: seq<Node>,
              ghost vals: map<Node, Value>)
    requires lo <= i < hi <= nodes.Length && lo <= j < hi && s == nodes[..] && Holds(s, vals, attr)
    modifies nodes
    ensures nodes[..] == s[i := s[j]][j := s[i]]
    ensures Permuted(s, nodes[..], lo, hi) && Holds(nodes[..], vals, attr)
  {
    nodes[i], nodes[j] := nodes[j], nodes[i];
    SwapPermutes(s, nodes[..], lo, hi, i, j);
    HoldsKept(s, nodes[..], lo, hi, vals, attr);
  }

  /** The inner loops of index_sort: the pivot is the node at `left`. */
  method Partition(nodes: array<Node>, left: nat, right: nat, attr: Name, ghost vals: map<Node, Value>)
    returns (tempr: nat)
    requires left < right < nodes.Length && Holds(nodes[..], vals, attr)
    modifies nodes
    ensures left <= tempr <= right
    ensures Permuted(old(nodes[..]), nodes[..], left, right + 1) && Holds(nodes[..], vals, attr)
    ensures var s := nodes[..];
            Around(vals, attr, s, left, tempr, tempr, right) && NodeLeq(vals, attr, s[tempr], s[left])
  {
    var templ := left;
    tempr := right;
    ghost var s := nodes[..];
    PivotLeq(s, left, attr, vals);
    while templ < tempr
      invariant left <= templ <= right && left <= tempr <= right && s == nodes[..]
      invariant Permuted(old(nodes[..]), s, left, right + 1) && Holds(s, vals, attr)
      invariant AroundTurned(vals, attr, s, left, templ, tempr, right)
      decreases tempr - templ
    {
      templ, tempr := PartitionTurn(nodes, left, templ, tempr, right, attr, s, vals);
      PermutedTransitive(old(nodes[..]), s, nodes[..], left, right + 1);
      s := nodes[..];
    }
  }

  /** Both scans, and the swap if they have not met. */
  method PartitionTurn(nodes: array<Node>, left: nat, l: nat, r: nat, right: nat, attr: Name, ghost s: seq<Node>,
                       ghost vals: map<Node, Value>) returns (templ: nat, tempr: nat)
    requires left <= l < r <= right < nodes.Length && s == nodes[..] && Holds(s, vals, attr)
    requires AroundTurned(vals, attr, s, left, l, r, right)
    modifies nodes
    ensures l < templ <= right && left <= tempr <= r
    ensures Permuted(s, nodes[..], left, right + 1) && Holds(nodes[..], vals, attr)
    ensures AroundTurned(vals, attr, nodes[..], left, templ, tempr, right)
  {
    templ := ScanRight(nodes, left, l, right, attr, s, vals);
    tempr := ScanLeft(nodes, left, r, attr, s, vals);
    assert Around(vals, attr, s, left, templ, tempr, right);
    if templ < tempr {
      Swap(nodes, templ, tempr, left, right + 1, attr, s, vals);
      AroundSwapped(vals, attr, s, nodes[..], left, templ, tempr, right);
    }
  }

  lemma {:induction false} AroundSwapped(vals: map<Node, Value>, attr: Name, s: seq<Node>, t: seq<Node>,
                                         left: nat, i: nat, j: nat, right: nat)
    requires left < i < j <= right < |s| && t == s[i := s[j]][j := s[i]]
    requires Around(vals, attr, s, left, i, j, right) && NodeLeq(vals, attr, s[j], s[left])
    ensures AroundTurned(vals, attr, t, left, i, j, right)
  {
  }

  /** The partition and the move of the pivot to its place. */
  method PlacePivot(nodes: array<Node>, left: nat, right: nat, attr: Name, ghost vals: map<Node, Value>)
    returns (tempr: nat)
    requires left < right < nodes.Length && Holds(nodes[..], vals, attr)
    modifies nodes
    ensures left <= tempr <= right
    ensures Permuted(old(nodes[..]), nodes[..], left, right + 1) && Holds(nodes[..], vals, attr)
    ensures Split(vals, attr, nodes[..], left, tempr, tempr + 1)
    ensures Split(vals, attr, nodes[..], left, tempr + 1, right + 1)
  {
    ghost var s0 := nodes[..];
    tempr := Partition(nodes, left, right, attr, vals);
    ghost var s := nodes[..];
    MovePivot(nodes, left, tempr, right, attr, s, vals);
    PermutedTransitive(s0, s, nodes[..], left, right + 1);
  }

  /** The pivot changes places with the node at tempr, unless that is equal to it. */
  method MovePivot(nodes: array<Node>, left: nat, tempr: nat, right: nat, attr: Name, ghost s: seq<Node>,
                   ghost vals: map<Node, Value>)
    requires left <= tempr <= right < nodes.Length && s == nodes[..] && Holds(s, vals, attr)
    requires Around(vals, attr, s, left, tempr, tempr, right) && NodeLeq(vals, attr, s[tempr], s[left])
    modifies nodes
    ensures Permuted(s, nodes[..], left, right + 1) && Holds(nodes[..], vals, attr)
    ensures Split(vals, attr, nodes[..], left, tempr, tempr + 1)
    ensures Split(vals, attr, nodes[..], left, tempr + 1, right + 1)
  {
    HoldsAll(s, vals, attr);
    var diff := CompareNodes(nodes, left, tempr, attr, s, vals);
    if diff > 0 {
      Swap(nodes, left, tempr, left, right + 1, attr, s, vals);
    }
    PivotSplits(vals, attr, s, nodes[..], left, tempr, right, diff);
  }

  lemma {:induction false} PivotSplits(vals: map<Node, Value>, attr: Name, s: seq<Node>, t: seq<Node>,
                                       left: nat, tempr: nat, right: nat, diff: int)
    requires left <= tempr <= right < |s| && Around(vals, attr, s, left, tempr, tempr, right)
    requires NodeLeq(vals, attr, s[tempr], s[left])
    requires AllIndexable(s, vals, attr)
    requires diff == Compare(attr, vals[s[left]], vals[s[tempr]])
    requires t == if diff > 0 then s[left := s[tempr]][tempr := s[left]] else s
    ensures Split(vals, attr, t, left, tempr, tempr + 1)
    ensures Split(vals, attr, t, left, tempr + 1, right + 1)
  {
    var p := vals[s[left]];
    CompareFlips(attr, p, vals[s[tempr]]);
    CompareFlips(attr, p, p);
    assert NodeLeq(vals, attr, t[tempr], s[left]) && NodeLeq(vals, attr, s[left], t[tempr]);
    forall i | left <= i <= tempr ensures NodeLeq(vals, attr, t[i], s[left]) {
    }
    forall i | left <= i < tempr ensures NodeLeq(vals, attr, t[i], t[tempr]) {
      LeqTransitive(attr, vals[t[i]], p, vals[t[tempr]]);
    }
    forall i, j | left <= i < tempr + 1 <= j < right + 1 ensures NodeLeq(vals, attr, t[i], t[j]) {
      CompareFlips(attr, vals[t[j]], p);
      LeqTransitive(attr, vals[t[i]], p, vals[t[j]]);
    }
  }

  /** index_sort: sorts the part from left to right and leaves the rest alone. */
  method IndexSort(nodes: array<Node>, first: nat, right: nat, attr: Name, ghost vals: map<Node, Value>)
    requires first < right < nodes.Length && Holds(nodes[..], vals, attr)
    modifies nodes
    ensures Permuted(old(nodes[..]), nodes[..], first, right + 1) && Holds(nodes[..], vals, attr)
    ensures Sorted(vals, attr, nodes[..], first, right + 1)
    decreases right + 1 - first, 1
  {
    var left := first;
    while right > left
      invariant first <= left <= right + 1
      invariant Permuted(old(nodes[..]), nodes[..], first, right + 1) && Holds(nodes[..], vals, attr)
      invariant Sorted(vals, attr, nodes[..], first, left)
      invariant Split(vals, attr, nodes[..], first, left, right + 1)
      decreases right + 1 - left
    {
      left := SortLeft(nodes, first, left, right, attr, vals);
    }
  }

  /** One turn of the loop of index_sort: partition, and sort the left part. */
  method SortLeft(nodes: array<Node>, ghost first: nat, left: nat, right: nat, attr: Name, ghost vals: map<Node, Value>)
    returns (next: nat)
    requires first <= left < right < nodes.Length && Holds(nodes[..], vals, attr)
    requires Sorted(vals, attr, nodes[..], first, left) && Split(vals, attr, nodes[..], first, left, right + 1)
    modifies nodes
    ensures left < next <= right + 1
    ensures Permuted(old(nodes[..]), nodes[..], first, right + 1) && Holds(nodes[..], vals, attr)
    ensures Sorted(vals, attr, nodes[..], first, next) && Split(vals, attr, nodes[..], first, next, right + 1)
    decreases right + 1 - first, 0
  {
    ghost var s0 := nodes[..];
    var tempr := PlacePivot(nodes, left, right, attr, vals);
    ghost var s1 := nodes[..];
    SortPart(nodes, left, tempr, attr, vals);
    TurnSorts(vals, attr, s0, s1, nodes[..], first, left, tempr, right);
    next := tempr + 1;
  }

  /** The recursive call, if there is anything to sort. */
  method SortPart(nodes: array<Node>, left: nat, end: nat, attr: Name, ghost vals: map<Node, Value>)
    requires left <= end <= nodes.Length && Holds(nodes[..], vals, attr)
    modifies nodes
    ensures Permuted(old(nodes[..]), nodes[..], left, end) && Holds(nodes[..], vals, attr)
    ensures Sorted(vals, attr, nodes[..], left, end)
    decreases end - left, 2
  {
    if left + 1 < end {
      IndexSort(nodes, left, end - 1, attr, vals);
    }
  }

  lemma {:induction false} TurnSorts(vals: map<Node, Value>, attr: Name, s0: seq<Node>, s1: seq<Node>, s2: seq<Node>,
                                     first: nat, left: nat, tempr: nat, right: nat)
    requires first <= left <= tempr <= right < |s0|
    requires Sorted(vals, attr, s0, first, left) && Split(vals, attr, s0, first, left, right + 1)
    requires Permuted(s0, s1, left, right + 1)
    requires Split(vals, attr, s1, left, tempr, tempr + 1) && Split(vals, attr, s1, left, tempr + 1, right + 1)
    requires Permuted(s1, s2, left, tempr) && Sorted(vals, attr, s2, left, tempr)
    ensures Permuted(s0, s2, first, right + 1)
    ensures Sorted(vals, attr, s2, first, tempr + 1) && Split(vals, attr, s2, first, tempr + 1, right + 1)
  {
    PermutedWider(s1, s2, left, tempr, left, right + 1);
    PermutedTransitive(s0, s1, s2, left, right + 1);
    PermutedWider(s0, s2, left, right + 1, first, right + 1);
    SortedKept(vals, attr, s0, s2, first, left, left, right + 1);
    SplitKept(vals, attr, s0, s2, first, left, right + 1, left, right + 1);
    SplitKept(vals, attr, s1, s2, left, tempr, tempr + 1, left, tempr);
    SplitKept(vals, attr, s1, s2, left, tempr + 1, right + 1, left, tempr);
  }
}

/** The index: built from a search, sorted, then searched by halving and by running on. */
module XmlIndex {
  import opened CString
  import XmlTree
  import opened XmlForest
  import opened XmlPreOrder
  import opened XmlWalk
  import opened XmlIndexSort

  /** index_find: where the wanted name and value lie relative to a node. */
  function Probe(attr: Name, element: Name, value: Name, v: Value): int
    requires Indexable(attr, v)
  {
    var diff := if element.Some? then Strcmp(element.value, v.name) else 0;
    if diff != 0 then diff
    else if value.Some? then Strcmp(value.value, AttrOf(attr, v))
    else 0
  }

  ghost predicate Hit(vals: map<Node, Value>, attr: Name, element: Name, value: Name, n: Node) {
    n in vals && Indexable(attr, vals[n]) && Probe(attr, element, value, vals[n]) == 0
  }

  /** The matching nodes, in the order of s. */
  ghost function Hits(vals: map<Node, Value>, attr: Name, element: Name, value: Name, s: seq<Node>): seq<Node> {
    if s == [] then []
    else (if Hit(vals, attr, element, value, s[0]) then [s[0]] else []) + Hits(vals, attr, element, value, s[1..])
  }

  /** The matching nodes from position i on, up to the first that does not match. */
  ghost function Run(vals: map<Node, Value>, attr: Name, element: Name, value: Name, s: seq<Node>, i: nat): seq<Node>
    requires i <= |s|
    decreases |s| - i
  {
    if i < |s| && Hit(vals, attr, element, value, s[i]) then [s[i]] + Run(vals, attr, element, value, s, i + 1) else []
  }

  /** The nodes from position `from` on have one name. */
  ghost predicate OneName(vals: map<Node, Value>, s: seq<Node>, from: nat) {
    forall i, j :: from <= i < j < |s| ==> s[i] in vals && s[j] in vals && vals[s[i]].ElementValue?
                                           && vals[s[j]].ElementValue? && vals[s[i]].name == vals[s[j]].name
  }

  /** The order of the index serves the search: the element is given, or no value is, or there are at most two nodes,
      or all have one name; for the empty value, to which nothing is smaller, the first node may have another name. */
  ghost predicate Searchable(vals: map<Node, Value>, element: Name, value: Name, s: seq<Node>) {
    element.Some? || value.None? || |s| <= 2 || OneName(vals, s, 0) || (value == Some([]) && OneName(vals, s, 1))
  }

  lemma {:induction false} StrcmpBehind(x: seq<byte>, a: seq<byte>, b: seq<byte>)
    requires Strcmp(a, b) <= 0
    ensures Strcmp(x, b) > 0 ==> Strcmp(x, a) > 0
    ensures Strcmp(x, a) < 0 ==> Strcmp(x, b) < 0
  {
    StrcmpFlip(b, x);
    StrcmpFlip(a, x);
    StrcmpFlip(x, b);
    if Strcmp(x, b) > 0 {
      StrcmpTransitive(a, b, x);
    }
    if Strcmp(x, a) < 0 {
      StrcmpTransitive(x, a, b);
    }
  }

  /** Along the index the probe goes from positive over zero to negative. */
  lemma {:induction false} ProbeFalls(attr: Name, element: Name, value: Name, a: Value, b: Value)
    requires Leq(attr, a, b) && (element.Some? || value.None? || a.name == b.name)
    ensures Probe(attr, element, value, b) > 0 ==> Probe(attr, element, value, a) > 0
    ensures Probe(attr, element, value, a) < 0 ==> Probe(attr, element, value, b) < 0
  {
    StrcmpZero(a.name, b.name);
    if element.Some? {
      StrcmpBehind(element.value, a.name, b.name);
      StrcmpZero(element.value, a.name);
      StrcmpZero(element.value, b.name);
    }
    if value.Some? && a.name == b.name {
      StrcmpBehind(value.value, AttrOf(attr, a), AttrOf(attr, b));
    }
  }

  lemma {:induction false} HitsOfNone(vals: map<Node, Value>, attr: Name, element: Name, value: Name, s: seq<Node>)
    requires forall i :: 0 <= i < |s| ==> !Hit(vals, attr, element, value, s[i])
    ensures Hits(vals, attr, element, value, s) == []
    decreases |s|
  {
    if s != [] {
      HitsOfNone(vals, attr, element, value, s[1..]);
    }
  }

  lemma {:induction false} HitsAppend(vals: map<Node, Value>, attr: Name, element: Name, value: Name, a: seq<Node>,
                                      b: seq<Node>)
    ensures Hits(vals, attr, element, value, a + b)
              == Hits(vals, attr, element, value, a) + Hits(vals, attr, element, value, b)
    decreases |a|
  {
    if a == [] {
      assert a + b == b;
    } else {
      assert (a + b)[0] == a[0] && (a + b)[1..] == a[1..] + b;
      HitsAppend(vals, attr, element, value, a[1..], b);
      Associative(if Hit(vals, attr, element, value, a[0]) then [a[0]] else [],
        Hits(vals, attr, element, value, a[1..]), Hits(vals, attr, element, value, b));
    }
  }

  /** The empty value lies behind no node. */
  lemma {:induction false} NothingIsSmaller(attr: Name, v: Value)
    requires Indexable(attr, v)
    ensures Probe(attr, None, Some([]), v) <= 0
  {
  }

  /** In a sorted index, a match behind position i means that what lies between matches as well. */
  lemma {:induction false} NoGap(vals: map<Node, Value>, attr: Name, element: Name, value: Name, s: seq<Node>,
                                 i: nat, k: nat, j: nat)
    requires Sorted(vals, attr, s, 0, |s|) && Searchable(vals, element, value, s)
    requires i < k < j < |s| && Hit(vals, attr, element, value, s[i]) && Hit(vals, attr, element, value, s[j])
    ensures Hit(vals, attr, element, value, s[k])
  {
    assert NodeLeq(vals, attr, s[i], s[k]) && NodeLeq(vals, attr, s[k], s[j]);
    if element.Some? || value.None? || OneName(vals, s, 0) {
      ProbeFalls(attr, element, value, vals[s[i]], vals[s[k]]);
    } else {
      NothingIsSmaller(attr, vals[s[k]]);
    }
    ProbeFalls(attr, element, value, vals[s[k]], vals[s[j]]);
  }

  /** The matches from the first one on are one run. */
  lemma {:induction false} HitsAreRun(vals: map<Node, Value>, attr: Name, element: Name, value: Name, s: seq<Node>,
                                      m: nat)
    requires Sorted(vals, attr, s, 0, |s|) && Searchable(vals, element, value, s)
    requires m < |s| && Hit(vals, attr, element, value, s[m])
    ensures Hits(vals, attr, element, value, s[m..]) == Run(vals, attr, element, value, s, m)
    decreases |s| - m
  {
    assert s[m..][0] == s[m] && s[m..][1..] == s[m + 1..];
    if m + 1 < |s| {
      if Hit(vals, attr, element, value, s[m + 1]) {
        HitsAreRun(vals, attr, element, value, s, m + 1);
      } else {
        var rest := s[m + 1..];
        forall j | 0 <= j < |rest| ensures !Hit(vals, attr, element, value, rest[j]) {
          if Hit(vals, attr, element, value, rest[j]) {
            NoGap(vals, attr, element, value, s, m, m + 1, m + 1 + j);
          }
        }
        HitsOfNone(vals, attr, element, value, rest);
      }
    }
  }

  lemma {:induction false} FirstHit(vals: map<Node, Value>, attr: Name, element: Name, value: Name, s: seq<Node>,
                                    m: nat)
    requires Sorted(vals, attr, s, 0, |s|) && Searchable(vals, element, value, s)
    requires m < |s| && Hit(vals, attr, element, value, s[m])
    requires forall i :: 0 <= i < m ==> !Hit(vals, attr, element, value, s[i])
    ensures Hits(vals, attr, element, value, s) == [s[m]] + Run(vals, attr, element, value, s, m + 1)
  {
    HitsOfNone(vals, attr, element, value, s[..m]);
    HitsAppend(vals, attr, element, value, s[..m], s[m..]);
    assert s == s[..m] + s[m..];
    HitsAreRun(vals, attr, element, value, s, m);
  }

  function Middle(first: nat, last: nat): (m: nat)
    requires last - first > 1
    ensures first < m < last
  {
    (first + last) / 2
  }

  /** Back from position i as long as the node in front matches. */
  ghost function Back(vals: map<Node, Value>, attr: Name, element: Name, value: Name, s: seq<Node>, i: nat): nat
    requires i < |s|
  {
    if i > 0 && Hit(vals, attr, element, value, s[i - 1]) then Back(vals, attr, element, value, s, i - 1) else i
  }

  /** The position mxmlIndexFind's search between first and last ends at; |s| if it finds nothing. */
  ghost function Halving(vals: map<Node, Value>, attr: Name, element: Name, value: Name, s: seq<Node>,
                         first: nat, last: nat): nat
    requires first <= last < |s|
    requires AllIndexable(s, vals, attr)
    decreases last - first
  {
    if last - first > 1 then
      var current := Middle(first, last);
      var diff := Probe(attr, element, value, vals[s[current]]);
      if diff == 0 then Back(vals, attr, element, value, s, current)
      else if diff < 0 then Halving(vals, attr, element, value, s, first, current)
      else Halving(vals, attr, element, value, s, current, last)
    else if Hit(vals, attr, element, value, s[first]) then first
    else if Hit(vals, attr, element, value, s[last]) then last
    else |s|
  }

  lemma {:induction false} BackIsFirst(vals: map<Node, Value>, attr: Name, element: Name, value: Name, s: seq<Node>,
                                       i: nat)
    requires Sorted(vals, attr, s, 0, |s|) && Searchable(vals, element, value, s)
    requires i < |s| && Hit(vals, attr, element, value, s[i])
    ensures var r := Back(vals, attr, element, value, s, i);
            && r <= i && Hit(vals, attr, element, value, s[r])
            && forall k :: 0 <= k < r ==> !Hit(vals, attr, element, value, s[k])
  {
    if i > 0 {
      if Hit(vals, attr, element, value, s[i - 1]) {
        BackIsFirst(vals, attr, element, value, s, i - 1);
      } else {
        forall k | 0 <= k < i ensures !Hit(vals, attr, element, value, s[k]) {
          if Hit(vals, attr, element, value, s[k]) && k < i - 1 {
            NoGap(vals, attr, element, value, s, k, i - 1, i);
          }
        }
      }
    }
  }

  /** In an order for the search, the first match is found. */
  lemma {:induction false} HalvingFindsFirst(vals: map<Node, Value>, attr: Name, element: Name, value: Name,
                                             s: seq<Node>, first: nat, last: nat)
    requires Sorted(vals, attr, s, 0, |s|) && Searchable(vals, element, value, s) && first <= last < |s|
    requires AllIndexable(s, vals, attr)
    requires forall i :: 0 <= i < first || last < i < |s| ==> !Hit(vals, attr, element, value, s[i])
    ensures var r := Halving(vals, attr, element, value, s, first, last);
            && r <= |s| && (r < |s| ==> Hit(vals, attr, element, value, s[r]))
            && forall i :: 0 <= i < r ==> !Hit(vals, attr, element, value, s[i])
    decreases last - first
  {
    if last - first > 1 {
      var current := Middle(first, last);
      var diff := Probe(attr, element, value, vals[s[current]]);
      if diff == 0 {
        BackIsFirst(vals, attr, element, value, s, current);
      } else {
        Discards(vals, attr, element, value, s, current);
        if diff < 0 {
          HalvingFindsFirst(vals, attr, element, value, s, first, current);
        } else {
          HalvingFindsFirst(vals, attr, element, value, s, current, last);
        }
      }
    }
  }

  /** The matches are the first one and the run behind it. */
  lemma {:induction false} FirstOrNone(vals: map<Node, Value>, attr: Name, element: Name, value: Name, s: seq<Node>,
                                       r: nat)
    requires Sorted(vals, attr, s, 0, |s|) && Searchable(vals, element, value, s)
    requires r <= |s| && (r < |s| ==> Hit(vals, attr, element, value, s[r]))
    requires forall i :: 0 <= i < r ==> !Hit(vals, attr, element, value, s[i])
    ensures Hits(vals, attr, element, value, s)
            == if r < |s| then [s[r]] + Run(vals, attr, element, value, s, r + 1) else []
  {
    if r < |s| {
      FirstHit(vals, attr, element, value, s, r);
    } else {
      HitsOfNone(vals, attr, element, value, s);
    }
  }

  /** What mxmlIndexFind returns when it is called again and again after a reset, in any sorted index. */
  ghost function Found(vals: map<Node, Value>, attr: Name, element: Name, value: Name, s: seq<Node>): seq<Node>
    requires AllIndexable(s, vals, attr)
  {
    if s == [] then []
    else
      var r := Halving(vals, attr, element, value, s, 0, |s| - 1);
      if r < |s| then [s[r]] + Run(vals, attr, element, value, s, r + 1) else []
  }

  lemma {:induction false} FoundFrom(vals: map<Node, Value>, attr: Name, element: Name, value: Name, s: seq<Node>,
                                     r: nat)
    requires AllIndexable(s, vals, attr) && s != [] && r == Halving(vals, attr, element, value, s, 0, |s| - 1)
    ensures var all := Found(vals, attr, element, value, s);
            if r < |s| then all != [] && all[0] == s[r] && all[1..] == Run(vals, attr, element, value, s, r + 1)
            else all == []
    ensures Run(vals, attr, element, value, s, |s|) == []
  {
  }

  /** Where the order serves the search, that is every match. */
  lemma {:induction false} FoundIsHits(vals: map<Node, Value>, attr: Name, element: Name, value: Name, s: seq<Node>)
    requires AllIndexable(s, vals, attr) && Sorted(vals, attr, s, 0, |s|) && Searchable(vals, element, value, s)
    ensures Found(vals, attr, element, value, s) == Hits(vals, attr, element, value, s)
  {
    if s != [] {
      HalvingFindsFirst(vals, attr, element, value, s, 0, |s| - 1);
      FirstOrNone(vals, attr, element, value, s, Halving(vals, attr, element, value, s, 0, |s| - 1));
    }
  }

  // ---- searching for a value without naming the element ---------------------------------------

  /** s is sorted by the attribute, and these are the element names. */
  ghost predicate Named(vals: map<Node, Value>, attr: seq<byte>, s: seq<Node>, names: seq<seq<byte>>) {
    && |names| == |s| && AllIndexable(s, vals, Some(attr)) && Sorted(vals, Some(attr), s, 0, |s|)
    && forall i :: 0 <= i < |s| ==> vals[s[i]].name == names[i]
  }

  predicate Ascending(names: seq<seq<byte>>) { forall i, j :: 0 <= i < j < |names| ==> Strcmp(names[i], names[j]) <= 0 }

  predicate SameFrom(names: seq<seq<byte>>, from: nat) {
    forall i :: from <= i < |names| ==> names[i] == names[|names| - 1]
  }

  /** The names by which a search for v without an element name can be trusted. */
  predicate Unambiguous(names: seq<seq<byte>>, v: seq<byte>) {
    |names| <= 2 || SameFrom(names, 0) || (v == [] && SameFrom(names, 1))
  }

  /** Nodes with these names, and the value w(i) for the i-th. */
  ghost function Assigned(attr: seq<byte>, s: seq<Node>, names: seq<seq<byte>>, w: nat -> seq<byte>): map<Node, Value>
    requires |names| == |s|
  {
    if s == [] then map[]
    else
      var n := |s| - 1;
      Assigned(attr, s[..n], names[..n], w)[s[n] := Tagged(names[n], attr, w(n))]
  }

  lemma {:induction false} AssignedAt(attr: seq<byte>, s: seq<Node>, names: seq<seq<byte>>, w: nat -> seq<byte>, i: nat)
    requires |names| == |s| && Distinct(s) && i < |s|
    ensures var vals := Assigned(attr, s, names, w); s[i] in vals && vals[s[i]] == Tagged(names[i], attr, w(i))
    decreases |s|
  {
    var n := |s| - 1;
    if i < n {
      AssignedAt(attr, s[..n], names[..n], w, i);
    }
  }

  /** Values that ascend among nodes of one name make a sorted index. */
  lemma {:induction false} AssignedIsNamed(attr: seq<byte>, s: seq<Node>, names: seq<seq<byte>>, w: nat -> seq<byte>)
    requires |names| == |s| && Distinct(s) && Ascending(names)
    requires forall i, j :: 0 <= i < j < |s| && names[i] == names[j] ==> Strcmp(w(i), w(j)) <= 0
    ensures Named(Assigned(attr, s, names, w), attr, s, names)
  {
    var vals := Assigned(attr, s, names, w);
    forall i | 0 <= i < |s| ensures s[i] in vals && vals[s[i]] == Tagged(names[i], attr, w(i)) {
      AssignedAt(attr, s, names, w, i);
    }
    forall i, j | 0 <= i < j < |s| ensures NodeLeq(vals, Some(attr), s[i], s[j]) {
      StrcmpZero(names[i], names[j]);
    }
  }

  lemma {:induction false} HitOfAssigned(attr: seq<byte>, s: seq<Node>, names: seq<seq<byte>>, w: nat -> seq<byte>,
                                         v: seq<byte>, i: nat)
    requires |names| == |s| && Distinct(s) && i < |s|
    ensures Hit(Assigned(attr, s, names, w), Some(attr), None, Some(v), s[i]) <==> w(i) == v
  {
    AssignedAt(attr, s, names, w, i);
    StrcmpZero(v, w(i));
  }

  /** Names that ascend from x back to x are all the same. */
  lemma {:induction false} Squeezed(names: seq<seq<byte>>, from: nat)
    requires Ascending(names) && from < |names|
    ensures SameFrom(names, from) <==> names[from] == names[|names| - 1]
  {
    if names[from] == names[|names| - 1] {
      forall i | from < i < |names| - 1 ensures names[i] == names[|names| - 1] {
        StrcmpFlip(names[from], names[i]);
        StrcmpZero(names[from], names[i]);
      }
    }
  }

  lemma {:induction false} NamedIsUnambiguous(vals: map<Node, Value>, attr: seq<byte>, v: seq<byte>, s: seq<Node>,
                                              names: seq<seq<byte>>)
    requires Named(vals, attr, s, names) && Unambiguous(names, v)
    ensures Searchable(vals, None, Some(v), s)
  {
  }

  lemma {:induction false} SomeHit(vals: map<Node, Value>, attr: Name, element: Name, value: Name, s: seq<Node>, i: nat)
    requires i < |s| && Hit(vals, attr, element, value, s[i])
    ensures Hits(vals, attr, element, value, s) != []
    decreases |s|
  {
    if i > 0 {
      SomeHit(vals, attr, element, value, s[1..], i - 1);
    }
  }

  /** Matches in front of and behind a node that is none are not all found. */
  lemma {:induction false} GapLosesMatches(vals: map<Node, Value>, attr: Name, element: Name, value: Name, s: seq<Node>)
    requires |s| > 2 && Distinct(s) && AllIndexable(s, vals, attr)
    requires Hit(vals, attr, element, value, s[0]) && !Hit(vals, attr, element, value, s[1])
    requires Hit(vals, attr, element, value, s[|s| - 1])
    ensures Found(vals, attr, element, value, s) != Hits(vals, attr, element, value, s)
  {
    SomeHit(vals, attr, element, value, s[1..], |s| - 2);
    var r := Halving(vals, attr, element, value, s, 0, |s| - 1);
    if r < |s| {
      assert Found(vals, attr, element, value, s)[0] == s[r];
    }
  }

  /** Attribute values for which not all matches are found. */
  ghost function Scattered(names: seq<seq<byte>>, v: seq<byte>): nat -> seq<byte>
    requires names != []
  {
    var last := |names| - 1;
    (i: nat) =>
      if i == 0 || i >= last then v
      else if v == [] then (if names[i] == names[last] then v else [1])
      else if names[i] == names[0] then v + [1]
      else []
  }

  lemma {:induction false} ScatteredAscends(names: seq<seq<byte>>, v: seq<byte>, i: nat, j: nat)
    requires |names| > 2 && Ascending(names) && !Unambiguous(names, v)
    requires i < j < |names| && names[i] == names[j]
    ensures Strcmp(Scattered(names, v)(i), Scattered(names, v)(j)) <= 0
  {
    Squeezed(names, 0);
    StrcmpExtended(v, 1);
    StrcmpZero(v, v);
    StrcmpZero(v + [1], v + [1]);
  }

  lemma {:induction false} ScatteredMatches(names: seq<seq<byte>>, v: seq<byte>)
    requires |names| > 2 && Ascending(names) && !Unambiguous(names, v)
    ensures var w := Scattered(names, v); w(0) == v && w(1) != v && w(|names| - 1) == v
  {
    Squeezed(names, 1);
  }

  lemma {:induction false} ScatteredIsNamed(attr: seq<byte>, v: seq<byte>, s: seq<Node>, names: seq<seq<byte>>)
    requires |names| == |s| && Distinct(s) && Ascending(names) && !Unambiguous(names, v)
    ensures Named(Assigned(attr, s, names, Scattered(names, v)), attr, s, names)
  {
    var w := Scattered(names, v);
    forall i, j | 0 <= i < j < |s| && names[i] == names[j] ensures Strcmp(w(i), w(j)) <= 0 {
      ScatteredAscends(names, v, i, j);
    }
    AssignedIsNamed(attr, s, names, w);
  }

  lemma {:induction false} ScatteredLosesMatches(attr: seq<byte>, v: seq<byte>, s: seq<Node>, names: seq<seq<byte>>)
    requires |names| == |s| && Distinct(s) && Ascending(names) && !Unambiguous(names, v)
    requires Named(Assigned(attr, s, names, Scattered(names, v)), attr, s, names)
    ensures var vals := Assigned(attr, s, names, Scattered(names, v));
            Found(vals, Some(attr), None, Some(v), s) != Hits(vals, Some(attr), None, Some(v), s)
  {
    var w := Scattered(names, v);
    ScatteredMatches(names, v);
    HitOfAssigned(attr, s, names, w, v, 0);
    HitOfAssigned(attr, s, names, w, v, 1);
    HitOfAssigned(attr, s, names, w, v, |s| - 1);
    GapLosesMatches(Assigned(attr, s, names, w), Some(attr), None, Some(v), s);
  }

  /** Exactly when a search for a value without an element name finds every match, whatever the attribute values: if
      there are at most two nodes or one name; for the empty value the first name may differ. */
  lemma {:induction false} FindsAllExactly(attr: seq<byte>, v: seq<byte>, s: seq<Node>, names: seq<seq<byte>>)
    requires |names| == |s| && Distinct(s) && Ascending(names)
    ensures Unambiguous(names, v) <==>
            forall vals: map<Node, Value> :: Named(vals, attr, s, names) ==>
              Found(vals, Some(attr), None, Some(v), s) == Hits(vals, Some(attr), None, Some(v), s)
  {
    if Unambiguous(names, v) {
      forall vals: map<Node, Value> | Named(vals, attr, s, names)
        ensures Found(vals, Some(attr), None, Some(v), s) == Hits(vals, Some(attr), None, Some(v), s)
      {
        NamedIsUnambiguous(vals, attr, v, s, names);
        FoundIsHits(vals, Some(attr), None, Some(v), s);
      }
    } else {
      ScatteredIsNamed(attr, v, s, names);
      ScatteredLosesMatches(attr, v, s, names);
    }
  }

  lemma {:induction false} HalvingFindsNone(vals: map<Node, Value>, attr: Name, element: Name, value: Name,
                                            s: seq<Node>, first: nat, last: nat)
    requires first <= last < |s| && AllIndexable(s, vals, attr)
    requires forall i :: first <= i <= last ==> !Hit(vals, attr, element, value, s[i])
    ensures Halving(vals, attr, element, value, s, first, last) == |s|
    decreases last - first
  {
    if last - first > 1 {
      var current := Middle(first, last);
      if Probe(attr, element, value, vals[s[current]]) < 0 {
        HalvingFindsNone(vals, attr, element, value, s, first, current);
      } else {
        HalvingFindsNone(vals, attr, element, value, s, current, last);
      }
    }
  }

  /** Attribute values for which no match is found: those of the last name match and the middle node sends the search
      to the front, or those of the first name match and it sends the search to the back. */
  ghost function Misleading(names: seq<seq<byte>>, v: seq<byte>): nat -> seq<byte>
    requires |names| > 2
  {
    var last := |names| - 1;
    var towardsFront := names[Middle(0, last)] != names[last];
    (i: nat) =>
      if i > last then v
      else if towardsFront then (if names[i] == names[last] then v else v + [1])
      else if names[i] == names[0] then v else []
  }

  lemma {:induction false} MisleadingAscends(names: seq<seq<byte>>, v: seq<byte>, i: nat, j: nat)
    requires |names| > 2 && i < j < |names| && names[i] == names[j]
    ensures Strcmp(Misleading(names, v)(i), Misleading(names, v)(j)) <= 0
  {
    StrcmpZero(v, v);
    StrcmpZero(v + [1], v + [1]);
  }

  lemma {:induction false} MisleadingIsNamed(attr: seq<byte>, v: seq<byte>, s: seq<Node>, names: seq<seq<byte>>)
    requires |names| == |s| && Distinct(s) && Ascending(names) && |names| > 2
    ensures Named(Assigned(attr, s, names, Misleading(names, v)), attr, s, names)
  {
    var w := Misleading(names, v);
    forall i, j | 0 <= i < j < |s| && names[i] == names[j] ensures Strcmp(w(i), w(j)) <= 0 {
      MisleadingAscends(names, v, i, j);
    }
    AssignedIsNamed(attr, s, names, w);
  }

  lemma {:induction false} MisleadsToFront(attr: seq<byte>, v: seq<byte>, s: seq<Node>, names: seq<seq<byte>>)
    requires |names| == |s| && Distinct(s) && Ascending(names) && |names| > 2
    requires names[Middle(0, |names| - 1)] != names[|names| - 1]
    requires Named(Assigned(attr, s, names, Misleading(names, v)), attr, s, names)
    ensures var vals := Assigned(attr, s, names, Misleading(names, v));
            Found(vals, Some(attr), None, Some(v), s) == [] && Hits(vals, Some(attr), None, Some(v), s) != []
  {
    var w, last := Misleading(names, v), |s| - 1;
    var m, vals := Middle(0, last), Assigned(attr, s, names, w);
    FrontDiffers(names, m);
    StrcmpExtended(v, 1);
    forall i | 0 <= i <= m ensures !Hit(vals, Some(attr), None, Some(v), s[i]) {
      HitOfAssigned(attr, s, names, w, v, i);
    }
    AssignedAt(attr, s, names, w, m);
    HalvingFindsNone(vals, Some(attr), None, Some(v), s, 0, m);
    HitOfAssigned(attr, s, names, w, v, last);
    SomeHit(vals, Some(attr), None, Some(v), s, last);
  }

  lemma {:induction false} MisleadsToBack(attr: seq<byte>, v: seq<byte>, s: seq<Node>, names: seq<seq<byte>>)
    requires |names| == |s| && Distinct(s) && Ascending(names) && |names| > 2 && v != []
    requires names[0] != names[|names| - 1] == names[Middle(0, |names| - 1)]
    requires Named(Assigned(attr, s, names, Misleading(names, v)), attr, s, names)
    ensures var vals := Assigned(attr, s, names, Misleading(names, v));
            Found(vals, Some(attr), None, Some(v), s) == [] && Hits(vals, Some(attr), None, Some(v), s) != []
  {
    var w, last := Misleading(names, v), |s| - 1;
    var m, vals := Middle(0, last), Assigned(attr, s, names, w);
    Squeezed(names, m);
    forall i | m <= i <= last ensures !Hit(vals, Some(attr), None, Some(v), s[i]) {
      HitOfAssigned(attr, s, names, w, v, i);
    }
    AssignedAt(attr, s, names, w, m);
    HalvingFindsNone(vals, Some(attr), None, Some(v), s, m, last);
    HitOfAssigned(attr, s, names, w, v, 0);
    SomeHit(vals, Some(attr), None, Some(v), s, 0);
  }

  lemma {:induction false} MisleadingHides(attr: seq<byte>, v: seq<byte>, s: seq<Node>, names: seq<seq<byte>>)
    requires |names| == |s| && Distinct(s) && Ascending(names) && |names| > 2 && names[0] != names[|names| - 1]
    requires v != []
    ensures var vals := Assigned(attr, s, names, Misleading(names, v));
            && Named(vals, attr, s, names)
            && Found(vals, Some(attr), None, Some(v), s) == [] && Hits(vals, Some(attr), None, Some(v), s) != []
  {
    MisleadingIsNamed(attr, v, s, names);
    if names[Middle(0, |names| - 1)] != names[|names| - 1] {
      MisleadsToFront(attr, v, s, names);
    } else {
      MisleadsToBack(attr, v, s, names);
    }
  }

  lemma {:induction false} FrontDiffers(names: seq<seq<byte>>, m: nat)
    requires Ascending(names) && m < |names| && names[m] != names[|names| - 1]
    ensures forall i :: 0 <= i <= m ==> names[i] != names[|names| - 1]
  {
    forall i | 0 <= i <= m ensures names[i] != names[|names| - 1] {
      Squeezed(names, i);
    }
  }

  // ---- the empty value: the search never turns to the back ------------------------------------

  /** The positions the search from 0 to last looks at while nothing matches. */
  predicate Probed(i: nat, last: nat): (p: bool)
    ensures p ==> i <= last
    decreases last
  {
    if last <= 1 then i == 0 || i == last else i == last / 2 || Probed(i, last / 2)
  }

  /** Position i is the first with its name. */
  predicate StartsName(names: seq<seq<byte>>, i: nat)
    requires i < |names|
  {
    i == 0 || names[i - 1] != names[i]
  }

  /** Every name starts at a position the search looks at. */
  predicate StartsProbed(names: seq<seq<byte>>) {
    forall i :: 0 <= i < |names| && StartsName(names, i) ==> Probed(i, |names| - 1)
  }

  lemma {:induction false} BackStays(vals: map<Node, Value>, attr: Name, element: Name, value: Name, s: seq<Node>,
                                     i: nat)
    requires i < |s|
    ensures Back(vals, attr, element, value, s, i) <= i
  {
    if i > 0 {
      BackStays(vals, attr, element, value, s, i - 1);
    }
  }

  lemma {:induction false} ProbedMatchIsFound(vals: map<Node, Value>, attr: Name, s: seq<Node>, last: nat, i: nat)
    requires last < |s| && AllIndexable(s, vals, attr)
    requires Probed(i, last) && Hit(vals, attr, None, Some([]), s[i])
    ensures Halving(vals, attr, None, Some([]), s, 0, last) < |s|
    decreases last
  {
    if last > 1 {
      var m := Middle(0, last);
      NothingIsSmaller(attr, vals[s[m]]);
      BackStays(vals, attr, None, Some([]), s, m);
      if !Hit(vals, attr, None, Some([]), s[m]) {
        ProbedMatchIsFound(vals, attr, s, m, i);
      }
    }
  }

  lemma {:induction false} UnprobedIsMissed(vals: map<Node, Value>, attr: Name, s: seq<Node>, last: nat)
    requires last < |s| && AllIndexable(s, vals, attr)
    requires forall i :: 0 <= i < |s| && Probed(i, last) ==> !Hit(vals, attr, None, Some([]), s[i])
    ensures Halving(vals, attr, None, Some([]), s, 0, last) == |s|
    decreases last
  {
    if last > 1 {
      var m := Middle(0, last);
      NothingIsSmaller(attr, vals[s[m]]);
      assert Probed(m, last);
      UnprobedIsMissed(vals, attr, s, m);
    } else {
      assert Probed(0, last) && Probed(last, last);
    }
  }

  /** Among nodes of one name those with the empty value come first. */
  lemma {:induction false} MatchAtStart(vals: map<Node, Value>, attr: seq<byte>, s: seq<Node>, names: seq<seq<byte>>,
                                        j: nat) returns (i: nat)
    requires Named(vals, attr, s, names) && j < |s| && Hit(vals, Some(attr), None, Some([]), s[j])
    ensures i <= j && StartsName(names, i) && Hit(vals, Some(attr), None, Some([]), s[i])
  {
    i := j;
    if !StartsName(names, j) {
      assert NodeLeq(vals, Some(attr), s[j - 1], s[j]);
      ProbeFalls(Some(attr), None, Some([]), vals[s[j - 1]], vals[s[j]]);
      NothingIsSmaller(Some(attr), vals[s[j - 1]]);
      i := MatchAtStart(vals, attr, s, names, j - 1);
    }
  }

  lemma {:induction false} HasHit(vals: map<Node, Value>, attr: Name, element: Name, value: Name, s: seq<Node>)
    returns (j: nat)
    requires Hits(vals, attr, element, value, s) != []
    ensures j < |s| && Hit(vals, attr, element, value, s[j])
    decreases |s|
  {
    j := 0;
    if !Hit(vals, attr, element, value, s[0]) {
      var k := HasHit(vals, attr, element, value, s[1..]);
      j := k + 1;
    }
  }

  lemma {:induction false} ProbedStartsServe(vals: map<Node, Value>, attr: seq<byte>, s: seq<Node>,
                                             names: seq<seq<byte>>)
    requires Named(vals, attr, s, names) && StartsProbed(names)
    requires Hits(vals, Some(attr), None, Some([]), s) != []
    ensures Found(vals, Some(attr), None, Some([]), s) != []
  {
    var j := HasHit(vals, Some(attr), None, Some([]), s);
    var i := MatchAtStart(vals, attr, s, names, j);
    ProbedMatchIsFound(vals, Some(attr), s, |s| - 1, i);
  }

  /** The empty value at position r only. */
  ghost function Only(r: nat): nat -> seq<byte> { (i: nat) => if i == r then [] else [1] }

  /** A name starts at no later position than any node of that name. */
  lemma {:induction false} NoneInFront(names: seq<seq<byte>>, i: nat, r: nat)
    requires Ascending(names) && i < r < |names| && StartsName(names, r)
    ensures names[i] != names[r]
  {
    if names[i] == names[r] && i < r - 1 {
      StrcmpFlip(names[i], names[r - 1]);
      StrcmpZero(names[i], names[r - 1]);
    }
  }

  lemma {:induction false} OnlyIsNamed(attr: seq<byte>, s: seq<Node>, names: seq<seq<byte>>, r: nat)
    requires |names| == |s| && Distinct(s) && Ascending(names) && r < |names| && StartsName(names, r)
    ensures Named(Assigned(attr, s, names, Only(r)), attr, s, names)
  {
    var w := Only(r);
    forall i, j | 0 <= i < j < |s| && names[i] == names[j] ensures Strcmp(w(i), w(j)) <= 0 {
      if j == r {
        NoneInFront(names, i, r);
      }
      StrcmpZero([1], [1]);
    }
    AssignedIsNamed(attr, s, names, w);
  }

  lemma {:induction false} OnlyIsMissed(attr: seq<byte>, s: seq<Node>, names: seq<seq<byte>>, r: nat)
    requires |names| == |s| && Distinct(s) && r < |names| && !Probed(r, |names| - 1)
    requires Named(Assigned(attr, s, names, Only(r)), attr, s, names)
    ensures var vals := Assigned(attr, s, names, Only(r));
            Found(vals, Some(attr), None, Some([]), s) == [] && Hits(vals, Some(attr), None, Some([]), s) != []
  {
    var vals := Assigned(attr, s, names, Only(r));
    forall i | 0 <= i < |s| ensures Hit(vals, Some(attr), None, Some([]), s[i]) <==> i == r {
      HitOfAssigned(attr, s, names, Only(r), [], i);
    }
    UnprobedIsMissed(vals, Some(attr), s, |s| - 1);
    SomeHit(vals, Some(attr), None, Some([]), s, r);
  }

  /** The names by which a search for v without an element name finds a match if there is one: at most two, or all the
      same; for the empty value every name starts at a position that is looked at. */
  predicate Promising(names: seq<seq<byte>>, v: seq<byte>) {
    if v == [] then StartsProbed(names) else |names| <= 2 || names[0] == names[|names| - 1]
  }

  lemma {:induction false} PromisingServes(attr: seq<byte>, v: seq<byte>, s: seq<Node>, names: seq<seq<byte>>,
                                           vals: map<Node, Value>)
    requires Distinct(s) && Ascending(names) && Named(vals, attr, s, names)
    requires Promising(names, v) && Hits(vals, Some(attr), None, Some(v), s) != []
    ensures Found(vals, Some(attr), None, Some(v), s) != []
  {
    if v == [] {
      ProbedStartsServe(vals, attr, s, names);
    } else {
      if |names| > 2 {
        Squeezed(names, 0);
      }
      NamedIsUnambiguous(vals, attr, v, s, names);
      FoundIsHits(vals, Some(attr), None, Some(v), s);
    }
  }

  /** Otherwise there are attribute values that hide the matches. */
  lemma {:induction false} Hidden(attr: seq<byte>, v: seq<byte>, s: seq<Node>, names: seq<seq<byte>>)
    returns (vals: map<Node, Value>)
    requires |names| == |s| && Distinct(s) && Ascending(names) && !Promising(names, v)
    ensures Named(vals, attr, s, names)
    ensures Found(vals, Some(attr), None, Some(v), s) == [] && Hits(vals, Some(attr), None, Some(v), s) != []
  {
    if v == [] {
      var r :| 0 <= r < |names| && StartsName(names, r) && !Probed(r, |names| - 1);
      OnlyIsNamed(attr, s, names, r);
      OnlyIsMissed(attr, s, names, r);
      vals := Assigned(attr, s, names, Only(r));
    } else {
      MisleadingHides(attr, v, s, names);
      vals := Assigned(attr, s, names, Misleading(names, v));
    }
  }

  /** Exactly when such a search finds some match if there is one, whatever the attribute values. */
  lemma {:induction false} FindsSomeExactly(attr: seq<byte>, v: seq<byte>, s: seq<Node>, names: seq<seq<byte>>)
    requires |names| == |s| && Distinct(s) && Ascending(names)
    ensures Promising(names, v) <==>
            forall vals: map<Node, Value> ::
              Named(vals, attr, s, names) && Hits(vals, Some(attr), None, Some(v), s) != [] ==>
                Found(vals, Some(attr), None, Some(v), s) != []
  {
    if Promising(names, v) {
      forall vals: map<Node, Value> |
        Named(vals, attr, s, names) && Hits(vals, Some(attr), None, Some(v), s) != []
        ensures Found(vals, Some(attr), None, Some(v), s) != []
      {
        PromisingServes(attr, v, s, names, vals);
      }
    } else {
      var vals := Hidden(attr, v, s, names);
    }
  }

  function Tagged(name: seq<byte>, attr: seq<byte>, v: seq<byte>): Value {
    ElementValue(name, [XmlTree.Attr(attr, Some(v))])
  }

  lemma {:induction false} StrcmpExtended(v: seq<byte>, b: byte)
    ensures Strcmp(v, v + [b]) < 0
    decreases |v|
  {
    if v != [] {
      StrcmpExtended(v[1..], b);
      assert (v + [b])[1..] == v[1..] + [b];
    }
  }

  // ---- the class ------------------------------------------------------------------------------

  class Index {
    var attr: Name
    var nodes: array<Node>
    var num_nodes: nat
    var cur_node: nat

    ghost predicate Valid(vals: map<Node, Value>)
      reads this, nodes, if num_nodes <= nodes.Length then nodes[..num_nodes] else []
    {
      && cur_node <= num_nodes <= nodes.Length
      && Holds(nodes[..num_nodes], vals, attr) && Sorted(vals, attr, nodes[..num_nodes], 0, num_nodes)
    }

    ghost function Contents(): seq<Node>
      reads this, nodes
      requires num_nodes <= nodes.Length
    {
      nodes[..num_nodes]
    }

    /** The nodes the next calls of mxmlIndexFind are to return. */
    ghost function Left(vals: map<Node, Value>, element: Name, value: Name): seq<Node>
      reads this, nodes, if num_nodes <= nodes.Length then nodes[..num_nodes] else []
      requires Valid(vals)
    {
      if cur_node == 0 then Found(vals, attr, element, value, Contents())
      else Run(vals, attr, element, value, Contents(), cur_node)
    }

    constructor (a: Name)
      ensures attr == a && num_nodes == cur_node == 0 && fresh(nodes) && nodes.Length == 0
    {
      attr := a;
      nodes := new Node[0];
      num_nodes, cur_node := 0, 0;
    }

    /** mxmlIndexReset */
    method Reset() returns (n: Node?)
      requires num_nodes <= nodes.Length
      modifies this`cur_node
      ensures cur_node == 0 && n == First(Contents())
    {
      cur_node := 0;
      n := if num_nodes > 0 then nodes[0] else null;
    }

    /** mxmlIndexEnum */
    method Enum() returns (n: Node?)
      requires cur_node <= num_nodes <= nodes.Length
      modifies this`cur_node
      ensures n == (if old(cur_node) < num_nodes then nodes[old(cur_node)] else null)
      ensures cur_node == if old(cur_node) < num_nodes then old(cur_node) + 1 else old(cur_node)
    {
      if cur_node < num_nodes {
        n := nodes[cur_node];
        cur_node := cur_node + 1;
      } else {
        n := null;
      }
    }

    /** index_find on the i-th node; s are the contents. */
    method ProbeAt(i: nat, element: Name, value: Name, ghost s: seq<Node>, ghost vals: map<Node, Value>)
      returns (diff: int)
      requires Valid(vals) && i < num_nodes && s == Contents()
      ensures s[i] in vals && Indexable(attr, vals[s[i]])
      ensures diff == Probe(attr, element, value, vals[s[i]])
      ensures diff == 0 <==> Hit(vals, attr, element, value, s[i])
    {
      assert s[i] in s;
      diff := Probe(attr, element, value, nodes[i].value);
    }

    lemma {:induction false} ContentsIndexable(vals: map<Node, Value>)
      requires Valid(vals)
      ensures AllIndexable(Contents(), vals, attr)
    {
      HoldsAll(Contents(), vals, attr);
    }

    /** The loop that moves back over matches. */
    method FirstOfRun(at: nat, element: Name, value: Name, ghost s: seq<Node>, ghost vals: map<Node, Value>)
      returns (current: nat)
      requires Valid(vals) && at < num_nodes && s == Contents()
      ensures current == Back(vals, attr, element, value, s, at)
    {
      current := at;
      while current > 0
        invariant current <= at
        invariant Back(vals, attr, element, value, s, current) == Back(vals, attr, element, value, s, at)
      {
        var diff := ProbeAt(current - 1, element, value, s, vals);
        if diff != 0 {
          return;
        }
        current := current - 1;
      }
    }

    /** The binary search of mxmlIndexFind and its last loop; num_nodes if nothing was found. */
    method Search(element: Name, value: Name, ghost s: seq<Node>, ghost vals: map<Node, Value>) returns (current: nat)
      requires Valid(vals) && num_nodes > 0 && s == Contents() && AllIndexable(s, vals, attr)
      ensures current == Halving(vals, attr, element, value, s, 0, |s| - 1)
    {
      var first, last := 0, num_nodes - 1;
      while last - first > 1
        invariant 0 <= first <= last < num_nodes
        invariant Halving(vals, attr, element, value, s, first, last)
            == Halving(vals, attr, element, value, s, 0, |s| - 1)
        decreases last - first
      {
        current := Middle(first, last);
        var diff := ProbeAt(current, element, value, s, vals);
        if diff == 0 {
          current := FirstOfRun(current, element, value, s, vals);
          return;
        } else if diff < 0 {
          last := current;
        } else {
          first := current;
        }
      }
      current := SearchRest(first, last, element, value, s, vals);
    }

    /** The loop over the at most two nodes left. */
    method SearchRest(first: nat, last: nat, element: Name, value: Name, ghost s: seq<Node>,
                      ghost vals: map<Node, Value>)
      returns (current: nat)
      requires Valid(vals) && first <= last < num_nodes && last - first <= 1
      requires s == Contents() && AllIndexable(s, vals, attr)
      ensures current == Halving(vals, attr, element, value, s, first, last)
    {
      current := first;
      while current <= last
        invariant first <= current <= last + 1
        invariant forall i :: first <= i < current ==> !Hit(vals, attr, element, value, s[i])
      {
        var diff := ProbeAt(current, element, value, s, vals);
        if diff == 0 {
          return;
        }
        current := current + 1;
      }
      current := num_nodes;
    }

    /** mxmlIndexFind: the next of the matching nodes, in index order. */
    method Find(element: Name, value: Name, ghost vals: map<Node, Value>) returns (n: Node?)
      requires Valid(vals)
      modifies this`cur_node
      ensures Valid(vals)
      ensures attr.None? && value.Some? ==> n == null && cur_node == old(cur_node)
      ensures attr.Some? || value.None? ==>
                var left := old(Left(vals, element, value));
                if left == [] then n == null && Left(vals, element, value) == []
                else n == left[0] && Left(vals, element, value) == left[1..]
    {
      if attr.None? && value.Some? {
        return null;
      }
      if element.None? && value.None? {
        n := FindAny(vals);
        return;
      }
      if num_nodes == 0 {
        return null;
      }
      if cur_node == 0 {
        n := FindFirst(element, value, vals);
        return;
      }
      n := FindNext(element, value, vals);
    }

    /** mxmlIndexFind without element and value, which is mxmlIndexEnum */
    method FindAny(ghost vals: map<Node, Value>) returns (n: Node?)
      requires Valid(vals)
      modifies this`cur_node
      ensures Valid(vals)
      ensures var left := old(Left(vals, None, None));
              if left == [] then n == null && Left(vals, None, None) == []
              else n == left[0] && Left(vals, None, None) == left[1..]
    {
      LeftOfAll(vals);
      n := Enum();
      LeftOfAll(vals);
    }

    lemma {:induction false} LeftOfAll(vals: map<Node, Value>)
      requires Valid(vals)
      ensures Left(vals, None, None) == Contents()[cur_node..]
    {
      ContentsIndexable(vals);
      FoundIsHits(vals, attr, None, None, Contents());
      AllHit(vals, attr, Contents());
      AllRun(vals, attr, Contents(), cur_node);
    }

    /** mxmlIndexFind with cur_node > 0 */
    method FindNext(element: Name, value: Name, ghost vals: map<Node, Value>) returns (n: Node?)
      requires Valid(vals) && cur_node > 0
      modifies this`cur_node
      ensures Valid(vals)
      ensures var left := Run(vals, attr, element, value, Contents(), old(cur_node));
              if left == [] then n == null && Left(vals, element, value) == []
              else n == left[0] && Left(vals, element, value) == left[1..]
    {
      if cur_node < num_nodes {
        var diff := ProbeAt(cur_node, element, value, Contents(), vals);
        if diff == 0 {
          n := nodes[cur_node];
          cur_node := cur_node + 1;
          return;
        }
      }
      cur_node := num_nodes;
      n := null;
    }

    /** mxmlIndexFind with cur_node == 0 */
    method FindFirst(element: Name, value: Name, ghost vals: map<Node, Value>) returns (n: Node?)
      requires Valid(vals) && num_nodes > 0 && cur_node == 0
      modifies this`cur_node
      ensures Valid(vals)
      ensures var left := old(Left(vals, element, value));
              if left == [] then n == null && Left(vals, element, value) == []
              else n == left[0] && Left(vals, element, value) == left[1..]
    {
      ContentsIndexable(vals);
      ghost var s := Contents();
      var current := Search(element, value, s, vals);
      FoundFrom(vals, attr, element, value, s, current);
      n := if current < num_nodes then nodes[current] else null;
      cur_node := if current < num_nodes then current + 1 else num_nodes;
    }

    /** Calling mxmlIndexFind after mxmlIndexReset until it returns NULL, after which it returns NULL again. Where
        the order of the index serves the search that gives every matching node once, in index order. */
    method FindAll(element: Name, value: Name, ghost vals: map<Node, Value>) returns (found: seq<Node>)
      requires Valid(vals)
      modifies this`cur_node
      ensures Valid(vals) && AllIndexable(Contents(), vals, attr)
      ensures attr.None? && value.Some? ==> found == []
      ensures attr.Some? || value.None? ==>
                && Left(vals, element, value) == []
                && found == Found(vals, attr, element, value, Contents())
                && (Searchable(vals, element, value, Contents()) ==>
                      found == Hits(vals, attr, element, value, Contents()))
    {
      var _ := Reset();
      found := [];
      ContentsIndexable(vals);
      if attr.Some? || value.None? {
        found := FindLeft(element, value, vals);
        if Searchable(vals, element, value, Contents()) {
          FoundIsHits(vals, attr, element, value, Contents());
        }
      }
    }

    /** The calls of mxmlIndexFind up to the first NULL. */
    method FindLeft(element: Name, value: Name, ghost vals: map<Node, Value>) returns (found: seq<Node>)
      requires Valid(vals) && (attr.Some? || value.None?)
      modifies this`cur_node
      ensures Valid(vals) && found == old(Left(vals, element, value)) && Left(vals, element, value) == []
    {
      found := [];
      ghost var all, left := Left(vals, element, value), Left(vals, element, value);
      var n := Find(element, value, vals);
      while n != null
        invariant Valid(vals) && all == found + left
        invariant if left == [] then n == null && Left(vals, element, value) == []
                  else n == left[0] && Left(vals, element, value) == left[1..]
        decreases |left|
      {
        var here: Node := n;
        Shift(found, left, here);
        found, left := found + [here], left[1..];
        n := Find(element, value, vals);
      }
      assert found + [] == found;
    }
  }

  lemma {:induction false} AllRun(vals: map<Node, Value>, attr: Name, s: seq<Node>, i: nat)
    requires i <= |s| && AllIndexable(s, vals, attr)
    ensures Run(vals, attr, None, None, s, i) == s[i..]
    decreases |s| - i
  {
    if i < |s| {
      AllRun(vals, attr, s, i + 1);
      assert s[i..] == [s[i]] + s[i + 1..];
    }
  }

  lemma {:induction false} AllHit(vals: map<Node, Value>, attr: Name, s: seq<Node>)
    requires AllIndexable(s, vals, attr)
    ensures Hits(vals, attr, None, None, s) == s
    decreases |s|
  {
    if s != [] {
      AllHit(vals, attr, s[1..]);
      assert s == [s[0]] + s[1..];
    }
  }

  /** A probe that misses rules out one side. */
  lemma {:induction false} Discards(vals: map<Node, Value>, attr: Name, element: Name, value: Name, s: seq<Node>,
                                    k: nat)
    requires Sorted(vals, attr, s, 0, |s|) && Searchable(vals, element, value, s)
    requires 1 <= k < |s| && |s| > 2 && s[k] in vals && Indexable(attr, vals[s[k]])
    ensures var diff := Probe(attr, element, value, vals[s[k]]);
            && (diff < 0 ==> forall i :: k <= i < |s| ==> !Hit(vals, attr, element, value, s[i]))
            && (diff > 0 ==> forall i :: 0 <= i <= k ==> !Hit(vals, attr, element, value, s[i]))
  {
    var diff := Probe(attr, element, value, vals[s[k]]);
    if value == Some([]) && element.None? {
      NothingIsSmaller(attr, vals[s[k]]);
    }
    forall i | 0 <= i < |s| && ((diff < 0 && k <= i) || (diff > 0 && i <= k))
      ensures !Hit(vals, attr, element, value, s[i])
    {
      if i < k {
        assert NodeLeq(vals, attr, s[i], s[k]);
        ProbeFalls(attr, element, value, vals[s[i]], vals[s[k]]);
      } else if k < i {
        assert NodeLeq(vals, attr, s[k], s[i]);
        ProbeFalls(attr, element, value, vals[s[k]], vals[s[i]]);
      }
    }
  }
}

/** mxmlIndexNew, and that what the index finds is what the search of the tree finds. */
module XmlIndexBuild {
  import opened CString
  import XmlTree
  import opened XmlForest
  import opened XmlPreOrder
  import opened XmlWalk
  import opened XmlIndexSort
  import opened XmlIndex

  const ANY: Name := None

  /** The nodes of s that mxmlFindElement stops at. */
  ghost function Matching(vals: map<Node, Value>, s: seq<Node>, name: Name, attr: Name, value: Name): seq<Node> {
    if s == [] then []
    else (if s[0] in vals && Matches(vals[s[0]], name, attr, value) then [s[0]] else [])
         + Matching(vals, s[1..], name, attr, value)
  }

  /** The nodes the index is to hold, in document order: with neither name nor attribute, top belongs to them. */
  ghost function Indexed(f: Forest, vals: map<Node, Value>, top: Node, element: Name, attr: Name): seq<Node>
    requires WellFormed(f) && top in f.kids
  {
    (if element.None? && attr.None? then [top] else []) + Matching(vals, Todo(f, top, top), element, attr, ANY)
  }

  /** After a match the search goes on with what comes behind it. */
  lemma {:induction false} MatchingGoesOn(f: Forest, vals: map<Node, Value>, top: Node, n: Node, name: Name, attr: Name,
                                          value: Name)
    requires WellFormed(f) && top in f.kids && n in f.kids && Under(f, n, top)
    ensures var m := FirstMatching(vals, Todo(f, top, n), name, attr, value);
            var s := Matching(vals, Todo(f, top, n), name, attr, value);
            if m == null then s == []
            else m in f.kids && Under(f, m, top) && m in vals && Matches(vals[m], name, attr, value)
                 && s == [m] + Matching(vals, Todo(f, top, m), name, attr, value)
    decreases |Todo(f, top, n)|
  {
    NextIsFirst(f, top, n, AllLevels);
    var x := NextNode(f, top, n, AllLevels);
    if x != null {
      assert Todo(f, top, n)[1..] == Todo(f, top, x);
      MatchingGoesOn(f, vals, top, x, name, attr, value);
    }
  }

  /** The unused part of the array holds no stray nodes. */
  ghost predicate Filled(ind: Index)
    reads ind, ind.nodes
  {
    ind.num_nodes <= ind.nodes.Length
    && forall k :: 0 <= k < ind.nodes.Length ==> ind.nodes[k] in ind.nodes[..ind.num_nodes]
  }

  /** Make room for 64 more nodes; the room is filled with `filler`. */
  method Grow(ind: Index, filler: Node)
    requires ind.num_nodes <= ind.nodes.Length
    modifies ind`nodes
    ensures fresh(ind.nodes) && ind.nodes.Length == old(ind.nodes.Length) + 64
    ensures ind.nodes[..ind.num_nodes] == old(ind.nodes[..ind.num_nodes])
    ensures forall k :: ind.num_nodes <= k < ind.nodes.Length ==> ind.nodes[k] == filler
  {
    var temp := new Node[ind.nodes.Length + 64](_ => filler);
    forall i | 0 <= i < ind.num_nodes {
      temp[i] := ind.nodes[i];
    }
    assert temp[..ind.num_nodes] == ind.nodes[..ind.num_nodes];
    ind.nodes := temp;
  }

  method Append(ind: Index, n: Node)
    requires Filled(ind)
    modifies ind`nodes, ind`num_nodes, ind.nodes
    ensures ind.nodes == old(ind.nodes) || fresh(ind.nodes)
    ensures Filled(ind) && ind.Contents() == old(ind.Contents()) + [n]
  {
    ghost var before := ind.Contents();
    if ind.num_nodes >= ind.nodes.Length {
      Grow(ind, n);
    }
    ghost var room := ind.nodes[..];
    assert forall k :: 0 <= k < |room| ==> room[k] in before + [n];
    ind.nodes[ind.num_nodes] := n;
    ind.num_nodes := ind.num_nodes + 1;
    assert ind.nodes[..ind.num_nodes] == before + [n];
    forall k | 0 <= k < ind.nodes.Length ensures ind.nodes[k] in ind.nodes[..ind.num_nodes] {
      assert ind.nodes[k] == if k == ind.num_nodes - 1 then n else room[k];
    }
  }

  /** A match and the matches behind it. */
  ghost function MatchesFrom(f: Forest, vals: map<Node, Value>, top: Node, n: Node?, name: Name, attr: Name): seq<Node>
    requires WellFormed(f) && (n != null ==> n in f.kids && Under(f, n, top))
  {
    if n == null then [] else [n] + Matching(vals, Todo(f, top, n), name, attr, ANY)
  }

  method NextMatch(n: Node, top: Node, name: Name, attr: Name, ghost vals: map<Node, Value>, ghost f: Forest)
    returns (m: Node?)
    requires Linked(f) && top in f.kids && n in f.kids && Under(f, n, top) && Knows(vals, f)
    ensures m != null ==> m in f.kids && Under(f, m, top)
    ensures Matching(vals, Todo(f, top, n), name, attr, ANY) == MatchesFrom(f, vals, top, m, name, attr)
  {
    m := FindElement(n, top, name, attr, ANY, AllLevels, vals, f);
    MatchingGoesOn(f, vals, top, n, name, attr, ANY);
  }

  /** The first node of mxmlIndexNew's loop. */
  method FirstIndexed(node: Node, element: Name, attr: Name, ghost vals: map<Node, Value>, ghost f: Forest)
    returns (m: Node?)
    requires Linked(f) && node in f.kids && Knows(vals, f)
    ensures m != null ==> m in f.kids && Under(f, m, node)
    ensures Indexed(f, vals, node, element, attr) == MatchesFrom(f, vals, node, m, element, attr)
  {
    if element.None? && attr.None? {
      m := node;
    } else {
      m := NextMatch(node, node, element, attr, vals, f);
      assert [] + Matching(vals, Todo(f, node, node), element, attr, ANY)
             == Matching(vals, Todo(f, node, node), element, attr, ANY);
    }
  }

  /** Storing a node in the index does not touch the tree. */
  method AppendApart(ind: Index, n: Node, ghost vals: map<Node, Value>, ghost f: Forest)
    requires Filled(ind) && Linked(f) && Knows(vals, f)
    modifies ind`nodes, ind`num_nodes, ind.nodes
    ensures Filled(ind) && (ind.nodes == old(ind.nodes) || fresh(ind.nodes)) && Linked(f) && Knows(vals, f)
    ensures ind.Contents() == old(ind.Contents()) + [n]
  {
    Append(ind, n);
  }

  /** Store a node and search on; left are the matches from it on. */
  method CollectOne(ind: Index, here: Node, top: Node, element: Name, attr: Name, ghost left: seq<Node>,
                    ghost vals: map<Node, Value>, ghost f: Forest) returns (m: Node?)
    requires Filled(ind) && Linked(f) && top in f.kids && Knows(vals, f) && here in f.kids && Under(f, here, top)
    requires left == MatchesFrom(f, vals, top, here, element, attr)
    modifies ind`nodes, ind`num_nodes, ind.nodes
    ensures Filled(ind) && (ind.nodes == old(ind.nodes) || fresh(ind.nodes)) && Linked(f) && Knows(vals, f)
    ensures m != null ==> m in f.kids && Under(f, m, top)
    ensures left != [] && left[1..] == MatchesFrom(f, vals, top, m, element, attr)
    ensures ind.Contents() + left[1..] == old(ind.Contents()) + left
  {
    m := NextMatch(here, top, element, attr, vals, f);
    Shift(ind.Contents(), left, here);
    AppendApart(ind, here, vals, f);
  }

  /** The search loop of mxmlIndexNew, from the first match on. */
  method CollectFrom(ind: Index, first: Node?, top: Node, element: Name, attr: Name, ghost all: seq<Node>,
                     ghost vals: map<Node, Value>, ghost f: Forest)
    requires Filled(ind) && ind.num_nodes == 0 && Linked(f) && top in f.kids && Knows(vals, f)
    requires first != null ==> first in f.kids && Under(f, first, top)
    requires all == MatchesFrom(f, vals, top, first, element, attr)
    modifies ind`nodes, ind`num_nodes, ind.nodes
    ensures Filled(ind) && (ind.nodes == old(ind.nodes) || fresh(ind.nodes)) && Linked(f) && Knows(vals, f)
    ensures ind.Contents() == all
    ensures ind.attr == old(ind.attr) && ind.cur_node == old(ind.cur_node)
  {
    var current := first;
    ghost var left, done := all, [];
    while current != null
      invariant Filled(ind) && (ind.nodes == old(ind.nodes) || fresh(ind.nodes)) && Linked(f) && Knows(vals, f)
      invariant current != null ==> current in f.kids && Under(f, current, top)
      invariant left == MatchesFrom(f, vals, top, current, element, attr)
      invariant done == ind.Contents() && done + left == all
      decreases |left|
    {
      current := CollectOne(ind, current, top, element, attr, left, vals, f);
      left, done := left[1..], ind.Contents();
    }
    assert done + [] == done;
  }

  /** All nodes to be indexed, in document order. */
  method Collect(node: Node, element: Name, attr: Name, ghost vals: map<Node, Value>, ghost f: Forest)
    returns (ind: Index)
    requires Linked(f) && node in f.kids && Knows(vals, f)
    ensures fresh(ind) && fresh(ind.nodes) && ind.attr == attr && ind.cur_node == 0
    ensures Filled(ind) && ind.Contents() == Indexed(f, vals, node, element, attr)
  {
    var current := FirstIndexed(node, element, attr, vals, f);
    ind := new Index(attr);
    assert Filled(ind) && ind.Contents() == [];
    CollectFrom(ind, current, node, element, attr, Indexed(f, vals, node, element, attr), vals, f);
  }

  /** Everything in the index is an element of the tree that has the attribute. */
  lemma {:induction false} IndexedHolds(f: Forest, vals: map<Node, Value>, top: Node, element: Name, attr: Name)
    requires WellFormed(f) && top in f.kids && top in vals
    requires element.None? && attr.None? ==> vals[top].ElementValue?
    ensures forall n :: n in Indexed(f, vals, top, element, attr) ==> n in vals && Indexable(attr, vals[n])
  {
    MatchingHolds(vals, Todo(f, top, top), element, attr);
  }

  lemma {:induction false} MatchingHolds(vals: map<Node, Value>, s: seq<Node>, element: Name, attr: Name)
    ensures forall n :: n in Matching(vals, s, element, attr, ANY) ==> n in vals && Indexable(attr, vals[n])
    decreases |s|
  {
    if s != [] {
      MatchingHolds(vals, s[1..], element, attr);
    }
  }

  /** mxmlIndexNew: a sorted permutation of the nodes to be indexed. Without name and attribute, node itself has
      to be an element. */
  method IndexNew(node: Node?, element: Name, attr: Name, ghost vals: map<Node, Value>, ghost f: Forest)
    returns (ind: Index?)
    requires Linked(f) && Knows(vals, f) && (node != null ==> node in f.kids)
    requires node != null && element.None? && attr.None? ==> node.value.ElementValue?
    ensures node == null <==> ind == null
    ensures ind != null ==>
              && fresh(ind) && ind.attr == attr && ind.cur_node == 0 && ind.Valid(vals)
              && multiset(ind.Contents()) == multiset(Indexed(f, vals, node, element, attr))
  {
    if node == null {
      ind := null;
    } else {
      ind := IndexOfTree(node, element, attr, vals, f);
    }
  }

  method IndexOfTree(node: Node, element: Name, attr: Name, ghost vals: map<Node, Value>, ghost f: Forest)
    returns (ind: Index)
    requires Linked(f) && node in f.kids && Knows(vals, f)
    requires element.None? && attr.None? ==> node.value.ElementValue?
    ensures fresh(ind) && ind.attr == attr && ind.cur_node == 0 && ind.Valid(vals) && Knows(vals, f)
    ensures multiset(ind.Contents()) == multiset(Indexed(f, vals, node, element, attr))
  {
    ind := Collect(node, element, attr, vals, f);
    IndexedHolds(f, vals, node, element, attr);
    IndexedInTree(f, vals, node, element, attr);
    assert Holds(ind.Contents(), vals, attr);
    SortAll(ind, vals);
  }

  lemma {:induction false} IndexedInTree(f: Forest, vals: map<Node, Value>, top: Node, element: Name, attr: Name)
    requires WellFormed(f) && top in f.kids && vals.Keys == f.kids.Keys
    ensures forall n :: n in Indexed(f, vals, top, element, attr) ==> n in f.kids
  {
    IndexedAreIn(vals, Todo(f, top, top), element, attr);
  }

  lemma {:induction false} IndexedAreIn(vals: map<Node, Value>, s: seq<Node>, element: Name, attr: Name)
    ensures forall n :: n in Matching(vals, s, element, attr, ANY) ==> n in vals
    decreases |s|
  {
    if s != [] {
      IndexedAreIn(vals, s[1..], element, attr);
    }
  }

  method SortAll(ind: Index, ghost vals: map<Node, Value>)
    requires Filled(ind) && Holds(ind.Contents(), vals, ind.attr) && ind.cur_node <= ind.num_nodes
    modifies ind.nodes
    ensures ind.Valid(vals)
    ensures multiset(ind.Contents()) == multiset(old(ind.Contents()))
  {
    ghost var n, s := ind.num_nodes, ind.nodes[..];
    if ind.num_nodes > 1 {
      assert Holds(s, vals, ind.attr);
      IndexSort(ind.nodes, 0, ind.num_nodes - 1, ind.attr, vals);
      assert s[0..n] == s[..n] && ind.nodes[..][0..n] == ind.nodes[..n];
    }
  }

  // ---- the index agrees with the search of the tree -------------------------------------------

  /** The first element of s can be taken out of a permutation of s. */
  lemma {:induction false} TakeOut(s: seq<Node>, t: seq<Node>) returns (i: nat)
    requires s != [] && multiset(s) == multiset(t)
    ensures i < |t| && t[i] == s[0] && multiset(s[1..]) == multiset(t[..i] + t[i + 1..])
  {
    var x := s[0];
    assert s == [] + ([x] + s[1..]) && [] + s[1..] == s[1..];
    assert x in multiset(s);
    assert x in t;
    i :| 0 <= i < |t| && t[i] == x;
    assert t == t[..i] + ([x] + t[i + 1..]);
    OneLess([], x, s[1..]);
    OneLess(t[..i], x, t[i + 1..]);
  }

  lemma {:induction false} OneLess(a: seq<Node>, x: Node, b: seq<Node>)
    ensures multiset(a + b) == multiset(a + ([x] + b)) - multiset{x}
  {
  }

  lemma {:induction false} HitsWithout(vals: map<Node, Value>, attr: Name, element: Name, value: Name, t: seq<Node>,
                                       i: nat, x: Node, rest: seq<Node>)
    requires i < |t| && t[i] == x && rest == t[..i] + t[i + 1..]
    ensures multiset(Hits(vals, attr, element, value, t))
            == multiset(Hits(vals, attr, element, value, [x])) + multiset(Hits(vals, attr, element, value, rest))
  {
    var before, after := t[..i], t[i + 1..];
    assert t == before + ([x] + after);
    HitsAppend(vals, attr, element, value, before, after);
    HitsAppend(vals, attr, element, value, before, [x] + after);
    HitsAppend(vals, attr, element, value, [x], after);
  }

  lemma {:induction false} HitsOfPermutation(vals: map<Node, Value>, attr: Name, element: Name, value: Name,
                                             s: seq<Node>, t: seq<Node>)
    requires multiset(s) == multiset(t)
    ensures multiset(Hits(vals, attr, element, value, s)) == multiset(Hits(vals, attr, element, value, t))
    decreases |s|
  {
    if s == [] {
      EmptyBag(t);
    } else {
      var x, tail := s[0], s[1..];
      var i := TakeOut(s, t);
      var rest := t[..i] + t[i + 1..];
      HitsOfPermutation(vals, attr, element, value, tail, rest);
      HitsWithout(vals, attr, element, value, t, i, x, rest);
      assert tail == s[..0] + s[1..];
      HitsWithout(vals, attr, element, value, s, 0, x, tail);
    }
  }

  lemma {:induction false} EmptyBag(t: seq<Node>)
    requires multiset(t) == multiset([])
    ensures t == []
  {
    assert |multiset(t)| == |t|;
  }

  /** The nodes of s that a search for `element` is to find in an index built for `built`: with both given and
      different there are none. */
  ghost function Wanted(vals: map<Node, Value>, s: seq<Node>, built: Name, attr: Name, element: Name, value: Name)
    : seq<Node>
  {
    if built.Some? && element.Some? && built != element then []
    else Matching(vals, s, if built.Some? then built else element, attr, value)
  }

  lemma {:induction false} HitsOfMatching(vals: map<Node, Value>, s: seq<Node>, built: Name, attr: Name, element: Name,
                                          value: Name)
    requires attr.Some? || value.None?
    ensures Hits(vals, attr, element, value, Matching(vals, s, built, attr, ANY))
            == Wanted(vals, s, built, attr, element, value)
    decreases |s|
  {
    if s != [] {
      var head := if s[0] in vals && Matches(vals[s[0]], built, attr, ANY) then [s[0]] else [];
      HitsOfMatching(vals, s[1..], built, attr, element, value);
      HitsAppend(vals, attr, element, value, head, Matching(vals, s[1..], built, attr, ANY));
      if head != [] {
        HitIsMatch(vals[s[0]], built, attr, element, value);
        assert Hits(vals, attr, element, value, [s[0]]) == if Hit(vals, attr, element, value, s[0]) then [s[0]] else [];
      }
    }
  }

  lemma {:induction false} HitIsMatch(v: Value, built: Name, attr: Name, element: Name, value: Name)
    requires (attr.Some? || value.None?) && Matches(v, built, attr, ANY)
    ensures Probe(attr, element, value, v) == 0 <==>
            !(built.Some? && element.Some? && built != element)
            && Matches(v, if built.Some? then built else element, attr, value)
  {
    if element.Some? {
      StrcmpZero(element.value, v.name);
    }
    if value.Some? {
      StrcmpZero(value.value, AttrOf(attr, v));
    }
  }

  /** What the index finds is what searching the tree finds (and the top node, which is only in an index without
      name and attribute). */
  lemma {:induction false} IndexAgreesWithSearch(f: Forest, vals: map<Node, Value>, top: Node, built: Name, attr: Name,
                                                 element: Name, value: Name, contents: seq<Node>)
    requires WellFormed(f) && top in f.kids && (attr.Some? || value.None?)
    requires multiset(contents) == multiset(Indexed(f, vals, top, built, attr))
    ensures multiset(Hits(vals, attr, element, value, contents))
            == multiset(Hits(vals, attr, element, value, if built.None? && attr.None? then [top] else []))
               + multiset(Wanted(vals, Todo(f, top, top), built, attr, element, value))
  {
    var head := if built.None? && attr.None? then [top] else [];
    var tail := Matching(vals, Todo(f, top, top), built, attr, ANY);
    HitsOfPermutation(vals, attr, element, value, contents, head + tail);
    HitsAppend(vals, attr, element, value, head, tail);
    HitsOfMatching(vals, Todo(f, top, top), built, attr, element, value);
  }

  /** What the caller of mxmlIndexNew can tell: the index was built for a name, or is searched with a name or without a
      value, or holds at most two nodes, or nodes of one name. */
  ghost predicate Trusted(f: Forest, vals: map<Node, Value>, top: Node, built: Name, attr: Name, element: Name,
                          value: Name)
    requires WellFormed(f) && top in f.kids
  {
    var s := Indexed(f, vals, top, built, attr);
    built.Some? || element.Some? || value.None? || |s| <= 2 || OneName(vals, s, 0)
  }

  /** Then its order serves the search. */
  lemma {:induction false} TrustedIsSearchable(f: Forest, vals: map<Node, Value>, top: Node, built: Name, attr: Name,
                                               element: Name, value: Name, contents: seq<Node>)
    requires WellFormed(f) && top in f.kids && Trusted(f, vals, top, built, attr, element, value)
    requires multiset(contents) == multiset(Indexed(f, vals, top, built, attr))
    ensures Searchable(vals, element, value, contents)
  {
    var s := Indexed(f, vals, top, built, attr);
    assert |multiset(contents)| == |contents| && |multiset(s)| == |s|;
    if built.Some? {
      MatchingNamed(vals, Todo(f, top, top), built.value, attr);
      NamesCarryOver(vals, s, contents, built.value);
    } else if |s| > 2 && element.None? && value.Some? {
      var first, second := s[0], s[1];
      NamesCarryOver(vals, s, contents, vals[first].name);
    }
  }

  lemma {:induction false} NamesCarryOver(vals: map<Node, Value>, s: seq<Node>, contents: seq<Node>, name: seq<byte>)
    requires multiset(contents) == multiset(s)
    requires forall n <- s :: n in vals && vals[n].ElementValue? && vals[n].name == name
    ensures OneName(vals, contents, 0)
  {
    forall i | 0 <= i < |contents| ensures contents[i] in s {
      assert contents[i] in multiset(contents);
      assert contents[i] in multiset(s);
    }
  }

  lemma {:induction false} MatchingNamed(vals: map<Node, Value>, s: seq<Node>, name: seq<byte>, attr: Name)
    ensures forall n :: n in Matching(vals, s, Some(name), attr, ANY) ==>
              n in vals && vals[n].ElementValue? && vals[n].name == name
    decreases |s|
  {
    if s != [] {
      MatchingNamed(vals, s[1..], name, attr);
    }
  }

  /** Iterating mxmlFindElement from top: all matches, in document order. */
  method SearchAll(top: Node, name: Name, attr: Name, value: Name, ghost vals: map<Node, Value>, ghost f: Forest)
    returns (found: seq<Node>)
    requires Linked(f) && Knows(vals, f) && top in f.kids && (attr.Some? || value.None?)
    ensures found == Matching(vals, Todo(f, top, top), name, attr, value)
  {
    found := [];
    ghost var left := Matching(vals, Todo(f, top, top), name, attr, value);
    var current := FindElement(top, top, name, attr, value, AllLevels, vals, f);
    MatchingGoesOn(f, vals, top, top, name, attr, value);
    while current != null
      invariant current != null ==> current in f.kids && Under(f, current, top)
      invariant left == if current == null then []
                        else [current] + Matching(vals, Todo(f, top, current), name, attr, value)
      invariant Matching(vals, Todo(f, top, top), name, attr, value) == found + left
      decreases |left|
    {
      var here: Node := current;
      current := FindElement(here, top, name, attr, value, AllLevels, vals, f);
      MatchingGoesOn(f, vals, top, here, name, attr, value);
      Shift(found, left, here);
      found, left := found + [here], left[1..];
    }
  }

  /** After a match in a list the search goes on behind it. */
  lemma {:induction false} FirstOfMatching(vals: map<Node, Value>, s: seq<Node>, name: Name, attr: Name, value: Name)
    returns (i: nat)
    ensures var m := FirstMatching(vals, s, name, attr, value);
            if m == null then Matching(vals, s, name, attr, value) == []
            else i < |s| && s[i] == m && Matching(vals, s, name, attr, value)
                                         == [m] + Matching(vals, s[i + 1..], name, attr, value)
    decreases |s|
  {
    i := 0;
    if s != [] && !(s[0] in vals && Matches(vals[s[0]], name, attr, value)) {
      var k := FirstOfMatching(vals, s[1..], name, attr, value);
      i := k + 1;
    }
  }

  /** `left` are the match m, the j-th of the children s, and the matches behind it; nothing without m. */
  ghost predicate From(left: seq<Node>, m: Node?, j: nat, vals: map<Node, Value>, s: seq<Node>, name: Name, attr: Name,
                       value: Name)
  {
    if m == null then left == []
    else j < |s| && s[j] == m && left == [m] + Matching(vals, s[j + 1..], name, attr, value)
  }

  lemma {:induction false} MatchBehind(vals: map<Node, Value>, s: seq<Node>, i: nat, name: Name, attr: Name,
                                       value: Name) returns (j: nat)
    requires i <= |s|
    ensures From(Matching(vals, s[i..], name, attr, value), FirstMatching(vals, s[i..], name, attr, value), j, vals, s,
              name, attr, value)
  {
    var k := FirstOfMatching(vals, s[i..], name, attr, value);
    j := i + k;
    if k < |s[i..]| {
      assert s[i..][k + 1..] == s[j + 1..];
    }
  }

  method FirstChild(top: Node, name: Name, attr: Name, value: Name, ghost vals: map<Node, Value>, ghost f: Forest)
    returns (m: Node?, ghost j: nat)
    requires Linked(f) && Knows(vals, f) && top in f.kids && (attr.Some? || value.None?)
    ensures From(Matching(vals, f.kids[top], name, attr, value), m, j, vals, f.kids[top], name, attr, value)
  {
    m := FindElement(top, top, name, attr, value, FirstLevel, vals, f);
    FirstCandidates(f, top);
    assert f.kids[top][0..] == f.kids[top];
    j := MatchBehind(vals, f.kids[top], 0, name, attr, value);
  }

  method NextChild(top: Node, here: Node, ghost left: seq<Node>, ghost i: nat, name: Name, attr: Name, value: Name,
                   ghost vals: map<Node, Value>, ghost f: Forest) returns (m: Node?, ghost j: nat)
    requires Linked(f) && Knows(vals, f) && top in f.kids && (attr.Some? || value.None?)
    requires From(left, here, i, vals, f.kids[top], name, attr, value)
    ensures left != [] && From(left[1..], m, j, vals, f.kids[top], name, attr, value)
  {
    NextCandidates(f, top, i);
    m := FindElement(here, top, name, attr, value, NoDescend, vals, f);
    j := MatchBehind(vals, f.kids[top], i + 1, name, attr, value);
    assert left[1..] == Matching(vals, f.kids[top][i + 1..], name, attr, value);
  }

  /** The loop the comment of mxmlFindElement recommends: the first call with MXML_DESCEND_FIRST, and then one from each
      match on with MXML_NO_DESCEND. That gives the matching children of top, in order, and nothing else. */
  method SearchChildren(top: Node, name: Name, attr: Name, value: Name, ghost vals: map<Node, Value>, ghost f: Forest)
    returns (found: seq<Node>)
    requires Linked(f) && Knows(vals, f) && top in f.kids && (attr.Some? || value.None?)
    ensures found == Matching(vals, f.kids[top], name, attr, value)
  {
    found := [];
    ghost var all := Matching(vals, f.kids[top], name, attr, value);
    ghost var left, j := all, 0;
    var current;
    current, j := FirstChild(top, name, attr, value, vals, f);
    while current != null
      invariant From(left, current, j, vals, f.kids[top], name, attr, value)
      invariant all == found + left
      decreases |left|
    {
      var here: Node := current;
      current, j := NextChild(top, here, left, j, name, attr, value, vals, f);
      Shift(found, left, here);
      found, left := found + [here], left[1..];
    }
  }

  /** Building an index and asking it for everything: what it finds is what the search of the tree finds, and the top
      node, if that is in the index and matches. A value without an attribute is never found. */
  method FindByIndex(top: Node, built: Name, attr: Name, element: Name, value: Name, ghost vals: map<Node, Value>,
                     ghost f: Forest) returns (found: seq<Node>)
    requires Linked(f) && Knows(vals, f) && top in f.kids
    requires built.None? && attr.None? ==> top.value.ElementValue?
    ensures attr.None? && value.Some? ==> found == []
    ensures (attr.Some? || value.None?) && Trusted(f, vals, top, built, attr, element, value) ==>
              multiset(found)
              == multiset(Hits(vals, attr, element, value, if built.None? && attr.None? then [top] else []))
                 + multiset(Wanted(vals, Todo(f, top, top), built, attr, element, value))
  {
    var ind := IndexNew(top, built, attr, vals, f);
    found := ind.FindAll(element, value, vals);
    if (attr.Some? || value.None?) && Trusted(f, vals, top, built, attr, element, value) {
      TrustedIsSearchable(f, vals, top, built, attr, element, value, ind.Contents());
      IndexAgreesWithSearch(f, vals, top, built, attr, element, value, ind.Contents());
    }
  }
}
