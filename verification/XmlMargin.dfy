/** The columns that mxml_write_node counts are the columns of the text it writes: a layout that looks at
    the text written so far, and not at a count, gives the same text. */
module XmlMargin {
  import opened CString
  import opened XmlEntity
  import opened XmlTree
  import opened XmlPrinter

  /** The number of bytes behind the last line end. */
  function Column(s: seq<byte>): nat { ColumnAt(s, |s|) }

  function ColumnAt(s: seq<byte>, i: nat): nat
    requires i <= |s|
  {
    if i == 0 || s[i - 1] == 10 then 0 else ColumnAt(s, i - 1) + 1
  }

  lemma {:induction false} ColumnInFront(s: seq<byte>, t: seq<byte>, i: nat)
    requires i <= |s|
    ensures ColumnAt(s + t, i) == ColumnAt(s, i)
  {
    if i > 0 {
      ColumnInFront(s, t, i - 1);
    }
  }

  lemma {:induction false} ColumnFrom(s: seq<byte>, t: seq<byte>, n: nat)
    requires n <= |t| && 10 !in t
    ensures ColumnAt(s + t, |s| + n) == Column(s) + n
  {
    if n == 0 {
      ColumnInFront(s, t, |s|);
    } else {
      ColumnFrom(s, t, n - 1);
      assert (s + t)[|s| + n - 1] == t[n - 1];
    }
  }

  lemma {:induction false} ColumnBehind(s: seq<byte>, t: seq<byte>)
    requires 10 !in t
    ensures Column(s + t) == Column(s) + |t|
  {
    ColumnFrom(s, t, |t|);
  }

  /** Text that is written as it is and stays on its line. */
  predicate PlainText(s: seq<byte>) { 10 !in s && forall c <- s :: !NeedsEntity(c) }

  /** A name that is written as it is and stays on its line. */
  predicate PlainName(s: seq<byte>) { 10 !in s && (s == [] || (s[0] != QUOT && s[0] != APOS)) }

  predicate PlainAttr(a: Attr) { PlainName(a.name) && (a.value.Some? ==> PlainText(a.value.value)) }

  predicate PlainAttrs(attrs: seq<Attr>) { attrs == [] || (PlainAttr(attrs[0]) && PlainAttrs(attrs[1..])) }

  predicate Plain(ns: seq<Node>)
    decreases ns
  {
    forall n <- ns :: PlainNode(n)
  }

  predicate PlainNode(n: Node)
    decreases n
  {
    match n
    case Opaque(t) => PlainText(t)
    case Text(_, t) => PlainText(t)
    case Element(name, attrs, children) =>
      && PlainName(name)
      && (!IsSpecial(name) ==> PlainText(name))
      && PlainAttrs(attrs)
      && Plain(children)
  }

  lemma {:induction false} PlainIsCopied(s: seq<byte>)
    requires forall c <- s :: !NeedsEntity(c)
    ensures Escape(s) == s
  {
    if s != [] {
      PlainIsCopied(s[1..]);
    }
  }

  /** name="value", or the name alone. */
  function Shown(a: Attr): seq<byte> {
    a.name + if a.value.Some? then [61, 34] + a.value.value + [34] else []
  }

  /** A line end if the line is to be left, and a blank otherwise. */
  function Gap(leave: bool): seq<byte> { if leave then [10] else [32] }

  function LayAttrs(s: seq<byte>, attrs: seq<Attr>, wrap: int): seq<byte>
    decreases |attrs|
  {
    if attrs == [] then s
    else
      var w := Shown(attrs[0]);
      LayAttrs(s + Gap(wrap > 0 && Column(s) + |w| > wrap) + w, attrs[1..], wrap)
  }

  /** The text s with the nodes behind it. An attribute that would cross the margin starts a line, and so
      does a word once the margin is crossed; no column is counted. */
  function Lay(s: seq<byte>, ns: seq<Node>, wrap: int): seq<byte>
    decreases ns, 0
  {
    if ns == [] then s else Lay(LayNode(s, ns[0], wrap), ns[1..], wrap)
  }

  function LayNode(s: seq<byte>, n: Node, wrap: int): seq<byte>
    decreases n, 2
  {
    match n
    case Opaque(t) => s + t
    case Text(ws, t) =>
      if ws && Column(s) > 0 then s + Gap(wrap > 0 && Column(s) > wrap) + t else s + t
    case Element(name, attrs, children) =>
      Closed(LayAttrs(s + ([60] + name), attrs, wrap), name, children, wrap)
  }

  /** An open tag with the children and the end tag behind it. */
  function Closed(open: seq<byte>, name: seq<byte>, children: seq<Node>, wrap: int): seq<byte>
    decreases children, 1
  {
    var special := name != [] && (name[0] == 33 || name[0] == 63);
    if children != [] then Lay(open + [62], children, wrap) + if special then [] else [60, 47] + name + [62]
    else open + if special then [62] else [32, 47, 62]
  }

  lemma {:induction false} ColumnBehindGap(s: seq<byte>, leave: bool, t: seq<byte>)
    requires 10 !in t
    ensures Column(s + Gap(leave) + t) == if leave then |t| else Column(s) + 1 + |t|
  {
    ColumnBehind(s + Gap(leave), t);
    ColumnInFront(s, Gap(leave), |s|);
  }

  lemma {:induction false} ShownIsWritten(a: Attr)
    requires PlainAttr(a)
    ensures NameBytes(a.name) + ValueBytes(a.value) == Shown(a) && 10 !in Shown(a) && |Shown(a)| == AttrWidth(a)
  {
    if a.value.Some? {
      PlainIsCopied(a.value.value);
    }
  }

  /** One attribute behind the text s: a line end stands in front of it exactly if a line with it would
      cross the margin. The blank is not counted, so a line of several attributes may be one byte longer. */
  lemma {:induction false} AttrAtMargin(s: seq<byte>, a: Attr, c: nat, wrap: int)
    requires PlainAttr(a) && c == Column(s)
    ensures s + AttrBytes(a, c, wrap) == s + Gap(wrap > 0 && c + |Shown(a)| > wrap) + Shown(a)
    ensures AttrCol(a, c, wrap) == Column(s + AttrBytes(a, c, wrap))
    ensures wrap > 0 && |Shown(a)| <= wrap ==> Column(s + AttrBytes(a, c, wrap)) <= wrap + 1
  {
    var gap := Gap(wrap > 0 && c + |Shown(a)| > wrap);
    ShownIsWritten(a);
    assert gap == [Separator(a, c, wrap)];
    Associative(gap, NameBytes(a.name), ValueBytes(a.value));
    Associative(s, gap, Shown(a));
    ColumnBehindGap(s, Wraps(a, c, wrap), Shown(a));
  }

  lemma {:induction false} AttrsAtMargin(s: seq<byte>, attrs: seq<Attr>, c: nat, wrap: int)
    requires PlainAttrs(attrs) && c == Column(s)
    ensures s + AttrsBytes(attrs, c, wrap) == LayAttrs(s, attrs, wrap)
    ensures AttrsCol(attrs, c, wrap) == Column(LayAttrs(s, attrs, wrap))
    decreases |attrs|
  {
    if attrs == [] {
      assert s + AttrsBytes(attrs, c, wrap) == s;
    } else {
      var a, next := AttrBytes(attrs[0], c, wrap), AttrCol(attrs[0], c, wrap);
      AttrAtMargin(s, attrs[0], c, wrap);
      AttrsAtMargin(s + a, attrs[1..], next, wrap);
      Associative(s, a, AttrsBytes(attrs[1..], next, wrap));
    }
  }

  lemma {:induction false} OpenTagIs(n: Node, c: nat, wrap: int, tag: seq<byte>, attrs: seq<byte>)
    requires n.Element? && PlainName(n.name)
    requires tag == [60] + n.name && attrs == AttrsBytes(n.attrs, c + |tag|, wrap)
    ensures OpenTag(n, c, wrap) == tag + attrs && OpenCol(n, c, wrap) == AttrsCol(n.attrs, c + |tag|, wrap)
  {
  }

  lemma {:induction false} TagAtMargin(s: seq<byte>, tag: seq<byte>, attrs: seq<Attr>, c: nat, wrap: int)
    requires 10 !in tag && PlainAttrs(attrs) && c == Column(s)
    ensures s + (tag + AttrsBytes(attrs, c + |tag|, wrap)) == LayAttrs(s + tag, attrs, wrap)
    ensures AttrsCol(attrs, c + |tag|, wrap) == Column(LayAttrs(s + tag, attrs, wrap))
  {
    ColumnBehind(s, tag);
    AttrsAtMargin(s + tag, attrs, c + |tag|, wrap);
    Associative(s, tag, AttrsBytes(attrs, c + |tag|, wrap));
  }

  lemma {:induction false} WordAtMargin(s: seq<byte>, t: seq<byte>, c: nat, wrap: int)
    requires PlainText(t) && c == Column(s)
    ensures s + NodeBytes(Opaque(t), c, wrap) == s + t
    ensures NodeCol(Opaque(t), c, wrap) == Column(s + t)
    ensures c == 0 ==> s + NodeBytes(Text(true, t), c, wrap) == s + t
    ensures s + NodeBytes(Text(false, t), c, wrap) == s + t
  {
    PlainIsCopied(t);
    ColumnBehind(s, t);
    assert [] + t == t;
  }

  lemma {:induction false} SpaceAtMargin(s: seq<byte>, t: seq<byte>, c: nat, wrap: int)
    requires PlainText(t) && c == Column(s) && c > 0
    ensures s + NodeBytes(Text(true, t), c, wrap) == s + Gap(wrap > 0 && c > wrap) + t
    ensures NodeCol(Text(true, t), c, wrap) == Column(s + Gap(wrap > 0 && c > wrap) + t)
  {
    PlainIsCopied(t);
    Associative(s, Gap(wrap > 0 && c > wrap), t);
    ColumnBehindGap(s, wrap > 0 && c > wrap, t);
  }

  lemma {:induction false} NodeAtMargin(s: seq<byte>, n: Node, c: nat, wrap: int)
    requires PlainNode(n) && c == Column(s)
    ensures s + NodeBytes(n, c, wrap) == LayNode(s, n, wrap)
    ensures NodeCol(n, c, wrap) == Column(LayNode(s, n, wrap))
    decreases n, 1
  {
    match n
    case Opaque(t) => WordAtMargin(s, t, c, wrap);
    case Text(ws, t) =>
      WordAtMargin(s, t, c, wrap);
      if ws && c > 0 {
        SpaceAtMargin(s, t, c, wrap);
      }
    case Element(name, attrs, children) =>
      var tag := [60] + name;
      var open := LayAttrs(s + tag, attrs, wrap);
      OpenTagIs(n, c, wrap, tag, AttrsBytes(attrs, c + |tag|, wrap));
      TagAtMargin(s, tag, attrs, c, wrap);
      TailAtMargin(open, n, c, wrap);
      Associative(s, OpenTag(n, c, wrap), TailBytes(n, c, wrap));
  }

  /** Behind the open tag: the children and the end tag, or the end of an empty element. */
  lemma {:induction false} TailAtMargin(open: seq<byte>, n: Node, c: nat, wrap: int)
    requires n.Element? && PlainNode(n) && OpenCol(n, c, wrap) == Column(open)
    ensures open + TailBytes(n, c, wrap) == Closed(open, n.name, n.children, wrap)
    ensures NodeCol(n, c, wrap) == Column(Closed(open, n.name, n.children, wrap))
    decreases n, 0
  {
    if n.children == [] {
      ColumnBehind(open, [62]);
      ColumnBehind(open, [32, 47, 62]);
    } else {
      var at := OpenCol(n, c, wrap) + 1;
      ColumnBehind(open, [62]);
      NodesAtMargin(open + [62], n.children, at, wrap);
      var inner, laid := NodesBytes(n.children, at, wrap), Lay(open + [62], n.children, wrap);
      ParentIs(open, n, c, wrap, inner, NodesCol(n.children, at, wrap), laid);
      InnerAndEnd(open, inner, EndTag(n.name), laid);
      EndTagAtMargin(laid, n);
    }
  }

  lemma {:induction false} InnerAndEnd(open: seq<byte>, inner: seq<byte>, end: seq<byte>, laid: seq<byte>)
    requires open + [62] + inner == laid
    ensures open + ([62] + inner + end) == laid + end
  {
    Associative(open, [62], inner);
    Associative(open, [62] + inner, end);
  }

  lemma {:induction false} ParentIs(open: seq<byte>, n: Node, c: nat, wrap: int, inner: seq<byte>, col: nat,
                                    laid: seq<byte>)
    requires n.Element? && n.children != []
    requires inner == NodesBytes(n.children, OpenCol(n, c, wrap) + 1, wrap)
    requires col == NodesCol(n.children, OpenCol(n, c, wrap) + 1, wrap)
    requires laid == Lay(open + [62], n.children, wrap)
    ensures TailBytes(n, c, wrap) == [62] + inner + EndTag(n.name)
    ensures NodeCol(n, c, wrap) == col + if IsSpecial(n.name) then 0 else |n.name| + 3
    ensures Closed(open, n.name, n.children, wrap) == laid + if IsSpecial(n.name) then [] else [60, 47] + n.name + [62]
  {
  }

  lemma {:induction false} EndTagAtMargin(s: seq<byte>, n: Node)
    requires n.Element? && PlainNode(n)
    ensures EndTag(n.name) == if IsSpecial(n.name) then [] else [60, 47] + n.name + [62]
    ensures Column(s + EndTag(n.name)) == Column(s) + if IsSpecial(n.name) then 0 else |n.name| + 3
  {
    if !IsSpecial(n.name) {
      PlainIsCopied(n.name);
    }
    ColumnBehind(s, EndTag(n.name));
  }

  /** The bytes written behind the text s, and the column counted, are those of the layout. */
  lemma {:induction false} NodesAtMargin(s: seq<byte>, ns: seq<Node>, c: nat, wrap: int)
    requires Plain(ns) && c == Column(s)
    ensures s + NodesBytes(ns, c, wrap) == Lay(s, ns, wrap)
    ensures NodesCol(ns, c, wrap) == Column(Lay(s, ns, wrap))
    decreases ns, 0
  {
    if ns == [] {
      assert s + NodesBytes(ns, c, wrap) == s;
    } else {
      var a, next := NodeBytes(ns[0], c, wrap), NodeCol(ns[0], c, wrap);
      NodeAtMargin(s, ns[0], c, wrap);
      NodesAtMargin(s + a, ns[1..], next, wrap);
      Associative(s, a, NodesBytes(ns[1..], next, wrap));
    }
  }

  /** The saved text is the layout, closed by a line end. */
  lemma {:induction false} SavedAtMargin(ns: seq<Node>, wrap: int)
    requires Plain(ns)
    ensures var text := Lay([], ns, wrap);
            Print(ns, wrap) == text + if Column(text) > 0 then [10] else []
  {
    NodesAtMargin([], ns, 0, wrap);
    assert [] + NodesBytes(ns, 0, wrap) == NodesBytes(ns, 0, wrap);
  }

  /** The count takes one column for a character that is written as a reference: on one line it is the
      column of the text exactly if there is none. */
  lemma {:induction false} CountedExactly(t: seq<byte>, wrap: int)
    requires 10 !in t
    ensures NodeCol(Opaque(t), 0, wrap) == Column(NodeBytes(Opaque(t), 0, wrap)) <==> forall c <- t :: !NeedsEntity(c)
  {
    EscapeLength(t);
    ColumnBehind([], Escape(t));
    assert [] + Escape(t) == Escape(t);
  }

  lemma {:induction false} EscapeLength(t: seq<byte>)
    requires 10 !in t
    ensures 10 !in Escape(t)
    ensures |Escape(t)| >= |t|
    ensures |Escape(t)| == |t| <==> forall c <- t :: !NeedsEntity(c)
  {
    if t != [] {
      EscapeLength(t[1..]);
      assert t == [t[0]] + t[1..];
    }
  }
}
