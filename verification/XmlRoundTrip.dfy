/** Loading a saved tree gives the tree back, for every wrap margin. */
module XmlRoundTrip {
  import opened CString
  import opened Utf8
  import opened XmlEntity
  import opened XmlTree
  import opened XmlPrinter
  import opened XmlParser
  import opened XmlScanning

  // ---- the trees ------------------------------------------------------------------------------

  /** A node of opaque text: plain elements, comments, CDATA sections, processing instructions, declarations, text. */
  ghost predicate Regular(n: Node)
    decreases n
  {
    match n
    case Opaque(t) => IsText(t)
    case Text(_, _) => false
    case Element(name, attrs, children) =>
      if IsRaw(name) then attrs == [] && children == [] && RawText(name)
      else if IsSpecial(name) then attrs == [] && children == [] && Declaration(name)
      else PlainName(name) && PlainAttrs(attrs) && RegularAll(children)
  }

  ghost predicate RegularAll(ns: seq<Node>)
    decreases ns
  {
    forall n <- ns :: Regular(n)
  }

  function RawPrefix(kind: RawKind): seq<byte> {
    match kind
    case Comment => S_COMMENT
    case Cdata => S_CDATA
    case Instruction => [QUESTION]
  }

  /** The text of a raw node: its first > that could close it is the one written behind it. */
  ghost predicate RawText(name: seq<byte>) {
    exists kind, cs :: RawTextOf(kind, name, cs)
  }

  ghost predicate RawTextOf(kind: RawKind, name: seq<byte>, cs: seq<int>) {
    && AllAllowed(cs) && name == RawPrefix(kind) + EncodeAll(cs) && MayClose(kind, name)
    && forall i :: 0 <= i < |cs| && cs[i] == GT ==> !MayClose(kind, RawPrefix(kind) + EncodeAll(cs[..i]))
  }

  /** A > behind s closes the raw node: two hyphens stand in front, but not three; two brackets; a question mark. */
  predicate MayClose(kind: RawKind, s: seq<byte>) {
    match kind
    case Comment => |s| > 4 && s[|s| - 2..] == [45, 45] && s[|s| - 3] != 45
    case Cdata => |s| >= 2 && s[|s| - 2..] == [93, 93]
    case Instruction => |s| >= 1 && s[|s| - 1] == 63
  }

  lemma {:induction false} MayCloseIs(kind: RawKind, s: seq<byte>)
    ensures MayClose(kind, s) <==> RawEnds(kind, s)
  {
    if |s| >= 2 {
      assert s[|s| - 2..] == [s[|s| - 2], s[|s| - 1]];
    }
  }

  /** Characters of a declaration: no reference starts, and it does not end. */
  ghost predicate DeclChars(cs: seq<int>) {
    AllAllowed(cs) && forall i :: 0 <= i < |cs| ==> cs[i] != GT && cs[i] != AMP
  }

  predicate EndsWord(ch: int) { IsXmlSpace(ch) || ch == SLASH }

  /** A first word, and what follows it. */
  ghost predicate Declaration(name: seq<byte>) {
    exists ws, cs :: DeclarationOf(name, ws, cs)
  }

  ghost predicate DeclarationOf(name: seq<byte>, ws: seq<int>, cs: seq<int>) {
    && !IsRaw(name) && name == [BANG] + (EncodeAll(ws) + EncodeAll(cs)) && DeclChars(ws) && DeclChars(cs)
    && (forall i :: 0 <= i < |ws| ==> !EndsWord(ws[i]) && ws[i] != LT)
    && (cs != [] ==> EndsWord(cs[0]))
  }

  // ---- what survives --------------------------------------------------------------------------

  /** Finished children, and text not yet closed by a tag. */
  datatype Kids = Kids(done: seq<Node>, pend: seq<byte>)

  predicate HasSpace(s: seq<byte>) { exists i :: 0 <= i < |s| && IsXmlSpace(s[i]) }

  /** The characters in front of the first white space. */
  function FirstWord(s: seq<byte>): seq<byte> {
    if s == [] || IsXmlSpace(s[0]) then [] else [s[0]] + FirstWord(s[1..])
  }

  /** The characters behind the last white space. */
  function LastWord(s: seq<byte>): seq<byte> {
    if s == [] || IsXmlSpace(s[|s| - 1]) then [] else LastWord(s[..|s| - 1]) + [s[|s| - 1]]
  }

  /** What a text between two tags becomes without a callback: its first word, if no white space is in front of it. */
  function WordNode(s: seq<byte>): seq<Node> { if FirstWord(s) == [] then [] else [Text(false, FirstWord(s))] }

  /** The children once a tag follows. */
  function Settle(cb: Callback, k: Kids): seq<Node> {
    match cb
    case OpaqueCallback => if k.pend == [] then k.done else k.done + [Opaque(k.pend)]
    case NoCallback => k.done + WordNode(k.pend)
  }

  /** Adjacent texts merge; of the merged one there remains what Settle says. */
  function AbsorbAll(cb: Callback, k: Kids, ns: seq<Node>): Kids
    decreases ns, 1
  {
    if ns == [] then k else AbsorbAll(cb, Absorb(cb, k, ns[0]), ns[1..])
  }

  function Absorb(cb: Callback, k: Kids, n: Node): Kids
    decreases n, 1
  {
    if n.Opaque? then k.(pend := k.pend + n.opaque_) else Kids(Settle(cb, k) + [Normal(cb, n)], [])
  }

  /** The tree that is read: with a callback, the one without empty texts and with adjacent texts merged. */
  function Normal(cb: Callback, n: Node): Node
    decreases n, 0
  {
    match n
    case Element(name, attrs, children) => Element(name, attrs, Settle(cb, AbsorbAll(cb, Kids([], []), children)))
    case _ => n
  }

  /** The tree as its characters are read: no U+FEFF in texts and values. */
  function Unmarked(n: Node): Node
    decreases n, 0
  {
    match n
    case Opaque(t) => Opaque(Unmark(t))
    case Text(ws, t) => Text(ws, Unmark(t))
    case Element(name, attrs, children) => Element(name, UnmarkedAttrs(attrs), UnmarkedAll(children))
  }

  function UnmarkedAll(ns: seq<Node>): (r: seq<Node>)
    ensures |r| == |ns|
    decreases ns, 1
  {
    if ns == [] then [] else [Unmarked(ns[0])] + UnmarkedAll(ns[1..])
  }

  // ---- tags -----------------------------------------------------------------------------------

  /** A state in which < starts a tag right away. */
  predicate Ready(st: State) { st.buf == [] && !st.whitespace }

  /** Besides, without a callback the value type is text. */
  predicate ReadyFor(cb: Callback, st: State) { Ready(st) && (cb == NoCallback ==> st.mode == TextMode) }

  lemma {:induction false} LoopMarkup(cb: Callback, es: seq<Entity>, st: State, s: seq<byte>, st': State,
                                      rest: seq<byte>)
    requires Ready(st) && ReadMarkup(cb, es, st, s) == Next(st', rest)
    ensures Loop(cb, es, st, [LT] + s) == Loop(cb, es, st'.(buf := []), rest)
  {
  }

  /** Reading a name and what ends it. */
  lemma {:induction false} ReadName(cb: Callback, es: seq<Entity>, st: State, name: seq<byte>, end: byte, s: seq<byte>)
    requires PlainName(name) && !IsSpecial(name) && (IsXmlSpace(end) || end == GT || end == SLASH)
    ensures ReadMarkup(cb, es, st, name + ([end] + s)) == OpenElement(cb, es, st, Scan(true, name, end, s))
  {
    TagNameRun(es, name, end, s, []);
    assert [] + name == name;
    assert name[0] != QUESTION && name[0] != SLASH;
    assert name != S_COMMENT && name != S_CDATA;
  }

  lemma {:induction false} OpenSpaced(cb: Callback, es: seq<Entity>, st: State, name: seq<byte>, attrs: seq<Attr>,
                                      col: nat, wrap: int, attrBytes: seq<byte>, tail: seq<byte>)
    requires KnowsPredefined(es) && PlainName(name) && !IsSpecial(name) && PlainAttrs(attrs)
    requires attrBytes == AttrsBytes(attrs, col, wrap)
    requires attrs != [] || (tail != [] && IsXmlSpace(tail[0]))
    ensures ReadMarkup(cb, es, st, name + (attrBytes + tail))
            == var p := ParseElement(es, UnmarkedAttrs(attrs), tail);
               if p.ch == EOF then Failed
               else if p.ch == SLASH then Next(AddNode(st, Element(name, p.attrs, [])), p.rest)
               else Next(Enter(cb, st, name, p.attrs), p.rest)
  {
    var x := AttrsBytes(attrs, col, wrap) + tail;
    var sep := if attrs == [] then tail[0] else Separator(attrs[0], col, wrap);
    StartsWith(attrs, col, wrap, tail);
    ReadName(cb, es, st, name, sep, x[1..]);
    assert ParseElement(es, [], x[1..]) == ParseElement(es, UnmarkedAttrs(attrs), tail) by {
      SkipSeparator(es, [], sep, x[1..]);
      assert [] + UnmarkedAttrs(attrs) == UnmarkedAttrs(attrs);
      AttrsRun(es, [], attrs, col, wrap, tail);
    }
  }

  lemma {:induction false} StartsWith(attrs: seq<Attr>, col: nat, wrap: int, tail: seq<byte>)
    requires attrs != [] || tail != []
    ensures var x := AttrsBytes(attrs, col, wrap) + tail;
            && x == [x[0]] + x[1..]
            && x[0] == if attrs == [] then tail[0] else Separator(attrs[0], col, wrap)
  {
  }

  lemma {:induction false} OpenParent(cb: Callback, es: seq<Entity>, st: State, name: seq<byte>, attrs: seq<Attr>,
                                      col: nat, wrap: int, attrBytes: seq<byte>, s: seq<byte>)
    requires KnowsPredefined(es) && PlainName(name) && !IsSpecial(name) && PlainAttrs(attrs)
    requires attrBytes == AttrsBytes(attrs, col, wrap)
    ensures ReadMarkup(cb, es, st, name + (attrBytes + ([GT] + s)))
            == Next(Enter(cb, st, name, UnmarkedAttrs(attrs)), s)
  {
    GetcAscii(GT, s);
    if attrs == [] {
      assert attrBytes + ([GT] + s) == [GT] + s;
      ReadName(cb, es, st, name, GT, s);
    } else {
      OpenSpaced(cb, es, st, name, attrs, col, wrap, attrBytes, [GT] + s);
    }
  }

  lemma {:induction false} LeafEnd(es: seq<Entity>, attrs: seq<Attr>, tail: seq<byte>, s: seq<byte>)
    requires tail == [SPACE, SLASH, GT] + s
    ensures ParseElement(es, attrs, tail) == Parsed(SLASH, attrs, s) && tail != [] && IsXmlSpace(tail[0])
  {
    assert tail == [SPACE] + ([SLASH] + ([GT] + s));
    SkipSeparator(es, attrs, SPACE, [SLASH] + ([GT] + s));
    GetcAscii(SLASH, [GT] + s);
    GetcAscii(GT, s);
  }

  lemma {:induction false} OpenLeaf(cb: Callback, es: seq<Entity>, st: State, name: seq<byte>, attrs: seq<Attr>,
                                    col: nat, wrap: int, attrBytes: seq<byte>, s: seq<byte>)
    requires KnowsPredefined(es) && PlainName(name) && !IsSpecial(name) && PlainAttrs(attrs)
    requires attrBytes == AttrsBytes(attrs, col, wrap)
    ensures ReadMarkup(cb, es, st, name + (attrBytes + ([SPACE, SLASH, GT] + s)))
            == Next(AddNode(st, Element(name, UnmarkedAttrs(attrs), [])), s)
  {
    var tail := [SPACE, SLASH, GT] + s;
    LeafEnd(es, UnmarkedAttrs(attrs), tail, s);
    OpenSpaced(cb, es, st, name, attrs, col, wrap, attrBytes, tail);
  }

  lemma {:induction false} EnterIsIn(cb: Callback, st: State, name: seq<byte>, attrs: seq<Attr>)
    requires ReadyFor(cb, st)
    ensures Enter(cb, st, name, attrs).(buf := [])
            == In(cb, st.stack, Frame(name, attrs, []), st.roots, Kids([], []))
  {
    InClean(cb, st.stack, Frame(name, attrs, []), st.roots, []);
  }

  /** What is written for the attributes of an element that starts at col. */
  function AttrPart(n: Node, col: nat, wrap: int): seq<byte>
    requires n.Element?
  {
    AttrsBytes(n.attrs, col + |n.name| + 1, wrap)
  }

  lemma {:induction false} ParentTagRun(cb: Callback, es: seq<Entity>, st: State, n: Node, col: nat, wrap: int,
                                        bytes: seq<byte>,
                                        s: seq<byte>)
    requires KnowsPredefined(es) && ReadyFor(cb, st)
    requires n.Element? && PlainName(n.name) && !IsSpecial(n.name) && PlainAttrs(n.attrs)
    requires bytes == n.name + (AttrPart(n, col, wrap) + ([GT] + s))
    ensures Loop(cb, es, st, [LT] + bytes)
            == Loop(cb, es,
                    In(cb, st.stack, Frame(n.name, UnmarkedAttrs(n.attrs), []), st.roots, Kids([], [])), s)
  {
    OpenParent(cb, es, st, n.name, n.attrs, col + |n.name| + 1, wrap, AttrPart(n, col, wrap), s);
    EnterIsIn(cb, st, n.name, UnmarkedAttrs(n.attrs));
    LoopMarkup(cb, es, st, bytes, Enter(cb, st, n.name, UnmarkedAttrs(n.attrs)), s);
  }

  lemma {:induction false} LeafTagRun(cb: Callback, es: seq<Entity>, st: State, n: Node, col: nat, wrap: int,
                                      s: seq<byte>, bytes: seq<byte>, st': State)
    requires KnowsPredefined(es) && Ready(st)
    requires n.Element? && PlainName(n.name) && !IsSpecial(n.name) && PlainAttrs(n.attrs)
    requires bytes == [LT] + (n.name + (AttrPart(n, col, wrap) + ([SPACE, SLASH, GT] + s)))
    requires st' == AddNode(st, Element(n.name, UnmarkedAttrs(n.attrs), [])).(buf := [])
    ensures Loop(cb, es, st, bytes) == Loop(cb, es, st', s)
  {
    OpenLeaf(cb, es, st, n.name, n.attrs, col + |n.name| + 1, wrap, AttrPart(n, col, wrap), s);
    LoopMarkup(cb, es, st, n.name + (AttrPart(n, col, wrap) + ([SPACE, SLASH, GT] + s)),
      AddNode(st, Element(n.name, UnmarkedAttrs(n.attrs), [])), s);
  }

  /** One more character of a tag name. */
  lemma {:induction false} TagNameStep(es: seq<Entity>, c: byte, s: seq<byte>, buf: seq<byte>)
    requires (NameChar(c) && !OpensRaw(buf + [c])) || (c == SLASH && buf == [])
    ensures TagName(es, [c] + s, buf) == TagName(es, s, buf + [c])
  {
    GetcAscii(c, s);
    assert Encode(c) == [c];
    if buf == [] {
      assert buf + [c] == [c];
    }
  }

  /** Reading stops behind <?, <!-- and <![CDATA[. */
  lemma {:induction false} TagNameStop(es: seq<Entity>, c: byte, s: seq<byte>, buf: seq<byte>)
    requires (NameChar(c) || c == QUESTION) && OpensRaw(buf + [c])
    ensures TagName(es, [c] + s, buf) == Scan(true, buf + [c], c, s)
  {
  }

  lemma {:induction false} EndTagBytes(name: seq<byte>, s: seq<byte>)
    requires PlainName(name) && !IsSpecial(name)
    ensures EndTag(name) + s == [LT] + ([SLASH] + (name + ([GT] + s)))
  {
    EscapePlain(name);
    Associative([LT, SLASH], name, [GT]);
    Associative([LT, SLASH] + name, [GT], s);
    Associative([LT, SLASH], name, [GT] + s);
    Associative([LT], [SLASH], name + ([GT] + s));
  }

  /** The end tag of the innermost element. */
  lemma {:induction false} CloseRun(cb: Callback, es: seq<Entity>, st: State, name: seq<byte>, tail: seq<byte>,
                                    s: seq<byte>)
    requires PlainName(name) && Ready(st) && st.stack != [] && st.stack[|st.stack| - 1].name == name
    requires tail == [SLASH] + (name + ([GT] + s))
    ensures Loop(cb, es, st, [LT] + tail) == Loop(cb, es, Leave(cb, st).(buf := []), s)
  {
    var n := Scan(true, [SLASH] + name, GT, s);
    assert ReadMarkup(cb, es, st, tail) == CloseTag(cb, st, n) by {
      TagNameStep(es, SLASH, name + ([GT] + s), []);
      assert [] + [SLASH] == [SLASH];
      TagNameRun(es, name, GT, s, [SLASH]);
    }
    LoopMarkup(cb, es, st, tail, Leave(cb, st), s);
  }

  // ---- raw nodes ------------------------------------------------------------------------------

  /** Only the whole prefix stops the reading. */
  lemma {:induction false} PrefixOpens(kind: RawKind, i: nat)
    requires i < |RawPrefix(kind)|
    ensures var w := RawPrefix(kind);
            && (OpensRaw(w[..i + 1]) <==> i + 1 == |w|)
            && (NameChar(w[i]) || (w[i] == QUESTION && i + 1 == |w|))
  {
    var w := RawPrefix(kind);
    var v := w[..i + 1];
    assert |v| == i + 1;
    if i + 1 == |w| {
      assert v == w;
    } else {
      assert kind == Cdata && i == 2 ==> v[1] == 91 && S_COMMENT[1] == 45;
      assert |v| == 1 ==> v[0] == BANG;
    }
  }

  lemma {:induction false} RawPrefixRun(es: seq<Entity>, kind: RawKind, i: nat, s: seq<byte>)
    requires i < |RawPrefix(kind)|
    ensures var w := RawPrefix(kind); TagName(es, w[i..] + s, w[..i]) == Scan(true, w, w[|w| - 1], s)
    decreases |RawPrefix(kind)| - i
  {
    var w := RawPrefix(kind);
    assert w[i..] == [w[i]] + w[i + 1..];
    Associative([w[i]], w[i + 1..], s);
    assert w[..i] + [w[i]] == w[..i + 1];
    PrefixOpens(kind, i);
    if i + 1 == |w| {
      assert w[..i + 1] == w && w[i + 1..] + s == s;
      TagNameStop(es, w[i], s, w[..i]);
    } else {
      TagNameStep(es, w[i], w[i + 1..] + s, w[..i]);
      RawPrefixRun(es, kind, i + 1, s);
    }
  }

  lemma {:induction false} RawRun(kind: RawKind, cs: seq<int>, s: seq<byte>, buf: seq<byte>)
    requires AllAllowed(cs) && RawEnds(kind, buf + EncodeAll(cs))
    requires forall i :: 0 <= i < |cs| && cs[i] == GT ==> !RawEnds(kind, buf + EncodeAll(cs[..i]))
    ensures RawRest(kind, EncodeAll(cs) + ([GT] + s), buf) == Scan(true, buf + EncodeAll(cs), GT, s)
    decreases |cs|
  {
    var end := [GT] + s;
    if cs == [] {
      assert EncodeAll(cs) + end == end && buf + EncodeAll(cs) == buf;
      GetcAscii(GT, s);
    } else {
      var tail := EncodeAll(cs[1..]);
      Associative(Encode(cs[0]), tail, end);
      Associative(buf, Encode(cs[0]), tail);
      GetcEncode(cs[0], tail + end);
      assert buf + EncodeAll(cs[..0]) == buf;
      forall i | 0 <= i < |cs[1..]| && cs[1..][i] == GT
        ensures !RawEnds(kind, buf + Encode(cs[0]) + EncodeAll(cs[1..][..i]))
      {
        assert cs[..i + 1][1..] == cs[1..][..i];
        Associative(buf, Encode(cs[0]), EncodeAll(cs[1..][..i]));
      }
      RawRun(kind, cs[1..], s, buf + Encode(cs[0]));
    }
  }

  /** A raw node is read as it was written. */
  lemma {:induction false} ReadRaw(cb: Callback, es: seq<Entity>, st: State, kind: RawKind, name: seq<byte>,
                                   cs: seq<int>, s: seq<byte>)
    requires RawTextOf(kind, name, cs)
    ensures ReadMarkup(cb, es, st, name + ([GT] + s))
            == AddSpecial(cb, st, Scan(true, name, GT, s), kind == Instruction)
  {
    var w := RawPrefix(kind);
    var tail := EncodeAll(cs) + ([GT] + s);
    Associative(w, EncodeAll(cs), [GT] + s);
    assert w[0..] == w && w[..0] == [];
    RawPrefixRun(es, kind, 0, tail);
    RawChars(kind, name, cs);
    RawRun(kind, cs, s, w);
  }

  lemma {:induction false} RawChars(kind: RawKind, name: seq<byte>, cs: seq<int>)
    requires RawTextOf(kind, name, cs)
    ensures RawEnds(kind, name)
    ensures forall i :: 0 <= i < |cs| && cs[i] == GT ==> !RawEnds(kind, RawPrefix(kind) + EncodeAll(cs[..i]))
  {
    MayCloseIs(kind, name);
    forall i | 0 <= i < |cs| && cs[i] == GT ensures !RawEnds(kind, RawPrefix(kind) + EncodeAll(cs[..i])) {
      MayCloseIs(kind, RawPrefix(kind) + EncodeAll(cs[..i]));
    }
  }

  // ---- declarations ---------------------------------------------------------------------------

  /** The first word of a declaration, up to the character that ends it. */
  lemma {:induction false} WordRun(es: seq<Entity>, ws: seq<int>, end: byte, s: seq<byte>, buf: seq<byte>)
    requires DeclChars(ws) && forall i :: 0 <= i < |ws| ==> !EndsWord(ws[i]) && ws[i] != LT
    requires buf != [] && (EndsWord(end) || end == GT)
    requires forall i :: 0 < i <= |ws| ==> !OpensRaw(buf + EncodeAll(ws[..i]))
    ensures TagName(es, EncodeAll(ws) + ([end] + s), buf) == Scan(true, buf + EncodeAll(ws), end, s)
    decreases |ws|
  {
    if ws == [] {
      assert EncodeAll(ws) + ([end] + s) == [end] + s && buf + EncodeAll(ws) == buf;
      GetcAscii(end, s);
    } else {
      var tail, more := EncodeAll(ws[1..]), buf + Encode(ws[0]);
      Associative(Encode(ws[0]), tail, [end] + s);
      Associative(buf, Encode(ws[0]), tail);
      GetcEncode(ws[0], tail + ([end] + s));
      assert ws[..1][1..] == [] && EncodeAll(ws[..1]) == Encode(ws[0]) + [] == Encode(ws[0]);
      forall i | 0 < i <= |ws[1..]| ensures !OpensRaw(more + EncodeAll(ws[1..][..i])) {
        assert ws[..i + 1][1..] == ws[1..][..i];
        Associative(buf, Encode(ws[0]), EncodeAll(ws[1..][..i]));
      }
      WordRun(es, ws[1..], end, s, more);
    }
  }

  /** The rest of a declaration, whose first character has been read. */
  lemma {:induction false} DeclarationTail(es: seq<Entity>, cs: seq<int>, s: seq<byte>, buf: seq<byte>)
    requires cs != [] && DeclChars(cs)
    ensures DeclarationRest(es, cs[0], EncodeAll(cs[1..]) + ([GT] + s), buf) == Scan(true, buf + EncodeAll(cs), GT, s)
    decreases |cs|
  {
    var rest := EncodeAll(cs[1..]) + ([GT] + s);
    Associative(buf, Encode(cs[0]), EncodeAll(cs[1..]));
    if |cs| == 1 {
      assert rest == [GT] + s && buf + EncodeAll(cs) == buf + Encode(cs[0]);
      GetcAscii(GT, s);
    } else {
      var cs1 := cs[1..];
      Associative(Encode(cs1[0]), EncodeAll(cs1[1..]), [GT] + s);
      GetcEncode(cs1[0], EncodeAll(cs1[1..]) + ([GT] + s));
      DeclarationTail(es, cs1, s, buf + Encode(cs[0]));
    }
  }

  /** No prefix of a declaration opens a comment or CDATA section. */
  lemma {:induction false} NeverOpens(name: seq<byte>, ws: seq<int>, tail: seq<byte>, i: nat)
    requires !IsRaw(name) && name == [BANG] + (EncodeAll(ws) + tail) && i <= |ws|
    ensures !OpensRaw([BANG] + EncodeAll(ws[..i]))
  {
    assert ws == ws[..i] + ws[i..];
    EncodeAllAppend(ws[..i], ws[i..]);
    assert [BANG] + EncodeAll(ws[..i]) <= name;
  }

  /** The character that ends the first word of a declaration, and what is behind it. */
  lemma {:induction false} BehindWord(cs: seq<int>, s: seq<byte>) returns (end: byte, after: seq<byte>)
    requires DeclChars(cs) && (cs != [] ==> EndsWord(cs[0]))
    ensures EncodeAll(cs) + ([GT] + s) == [end] + after && (EndsWord(end) || end == GT)
    ensures if cs == [] then end == GT && after == s
            else end == cs[0] && after == EncodeAll(cs[1..]) + ([GT] + s)
  {
    end := if cs == [] then GT else cs[0];
    after := if cs == [] then s else EncodeAll(cs[1..]) + ([GT] + s);
    if cs != [] {
      assert Encode(cs[0]) == [end];
      Associative([end], EncodeAll(cs[1..]), [GT] + s);
    }
  }

  /** The first word is read up to its end. */
  lemma {:induction false} DeclaredWord(es: seq<Entity>, name: seq<byte>, ws: seq<int>, cs: seq<int>, s: seq<byte>,
                                        end: byte, after: seq<byte>)
    requires DeclarationOf(name, ws, cs) && (EndsWord(end) || end == GT)
    requires EncodeAll(cs) + ([GT] + s) == [end] + after
    ensures var word := [BANG] + EncodeAll(ws);
            TagName(es, name + ([GT] + s), []) == Scan(true, word, end, after) && !OpensRaw(word)
  {
    var word := [BANG] + EncodeAll(ws);
    forall i | 0 <= i <= |ws| ensures !OpensRaw([BANG] + EncodeAll(ws[..i])) {
      NeverOpens(name, ws, EncodeAll(cs), i);
    }
    assert ws[..|ws|] == ws;
    Associative([BANG], EncodeAll(ws), EncodeAll(cs));
    Associative(word, EncodeAll(cs), [GT] + s);
    Associative([BANG], EncodeAll(ws), [end] + after);
    assert [] + [BANG] == [BANG] && |[BANG]| == 1;
    TagNameStep(es, BANG, EncodeAll(ws) + ([end] + after), []);
    WordRun(es, ws, end, after, [BANG]);
  }

  /** A declaration is read as it was written. */
  lemma {:induction false} ReadDeclared(cb: Callback, es: seq<Entity>, st: State, name: seq<byte>, ws: seq<int>,
                                        cs: seq<int>, s: seq<byte>)
    requires DeclarationOf(name, ws, cs)
    ensures ReadMarkup(cb, es, st, name + ([GT] + s)) == AddSpecial(cb, st, Scan(true, name, GT, s), true)
  {
    var word := [BANG] + EncodeAll(ws);
    var end, after := BehindWord(cs, s);
    DeclaredWord(es, name, ws, cs, s, end, after);
    Associative([BANG], EncodeAll(ws), EncodeAll(cs));
    if cs != [] {
      DeclarationTail(es, cs, s, word);
    } else {
      assert word + EncodeAll(cs) == word;
    }
  }

  // ---- nodes ----------------------------------------------------------------------------------

  /** The state inside element f, with the text k.pend read since the last tag: all of it in the buffer, or, without a
      callback, the word that is not complete yet. */
  function In(cb: Callback, outer: seq<Frame>, f: Frame, roots: seq<Node>, k: Kids): State {
    match cb
    case OpaqueCallback => State(outer + [f.(children := k.done)], roots, k.pend, OpaqueMode, false, true)
    case NoCallback =>
      InWords(outer, f, roots, k.done + if HasSpace(k.pend) then WordNode(k.pend) else [], LastWord(k.pend),
              HasSpace(k.pend))
  }

  /** The state inside f without a callback: these children, this word in the buffer, and whether white space has been
      read since the last tag. */
  function InWords(outer: seq<Frame>, f: Frame, roots: seq<Node>, kids: seq<Node>, word: seq<byte>, space: bool): State
  {
    State(outer + [f.(children := kids)], roots, word, TextMode, space, true)
  }

  /** A word that is complete becomes a node if no white space is in front of it. */
  function Completed(kids: seq<Node>, word: seq<byte>, space: bool): seq<Node> {
    if word != [] && !space then kids + [Text(false, word)] else kids
  }

  lemma {:induction false} AddInside(outer: seq<Frame>, f: Frame, roots: seq<Node>, kids: seq<Node>, n: Node, st: State)
    requires st.stack == outer + [f.(children := kids)] && st.roots == roots
    ensures AddNode(st, n) == st.(stack := outer + [f.(children := kids + [n])], nodeSet := true)
  {
    assert st.stack[..|outer|] == outer;
  }

  lemma {:induction false} FlushWord(outer: seq<Frame>, f: Frame, roots: seq<Node>, kids: seq<Node>, word: seq<byte>,
                                     space: bool, ch: int)
    ensures var st := InWords(outer, f, roots, kids, word, space);
            && !ReadsUnset(st, ch)
            && (IsXmlSpace(ch) || ch == LT ==>
                FlushText(st, ch) == InWords(outer, f, roots, Completed(kids, word, space), [], ch != LT))
            && (ch != LT && !IsXmlSpace(ch) ==> FlushText(st, ch) == st)
  {
    AddInside(outer, f, roots, kids, Text(false, word), InWords(outer, f, roots, kids, word, space));
  }

  /** White space, and another character. */
  lemma {:induction false} WordTurn(es: seq<Entity>, outer: seq<Frame>, f: Frame, roots: seq<Node>, kids: seq<Node>,
                                    word: seq<byte>, space: bool, bytes: seq<byte>, ch: int, rest: seq<byte>)
    requires Allowed(ch)
    requires var g := Getc(bytes);
             if NeedsEntity(ch) then g.ch == AMP && GetEntity(es, g.rest) == Got(ch, rest) else g == Got(ch, rest)
    ensures Loop(NoCallback, es, InWords(outer, f, roots, kids, word, space), bytes)
            == Loop(NoCallback, es,
                    if IsXmlSpace(ch) then InWords(outer, f, roots, Completed(kids, word, space), [], true)
                    else InWords(outer, f, roots, kids, word + Encode(ch), space), rest)
  {
    FlushWord(outer, f, roots, kids, word, space, Getc(bytes).ch);
  }

  /** A tag. */
  lemma {:induction false} WordsEnd(es: seq<Entity>, outer: seq<Frame>, f: Frame, roots: seq<Node>, kids: seq<Node>,
                                    word: seq<byte>, space: bool, bytes: seq<byte>)
    requires Getc(bytes).ch == LT
    ensures Loop(NoCallback, es, InWords(outer, f, roots, kids, word, space), bytes)
            == Loop(NoCallback, es, InWords(outer, f, roots, Completed(kids, word, space), [], false), bytes)
  {
    FlushWord(outer, f, roots, kids, word, space, LT);
    FlushWord(outer, f, roots, Completed(kids, word, space), [], false, LT);
  }

  /** The words read since the last tag give the children Settle says. */
  lemma {:induction false} CompletedIsSettled(k: Kids)
    ensures Completed(k.done + if HasSpace(k.pend) then WordNode(k.pend) else [], LastWord(k.pend), HasSpace(k.pend))
            == Settle(NoCallback, k)
  {
    if !HasSpace(k.pend) {
      WordsOfOne(k.pend);
      assert k.done + [] == k.done;
    }
  }

  /** The state in which a tag starts. */
  lemma {:induction false} InClean(cb: Callback, outer: seq<Frame>, f: Frame, roots: seq<Node>, kids: seq<Node>)
    ensures In(cb, outer, f, roots, Kids(kids, []))
            == State(outer + [f.(children := kids)], roots, [], if cb == OpaqueCallback then OpaqueMode else TextMode,
                     false, true)
    ensures Settle(cb, Kids(kids, [])) == kids
  {
    assert kids + [] == kids;
  }

  lemma {:induction false} WordsOfOne(s: seq<byte>)
    requires !HasSpace(s)
    ensures FirstWord(s) == s && LastWord(s) == s
  {
    FirstOfOne(s);
    LastOfOne(s);
  }

  lemma {:induction false} FirstOfOne(s: seq<byte>)
    requires forall i :: 0 <= i < |s| ==> !IsXmlSpace(s[i])
    ensures FirstWord(s) == s
    decreases |s|
  {
    if s != [] {
      FirstOfOne(s[1..]);
      assert s == [s[0]] + s[1..];
    }
  }

  lemma {:induction false} LastOfOne(s: seq<byte>)
    requires forall i :: 0 <= i < |s| ==> !IsXmlSpace(s[i])
    ensures LastWord(s) == s
    decreases |s|
  {
    if s != [] {
      LastOfOne(s[..|s| - 1]);
      assert s == s[..|s| - 1] + [s[|s| - 1]];
    }
  }

  lemma {:induction false} WordsGrow(s: seq<byte>, ch: int)
    requires Allowed(ch)
    ensures var t := s + Encode(ch);
            if IsXmlSpace(ch) then HasSpace(t) && FirstWord(t) == FirstWord(s) && LastWord(t) == []
            else
              && (HasSpace(t) <==> HasSpace(s)) && LastWord(t) == LastWord(s) + Encode(ch)
              && (HasSpace(s) ==> FirstWord(t) == FirstWord(s))
  {
    var e := Encode(ch);
    if IsXmlSpace(ch) {
      assert (s + e)[|s|] == ch;
      FirstWordStays(s, e);
    } else {
      NoSpaceIn(ch);
      SpacesOf(s, e);
      LastWordGrows(s, e);
      if HasSpace(s) {
        FirstWordStays(s, e);
      }
    }
  }

  lemma {:induction false} NoSpaceIn(ch: int)
    requires Allowed(ch) && !IsXmlSpace(ch)
    ensures forall i :: 0 <= i < |Encode(ch)| ==> !IsXmlSpace(Encode(ch)[i])
  {
  }

  lemma {:induction false} SpacesOf(s: seq<byte>, e: seq<byte>)
    requires forall i :: 0 <= i < |e| ==> !IsXmlSpace(e[i])
    ensures HasSpace(s + e) <==> HasSpace(s)
  {
    if HasSpace(s) {
      var i :| 0 <= i < |s| && IsXmlSpace(s[i]);
      assert (s + e)[i] == s[i];
    }
    forall i | |s| <= i < |s + e| ensures !IsXmlSpace((s + e)[i]) {
      assert (s + e)[i] == e[i - |s|];
    }
    if HasSpace(s + e) {
      var i :| 0 <= i < |s + e| && IsXmlSpace((s + e)[i]);
      assert (s + e)[i] == s[i];
    }
  }

  lemma {:induction false} FirstWordStays(s: seq<byte>, e: seq<byte>)
    requires HasSpace(s) || (e != [] && IsXmlSpace(e[0]))
    ensures FirstWord(s + e) == FirstWord(s)
    decreases |s|
  {
    if s == [] {
      assert s + e == e;
    } else if !IsXmlSpace(s[0]) {
      assert (s + e)[0] == s[0] && (s + e)[1..] == s[1..] + e;
      if HasSpace(s) {
        var i :| 0 <= i < |s| && IsXmlSpace(s[i]);
        assert s[1..][i - 1] == s[i];
      }
      FirstWordStays(s[1..], e);
    }
  }

  lemma {:induction false} LastWordGrows(s: seq<byte>, e: seq<byte>)
    requires forall i :: 0 <= i < |e| ==> !IsXmlSpace(e[i])
    ensures LastWord(s + e) == LastWord(s) + e
    decreases |e|
  {
    if e == [] {
      assert s + e == s && LastWord(s) + e == LastWord(s);
    } else {
      var n := |e| - 1;
      LastWordGrows(s, e[..n]);
      assert (s + e)[..|s + e| - 1] == s + e[..n] && (s + e)[|s + e| - 1] == e[n];
      assert e == e[..n] + [e[n]];
    }
  }

  /** One more character between two tags. */
  lemma {:induction false} WordStep(es: seq<Entity>, outer: seq<Frame>, f: Frame, roots: seq<Node>, k: Kids,
                                    bytes: seq<byte>, ch: int, rest: seq<byte>)
    requires Allowed(ch)
    requires var g := Getc(bytes);
             if NeedsEntity(ch) then g.ch == AMP && GetEntity(es, g.rest) == Got(ch, rest) else g == Got(ch, rest)
    ensures Loop(NoCallback, es, In(NoCallback, outer, f, roots, k), bytes)
            == Loop(NoCallback, es, In(NoCallback, outer, f, roots, k.(pend := k.pend + Encode(ch))), rest)
  {
    var kids := k.done + if HasSpace(k.pend) then WordNode(k.pend) else [];
    WordsGrow(k.pend, ch);
    WordTurn(es, outer, f, roots, kids, LastWord(k.pend), HasSpace(k.pend), bytes, ch, rest);
    CompletedIsSettled(k);
  }

  lemma {:induction false} WordsRun(es: seq<Entity>, outer: seq<Frame>, f: Frame, roots: seq<Node>, k: Kids,
                                    cs: seq<int>, s: seq<byte>)
    requires KnowsPredefined(es) && AllReadable(cs)
    ensures Loop(NoCallback, es, In(NoCallback, outer, f, roots, k), Escape(EncodeAll(cs)) + s)
            == Loop(NoCallback, es,
                    In(NoCallback, outer, f, roots, k.(pend := k.pend + Unmark(EncodeAll(cs)))), s)
    decreases |cs|
  {
    if cs == [] {
      assert Escape(EncodeAll(cs)) + s == s && k.pend + Unmark(EncodeAll(cs)) == k.pend;
    } else {
      var tail := EncodeAll(cs[1..]);
      var rest := Escape(tail) + s;
      EscapeAppend(Encode(cs[0]), tail);
      Associative(Escape(Encode(cs[0])), Escape(tail), s);
      UnmarkFirst(cs, k.pend);
      if cs[0] == MARK {
        EscapeMark();
        SkipMark(NoCallback, es, In(NoCallback, outer, f, roots, k), rest);
        WordsRun(es, outer, f, roots, k, cs[1..], s);
      } else {
        GetcEscaped(es, cs[0], rest);
        WordStep(es, outer, f, roots, k, Escape(Encode(cs[0])) + rest, cs[0], rest);
        WordsRun(es, outer, f, roots, k.(pend := k.pend + Encode(cs[0])), cs[1..], s);
      }
    }
  }

  /** Text inside an element. */
  lemma {:induction false} TextInside(cb: Callback, es: seq<Entity>, outer: seq<Frame>, f: Frame, roots: seq<Node>,
                                      k: Kids, cs: seq<int>, s: seq<byte>)
    requires KnowsPredefined(es) && AllReadable(cs)
    ensures Loop(cb, es, In(cb, outer, f, roots, k), Escape(EncodeAll(cs)) + s)
            == Loop(cb, es, In(cb, outer, f, roots, k.(pend := k.pend + Unmark(EncodeAll(cs)))), s)
  {
    match cb
    case OpaqueCallback => TextRun(cb, es, In(cb, outer, f, roots, k), cs, s);
    case NoCallback => WordsRun(es, outer, f, roots, k, cs, s);
  }

  lemma {:induction false} FlushFirst(cb: Callback, es: seq<Entity>, outer: seq<Frame>, f: Frame, roots: seq<Node>,
                                      k: Kids,
                                      s: seq<byte>)
    ensures Loop(cb, es, In(cb, outer, f, roots, k), [LT] + s)
            == Loop(cb, es, In(cb, outer, f, roots, Kids(Settle(cb, k), [])), [LT] + s)
  {
    InClean(cb, outer, f, roots, Settle(cb, k));
    if cb == NoCallback {
      GetcAscii(LT, s);
      CompletedIsSettled(k);
      WordsEnd(es, outer, f, roots, k.done + if HasSpace(k.pend) then WordNode(k.pend) else [], LastWord(k.pend),
               HasSpace(k.pend), [LT] + s);
    } else {
      AddInside(outer, f, roots, k.done, Opaque(k.pend), In(cb, outer, f, roots, k));
    }
  }

  /** The state after an element has been read in the state st. */
  function After(cb: Callback, st: State, n: Node): State {
    AddNode(if n.Element? && n.children != [] then st.(mode := ModeInside(cb, st.mode)) else st, Normal(cb, n))
  }

  lemma {:induction false} AfterInside(cb: Callback, outer: seq<Frame>, f: Frame, roots: seq<Node>, k: Kids, n: Node)
    requires k.pend == [] && n.Element?
    ensures After(cb, In(cb, outer, f, roots, k), n) == In(cb, outer, f, roots, Absorb(cb, k, n))
  {
    InClean(cb, outer, f, roots, k.done);
    InClean(cb, outer, f, roots, k.done + [Normal(cb, n)]);
    AddInside(outer, f, roots, k.done, Normal(cb, n), In(cb, outer, f, roots, k));
  }

  lemma {:induction false} LeaveAfter(cb: Callback, st: State, n: Node, outer: seq<Frame>)
    requires ReadyFor(cb, st) && n.Element? && n.children != [] && outer == st.stack
    ensures Leave(cb, In(cb, outer, Frame(n.name, n.attrs, []), st.roots, Kids(Normal(cb, n).children, [])))
            .(nodeSet := true) == After(cb, st, n)
  {
    InClean(cb, outer, Frame(n.name, n.attrs, []), st.roots, Normal(cb, n).children);
    assert (outer + [Frame(n.name, n.attrs, Normal(cb, n).children)])[..|outer|] == outer;
  }

  /** The bytes of a parent element between its start tag and its end tag. */
  function Body(n: Node, col: nat, wrap: int): seq<byte>
    requires n.Element?
  {
    NodesBytes(n.children, OpenCol(n, col, wrap) + 1, wrap)
  }

  /** The state behind the start tag of n. */
  function Entered(cb: Callback, st: State, n: Node, k: Kids): State
    requires n.Element?
  {
    In(cb, st.stack, Frame(n.name, n.attrs, []), st.roots, k)
  }

  lemma {:induction false} EndTagRun(cb: Callback, es: seq<Entity>, st: State, n: Node, k: Kids, tail: seq<byte>,
                                     s: seq<byte>)
    requires ReadyFor(cb, st) && n.Element? && PlainName(n.name) && n.children != []
    requires Settle(cb, k) == Normal(cb, n).children
    requires tail == [SLASH] + (n.name + ([GT] + s))
    ensures Loop(cb, es, Entered(cb, st, n, k), [LT] + tail) == Loop(cb, es, After(cb, st, n), s)
  {
    FlushFirst(cb, es, st.stack, Frame(n.name, n.attrs, []), st.roots, k, tail);
    CloseRun(cb, es, Entered(cb, st, n, Kids(Settle(cb, k), [])), n.name, tail, s);
    LeaveAfter(cb, st, n, st.stack);
  }

  /** A parent element: its tags and, in between, its children. */
  lemma {:induction false} ParentRun(cb: Callback, es: seq<Entity>, st: State, n: Node, col: nat, wrap: int,
                                     tag: seq<byte>,
                                     body: seq<byte>, end: seq<byte>, s: seq<byte>)
    requires KnowsPredefined(es) && ReadyFor(cb, st)
    requires n.Element? && PlainName(n.name) && !IsSpecial(n.name) && PlainAttrs(n.attrs)
    requires RegularAll(n.children) && n.children != []
    requires tag == n.name + (AttrPart(n, col, wrap) + ([GT] + (body + ([LT] + end))))
    requires body == Body(n, col, wrap) && end == [SLASH] + (n.name + ([GT] + s))
    ensures Loop(cb, es, st, [LT] + tag) == Loop(cb, es, After(cb, st, Unmarked(n)), s)
    decreases n, 0
  {
    var u := Unmarked(n);
    var k := AbsorbAll(cb, Kids([], []), u.children);
    var rest := body + ([LT] + end);
    ParentTagRun(cb, es, st, n, col, wrap, tag, rest);
    NodesRun(cb, es, st.stack, Frame(n.name, u.attrs, []), st.roots, Kids([], []), n.children,
             OpenCol(n, col, wrap) + 1, wrap, rest, [LT] + end, k);
    EndTagRun(cb, es, st, u, k, end, s);
  }

  lemma {:induction false} Regroup(a: seq<byte>, b: seq<byte>, c: seq<byte>, d: seq<byte>, s: seq<byte>)
    ensures a + b + c + d + s == a + (b + (c + (d + s)))
  {
  }

  lemma {:induction false} ParentBytes(n: Node, col: nat, wrap: int, s: seq<byte>)
    requires n.Element? && PlainName(n.name) && !IsSpecial(n.name) && n.children != []
    ensures NodeBytes(n, col, wrap) + s
            == [LT] + (n.name + (AttrPart(n, col, wrap)
                     + ([GT] + (Body(n, col, wrap) + ([LT] + ([SLASH] + (n.name + ([GT] + s))))))))
  {
    var attrBytes, body, end := AttrPart(n, col, wrap), Body(n, col, wrap), EndTag(n.name);
    var tail := [GT] + body + end;
    assert NodeBytes(n, col, wrap) == [LT] + n.name + attrBytes + tail;
    Regroup([LT], n.name, attrBytes, tail, s);
    Associative([GT] + body, end, s);
    Associative([GT], body, end + s);
    EndTagBytes(n.name, s);
  }

  /** A leaf in ! or ?, and any other leaf. */
  lemma {:induction false} SpecialBytes(n: Node, col: nat, wrap: int, s: seq<byte>)
    requires n.Element? && TagBytes(n.name) == n.name && IsSpecial(n.name) && n.attrs == [] && n.children == []
    ensures NodeBytes(n, col, wrap) + s == [LT] + (n.name + ([GT] + s))
  {
    assert NodeBytes(n, col, wrap) == [LT] + n.name + [] + [GT];
    Regroup([LT], n.name, [], [GT], s);
    assert [] + ([GT] + s) == [GT] + s;
  }

  lemma {:induction false} LeafBytes(n: Node, col: nat, wrap: int, s: seq<byte>, bytes: seq<byte>)
    requires n.Element? && TagBytes(n.name) == n.name && !IsSpecial(n.name) && n.children == []
    requires bytes == NodeBytes(n, col, wrap) + s
    ensures bytes == [LT] + (n.name + (AttrPart(n, col, wrap) + ([SPACE, SLASH, GT] + s)))
  {
    var attrBytes := AttrPart(n, col, wrap);
    assert NodeBytes(n, col, wrap) == [LT] + n.name + attrBytes + [SPACE, SLASH, GT];
    Regroup([LT], n.name, attrBytes, [SPACE, SLASH, GT], s);
  }

  lemma {:induction false} NormalLeaf(cb: Callback, n: Node)
    requires n.Element? && n.children == []
    ensures Normal(cb, Unmarked(n)) == Element(n.name, UnmarkedAttrs(n.attrs), [])
  {
  }

  lemma {:induction false} RawLeafRun(cb: Callback, es: seq<Entity>, st: State, n: Node, col: nat, wrap: int,
                                      s: seq<byte>)
    requires ReadyFor(cb, st) && st.stack != []
    requires n.Element? && Regular(n) && IsRaw(n.name)
    ensures Loop(cb, es, st, NodeBytes(n, col, wrap) + s)
            == Loop(cb, es, After(cb, st, Unmarked(n)), s)
  {
    RegularParts(n);
    SpecialBytes(n, col, wrap, s);
    NormalLeaf(cb, n);
    var kind, cs :| RawTextOf(kind, n.name, cs);
    ReadRaw(cb, es, st, kind, n.name, cs, s);
    LoopMarkup(cb, es, st, n.name + ([GT] + s), After(cb, st, Unmarked(n)), s);
  }

  lemma {:induction false} DeclarationRun(cb: Callback, es: seq<Entity>, st: State, n: Node, col: nat, wrap: int,
                                          s: seq<byte>)
    requires ReadyFor(cb, st) && st.stack != []
    requires n.Element? && Regular(n) && IsSpecial(n.name) && !IsRaw(n.name)
    ensures Loop(cb, es, st, NodeBytes(n, col, wrap) + s)
            == Loop(cb, es, After(cb, st, Unmarked(n)), s)
  {
    RegularParts(n);
    SpecialBytes(n, col, wrap, s);
    NormalLeaf(cb, n);
    var ws, cs :| DeclarationOf(n.name, ws, cs);
    ReadDeclared(cb, es, st, n.name, ws, cs, s);
    LoopMarkup(cb, es, st, n.name + ([GT] + s), After(cb, st, Unmarked(n)), s);
  }

  lemma {:induction false} AfterLeaf(cb: Callback, st: State, n: Node)
    requires ReadyFor(cb, st) && n.Element? && n.children == []
    ensures After(cb, st, Unmarked(n)) == AddNode(st, Element(n.name, UnmarkedAttrs(n.attrs), [])).(buf := [])
  {
    NormalLeaf(cb, n);
  }

  lemma {:induction false} PlainLeafRun(cb: Callback, es: seq<Entity>, st: State, n: Node, col: nat, wrap: int,
                                        s: seq<byte>,
                                        bytes: seq<byte>)
    requires KnowsPredefined(es) && ReadyFor(cb, st)
    requires n.Element? && PlainName(n.name) && !IsSpecial(n.name) && PlainAttrs(n.attrs) && n.children == []
    requires bytes == NodeBytes(n, col, wrap) + s
    ensures Loop(cb, es, st, bytes) == Loop(cb, es, After(cb, st, Unmarked(n)), s)
  {
    LeafBytes(n, col, wrap, s, bytes);
    AfterLeaf(cb, st, n);
    LeafTagRun(cb, es, st, n, col, wrap, s, bytes, After(cb, st, Unmarked(n)));
  }

  lemma {:induction false} RegularParts(n: Node)
    requires n.Element? && Regular(n)
    ensures TagBytes(n.name) == n.name
    ensures if IsSpecial(n.name) then n.attrs == [] && n.children == []
            else PlainName(n.name) && PlainAttrs(n.attrs) && RegularAll(n.children)
  {
  }

  /** An element that is not raw, at a place where < starts a tag right away. */
  lemma {:induction false} ElementRun(cb: Callback, es: seq<Entity>, st: State, n: Node, col: nat, wrap: int,
                                      s: seq<byte>)
    requires KnowsPredefined(es) && ReadyFor(cb, st)
    requires n.Element? && Regular(n) && !IsSpecial(n.name)
    ensures Loop(cb, es, st, NodeBytes(n, col, wrap) + s)
            == Loop(cb, es, After(cb, st, Unmarked(n)), s)
    decreases n, 1
  {
    RegularParts(n);
    if n.children == [] {
      PlainLeafRun(cb, es, st, n, col, wrap, s, NodeBytes(n, col, wrap) + s);
    } else {
      var body, end := Body(n, col, wrap), [SLASH] + (n.name + ([GT] + s));
      var tag := n.name + (AttrPart(n, col, wrap) + ([GT] + (body + ([LT] + end))));
      ParentRun(cb, es, st, n, col, wrap, tag, body, end, s);
      ParentBytes(n, col, wrap, s);
    }
  }

  /** A tag inside an element, at a place where < starts it right away. */
  lemma {:induction false} TagRun(cb: Callback, es: seq<Entity>, outer: seq<Frame>, f: Frame, roots: seq<Node>,
                                  kids: seq<Node>, n: Node, col: nat, wrap: int, s: seq<byte>)
    requires KnowsPredefined(es) && Regular(n) && n.Element?
    ensures Loop(cb, es, In(cb, outer, f, roots, Kids(kids, [])), NodeBytes(n, col, wrap) + s)
            == Loop(cb, es, In(cb, outer, f, roots, Absorb(cb, Kids(kids, []), Unmarked(n))), s)
    decreases n, 2
  {
    var st := In(cb, outer, f, roots, Kids(kids, []));
    InClean(cb, outer, f, roots, kids);
    if IsRaw(n.name) {
      RawLeafRun(cb, es, st, n, col, wrap, s);
    } else if IsSpecial(n.name) {
      DeclarationRun(cb, es, st, n, col, wrap, s);
    } else {
      ElementRun(cb, es, st, n, col, wrap, s);
    }
    AfterInside(cb, outer, f, roots, Kids(kids, []), Unmarked(n));
  }

  lemma {:induction false} AbsorbTag(cb: Callback, k: Kids, n: Node)
    requires n.Element?
    ensures Absorb(cb, Kids(Settle(cb, k), []), n) == Absorb(cb, k, n)
  {
    InClean(cb, [], Frame([], [], []), [], Settle(cb, k));
  }

  /** One node inside an element. */
  lemma {:induction false} NodeRun(cb: Callback, es: seq<Entity>, outer: seq<Frame>, f: Frame, roots: seq<Node>,
                                   k: Kids, n: Node, col: nat, wrap: int, s: seq<byte>)
    requires KnowsPredefined(es) && Regular(n)
    ensures Loop(cb, es, In(cb, outer, f, roots, k), NodeBytes(n, col, wrap) + s)
            == Loop(cb, es, In(cb, outer, f, roots, Absorb(cb, k, Unmarked(n))), s)
    decreases n, 3
  {
    if n.Opaque? {
      var cs :| IsTextOf(n.opaque_, cs);
      TextInside(cb, es, outer, f, roots, k, cs, s);
    } else {
      var bytes := NodeBytes(n, col, wrap) + s;
      assert bytes == [LT] + bytes[1..];
      FlushFirst(cb, es, outer, f, roots, k, bytes[1..]);
      TagRun(cb, es, outer, f, roots, Settle(cb, k), n, col, wrap, s);
      AbsorbTag(cb, k, Unmarked(n));
    }
  }

  lemma {:induction false} NodesRun(cb: Callback, es: seq<Entity>, outer: seq<Frame>, f: Frame, roots: seq<Node>,
                                    k: Kids,
                                    ns: seq<Node>, col: nat, wrap: int, bytes: seq<byte>, s: seq<byte>, k': Kids)
    requires KnowsPredefined(es) && RegularAll(ns)
    requires bytes == NodesBytes(ns, col, wrap) + s && k' == AbsorbAll(cb, k, UnmarkedAll(ns))
    ensures Loop(cb, es, In(cb, outer, f, roots, k), bytes)
            == Loop(cb, es, In(cb, outer, f, roots, k'), s)
    decreases ns, 4
  {
    if ns == [] {
      assert bytes == s;
    } else {
      var col' := NodeCol(ns[0], col, wrap);
      var rest := NodesBytes(ns[1..], col', wrap) + s;
      Associative(NodeBytes(ns[0], col, wrap), NodesBytes(ns[1..], col', wrap), s);
      NodeRun(cb, es, outer, f, roots, k, ns[0], col, wrap, rest);
      NodesRun(cb, es, outer, f, roots, Absorb(cb, k, Unmarked(ns[0])), ns[1..], col', wrap, rest, s, k');
    }
  }

  // ---- whole documents ------------------------------------------------------------------------

  /** The newline behind the tree does not add a node. */
  lemma {:induction false} FinalNewline(cb: Callback, es: seq<Entity>, st: State, s: seq<byte>)
    requires s == [] || s == [NEWLINE]
    requires st.nodeSet && Ready(st)
    ensures Loop(cb, es, st, s) == Finish(st)
  {
  }

  lemma {:induction false} PrintOne(t: Node, wrap: int)
    ensures Print([t], wrap) == NodeBytes(t, 0, wrap) + if NodesCol([t], 0, wrap) > 0 then [NEWLINE] else []
  {
    assert [t][1..] == [];
    assert NodesBytes([t], 0, wrap) == NodeBytes(t, 0, wrap) + [];
  }

  /** Loading a saved tree gives the tree without U+FEFF and empty texts and with adjacent texts merged, for every
      wrap margin. */
  lemma {:induction false} SaveThenLoad(cb: Callback, es: seq<Entity>, t: Node, wrap: int)
    requires KnowsPredefined(es) && t.Element? && !IsSpecial(t.name) && Regular(t)
    ensures Load(cb, es, Print([t], wrap)) == Loaded(Normal(cb, Unmarked(t)))
  {
    var end := if NodesCol([t], 0, wrap) > 0 then [NEWLINE] else [];
    PrintOne(t, wrap);
    ElementRun(cb, es, INIT, t, 0, wrap, end);
    FinalNewline(cb, es, After(cb, INIT, Unmarked(t)), end);
  }

  lemma {:induction false} NullReadMarkup(cb: Callback, es: seq<Entity>, st: State, name: seq<byte>, attrs: seq<Attr>,
                                          col: nat, wrap: int, attrBytes: seq<byte>, tail: seq<byte>)
    requires KnowsPredefined(es) && PlainName(name) && !IsSpecial(name) && NamedAttrs(attrs) && HasNull(attrs)
    requires FollowsAttrs(tail) && attrBytes == AttrsBytes(attrs, col, wrap)
    ensures ReadMarkup(cb, es, st, name + (attrBytes + tail)) == Failed
  {
    var x := attrBytes + tail;
    var sep := Separator(attrs[0], col, wrap);
    StartsWith(attrs, col, wrap, tail);
    ReadName(cb, es, st, name, sep, x[1..]);
    SkipSeparator(es, [], sep, x[1..]);
    assert [] + attrs == attrs;
    NullFails(es, [], attrs, col, wrap, tail);
  }

  lemma {:induction false} LoopFails(cb: Callback, es: seq<Entity>, st: State, s: seq<byte>)
    requires Ready(st) && ReadMarkup(cb, es, st, s) == Failed
    ensures Loop(cb, es, st, [LT] + s) == Null
  {
  }

  /** Regular, but for attributes that may lack a value. */
  ghost predicate Writable(n: Node)
    decreases n
  {
    match n
    case Element(name, attrs, children) =>
      if IsSpecial(name) then Regular(n) else PlainName(name) && NamedAttrs(attrs) && WritableAll(children)
    case _ => Regular(n)
  }

  ghost predicate WritableAll(ns: seq<Node>)
    decreases ns
  {
    forall n <- ns :: Writable(n)
  }

  /** Some attribute somewhere in the tree has no value. */
  ghost predicate LacksValue(n: Node)
    decreases n
  {
    n.Element? && !IsSpecial(n.name) && (HasNull(n.attrs) || SomeLacksValue(n.children))
  }

  ghost predicate SomeLacksValue(ns: seq<Node>)
    decreases ns
  {
    exists n <- ns :: LacksValue(n)
  }

  lemma {:induction false} WritableIsRegular(n: Node)
    requires Writable(n) && !LacksValue(n)
    ensures Regular(n)
    decreases n
  {
    if n.Element? && !IsSpecial(n.name) {
      forall i | 0 <= i < |n.attrs| ensures PlainAttr(n.attrs[i]) {
        assert n.attrs[i].value != None;
      }
      forall m | m in n.children ensures Regular(m) {
        WritableIsRegular(m);
      }
    }
  }

  lemma {:induction false} NullTagFails(cb: Callback, es: seq<Entity>, st: State, n: Node, col: nat, wrap: int,
                                        tail: seq<byte>,
                                        bytes: seq<byte>)
    requires KnowsPredefined(es) && ReadyFor(cb, st) && FollowsAttrs(tail)
    requires n.Element? && PlainName(n.name) && !IsSpecial(n.name) && NamedAttrs(n.attrs) && HasNull(n.attrs)
    requires bytes == [LT] + (n.name + (AttrPart(n, col, wrap) + tail))
    ensures Loop(cb, es, st, bytes) == Null
  {
    NullReadMarkup(cb, es, st, n.name, n.attrs, col + |n.name| + 1, wrap, AttrPart(n, col, wrap), tail);
    LoopFails(cb, es, st, n.name + (AttrPart(n, col, wrap) + tail));
  }

  lemma {:induction false} StartBytes(n: Node, col: nat, wrap: int, s: seq<byte>, bytes: seq<byte>)
    returns (tail: seq<byte>)
    requires n.Element? && PlainName(n.name) && !IsSpecial(n.name) && bytes == NodeBytes(n, col, wrap) + s
    ensures bytes == [LT] + (n.name + (AttrPart(n, col, wrap) + tail)) && FollowsAttrs(tail)
  {
    var attrBytes, end := AttrPart(n, col, wrap), TailBytes(n, col, wrap);
    tail := end + s;
    assert TagBytes(n.name) == n.name;
    assert NodeBytes(n, col, wrap) == [LT] + n.name + attrBytes + end;
    Regroup([LT], n.name, attrBytes, end, s);
  }

  /** The start tag, and the children up to the first that cannot be read. */
  lemma {:induction false} NullElementFails(cb: Callback, es: seq<Entity>, st: State, n: Node, col: nat, wrap: int,
                                            s: seq<byte>,
                                            bytes: seq<byte>)
    requires KnowsPredefined(es) && ReadyFor(cb, st)
    requires n.Element? && !IsSpecial(n.name) && Writable(n) && LacksValue(n)
    requires bytes == NodeBytes(n, col, wrap) + s
    ensures Loop(cb, es, st, bytes) == Null
    decreases n, 1
  {
    if HasNull(n.attrs) {
      NullStartFails(cb, es, st, n, col, wrap, s, bytes);
    } else {
      var tag, rest, end := ParentStart(n, col, wrap, s, bytes);
      ValuedAttrs(n.attrs);
      NullInsideFails(cb, es, st, n, col, wrap, rest, end, tag);
    }
  }

  lemma {:induction false} NullStartFails(cb: Callback, es: seq<Entity>, st: State, n: Node, col: nat, wrap: int,
                                          s: seq<byte>, bytes: seq<byte>)
    requires KnowsPredefined(es) && ReadyFor(cb, st)
    requires n.Element? && PlainName(n.name) && !IsSpecial(n.name) && NamedAttrs(n.attrs) && HasNull(n.attrs)
    requires bytes == NodeBytes(n, col, wrap) + s
    ensures Loop(cb, es, st, bytes) == Null
  {
    var tail := StartBytes(n, col, wrap, s, bytes);
    NullTagFails(cb, es, st, n, col, wrap, tail, bytes);
  }

  lemma {:induction false} ParentStart(n: Node, col: nat, wrap: int, s: seq<byte>, bytes: seq<byte>)
    returns (tag: seq<byte>, rest: seq<byte>, end: seq<byte>)
    requires n.Element? && PlainName(n.name) && !IsSpecial(n.name) && n.children != []
    requires bytes == NodeBytes(n, col, wrap) + s
    ensures bytes == [LT] + tag && tag == n.name + (AttrPart(n, col, wrap) + ([GT] + rest))
    ensures rest == Body(n, col, wrap) + end
  {
    end := [LT] + ([SLASH] + (n.name + ([GT] + s)));
    rest := Body(n, col, wrap) + end;
    tag := n.name + (AttrPart(n, col, wrap) + ([GT] + rest));
    ParentBytes(n, col, wrap, s);
  }

  lemma {:induction false} NullInsideFails(cb: Callback, es: seq<Entity>, st: State, n: Node, col: nat, wrap: int,
                                           rest: seq<byte>,
                                           end: seq<byte>, tag: seq<byte>)
    requires KnowsPredefined(es) && ReadyFor(cb, st)
    requires n.Element? && PlainName(n.name) && !IsSpecial(n.name) && PlainAttrs(n.attrs)
    requires WritableAll(n.children) && SomeLacksValue(n.children)
    requires tag == n.name + (AttrPart(n, col, wrap) + ([GT] + rest)) && rest == Body(n, col, wrap) + end
    ensures Loop(cb, es, st, [LT] + tag) == Null
    decreases n, 0
  {
    var f := Frame(n.name, UnmarkedAttrs(n.attrs), []);
    ParentTagRun(cb, es, st, n, col, wrap, tag, rest);
    NullNodesFail(cb, es, st.stack, f, st.roots, Kids([], []), n.children, OpenCol(n, col, wrap) + 1, wrap, rest, end);
  }

  lemma {:induction false} ValuedAttrs(attrs: seq<Attr>)
    requires NamedAttrs(attrs) && !HasNull(attrs)
    ensures PlainAttrs(attrs)
  {
    forall i | 0 <= i < |attrs| ensures PlainAttr(attrs[i]) {
      assert attrs[i].value != None;
    }
  }

  /** The siblings in front of the first bad node are read, then the loader gives up. */
  lemma {:induction false} NullNodesFail(cb: Callback, es: seq<Entity>, outer: seq<Frame>, f: Frame, roots: seq<Node>,
                                         k: Kids,
                                         ns: seq<Node>, col: nat, wrap: int, bytes: seq<byte>, s: seq<byte>)
    requires KnowsPredefined(es) && WritableAll(ns) && SomeLacksValue(ns)
    requires bytes == NodesBytes(ns, col, wrap) + s
    ensures Loop(cb, es, In(cb, outer, f, roots, k), bytes) == Null
    decreases ns, 1
  {
    var n, col' := ns[0], NodeCol(ns[0], col, wrap);
    var rest := NodesBytes(ns[1..], col', wrap) + s;
    Associative(NodeBytes(n, col, wrap), NodesBytes(ns[1..], col', wrap), s);
    if LacksValue(n) {
      var tag := NodeBytes(n, col, wrap) + rest;
      assert tag == [LT] + tag[1..];
      FlushFirst(cb, es, outer, f, roots, k, tag[1..]);
      NullElementFails(cb, es, In(cb, outer, f, roots, Kids(Settle(cb, k), [])), n, col, wrap, rest, tag);
    } else {
      WritableIsRegular(n);
      NodeRun(cb, es, outer, f, roots, k, n, col, wrap, rest);
      assert ns == [n] + ns[1..];
      NullNodesFail(cb, es, outer, f, roots, Absorb(cb, k, Unmarked(n)), ns[1..], col', wrap, rest, s);
    }
  }

  /** The printer writes an attribute without a value as a bare name, which the parser refuses: a tree comes back
      exactly if every attribute anywhere in it has a value, else the result is NULL. */
  lemma {:induction false} NullValuesAreNotRead(cb: Callback, es: seq<Entity>, t: Node, wrap: int)
    requires KnowsPredefined(es) && t.Element? && !IsSpecial(t.name) && Writable(t)
    ensures Load(cb, es, Print([t], wrap)) == if LacksValue(t) then Null else Loaded(Normal(cb, Unmarked(t)))
  {
    if LacksValue(t) {
      PrintOne(t, wrap);
      var end := if NodesCol([t], 0, wrap) > 0 then [NEWLINE] else [];
      NullElementFails(cb, es, INIT, t, 0, wrap, end, Print([t], wrap));
    } else {
      WritableIsRegular(t);
      SaveThenLoad(cb, es, t, wrap);
    }
  }

  /** Two trees that are saved as the same text differ at most in how their texts are cut, and in U+FEFF. */
  lemma {:induction false} SaveIsInjective(cb: Callback, es: seq<Entity>, t: Node, u: Node, wrap: int, wrap': int)
    requires KnowsPredefined(es)
    requires t.Element? && !IsSpecial(t.name) && Regular(t) && u.Element? && !IsSpecial(u.name) && Regular(u)
    requires Print([t], wrap) == Print([u], wrap')
    ensures Normal(cb, Unmarked(t)) == Normal(cb, Unmarked(u))
  {
    SaveThenLoad(cb, es, t, wrap);
    SaveThenLoad(cb, es, u, wrap');
  }

  /** The end of the input behind the newline of the printer: text waiting there is dropped, not turned into a node, but
      without a callback the newline ends a word. */
  lemma {:induction false} EndInside(cb: Callback, es: seq<Entity>, f: Frame, k: Kids)
    ensures Loop(cb, es, In(cb, [], f, [], k), [NEWLINE])
            == Loaded(Element(f.name, f.attrs, if cb == OpaqueCallback then k.done else Settle(cb, k)))
  {
    if cb == NoCallback {
      CompletedIsSettled(k);
      WordTurn(es, [], f, [], k.done + if HasSpace(k.pend) then WordNode(k.pend) else [], LastWord(k.pend),
               HasSpace(k.pend), [NEWLINE], NEWLINE, []);
    }
  }

  /** The texts that follow the last element are not all empty. */
  predicate EndsInText(ns: seq<Node>)
    decreases |ns|
  {
    ns != [] && var last := ns[|ns| - 1]; last.Opaque? && (last.opaque_ != [] || EndsInText(ns[..|ns| - 1]))
  }

  lemma {:induction false} AbsorbLast(cb: Callback, k: Kids, ns: seq<Node>)
    requires ns != []
    ensures AbsorbAll(cb, k, ns) == Absorb(cb, AbsorbAll(cb, k, ns[..|ns| - 1]), ns[|ns| - 1])
    decreases |ns|
  {
    if |ns| > 1 {
      AbsorbLast(cb, Absorb(cb, k, ns[0]), ns[1..]);
      assert ns[1..][..|ns| - 2] == ns[..|ns| - 1][1..];
    } else {
      assert ns[..0] == [] && ns[1..] == [];
    }
  }

  lemma {:induction false} PendingText(cb: Callback, ns: seq<Node>)
    ensures AbsorbAll(cb, Kids([], []), ns).pend != [] <==> EndsInText(ns)
    decreases |ns|
  {
    if ns != [] {
      AbsorbLast(cb, Kids([], []), ns);
      PendingText(cb, ns[..|ns| - 1]);
    }
  }

  /** The names of nodes that become the parent of all that follows: instructions, as in <?xml ...?>, and
      declarations. */
  ghost predicate OpensDocument(name: seq<byte>) {
    (exists cs :: RawTextOf(Instruction, name, cs)) || Declaration(name)
  }

  lemma {:induction false} WritableAreRegular(ns: seq<Node>)
    requires WritableAll(ns) && !SomeLacksValue(ns)
    ensures RegularAll(ns)
  {
    forall n | n in ns ensures Regular(n) {
      WritableIsRegular(n);
    }
  }

  lemma {:induction false} ColumnPositive(ns: seq<Node>, col: nat, wrap: int)
    requires ns != [] && WritableAll(ns)
    ensures NodesCol(ns, col, wrap) > 0 || (col == 0 && forall n <- ns :: n == Opaque([]))
    decreases ns, 1
  {
    var n := ns[0];
    NodeColumn(n, col, wrap);
    if |ns| > 1 {
      ColumnPositive(ns[1..], NodeCol(n, col, wrap), wrap);
    } else {
      assert ns[1..] == [];
    }
    assert ns == [n] + ns[1..];
  }

  lemma {:induction false} NodeColumn(n: Node, col: nat, wrap: int)
    requires Writable(n)
    ensures NodeCol(n, col, wrap) > 0 || (col == 0 && n == Opaque([]))
  {
  }

  /** Behind a document stands a newline. */
  lemma {:induction false} DocumentColumn(doc: Node, wrap: int)
    requires doc.Element? && IsSpecial(doc.name) && WritableAll(doc.children)
    ensures NodesCol([doc], 0, wrap) > 0
  {
    assert [doc][1..] == [];
    if doc.children != [] {
      ColumnPositive(doc.children, OpenCol(doc, 0, wrap) + 1, wrap);
    }
  }

  /** A document under such a node, which has no end tag: with a callback it comes back unless text follows its last
      element; that text is lost. Without one it comes back as other trees do. If an attribute in it has no value the
      result is NULL. */
  lemma {:induction false} SaveThenLoadDocument(cb: Callback, es: seq<Entity>, doc: Node, wrap: int)
    requires KnowsPredefined(es) && doc.Element? && doc.attrs == [] && OpensDocument(doc.name)
    requires WritableAll(doc.children)
    ensures var r, ns := Load(cb, es, Print([doc], wrap)), UnmarkedAll(doc.children);
            var k := AbsorbAll(cb, Kids([], []), ns);
            && (r == Null <==> SomeLacksValue(doc.children))
            && (r != Null ==>
                r == Loaded(Element(doc.name, [], if cb == OpaqueCallback then k.done else Settle(cb, k))))
            && (r == Loaded(Normal(cb, Unmarked(doc))) <==>
                !SomeLacksValue(doc.children) && (cb == OpaqueCallback ==> !EndsInText(ns)))
  {
    var end := if NodesCol([doc], 0, wrap) > 0 then [NEWLINE] else [];
    var f, col := Frame(doc.name, [], []), OpenCol(doc, 0, wrap) + 1;
    var rest := NodesBytes(doc.children, col, wrap) + end;
    DocumentColumn(doc, wrap);
    DocumentBytes(doc, wrap, end);
    DocumentTagRun(cb, es, doc.name, rest);
    if SomeLacksValue(doc.children) {
      NullNodesFail(cb, es, [], f, [], Kids([], []), doc.children, col, wrap, rest, end);
    } else {
      WritableAreRegular(doc.children);
      var k := AbsorbAll(cb, Kids([], []), UnmarkedAll(doc.children));
      NodesRun(cb, es, [], f, [], Kids([], []), doc.children, col, wrap, rest, end, k);
      EndInside(cb, es, f, k);
      PendingText(cb, UnmarkedAll(doc.children));
    }
  }

  lemma {:induction false} DocumentTagRun(cb: Callback, es: seq<Entity>, name: seq<byte>, s: seq<byte>)
    requires OpensDocument(name)
    ensures Loop(cb, es, INIT, [LT] + (name + ([GT] + s)))
            == Loop(cb, es, In(cb, [], Frame(name, [], []), [], Kids([], [])), s)
  {
    if Declaration(name) {
      var ws, cs :| DeclarationOf(name, ws, cs);
      ReadDeclared(cb, es, INIT, name, ws, cs, s);
    } else {
      var cs :| RawTextOf(Instruction, name, cs);
      ReadRaw(cb, es, INIT, Instruction, name, cs, s);
    }
    EnterIsIn(cb, INIT, name, []);
    LoopMarkup(cb, es, INIT, name + ([GT] + s), Enter(cb, INIT, name, []), s);
  }

  lemma {:induction false} DocumentBytes(doc: Node, wrap: int, end: seq<byte>)
    requires doc.Element? && doc.attrs == [] && IsSpecial(doc.name)
    requires end == if NodesCol([doc], 0, wrap) > 0 then [NEWLINE] else []
    ensures Print([doc], wrap)
            == [LT] + (doc.name + ([GT] + (NodesBytes(doc.children, OpenCol(doc, 0, wrap) + 1, wrap) + end)))
  {
    var body := NodesBytes(doc.children, OpenCol(doc, 0, wrap) + 1, wrap);
    PrintOne(doc, wrap);
    assert OpenTag(doc, 0, wrap) == [LT] + doc.name;
    assert TailBytes(doc, 0, wrap) == [GT] + body;
    Associative([LT] + doc.name, [GT] + body, end);
    Associative([GT], body, end);
    Associative([LT], doc.name, [GT] + (body + end));
  }
}

/** What the normal form of a tree is. */
module XmlNormalForm {
  import opened CString
  import opened Utf8
  import opened XmlEntity
  import opened XmlTree
  import opened XmlPrinter
  import opened XmlParser
  import opened XmlScanning
  import opened XmlRoundTrip

  /** No empty text, and no text next to another, anywhere. */
  predicate IsNormal(n: Node)
    decreases n
  {
    match n
    case Opaque(t) => t != []
    case Text(_, _) => true
    case Element(_, _, children) => AreNormal(children)
  }

  predicate AreNormal(ns: seq<Node>)
    decreases ns
  {
    && (forall n <- ns :: IsNormal(n))
    && forall i :: 0 < i < |ns| ==> !ns[i - 1].Opaque? || !ns[i].Opaque?
  }

  /** The text of a node, in document order. */
  function TextOf(n: Node): seq<byte>
    decreases n, 0
  {
    match n
    case Opaque(t) => t
    case Text(_, t) => t
    case Element(_, _, children) => TextOfAll(children)
  }

  function TextOfAll(ns: seq<Node>): seq<byte>
    decreases ns, 1
  {
    if ns == [] then [] else TextOf(ns[0]) + TextOfAll(ns[1..])
  }

  lemma {:induction false} TextOfSnoc(ns: seq<Node>, n: Node)
    ensures TextOfAll(ns + [n]) == TextOfAll(ns) + TextOf(n)
    decreases |ns|
  {
    if ns == [] {
      assert ns + [n] == [n] && [n][1..] == [];
    } else {
      assert (ns + [n])[0] == ns[0] && (ns + [n])[1..] == ns[1..] + [n];
      TextOfSnoc(ns[1..], n);
      Associative(TextOf(ns[0]), TextOfAll(ns[1..]), TextOf(n));
    }
  }

  /** What absorbing a list keeps: normal children, the text, and the pending text behind an element. */
  ghost predicate Good(k: Kids) { AreNormal(k.done) && (k.done != [] ==> !k.done[|k.done| - 1].Opaque?) }

  function KidsText(k: Kids): seq<byte> { TextOfAll(k.done) + k.pend }

  lemma {:induction false} SettleGood(k: Kids)
    requires Good(k)
    ensures AreNormal(Settle(OpaqueCallback, k)) && TextOfAll(Settle(OpaqueCallback, k)) == KidsText(k)
  {
    if k.pend != [] {
      TextOfSnoc(k.done, Opaque(k.pend));
    }
  }

  /** The normal form is normal, and has the same text. */
  lemma {:induction false} NormalIsNormal(n: Node)
    requires n.Element?
    ensures IsNormal(Normal(OpaqueCallback, n)) && TextOf(Normal(OpaqueCallback, n)) == TextOf(n)
    decreases n, 0
  {
    AbsorbAllGood(Kids([], []), n.children);
    SettleGood(AbsorbAll(OpaqueCallback, Kids([], []), n.children));
    assert KidsText(Kids([], [])) + TextOfAll(n.children) == TextOfAll(n.children);
  }

  lemma {:induction false} AbsorbAllGood(k: Kids, ns: seq<Node>)
    requires Good(k)
    ensures var k' := AbsorbAll(OpaqueCallback, k, ns); Good(k') && KidsText(k') == KidsText(k) + TextOfAll(ns)
    decreases ns, 1
  {
    if ns != [] {
      AbsorbGood(k, ns[0]);
      AbsorbAllGood(Absorb(OpaqueCallback, k, ns[0]), ns[1..]);
      Associative(KidsText(k), TextOf(ns[0]), TextOfAll(ns[1..]));
    }
  }

  lemma {:induction false} AbsorbGood(k: Kids, n: Node)
    requires Good(k)
    ensures Good(Absorb(OpaqueCallback, k, n)) && KidsText(Absorb(OpaqueCallback, k, n)) == KidsText(k) + TextOf(n)
    decreases n, 1
  {
    if n.Opaque? {
      Associative(TextOfAll(k.done), k.pend, n.opaque_);
    } else {
      SettleGood(k);
      if n.Element? {
        NormalIsNormal(n);
      }
      TextOfSnoc(Settle(OpaqueCallback, k), Normal(OpaqueCallback, n));
    }
  }

  /** A normal tree is its own normal form. */
  lemma {:induction false} NormalStays(n: Node)
    requires IsNormal(n)
    ensures Normal(OpaqueCallback, n) == n
    decreases n, 0
  {
    if n.Element? {
      NormalStaysAll([], n.children);
      assert [] + n.children == n.children;
    }
  }

  lemma {:induction false} NormalStaysAll(done: seq<Node>, ns: seq<Node>)
    requires AreNormal(ns)
    ensures Settle(OpaqueCallback, AbsorbAll(OpaqueCallback, Kids(done, []), ns)) == done + ns
    decreases ns, 1
  {
    if ns == [] {
      assert done + ns == done;
    } else {
      assert ns == [ns[0]] + ns[1..];
      Associative(done, [ns[0]], ns[1..]);
      assert AreNormal(ns[1..]);
      NormalStays(ns[0]);
      if ns[0].Opaque? {
        NormalStaysBehind(done, ns[0].opaque_, ns[1..]);
        assert [] + ns[0].opaque_ == ns[0].opaque_;
      } else {
        NormalStaysAll(done + [ns[0]], ns[1..]);
      }
    }
  }

  lemma {:induction false} NormalStaysBehind(done: seq<Node>, t: seq<byte>, ns: seq<Node>)
    requires AreNormal(ns) && t != [] && (ns != [] ==> !ns[0].Opaque?)
    ensures Settle(OpaqueCallback, AbsorbAll(OpaqueCallback, Kids(done, t), ns)) == done + [Opaque(t)] + ns
    decreases ns, 0
  {
    var done' := done + [Opaque(t)];
    if ns == [] {
      assert done' + ns == done';
    } else {
      assert ns == [ns[0]] + ns[1..];
      Associative(done', [ns[0]], ns[1..]);
      assert AreNormal(ns[1..]);
      NormalStays(ns[0]);
      NormalStaysAll(done' + [ns[0]], ns[1..]);
    }
  }

  // ---- which trees survive --------------------------------------------------------------------

  /** U+FEFF occurs in no text and no value. */
  ghost predicate NoMarks(n: Node)
    decreases n
  {
    match n
    case Opaque(t) => MarkFree(t)
    case Text(_, t) => MarkFree(t)
    case Element(_, attrs, children) =>
      (forall a <- attrs :: a.value.Some? ==> MarkFree(a.value.value)) && forall m <- children :: NoMarks(m)
  }

  /** The bytes in texts and values. */
  function Weight(n: Node): nat
    decreases n, 0
  {
    match n
    case Opaque(t) => |t|
    case Text(_, t) => |t|
    case Element(_, attrs, children) => WeightOfAttrs(attrs) + WeightOfAll(children)
  }

  function WeightOfAll(ns: seq<Node>): nat
    decreases ns, 1
  {
    if ns == [] then 0 else Weight(ns[0]) + WeightOfAll(ns[1..])
  }

  function WeightOfAttrs(attrs: seq<Attr>): nat {
    if attrs == [] then 0
    else (if attrs[0].value.Some? then |attrs[0].value.value| else 0) + WeightOfAttrs(attrs[1..])
  }

  lemma {:induction false} WeightOfSnoc(ns: seq<Node>, n: Node)
    ensures WeightOfAll(ns + [n]) == WeightOfAll(ns) + Weight(n)
    decreases |ns|
  {
    if ns == [] {
      assert ns + [n] == [n] && [n][1..] == [];
    } else {
      assert (ns + [n])[0] == ns[0] && (ns + [n])[1..] == ns[1..] + [n];
      WeightOfSnoc(ns[1..], n);
    }
  }

  function KidsWeight(k: Kids): nat { WeightOfAll(k.done) + |k.pend| }

  lemma {:induction false} SettleWeight(k: Kids)
    ensures WeightOfAll(Settle(OpaqueCallback, k)) == KidsWeight(k)
  {
    if k.pend != [] {
      WeightOfSnoc(k.done, Opaque(k.pend));
    }
  }

  /** The normal form keeps all bytes. */
  lemma {:induction false} NormalWeight(n: Node)
    ensures Weight(Normal(OpaqueCallback, n)) == Weight(n)
    decreases n, 0
  {
    if n.Element? {
      AbsorbAllWeight(Kids([], []), n.children);
      SettleWeight(AbsorbAll(OpaqueCallback, Kids([], []), n.children));
    }
  }

  lemma {:induction false} AbsorbAllWeight(k: Kids, ns: seq<Node>)
    ensures KidsWeight(AbsorbAll(OpaqueCallback, k, ns)) == KidsWeight(k) + WeightOfAll(ns)
    decreases ns, 1
  {
    if ns != [] {
      AbsorbWeight(k, ns[0]);
      AbsorbAllWeight(Absorb(OpaqueCallback, k, ns[0]), ns[1..]);
    }
  }

  lemma {:induction false} AbsorbWeight(k: Kids, n: Node)
    ensures KidsWeight(Absorb(OpaqueCallback, k, n)) == KidsWeight(k) + Weight(n)
    decreases n, 1
  {
    if !n.Opaque? {
      SettleWeight(k);
      NormalWeight(n);
      WeightOfSnoc(Settle(OpaqueCallback, k), Normal(OpaqueCallback, n));
    }
  }

  /** Taking out marks takes out bytes, unless there are none. */
  lemma {:induction false} UnmarkedWeight(n: Node)
    ensures Weight(Unmarked(n)) <= Weight(n)
    ensures Weight(Unmarked(n)) == Weight(n) ==> Unmarked(n) == n
    ensures Unmarked(n) == n <==> NoMarks(n)
    decreases n, 0
  {
    match n
    case Opaque(t) =>
      UnmarkIsShorter(t);
      UnmarkFixes(t);
    case Text(_, t) =>
      UnmarkIsShorter(t);
      UnmarkFixes(t);
    case Element(_, attrs, children) =>
      UnmarkedAttrsWeight(attrs);
      UnmarkedAllWeight(children);
  }

  lemma {:induction false} UnmarkedAllWeight(ns: seq<Node>)
    ensures WeightOfAll(UnmarkedAll(ns)) <= WeightOfAll(ns)
    ensures WeightOfAll(UnmarkedAll(ns)) == WeightOfAll(ns) ==> UnmarkedAll(ns) == ns
    ensures UnmarkedAll(ns) == ns <==> forall n <- ns :: NoMarks(n)
    decreases ns, 1
  {
    if ns != [] {
      UnmarkedWeight(ns[0]);
      UnmarkedAllWeight(ns[1..]);
      assert ns == [ns[0]] + ns[1..];
      assert UnmarkedAll(ns)[0] == Unmarked(ns[0]) && UnmarkedAll(ns)[1..] == UnmarkedAll(ns[1..]);
    }
  }

  lemma {:induction false} UnmarkedAttrsWeight(attrs: seq<Attr>)
    ensures WeightOfAttrs(UnmarkedAttrs(attrs)) <= WeightOfAttrs(attrs)
    ensures WeightOfAttrs(UnmarkedAttrs(attrs)) == WeightOfAttrs(attrs) ==> UnmarkedAttrs(attrs) == attrs
    ensures UnmarkedAttrs(attrs) == attrs <==> forall a <- attrs :: a.value.Some? ==> MarkFree(a.value.value)
    decreases |attrs|
  {
    if attrs != [] {
      var a := attrs[0];
      UnmarkedAttrsWeight(attrs[1..]);
      if a.value.Some? {
        UnmarkIsShorter(a.value.value);
        UnmarkFixes(a.value.value);
      }
      assert attrs == [a] + attrs[1..];
      assert UnmarkedAttrs(attrs)[0] == UnmarkedAttr(a) && UnmarkedAttrs(attrs)[1..] == UnmarkedAttrs(attrs[1..]);
    }
  }

  /** Exactly the trees without empty texts, adjacent texts and U+FEFF survive saving and loading unchanged. */
  lemma {:induction false} SurvivesExactly(es: seq<Entity>, t: Node, wrap: int)
    requires KnowsPredefined(es) && t.Element? && !IsSpecial(t.name) && Regular(t)
    ensures Load(OpaqueCallback, es, Print([t], wrap)) == Loaded(t) <==> IsNormal(t) && NoMarks(t)
  {
    SaveThenLoad(OpaqueCallback, es, t, wrap);
    UnmarkedWeight(t);
    NormalWeight(Unmarked(t));
    if IsNormal(t) && NoMarks(t) {
      NormalStays(t);
    }
    if Normal(OpaqueCallback, Unmarked(t)) == t {
      NormalIsNormal(Unmarked(t));
    }
  }
}
