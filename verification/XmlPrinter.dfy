/** Element trees as values: what mxml_node_t holds, with text as opaque or text nodes. */
module XmlTree {
  import opened CString

  datatype Attr = Attr(name: seq<byte>, value: Option<seq<byte>>)

  datatype Node =
    | Element(name: seq<byte>, attrs: seq<Attr>, children: seq<Node>)
    | Opaque(opaque_: seq<byte>)
    | Text(whitespace: bool, text: seq<byte>)

  /** mxmlElementGetAttr: the value of the first attribute with that name. */
  function GetAttr(attrs: seq<Attr>, name: seq<byte>): Option<seq<byte>> {
    if attrs == [] then None
    else if attrs[0].name == name then attrs[0].value
    else GetAttr(attrs[1..], name)
  }

  /** mxml_set_attr: replace the first attribute with that name, or append. */
  function SetAttr(attrs: seq<Attr>, name: seq<byte>, value: Option<seq<byte>>): seq<Attr> {
    if attrs == [] then [Attr(name, value)]
    else if attrs[0].name == name then [Attr(name, value)] + attrs[1..]
    else [attrs[0]] + SetAttr(attrs[1..], name, value)
  }
}

/** What mxml_write_node writes, as byte sequences; no whitespace callback. */
module XmlPrinter {
  import opened CString
  import opened XmlEntity
  import opened XmlTree

  const SPACE: byte := 32
  const NEWLINE: byte := 10
  const SLASH: byte := 47
  const EQUALS: byte := 61
  const BANG: byte := 33
  const QUESTION: byte := 63
  const APOS: byte := 39

  const S_COMMENT: seq<byte> := [33, 45, 45]
  const S_CDATA: seq<byte> := [33, 91, 67, 68, 65, 84, 65, 91]

  function EscapeByte(c: byte): seq<byte> {
    if NeedsEntity(c) then [AMP] + EntityName(c) + [59] else [c]
  }

  /** mxml_write_string */
  function Escape(s: seq<byte>): seq<byte> {
    if s == [] then [] else EscapeByte(s[0]) + Escape(s[1..])
  }

  /** The part of a quoted name up to the closing quote, escaped. */
  function EscapeUntil(s: seq<byte>, quote: byte): seq<byte> {
    if s == [] || s[0] == quote then [] else EscapeByte(s[0]) + EscapeUntil(s[1..], quote)
  }

  /** mxml_write_name */
  function NameBytes(s: seq<byte>): seq<byte> {
    if s != [] && (s[0] == QUOT || s[0] == APOS) then [s[0]] + EscapeUntil(s[1..], s[0]) + [s[0]] else s
  }

  /** Comments, CDATA and processing instructions are written as they are. */
  predicate IsRaw(name: seq<byte>) {
    name != [] && (name[0] == QUESTION || S_COMMENT <= name || S_CDATA <= name)
  }

  /** Names in ! and ? close their tag with a bare > and have no end tag. */
  predicate IsSpecial(name: seq<byte>) {
    name != [] && (name[0] == BANG || name[0] == QUESTION)
  }

  function TagBytes(name: seq<byte>): seq<byte> { if IsRaw(name) then name else NameBytes(name) }

  function AttrWidth(a: Attr): nat {
    |a.name| + if a.value.Some? then |a.value.value| + 3 else 0
  }

  predicate Wraps(a: Attr, col: nat, wrap: int) { wrap > 0 && col + AttrWidth(a) > wrap }

  function AttrCol(a: Attr, col: nat, wrap: int): nat {
    (if Wraps(a, col, wrap) then 0 else col + 1) + AttrWidth(a)
  }

  function AttrsCol(attrs: seq<Attr>, col: nat, wrap: int): nat {
    if attrs == [] then col else AttrsCol(attrs[1..], AttrCol(attrs[0], col, wrap), wrap)
  }

  function ValueBytes(v: Option<seq<byte>>): seq<byte> {
    if v.Some? then [EQUALS, QUOT] + Escape(v.value) + [QUOT] else []
  }

  /** An attribute that would cross the wrap margin starts a new line. */
  function Separator(a: Attr, col: nat, wrap: int): byte { if Wraps(a, col, wrap) then NEWLINE else SPACE }

  function AttrBytes(a: Attr, col: nat, wrap: int): seq<byte> {
    [Separator(a, col, wrap)] + NameBytes(a.name) + ValueBytes(a.value)
  }

  function AttrsBytes(attrs: seq<Attr>, col: nat, wrap: int): seq<byte> {
    if attrs == [] then []
    else AttrBytes(attrs[0], col, wrap) + AttrsBytes(attrs[1..], AttrCol(attrs[0], col, wrap), wrap)
  }

  /** Column behind the attributes of an element that starts at col. */
  function OpenCol(e: Node, col: nat, wrap: int): nat
    requires e.Element?
  {
    AttrsCol(e.attrs, col + |e.name| + 1, wrap)
  }

  /** The column after a list of sibling nodes. */
  function NodesCol(ns: seq<Node>, col: nat, wrap: int): nat
    decreases ns
  {
    if ns == [] then col else NodesCol(ns[1..], NodeCol(ns[0], col, wrap), wrap)
  }

  function NodeCol(n: Node, col: nat, wrap: int): nat
    decreases n
  {
    match n
    case Opaque(t) => col + |t|
    case Text(ws, t) => (if ws && col > 0 then (if wrap > 0 && col > wrap then 0 else col + 1) else col) + |t|
    case Element(name, _, children) =>
      var c := OpenCol(n, col, wrap);
      if children != [] then
        NodesCol(children, c + 1, wrap) + (if IsSpecial(name) then 0 else |name| + 3)
      else if IsSpecial(name) then c + 1
      else c + 3
  }

  function EndTag(name: seq<byte>): seq<byte> {
    if IsSpecial(name) then [] else [LT, SLASH] + Escape(name) + [GT]
  }

  function NodesBytes(ns: seq<Node>, col: nat, wrap: int): seq<byte>
    decreases ns, 2
  {
    if ns == [] then []
    else NodeBytes(ns[0], col, wrap) + NodesBytes(ns[1..], NodeCol(ns[0], col, wrap), wrap)
  }

  function OpenTag(e: Node, col: nat, wrap: int): seq<byte>
    requires e.Element?
  {
    [LT] + TagBytes(e.name) + AttrsBytes(e.attrs, col + |e.name| + 1, wrap)
  }

  /** What follows the attributes. */
  function TailBytes(e: Node, col: nat, wrap: int): seq<byte>
    requires e.Element?
    decreases e, 0
  {
    if e.children != [] then
      [GT] + NodesBytes(e.children, OpenCol(e, col, wrap) + 1, wrap) + EndTag(e.name)
    else if IsSpecial(e.name) then [GT]
    else [SPACE, SLASH, GT]
  }

  function NodeBytes(n: Node, col: nat, wrap: int): seq<byte>
    decreases n, 1
  {
    match n
    case Opaque(t) => Escape(t)
    case Text(ws, t) => TextSeparator(ws, col, wrap) + Escape(t)
    case Element(_, _, _) => OpenTag(n, col, wrap) + TailBytes(n, col, wrap)
  }

  function TextSeparator(ws: bool, col: nat, wrap: int): seq<byte> {
    if ws && col > 0 then (if wrap > 0 && col > wrap then [NEWLINE] else [SPACE]) else []
  }

  /** mxmlSaveString's text: the node and, unless the column is 0, a newline. The call starts at `node`
      and follows its next pointers, so it is given the node and its following siblings. */
  function Print(ns: seq<Node>, wrap: int): seq<byte> {
    NodesBytes(ns, 0, wrap) + if NodesCol(ns, 0, wrap) > 0 then [NEWLINE] else []
  }
}

/** The text of a tree of C strings is a C string. */
module XmlNulFree {
  import opened CString
  import opened XmlEntity
  import opened XmlTree
  import opened XmlPrinter

  predicate NulFree(s: seq<byte>) { 0 !in s }

  predicate AttrsNulFree(attrs: seq<Attr>) {
    forall i :: 0 <= i < |attrs| ==>
      NulFree(attrs[i].name) && (attrs[i].value.Some? ==> NulFree(attrs[i].value.value))
  }

  /** Every name, value and text of the nodes is a C string. */
  predicate CStrings(ns: seq<Node>)
    decreases ns
  {
    forall n <- ns :: CStringsIn(n)
  }

  predicate CStringsIn(n: Node)
    decreases n
  {
    match n
    case Opaque(t) => NulFree(t)
    case Text(_, t) => NulFree(t)
    case Element(name, attrs, children) => NulFree(name) && AttrsNulFree(attrs) && CStrings(children)
  }

  lemma {:induction false} EscapeNulFree(s: seq<byte>)
    requires NulFree(s)
    ensures NulFree(Escape(s))
  {
    if s != [] {
      EscapeNulFree(s[1..]);
    }
  }

  lemma {:induction false} EscapeUntilNulFree(s: seq<byte>, quote: byte)
    requires NulFree(s)
    ensures NulFree(EscapeUntil(s, quote))
  {
    if s != [] && s[0] != quote {
      EscapeUntilNulFree(s[1..], quote);
    }
  }

  lemma {:induction false} NameNulFree(s: seq<byte>)
    requires NulFree(s)
    ensures NulFree(NameBytes(s)) && NulFree(TagBytes(s)) && NulFree(EndTag(s))
  {
    EscapeNulFree(s);
    if s != [] {
      EscapeUntilNulFree(s[1..], s[0]);
    }
  }

  lemma {:induction false} AttrNulFree(a: Attr, col: nat, wrap: int)
    requires NulFree(a.name) && (a.value.Some? ==> NulFree(a.value.value))
    ensures NulFree(AttrBytes(a, col, wrap))
  {
    NameNulFree(a.name);
    if a.value.Some? {
      EscapeNulFree(a.value.value);
    }
  }

  lemma {:induction false} AttrsBytesNulFree(attrs: seq<Attr>, col: nat, wrap: int)
    requires AttrsNulFree(attrs)
    ensures NulFree(AttrsBytes(attrs, col, wrap))
  {
    if attrs != [] {
      AttrNulFree(attrs[0], col, wrap);
      AttrsBytesNulFree(attrs[1..], AttrCol(attrs[0], col, wrap), wrap);
    }
  }

  lemma {:induction false} OpenTagNulFree(n: Node, col: nat, wrap: int)
    requires n.Element? && NulFree(n.name) && AttrsNulFree(n.attrs)
    ensures NulFree(OpenTag(n, col, wrap))
  {
    var a, b, c := [LT], TagBytes(n.name), AttrsBytes(n.attrs, col + |n.name| + 1, wrap);
    assert NulFree(b) by { NameNulFree(n.name); }
    assert NulFree(c) by { AttrsBytesNulFree(n.attrs, col + |n.name| + 1, wrap); }
    EnclosedNulFree(a, b, c);
  }

  lemma {:induction false} EnclosedNulFree(a: seq<byte>, b: seq<byte>, c: seq<byte>)
    requires NulFree(a) && NulFree(b) && NulFree(c)
    ensures NulFree(a + b + c) && NulFree(a + b)
  {
  }

  lemma {:induction false} NodeNulFree(n: Node, col: nat, wrap: int)
    requires CStringsIn(n)
    ensures NulFree(NodeBytes(n, col, wrap))
    decreases n, 1
  {
    match n
    case Opaque(t) => EscapeNulFree(t);
    case Text(_, t) => EscapeNulFree(t);
    case Element(name, attrs, children) =>
      OpenTagNulFree(n, col, wrap);
      TailNulFree(n, col, wrap);
      EnclosedNulFree(OpenTag(n, col, wrap), TailBytes(n, col, wrap), []);
  }

  lemma {:induction false} TailNulFree(n: Node, col: nat, wrap: int)
    requires n.Element? && CStringsIn(n)
    ensures NulFree(TailBytes(n, col, wrap))
    decreases n, 0
  {
    if n.children != [] {
      NameNulFree(n.name);
      NodesNulFree(n.children, OpenCol(n, col, wrap) + 1, wrap);
      EnclosedNulFree([GT], NodesBytes(n.children, OpenCol(n, col, wrap) + 1, wrap), EndTag(n.name));
    }
  }

  lemma {:induction false} NodesNulFree(ns: seq<Node>, col: nat, wrap: int)
    requires CStrings(ns)
    ensures NulFree(NodesBytes(ns, col, wrap))
    decreases ns, 0
  {
    if ns != [] {
      NodeNulFree(ns[0], col, wrap);
      NodesNulFree(ns[1..], NodeCol(ns[0], col, wrap), wrap);
      EnclosedNulFree(NodeBytes(ns[0], col, wrap), NodesBytes(ns[1..], NodeCol(ns[0], col, wrap), wrap), []);
    }
  }

  lemma {:induction false} PrintNulFree(ns: seq<Node>, wrap: int)
    requires CStrings(ns)
    ensures CStr(Print(ns, wrap)) == Print(ns, wrap)
  {
    NodesNulFree(ns, 0, wrap);
    var s := Print(ns, wrap);
    assert NulFree(s);
    assert |CStr(s)| == |s|;
  }
}

/** The string writer and the parts of mxml_write_node that do not follow pointers. */
module XmlWriter {
  import opened CString
  import opened XmlEntity
  import opened XmlTree
  import opened XmlPrinter
  import opened XmlNulFree

  /** The two string pointers of mxml_string_putc: `pos` runs on behind the end of the buffer. */
  class StringSink {
    const buffer: array<byte>
    var pos: nat
    ghost var written: seq<byte>

    ghost predicate Valid()
      reads this, buffer
    {
      && pos == |written|
      && buffer[..Stored()] == written[..Stored()]
    }

    ghost function Stored(): nat
      reads this
    {
      if |written| < buffer.Length then |written| else buffer.Length
    }

    constructor (buffer: array<byte>)
      ensures Valid() && written == [] && this.buffer == buffer
    {
      this.buffer := buffer;
      pos, written := 0, [];
    }

    /** mxml_string_putc */
    method Putc(ch: byte)
      requires Valid()
      modifies this, buffer
      ensures Valid() && written == old(written) + [ch]
    {
      if pos < buffer.Length {
        buffer[pos] := ch;
      }
      pos := pos + 1;
      written := written + [ch];
    }

    method Puts(s: seq<byte>)
      requires Valid()
      modifies this, buffer
      ensures Valid() && written == old(written) + s
    {
      var i := 0;
      while i < |s|
        invariant 0 <= i <= |s| && Valid() && written == old(written) + s[..i]
      {
        Putc(s[i]);
        i := i + 1;
      }
    }
  }

  /** mxml_write_string */
  method WriteString(s: seq<byte>, p: StringSink)
    requires p.Valid()
    modifies p, p.buffer
    ensures p.Valid() && p.written == old(p.written) + Escape(s)
  {
    ghost var target := p.written + Escape(s);
    var i := 0;
    assert s[0..] == s;
    while i < |s|
      invariant 0 <= i <= |s| && p.Valid() && p.written + Escape(s[i..]) == target
    {
      assert s[i..][1..] == s[i + 1..];
      Associative(p.written, EscapeByte(s[i]), Escape(s[i + 1..]));
      WriteEscaped(s[i], p);
      i := i + 1;
    }
  }

  /** One character of mxml_write_string: itself, or its entity between & and ; */
  method WriteEscaped(c: byte, p: StringSink)
    requires p.Valid()
    modifies p, p.buffer
    ensures p.Valid() && p.written == old(p.written) + EscapeByte(c)
  {
    var name := EntityName(c);
    if name != [] {
      p.Putc(AMP);
      p.Puts(name);
      p.Putc(59);
    } else {
      p.Putc(c);
    }
  }

  /** mxml_write_name */
  method WriteName(s: seq<byte>, p: StringSink)
    requires p.Valid()
    modifies p, p.buffer
    ensures p.Valid() && p.written == old(p.written) + NameBytes(s)
  {
    if s != [] && (s[0] == QUOT || s[0] == APOS) {
      ghost var before := p.written;
      p.Putc(s[0]);
      WriteUntil(s, p);
      p.Putc(s[0]);
      Associative(before, [s[0]], EscapeUntil(s[1..], s[0]));
      Associative(before, [s[0]] + EscapeUntil(s[1..], s[0]), [s[0]]);
    } else {
      p.Puts(s);
    }
  }

  /** The body of a quoted name, up to the quote it starts with. */
  method WriteUntil(s: seq<byte>, p: StringSink)
    requires p.Valid() && s != []
    modifies p, p.buffer
    ensures p.Valid() && p.written == old(p.written) + EscapeUntil(s[1..], s[0])
  {
    var quote := s[0];
    ghost var target := p.written + EscapeUntil(s[1..], quote);
    var i := 1;
    while i < |s| && s[i] != quote
      invariant 1 <= i <= |s| && p.Valid() && p.written + EscapeUntil(s[i..], quote) == target
    {
      assert s[i..][1..] == s[i + 1..];
      Associative(p.written, EscapeByte(s[i]), EscapeUntil(s[i + 1..], quote));
      WriteEscaped(s[i], p);
      i := i + 1;
    }
    assert EscapeUntil(s[i..], quote) == [];
  }

  /** One attribute: separator, name, value. */
  method WriteAttr(attr: Attr, p: StringSink, col0: nat, wrap: int) returns (col: nat)
    requires p.Valid()
    modifies p, p.buffer
    ensures p.Valid()
    ensures p.written == old(p.written) + AttrBytes(attr, col0, wrap)
    ensures col == AttrCol(attr, col0, wrap)
  {
    ghost var before := p.written;
    col := col0;
    var width := |attr.name|;
    if attr.value.Some? {
      width := width + |attr.value.value| + 3;
    }
    if wrap > 0 && col + width > wrap {
      p.Putc(NEWLINE);
      col := 0;
    } else {
      p.Putc(SPACE);
      col := col + 1;
    }
    WriteName(attr.name, p);
    assert p.written == before + ([Separator(attr, col0, wrap)] + NameBytes(attr.name));
    Associative(before, [Separator(attr, col0, wrap)] + NameBytes(attr.name), ValueBytes(attr.value));
    WriteValue(attr.value, p);
    col := col + width;
  }

  method WriteValue(value: Option<seq<byte>>, p: StringSink)
    requires p.Valid()
    modifies p, p.buffer
    ensures p.Valid() && p.written == old(p.written) + ValueBytes(value)
  {
    if value.Some? {
      ghost var before := p.written;
      p.Putc(EQUALS);
      p.Putc(QUOT);
      assert p.written == before + [EQUALS, QUOT];
      WriteString(value.value, p);
      p.Putc(QUOT);
      Associative(before, [EQUALS, QUOT], Escape(value.value));
      Associative(before, [EQUALS, QUOT] + Escape(value.value), [QUOT]);
    }
  }

  /** The attribute loop of mxml_write_node. */
  method WriteAttrs(attrs: seq<Attr>, p: StringSink, col0: nat, wrap: int) returns (col: nat)
    requires p.Valid()
    modifies p, p.buffer
    ensures p.Valid() && p.written == old(p.written) + AttrsBytes(attrs, col0, wrap)
    ensures col == AttrsCol(attrs, col0, wrap)
  {
    ghost var target, end := p.written + AttrsBytes(attrs, col0, wrap), AttrsCol(attrs, col0, wrap);
    col := col0;
    var i := 0;
    assert attrs[0..] == attrs;
    while i < |attrs|
      invariant 0 <= i <= |attrs| && p.Valid()
      invariant AttrsCol(attrs[i..], col, wrap) == end
      invariant p.written + AttrsBytes(attrs[i..], col, wrap) == target
    {
      assert attrs[i..][0] == attrs[i] && attrs[i..][1..] == attrs[i + 1..];
      Associative(p.written, AttrBytes(attrs[i], col, wrap),
                  AttrsBytes(attrs[i + 1..], AttrCol(attrs[i], col, wrap), wrap));
      col := WriteAttr(attrs[i], p, col, wrap);
      i := i + 1;
    }
  }

  method WriteText(n: Node, p: StringSink, col0: nat, wrap: int) returns (col: nat)
    requires p.Valid() && n.Text?
    modifies p, p.buffer
    ensures p.Valid() && p.written == old(p.written) + NodeBytes(n, col0, wrap)
    ensures col == NodeCol(n, col0, wrap)
  {
    col := col0;
    Associative(p.written, TextSeparator(n.whitespace, col0, wrap), Escape(n.text));
    if n.whitespace && col > 0 {
      if wrap > 0 && col > wrap {
        p.Putc(NEWLINE);
        col := 0;
      } else {
        p.Putc(SPACE);
        col := col + 1;
      }
    }
    WriteString(n.text, p);
    col := col + |n.text|;
  }

  method WriteOpenTag(n: Node, p: StringSink, col0: nat, wrap: int) returns (col: nat)
    requires p.Valid() && n.Element?
    modifies p, p.buffer
    ensures p.Valid() && p.written == old(p.written) + OpenTag(n, col0, wrap)
    ensures col == OpenCol(n, col0, wrap)
  {
    ghost var before := p.written;
    p.Putc(LT);
    if IsRaw(n.name) {
      p.Puts(n.name);
    } else {
      WriteName(n.name, p);
    }
    assert p.written == before + ([LT] + TagBytes(n.name));
    Associative(before, [LT] + TagBytes(n.name), AttrsBytes(n.attrs, col0 + |n.name| + 1, wrap));
    col := WriteAttrs(n.attrs, p, col0 + |n.name| + 1, wrap);
  }

  method WriteEndTag(name: seq<byte>, p: StringSink)
    requires p.Valid() && !IsSpecial(name)
    modifies p, p.buffer
    ensures p.Valid() && p.written == old(p.written) + EndTag(name)
  {
    ghost var before := p.written;
    p.Putc(LT);
    p.Putc(SLASH);
    assert p.written == before + [LT, SLASH];
    WriteString(name, p);
    p.Putc(GT);
    Associative(before, [LT, SLASH], Escape(name));
    Associative(before, [LT, SLASH] + Escape(name), [GT]);
  }

  /** The last step: a NUL behind the text, or on the last byte if the text did not fit. */
  method TerminateString(p: StringSink)
    requires p.Valid() && p.buffer.Length > 0
    modifies p.buffer
    ensures Saved(p.buffer[..], p.pos, p.written)
  {
    if p.pos >= p.buffer.Length {
      p.buffer[p.buffer.Length - 1] := 0;
    } else {
      p.buffer[p.pos] := 0;
    }
  }

  /** n is the size of the text, and b holds its first min(n, |b| - 1) bytes and then a NUL. */
  predicate Saved(b: seq<byte>, n: nat, text: seq<byte>) {
    var kept := if n < |b| then n else |b| - 1;
    n == |text| && 0 < |b| && kept <= |text| && b[..kept] == text[..kept] && b[kept] == 0
  }

  lemma {:induction false} CStrStops(b: seq<byte>, n: nat)
    requires n < |b| && b[n] == 0 && CStr(b[..n]) == b[..n]
    ensures CStr(b) == b[..n]
  {
  }
}
