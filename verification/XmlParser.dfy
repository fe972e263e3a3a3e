/** mxml_load_data and its helpers, as functions of the bytes still to be read. */
module XmlParser {
  import opened CString
  import opened Utf8
  import opened XmlEntity
  import opened XmlTree
  import opened XmlPrinter

  /** mxml_isspace */
  predicate IsXmlSpace(ch: int) { ch == 32 || ch == 9 || ch == 13 || ch == 10 }

  predicate IsAlnum(ch: int) { 48 <= ch <= 57 || 65 <= ch <= 90 || 97 <= ch <= 122 }

  // ---- entities -------------------------------------------------------------------------------

  const HASH: byte := 35
  const SEMICOLON: byte := 59
  const LONG_MAX: nat := 0x7FFF_FFFF

  datatype Scan = Scan(ok: bool, buf: seq<byte>, ch: int, rest: seq<byte>)

  /** The name between & and the character that ends it; at most 63 characters. */
  function EntityChars(s: seq<byte>, acc: seq<byte>): (r: Scan)
    requires |acc| <= 63
    ensures |r.rest| <= |s|
    decreases |s|
  {
    var g := Getc(s);
    if g.ch == EOF || g.ch > 126 || (!IsAlnum(g.ch) && g.ch != HASH) || |acc| == 63 then
      Scan(true, acc, g.ch, g.rest)
    else EntityChars(g.rest, acc + [g.ch])
  }

  function DigitValue(c: byte): nat {
    if 48 <= c <= 57 then c - 48
    else if 65 <= c <= 70 then c - 55
    else if 97 <= c <= 102 then c - 87
    else 16
  }

  /** strtol on the leading digits, saturating at LONG_MAX. */
  function Number(s: seq<byte>, base: nat, acc: nat): nat {
    if s != [] && DigitValue(s[0]) < base then
      var n := acc * base + DigitValue(s[0]);
      Number(s[1..], base, if n > LONG_MAX then LONG_MAX else n)
    else acc
  }

  function HexNumber(s: seq<byte>): nat {
    if |s| >= 2 && s[0] == 48 && (s[1] == 120 || s[1] == 88) then Number(s[2..], 16, 0) else Number(s, 16, 0)
  }

  function EntityCode(es: seq<Entity>, name: seq<byte>): int {
    if name != [] && name[0] == HASH then
      if |name| > 1 && name[1] == 120 then HexNumber(name[2..]) else Number(name[1..], 10, 0)
    else Lookup(es, name)
  }

  /** mxml_get_entity: the character behind &, or EOF. */
  function GetEntity(es: seq<Entity>, s: seq<byte>): (g: Got)
    ensures |g.rest| <= |s| && g.ch >= EOF
  {
    var e := EntityChars(s, []);
    if e.ch != SEMICOLON then Got(EOF, e.rest)
    else
      var ch := EntityCode(es, e.buf);
      Got(if BadChar(ch) then EOF else ch, e.rest)
  }

  // ---- element names and raw nodes ------------------------------------------------------------

  /** Reading stops early on <?, <!-- and <![CDATA[. */
  predicate OpensRaw(buf: seq<byte>) { buf == [QUESTION] || buf == S_COMMENT || buf == S_CDATA }

  /** The word behind <, and the character that ended it. */
  function TagName(es: seq<Entity>, s: seq<byte>, buf: seq<byte>): (r: Scan)
    ensures |r.rest| <= |s|
    decreases |s|
  {
    var g := Getc(s);
    if g.ch == EOF || IsXmlSpace(g.ch) || g.ch == GT || (g.ch == SLASH && buf != []) then
      Scan(true, buf, g.ch, g.rest)
    else if g.ch == LT then Scan(false, buf, g.ch, g.rest)
    else if g.ch == AMP then
      var e := GetEntity(es, g.rest);
      if e.ch == EOF then Scan(false, buf, e.ch, e.rest)
      else TagName(es, e.rest, buf + Encode(e.ch))
    else
      var more := buf + Encode(g.ch);
      if OpensRaw(more) then Scan(true, more, g.ch, g.rest) else TagName(es, g.rest, more)
  }

  datatype RawKind = Comment | Cdata | Instruction

  /** What must stand in front of the closing > */
  predicate RawEnds(kind: RawKind, buf: seq<byte>) {
    var n := |buf|;
    match kind
    case Comment => n > 4 && buf[n - 3] != 45 && buf[n - 2] == 45 && buf[n - 1] == 45
    case Cdata => n >= 2 && buf[n - 2] == 93 && buf[n - 1] == 93
    case Instruction => n > 0 && buf[n - 1] == QUESTION
  }

  function RawRest(kind: RawKind, s: seq<byte>, buf: seq<byte>): (r: Scan)
    ensures |r.rest| <= |s|
    decreases |s|
  {
    var g := Getc(s);
    if g.ch == EOF then Scan(false, buf, g.ch, g.rest)
    else if g.ch == GT && RawEnds(kind, buf) then Scan(true, buf, g.ch, g.rest)
    else RawRest(kind, g.rest, buf + Encode(g.ch))
  }

  /** The rest of a declaration; ch is the character already read. */
  function DeclarationRest(es: seq<Entity>, ch: int, s: seq<byte>, buf: seq<byte>): (r: Scan)
    ensures |r.rest| <= |s|
    decreases |s|
  {
    if ch == GT then Scan(true, buf, ch, s)
    else
      var e := if ch == AMP then GetEntity(es, s) else Got(ch, s);
      if ch == AMP && e.ch == EOF then Scan(false, buf, EOF, e.rest)
      else
        var g := Getc(e.rest);
        if g.ch == EOF then Scan(false, buf + Encode(e.ch), EOF, g.rest)
        else DeclarationRest(es, g.ch, g.rest, buf + Encode(e.ch))
  }

  /** Skip to the > of a close tag. */
  function SkipToEnd(ch: int, s: seq<byte>): (r: seq<byte>)
    ensures |r| <= |s|
    decreases |s|
  {
    if ch == GT || ch == EOF then s
    else
      var g := Getc(s);
      if g.ch == EOF then g.rest else SkipToEnd(g.ch, g.rest)
  }

  // ---- attributes -----------------------------------------------------------------------------

  /** An attribute name in quotes: up to and including the closing quote. */
  function QuotedName(es: seq<Entity>, quote: int, s: seq<byte>, buf: seq<byte>): (r: Scan)
    ensures |r.rest| <= |s|
    decreases |s|
  {
    var g := Getc(s);
    if g.ch == EOF then Scan(true, buf, EOF, g.rest)
    else
      var e := if g.ch == AMP then GetEntity(es, g.rest) else g;
      if e.ch == EOF then Scan(false, buf, EOF, e.rest)
      else if e.ch == quote then Scan(true, buf + Encode(e.ch), e.ch, e.rest)
      else QuotedName(es, quote, e.rest, buf + Encode(e.ch))
  }

  /** Text up to white space, =, / or > (and ? for a name). */
  function BareWord(es: seq<Entity>, isName: bool, s: seq<byte>, buf: seq<byte>): (r: Scan)
    ensures |r.rest| <= |s|
    decreases |s|
  {
    var g := Getc(s);
    if g.ch == EOF || IsXmlSpace(g.ch) || g.ch == EQUALS || g.ch == SLASH || g.ch == GT
       || (isName && g.ch == QUESTION) then
      Scan(true, buf, g.ch, g.rest)
    else
      var e := if g.ch == AMP then GetEntity(es, g.rest) else g;
      if e.ch == EOF then Scan(false, buf, EOF, e.rest)
      else BareWord(es, isName, e.rest, buf + Encode(e.ch))
  }

  /** A quoted value: up to the closing quote, which is not stored. */
  function QuotedValue(es: seq<Entity>, quote: int, s: seq<byte>, buf: seq<byte>): (r: Scan)
    ensures |r.rest| <= |s|
    decreases |s|
  {
    var g := Getc(s);
    if g.ch == EOF || g.ch == quote then Scan(true, buf, g.ch, g.rest)
    else
      var e := if g.ch == AMP then GetEntity(es, g.rest) else g;
      if e.ch == EOF then Scan(false, buf, EOF, e.rest)
      else QuotedValue(es, quote, e.rest, buf + Encode(e.ch))
  }

  /** Skip white space, starting with the character ch already read. */
  function SkipSpace(ch: int, s: seq<byte>): (g: Got)
    ensures |g.rest| <= |s| && !IsXmlSpace(g.ch)
    decreases |s|
  {
    if IsXmlSpace(ch) then
      var g := Getc(s);
      if g.ch == EOF then g else SkipSpace(g.ch, g.rest)
    else Got(ch, s)
  }

  /** The value behind =: quoted or bare. */
  function AttrValue(es: seq<Entity>, s: seq<byte>): (r: Scan)
    ensures |r.rest| <= |s|
  {
    var g0 := Getc(s);
    var g := SkipSpace(g0.ch, g0.rest);
    if g.ch == EOF then Scan(false, [], EOF, g.rest)
    else if g.ch == APOS || g.ch == QUOT then QuotedValue(es, g.ch, g.rest, [])
    else BareWord(es, false, g.rest, [g.ch % 0x100])
  }

  /** The terminating character and the attributes set; EOF is the error return. */
  datatype Parsed = Parsed(ch: int, attrs: seq<Attr>, rest: seq<byte>)

  /** / or ? must be followed by > */
  function EndOfTag(ch: int, attrs: seq<Attr>, s: seq<byte>): (r: Parsed)
    ensures |r.rest| <= |s|
  {
    var q := Getc(s);
    Parsed(if q.ch == GT then ch else EOF, attrs, q.rest)
  }

  /** The name of an attribute whose first character is ch. */
  function AttrName(es: seq<Entity>, ch: int, s: seq<byte>): (r: Scan)
    ensures |r.rest| <= |s|
  {
    if ch == QUOT || ch == APOS then QuotedName(es, ch, s, [ch]) else BareWord(es, true, s, [ch % 0x100])
  }

  /** The equals sign and the value of the attribute `name`; ch is the character behind the name. */
  function NamedAttr(es: seq<Entity>, attrs: seq<Attr>, name: seq<byte>, ch: int, s: seq<byte>): (r: Parsed)
    ensures |r.rest| <= |s|
  {
    if GetAttr(attrs, name).Some? then Parsed(EOF, attrs, s)
    else
      var e := SkipSpace(ch, s);
      if e.ch != EQUALS then Parsed(EOF, attrs, e.rest)
      else
        var v := AttrValue(es, e.rest);
        if !v.ok then Parsed(EOF, attrs, v.rest)
        else Parsed(if v.ch == EOF then 0 else v.ch, SetAttr(attrs, name, Some(CStr(v.buf))), v.rest)
  }

  /** One attribute whose first character is ch: the attributes and the character behind the value, 0 at the
      end of the input; EOF is an error. */
  function OneAttr(es: seq<Entity>, attrs: seq<Attr>, ch: int, s: seq<byte>): (r: Parsed)
    ensures |r.rest| <= |s|
  {
    var n := AttrName(es, ch, s);
    if n.ok then NamedAttr(es, attrs, CStr(n.buf), n.ch, n.rest) else Parsed(EOF, attrs, n.rest)
  }

  /** mxml_parse_element: the attributes of an element. */
  function ParseElement(es: seq<Entity>, attrs: seq<Attr>, s: seq<byte>): (r: Parsed)
    ensures |r.rest| <= |s|
    decreases |s|
  {
    var g := Getc(s);
    if g.ch == EOF then Parsed(EOF, attrs, g.rest)
    else if IsXmlSpace(g.ch) then ParseElement(es, attrs, g.rest)
    else if g.ch == SLASH || g.ch == QUESTION then EndOfTag(g.ch, attrs, g.rest)
    else if g.ch == LT then Parsed(EOF, attrs, g.rest)
    else if g.ch == GT then Parsed(GT, attrs, g.rest)
    else
      var a := OneAttr(es, attrs, g.ch, g.rest);
      if a.ch == EOF || a.ch == GT then a
      else if a.ch == SLASH || a.ch == QUESTION then EndOfTag(a.ch, a.attrs, a.rest)
      else ParseElement(es, a.attrs, a.rest)
  }

  // ---- the main loop --------------------------------------------------------------------------

  /** MXML_TEXT before an element has been entered (or without callback), else MXML_OPAQUE. */
  datatype Mode = TextMode | OpaqueMode

  /** The load callback: none, or one that answers MXML_OPAQUE. */
  datatype Callback = NoCallback | OpaqueCallback

  /** An element whose end tag has not been read. */
  datatype Frame = Frame(name: seq<byte>, attrs: seq<Attr>, children: seq<Node>)

  /** Open elements from the root inwards; finished nodes without a parent; the string buffer; the value
      type; `whitespace`; and whether `node` has been assigned. */
  datatype State = State(
    stack: seq<Frame>, roots: seq<Node>, buf: seq<byte>, mode: Mode, whitespace: bool, nodeSet: bool)

  const INIT := State([], [], [], TextMode, false, false)

  function Closed(f: Frame): Node { Element(f.name, f.attrs, f.children) }

  /** A new node under the current parent. */
  function AddNode(st: State, n: Node): State {
    if st.stack == [] then st.(roots := st.roots + [n], nodeSet := true)
    else
      var top := |st.stack| - 1;
      var f := st.stack[top];
      st.(stack := st.stack[..top] + [f.(children := f.children + [n])], nodeSet := true)
  }

  function ModeInside(cb: Callback, m: Mode): Mode { if cb == OpaqueCallback then OpaqueMode else m }

  /** A new element that becomes the parent. */
  function Enter(cb: Callback, st: State, name: seq<byte>, attrs: seq<Attr>): State {
    st.(stack := st.stack + [Frame(name, attrs, [])], mode := ModeInside(cb, st.mode), nodeSet := true)
  }

  /** Leave the innermost open element. */
  function Leave(cb: Callback, st: State): State
    requires st.stack != []
  {
    var top := |st.stack| - 1;
    var up := AddNode(st.(stack := st.stack[..top]), Closed(st.stack[top]));
    if up.stack == [] then up else up.(mode := ModeInside(cb, up.mode))
  }

  /** The call reads the pointer `node` before it was ever assigned: a first word behind white space,
      which this build does not turn into a node. */
  predicate ReadsUnset(st: State, ch: int) {
    st.mode == TextMode && st.buf != [] && (ch == LT || IsXmlSpace(ch)) && st.whitespace && !st.nodeSet
  }

  /** What the character ch does to the text gathered so far. */
  function FlushText(st: State, ch: int): State {
    var space := IsXmlSpace(ch);
    var st1 :=
      if (ch == LT || (space && st.mode == TextMode)) && st.buf != [] then
        (if st.mode == OpaqueMode then AddNode(st, Opaque(st.buf))
         else if !st.whitespace then AddNode(st, Text(false, st.buf))
         else st).(buf := [], whitespace := space && st.mode == TextMode)
      else if space && st.mode == TextMode then st.(whitespace := true)
      else st;
    if ch == LT && st1.mode == TextMode then st1.(whitespace := false) else st1
  }

  /** After a tag: go on, fail, or leave the loop because the input ended inside the tag. */
  datatype Markup = Next(st: State, rest: seq<byte>) | Failed | Stop(st: State)

  function CloseTag(cb: Callback, st: State, n: Scan): Markup
    requires n.buf != []
  {
    if st.stack == [] || n.buf[1..] != st.stack[|st.stack| - 1].name then Failed
    else Next(Leave(cb, st), SkipToEnd(n.ch, n.rest))
  }

  function OpenElement(cb: Callback, es: seq<Entity>, st: State, n: Scan): Markup {
    if IsXmlSpace(n.ch) then
      var p := ParseElement(es, [], n.rest);
      if p.ch == EOF then Failed
      else if p.ch == SLASH then Next(AddNode(st, Element(n.buf, p.attrs, [])), p.rest)
      else Next(Enter(cb, st, n.buf, p.attrs), p.rest)
    else if n.ch == SLASH then
      var g := Getc(n.rest);
      if g.ch != GT then Failed else Next(AddNode(st, Element(n.buf, [], [])), g.rest)
    else if n.ch == EOF then Stop(AddNode(st, Element(n.buf, [], [])))
    else Next(Enter(cb, st, n.buf, []), n.rest)
  }

  /** A raw node or declaration: the parent of what follows if there is no parent yet and `adopts`. */
  function AddSpecial(cb: Callback, st: State, r: Scan, adopts: bool): Markup {
    if !r.ok then Failed
    else if adopts && st.stack == [] then Next(Enter(cb, st, r.buf, []), r.rest)
    else Next(AddNode(st, Element(r.buf, [], [])), r.rest)
  }

  function ReadMarkup(cb: Callback, es: seq<Entity>, st: State, s: seq<byte>): (m: Markup)
    ensures m.Next? ==> |m.rest| <= |s|
  {
    var n := TagName(es, s, []);
    if !n.ok then Failed
    else if n.buf == S_COMMENT then AddSpecial(cb, st, RawRest(Comment, n.rest, n.buf), false)
    else if n.buf == S_CDATA then AddSpecial(cb, st, RawRest(Cdata, n.rest, n.buf), false)
    else if n.buf != [] && n.buf[0] == QUESTION then
      AddSpecial(cb, st, RawRest(Instruction, n.rest, n.buf), true)
    else if n.buf != [] && n.buf[0] == BANG then
      AddSpecial(cb, st, DeclarationRest(es, n.ch, n.rest, n.buf), true)
    else if n.buf != [] && n.buf[0] == SLASH then CloseTag(cb, st, n)
    else OpenElement(cb, es, st, n)
  }

  /** The pointer returned: a tree, NULL, or undefined behaviour on the way. */
  datatype Outcome = Loaded(node: Node) | Null | Undefined

  /** At the end of the input: an element left open is an error unless it is the root itself. */
  function Finish(st: State): Outcome {
    if st.stack != [] then (if |st.stack| == 1 then Loaded(Closed(st.stack[0])) else Null)
    else if st.roots != [] then Loaded(st.roots[0])
    else Null
  }

  /** After one turn of the main loop. */
  datatype Turned = Again(st: State, rest: seq<byte>) | Done(outcome: Outcome)

  function AfterMarkup(m: Markup): Turned {
    match m
    case Next(st, rest) => Again(st.(buf := []), rest)
    case Failed => Done(Null)
    case Stop(st) => Done(Finish(st))
  }

  /** A turn that has read ch, in front of s, and has dealt with the text in front of ch. */
  function TurnFlushed(cb: Callback, es: seq<Entity>, st: State, ch: int, s: seq<byte>): (t: Turned)
    ensures t.Again? ==> |t.rest| <= |s|
  {
    if ch == LT then AfterMarkup(ReadMarkup(cb, es, st, s))
    else if ch == AMP then
      var e := GetEntity(es, s);
      if e.ch == EOF then Done(Null) else Again(st.(buf := st.buf + Encode(e.ch)), e.rest)
    else if st.mode == OpaqueMode || !IsXmlSpace(ch) then Again(st.(buf := st.buf + Encode(ch)), s)
    else Again(st, s)
  }

  /** A turn that has read ch, in front of s. */
  function TurnOn(cb: Callback, es: seq<Entity>, st: State, ch: int, s: seq<byte>): (t: Turned)
    ensures t.Again? ==> |t.rest| <= |s|
  {
    if ReadsUnset(st, ch) then Done(Undefined) else TurnFlushed(cb, es, FlushText(st, ch), ch, s)
  }

  function Loop(cb: Callback, es: seq<Entity>, st: State, s: seq<byte>): Outcome
    decreases |s|
  {
    var g := Getc(s);
    if g.ch == EOF then Finish(st)
    else
      match TurnOn(cb, es, st, g.ch, g.rest)
      case Again(st', rest) => Loop(cb, es, st', rest)
      case Done(outcome) => outcome
  }

  /** mxmlLoadString(NULL, s, cb) */
  function Load(cb: Callback, es: seq<Entity>, s: seq<byte>): Outcome { Loop(cb, es, INIT, s) }
}
