/** mxml_load_data and mxml_parse_element as they run: loops over a character source that fill a growing
    buffer, each proved to compute the function of the same step in XmlParser. */
module XmlLoader {
  import opened CString
  import opened Utf8
  import opened XmlEntity
  import opened XmlTree
  import opened XmlPrinter
  import opened XmlParser
  import opened CharBuffer

  /** The string pointer mxml_string_getc advances. */
  class Reader {
    var rest: seq<byte>

    constructor (s: seq<byte>)
      ensures rest == s
    {
      rest := s;
    }

    method Next() returns (ch: int)
      modifies this
      ensures Got(ch, rest) == Getc(old(rest))
    {
      var g := Getc(rest);
      ch := g.ch;
      rest := g.rest;
    }
  }

  method ReadEntity(es: seq<Entity>, r: Reader) returns (ch: int)
    requires es != [] && Sorted(es)
    modifies r
    ensures Got(ch, r.rest) == GetEntity(es, old(r.rest))
  {
    var name: seq<byte> := [];
    ch := r.Next();
    while ch != EOF && ch <= 126 && (IsAlnum(ch) || ch == HASH) && |name| < 63
      invariant |name| <= 63
      invariant EntityChars(old(r.rest), []) == EntityCharsFrom(Got(ch, r.rest), name)
      decreases |r.rest|, ch != EOF
    {
      name := name + [ch];
      ch := r.Next();
    }
    if ch != SEMICOLON {
      return EOF;
    }
    if name != [] && name[0] == HASH {
      ch := if |name| > 1 && name[1] == 120 then HexNumber(name[2..]) else Number(name[1..], 10, 0);
    } else {
      ch := EntityValue(es, name);
    }
    if BadChar(ch) {
      ch := EOF;
    }
  }

  /** EntityChars once the next character has been read. */
  function EntityCharsFrom(g: Got, acc: seq<byte>): Scan
    requires |acc| <= 63
  {
    if g.ch == EOF || g.ch > 126 || (!IsAlnum(g.ch) && g.ch != HASH) || |acc| == 63 then
      Scan(true, acc, g.ch, g.rest)
    else EntityChars(g.rest, acc + [g.ch])
  }

  method ReadTagName(es: seq<Entity>, r: Reader, b: Buffer) returns (ok: bool, ch: int)
    requires es != [] && Sorted(es) && b.Valid()
    modifies r, b, b.buffer
    ensures b.Valid() && (b.buffer == old(b.buffer) || fresh(b.buffer))
    ensures Scan(ok, b.Contents(), ch, r.rest) == TagName(es, old(r.rest), old(b.Contents()))
  {
    while true
      invariant b.Valid() && (b.buffer == old(b.buffer) || fresh(b.buffer))
      invariant TagName(es, r.rest, b.Contents()) == TagName(es, old(r.rest), old(b.Contents()))
      decreases |r.rest|
    {
      ghost var s, buf := r.rest, b.Contents();
      ch := r.Next();
      if ch == EOF || IsXmlSpace(ch) || ch == GT || (ch == SLASH && b.len > 0) {
        return true, ch;
      }
      if ch == LT {
        return false, ch;
      }
      if ch == AMP {
        ch := ReadEntity(es, r);
        if ch == EOF {
          return false, ch;
        }
        b.AddChar(ch);
      } else {
        b.AddChar(ch);
        if OpensRaw(b.buffer[..b.len]) {
          return true, ch;
        }
      }
    }
  }

  method ReadRaw(kind: RawKind, r: Reader, b: Buffer) returns (ok: bool, ch: int)
    requires b.Valid()
    modifies r, b, b.buffer
    ensures b.Valid() && (b.buffer == old(b.buffer) || fresh(b.buffer))
    ensures Scan(ok, b.Contents(), ch, r.rest) == RawRest(kind, old(r.rest), old(b.Contents()))
  {
    while true
      invariant b.Valid() && (b.buffer == old(b.buffer) || fresh(b.buffer))
      invariant RawRest(kind, r.rest, b.Contents()) == RawRest(kind, old(r.rest), old(b.Contents()))
      decreases |r.rest|
    {
      ch := r.Next();
      if ch == EOF {
        return false, ch;
      }
      if ch == GT && RawEnds(kind, b.buffer[..b.len]) {
        return true, ch;
      }
      b.AddChar(ch);
    }
  }

  /** The loop behind <!, entered with the character that ended the name. */
  method ReadDeclaration(es: seq<Entity>, first: int, r: Reader, b: Buffer) returns (ok: bool, ch: int)
    requires es != [] && Sorted(es) && b.Valid()
    modifies r, b, b.buffer
    ensures b.Valid() && (b.buffer == old(b.buffer) || fresh(b.buffer))
    ensures Scan(ok, b.Contents(), ch, r.rest) == DeclarationRest(es, first, old(r.rest), old(b.Contents()))
  {
    ch := first;
    while true
      invariant b.Valid() && (b.buffer == old(b.buffer) || fresh(b.buffer))
      invariant DeclarationRest(es, ch, r.rest, b.Contents())
                == DeclarationRest(es, first, old(r.rest), old(b.Contents()))
      decreases |r.rest|
    {
      if ch == GT {
        return true, ch;
      }
      if ch == AMP {
        ch := ReadEntity(es, r);
        if ch == EOF {
          return false, ch;
        }
      }
      b.AddChar(ch);
      ch := r.Next();
      if ch == EOF {
        ok := false;
        return;
      }
    }
  }

  /** Skip the rest of a close tag. */
  method ReadToEnd(first: int, r: Reader)
    modifies r
    ensures r.rest == SkipToEnd(first, old(r.rest))
  {
    var ch := first;
    while ch != GT && ch != EOF
      invariant ch == EOF || SkipToEnd(ch, r.rest) == SkipToEnd(first, old(r.rest))
      invariant ch == EOF ==> r.rest == SkipToEnd(first, old(r.rest))
      decreases |r.rest|, ch != EOF
    {
      ch := r.Next();
    }
  }

  method ReadSpace(first: int, r: Reader) returns (ch: int)
    modifies r
    ensures Got(ch, r.rest) == SkipSpace(first, old(r.rest))
  {
    ch := first;
    while ch != EOF && IsXmlSpace(ch)
      invariant SkipSpace(ch, r.rest) == SkipSpace(first, old(r.rest))
      decreases |r.rest|, ch != EOF
    {
      ch := r.Next();
    }
  }

  method ReadQuotedName(es: seq<Entity>, quote: int, r: Reader, b: Buffer) returns (ok: bool, ch: int)
    requires es != [] && Sorted(es) && b.Valid()
    modifies r, b, b.buffer
    ensures b.Valid() && (b.buffer == old(b.buffer) || fresh(b.buffer))
    ensures Scan(ok, b.Contents(), ch, r.rest) == QuotedName(es, quote, old(r.rest), old(b.Contents()))
  {
    while true
      invariant b.Valid() && (b.buffer == old(b.buffer) || fresh(b.buffer))
      invariant QuotedName(es, quote, r.rest, b.Contents()) == QuotedName(es, quote, old(r.rest), old(b.Contents()))
      decreases |r.rest|
    {
      ch := r.Next();
      if ch == EOF {
        return true, ch;
      }
      if ch == AMP {
        ch := ReadEntity(es, r);
        if ch == EOF {
          return false, ch;
        }
      }
      b.AddChar(ch);
      if ch == quote {
        return true, ch;
      }
    }
  }

  method ReadBareWord(es: seq<Entity>, isName: bool, r: Reader, b: Buffer) returns (ok: bool, ch: int)
    requires es != [] && Sorted(es) && b.Valid()
    modifies r, b, b.buffer
    ensures b.Valid() && (b.buffer == old(b.buffer) || fresh(b.buffer))
    ensures Scan(ok, b.Contents(), ch, r.rest) == BareWord(es, isName, old(r.rest), old(b.Contents()))
  {
    while true
      invariant b.Valid() && (b.buffer == old(b.buffer) || fresh(b.buffer))
      invariant BareWord(es, isName, r.rest, b.Contents()) == BareWord(es, isName, old(r.rest), old(b.Contents()))
      decreases |r.rest|
    {
      ch := r.Next();
      if ch == EOF || IsXmlSpace(ch) || ch == EQUALS || ch == SLASH || ch == GT || (isName && ch == QUESTION) {
        return true, ch;
      }
      if ch == AMP {
        ch := ReadEntity(es, r);
        if ch == EOF {
          return false, ch;
        }
      }
      b.AddChar(ch);
    }
  }

  method ReadQuotedValue(es: seq<Entity>, quote: int, r: Reader, b: Buffer) returns (ok: bool, ch: int)
    requires es != [] && Sorted(es) && b.Valid()
    modifies r, b, b.buffer
    ensures b.Valid() && (b.buffer == old(b.buffer) || fresh(b.buffer))
    ensures Scan(ok, b.Contents(), ch, r.rest) == QuotedValue(es, quote, old(r.rest), old(b.Contents()))
  {
    while true
      invariant b.Valid() && (b.buffer == old(b.buffer) || fresh(b.buffer))
      invariant QuotedValue(es, quote, r.rest, b.Contents()) == QuotedValue(es, quote, old(r.rest), old(b.Contents()))
      decreases |r.rest|
    {
      ch := r.Next();
      if ch == EOF || ch == quote {
        return true, ch;
      }
      if ch == AMP {
        ch := ReadEntity(es, r);
        if ch == EOF {
          return false, ch;
        }
      }
      b.AddChar(ch);
    }
  }

  /** The value behind =, in the buffer b. */
  method ReadValue(es: seq<Entity>, r: Reader, b: Buffer) returns (ok: bool, ch: int)
    requires es != [] && Sorted(es) && b.Valid()
    modifies r, b, b.buffer
    ensures b.Valid() && (b.buffer == old(b.buffer) || fresh(b.buffer))
    ensures var v := AttrValue(es, old(r.rest));
            ok == v.ok && ch == v.ch && r.rest == v.rest && (ok ==> b.Contents() == v.buf)
  {
    ch := r.Next();
    ch := ReadSpace(ch, r);
    if ch == EOF {
      return false, ch;
    }
    if ch == APOS || ch == QUOT {
      b.Reset();
      ok, ch := ReadQuotedValue(es, ch, r, b);
    } else {
      b.Start(ch);
      ok, ch := ReadBareWord(es, false, r, b);
    }
  }

  method ReadName(es: seq<Entity>, first: int, r: Reader, b: Buffer) returns (ok: bool, ch: int)
    requires es != [] && Sorted(es) && b.Valid()
    modifies r, b, b.buffer
    ensures b.Valid() && (b.buffer == old(b.buffer) || fresh(b.buffer))
    ensures Scan(ok, b.Contents(), ch, r.rest) == AttrName(es, first, old(r.rest))
  {
    b.Start(first);
    if first == QUOT || first == APOS {
      ok, ch := ReadQuotedName(es, first, r, b);
    } else {
      ok, ch := ReadBareWord(es, true, r, b);
    }
  }

  /** One attribute, with the buffers `name` and `value`; EOF is an error. */
  method ReadAttr(es: seq<Entity>, attrs: seq<Attr>, first: int, r: Reader, name: Buffer, value: Buffer)
    returns (ch: int, attrs': seq<Attr>)
    requires es != [] && Sorted(es) && name.Valid() && value.Valid()
    requires name != value && name.buffer != value.buffer
    modifies r, name, name.buffer, value, value.buffer
    ensures name.Valid() && value.Valid() && name.buffer != value.buffer
    ensures name.buffer == old(name.buffer) || fresh(name.buffer)
    ensures value.buffer == old(value.buffer) || fresh(value.buffer)
    ensures Parsed(ch, attrs', r.rest) == OneAttr(es, attrs, first, old(r.rest))
  {
    attrs' := attrs;
    var ok: bool;
    ok, ch := ReadName(es, first, r, name);
    if !ok {
      return EOF, attrs;
    }
    var key := CStr(name.buffer[..name.len]);
    if GetAttr(attrs, key).Some? {
      return EOF, attrs;
    }
    ch := ReadSpace(ch, r);
    if ch != EQUALS {
      return EOF, attrs;
    }
    ok, ch := ReadValue(es, r, value);
    if !ok {
      return EOF, attrs;
    }
    attrs' := SetAttr(attrs, key, Some(CStr(value.buffer[..value.len])));
    ch := if ch == EOF then 0 else ch;
  }

  /** / or ? must be followed by > */
  method ReadEndOfTag(ch: int, r: Reader) returns (end: int)
    modifies r
    ensures Parsed(end, [], r.rest) == EndOfTag(ch, [], old(r.rest))
  {
    var quote := r.Next();
    end := if quote == GT then ch else EOF;
  }

  /** mxml_parse_element */
  method ReadElement(es: seq<Entity>, r: Reader) returns (ch: int, attrs: seq<Attr>)
    requires es != [] && Sorted(es)
    modifies r
    ensures Parsed(ch, attrs, r.rest) == ParseElement(es, [], old(r.rest))
  {
    var name := new Buffer();
    var value := new Buffer();
    attrs := [];
    while true
      invariant fresh(name) && fresh(name.buffer) && fresh(value) && fresh(value.buffer)
      invariant name.Valid() && value.Valid() && name != value && name.buffer != value.buffer
      invariant ParseElement(es, attrs, r.rest) == ParseElement(es, [], old(r.rest))
      decreases |r.rest|
    {
      ch := r.Next();
      if ch == EOF || ch == LT {
        return EOF, attrs;
      }
      if ch == GT {
        return;
      }
      if !IsXmlSpace(ch) {
        if ch != SLASH && ch != QUESTION {
          ch, attrs := ReadAttr(es, attrs, ch, r, name, value);
          if ch == EOF || ch == GT {
            return;
          }
        }
        if ch == SLASH || ch == QUESTION {
          ch := ReadEndOfTag(ch, r);
          return;
        }
      }
    }
  }

  // ---- tags -----------------------------------------------------------------------------------

  /** What stands behind a <: nothing usable, a raw node or declaration (which may become the parent), an end tag, a
      start tag, or the name of an element in which the input ends. */
  datatype Tag =
    | BadTag
    | SpecialTag(name: seq<byte>, adopts: bool)
    | EndTag(name: seq<byte>)
    | StartTag(name: seq<byte>, attrs: seq<Attr>, empty: bool)
    | CutTag(name: seq<byte>)

  datatype TagRead = TagRead(tag: Tag, rest: seq<byte>)

  function SpecialOf(r: Scan, adopts: bool): TagRead {
    TagRead(if r.ok then SpecialTag(r.buf, adopts) else BadTag, r.rest)
  }

  function StartOf(es: seq<Entity>, n: Scan): TagRead {
    if IsXmlSpace(n.ch) then
      var p := ParseElement(es, [], n.rest);
      TagRead(if p.ch == EOF then BadTag else StartTag(n.buf, p.attrs, p.ch == SLASH), p.rest)
    else if n.ch == SLASH then
      var g := Getc(n.rest);
      TagRead(if g.ch != GT then BadTag else StartTag(n.buf, [], true), g.rest)
    else TagRead(if n.ch == EOF then CutTag(n.buf) else StartTag(n.buf, [], false), n.rest)
  }

  function TagOf(es: seq<Entity>, s: seq<byte>): TagRead {
    var n := TagName(es, s, []);
    if !n.ok then TagRead(BadTag, n.rest)
    else if n.buf == S_COMMENT then SpecialOf(RawRest(Comment, n.rest, n.buf), false)
    else if n.buf == S_CDATA then SpecialOf(RawRest(Cdata, n.rest, n.buf), false)
    else if n.buf != [] && n.buf[0] == QUESTION then SpecialOf(RawRest(Instruction, n.rest, n.buf), true)
    else if n.buf != [] && n.buf[0] == BANG then SpecialOf(DeclarationRest(es, n.ch, n.rest, n.buf), true)
    else if n.buf != [] && n.buf[0] == SLASH then TagRead(EndTag(n.buf[1..]), SkipToEnd(n.ch, n.rest))
    else StartOf(es, n)
  }

  /** What a tag does to the tree. */
  function Act(cb: Callback, st: State, t: TagRead): Markup {
    match t.tag
    case BadTag => Failed
    case SpecialTag(name, adopts) =>
      Markup.Next(if adopts && st.stack == [] then Enter(cb, st, name, []) else AddNode(st, Element(name, [], [])),
                  t.rest)
    case EndTag(name) =>
      if st.stack == [] || name != st.stack[|st.stack| - 1].name then Failed else Markup.Next(Leave(cb, st), t.rest)
    case StartTag(name, attrs, empty) =>
      Markup.Next(if empty then AddNode(st, Element(name, attrs, [])) else Enter(cb, st, name, attrs), t.rest)
    case CutTag(name) => Stop(AddNode(st, Element(name, [], [])))
  }

  /** Reading markup is reading the tag, which does not depend on the tree, and then acting on it. */
  lemma {:induction false} MarkupIsTag(cb: Callback, es: seq<Entity>, st: State, s: seq<byte>)
    ensures ReadMarkup(cb, es, st, s) == Act(cb, st, TagOf(es, s))
  {
    OpenIsStart(cb, es, st, TagName(es, s, []));
  }

  lemma {:induction false} OpenIsStart(cb: Callback, es: seq<Entity>, st: State, n: Scan)
    ensures OpenElement(cb, es, st, n) == Act(cb, st, StartOf(es, n))
  {
  }

  /** A raw node or declaration, whose first part is in the buffer and was ended by `end`. */
  method ReadSpecial(es: seq<Entity>, end: int, r: Reader, b: Buffer) returns (tag: Tag)
    requires es != [] && Sorted(es) && b.Valid()
    requires b.len > 0 && (b.buffer[0] == QUESTION || b.buffer[0] == BANG)
    modifies r, b, b.buffer
    ensures b.Valid() && (b.buffer == old(b.buffer) || fresh(b.buffer))
    ensures TagRead(tag, r.rest) == SpecialFrom(es, Scan(true, old(b.Contents()), end, old(r.rest)))
  {
    var ok: bool;
    var ch: int;
    var prefix := b.buffer[..b.len];
    if prefix == S_COMMENT {
      ok, ch := ReadRaw(Comment, r, b);
    } else if prefix == S_CDATA {
      ok, ch := ReadRaw(Cdata, r, b);
    } else if b.buffer[0] == QUESTION {
      ok, ch := ReadRaw(Instruction, r, b);
    } else {
      ok, ch := ReadDeclaration(es, end, r, b);
    }
    tag := if ok then SpecialTag(b.buffer[..b.len], prefix != S_COMMENT && prefix != S_CDATA) else BadTag;
  }

  function SpecialFrom(es: seq<Entity>, n: Scan): TagRead
    requires n.buf != []
  {
    if n.buf == S_COMMENT then SpecialOf(RawRest(Comment, n.rest, n.buf), false)
    else if n.buf == S_CDATA then SpecialOf(RawRest(Cdata, n.rest, n.buf), false)
    else if n.buf[0] == QUESTION then SpecialOf(RawRest(Instruction, n.rest, n.buf), true)
    else SpecialOf(DeclarationRest(es, n.ch, n.rest, n.buf), true)
  }

  /** A start tag, whose name was ended by `end`. */
  method ReadStart(es: seq<Entity>, name: seq<byte>, end: int, r: Reader) returns (tag: Tag)
    requires es != [] && Sorted(es)
    modifies r
    ensures TagRead(tag, r.rest) == StartOf(es, Scan(true, name, end, old(r.rest)))
  {
    var ch := end;
    var attrs: seq<Attr> := [];
    if IsXmlSpace(ch) {
      ch, attrs := ReadElement(es, r);
      if ch == EOF {
        return BadTag;
      }
    } else if ch == SLASH {
      ch := r.Next();
      if ch != GT {
        return BadTag;
      }
      ch := SLASH;
    }
    tag := if ch == EOF then CutTag(name) else StartTag(name, attrs, ch == SLASH);
  }

  /** Everything behind a <. */
  method ReadMarkupTag(es: seq<Entity>, r: Reader, b: Buffer) returns (tag: Tag)
    requires es != [] && Sorted(es) && b.Valid()
    modifies r, b, b.buffer
    ensures b.Valid() && (b.buffer == old(b.buffer) || fresh(b.buffer))
    ensures TagRead(tag, r.rest) == TagOf(es, old(r.rest))
  {
    b.Reset();
    var ok, ch := ReadTagName(es, r, b);
    if !ok {
      return BadTag;
    }
    var name := b.buffer[..b.len];
    if name != [] && (name[0] == QUESTION || name[0] == BANG) {
      tag := ReadSpecial(es, ch, r, b);
    } else if name != [] && name[0] == SLASH {
      ReadToEnd(ch, r);
      tag := EndTag(name[1..]);
    } else {
      tag := ReadStart(es, name, ch, r);
    }
  }
}

/** The main loop of mxml_load_data, which builds the tree on the heap. */
module XmlLoading {
  import opened CString
  import opened Utf8
  import opened XmlEntity
  import opened XmlPrinter
  import opened XmlParser
  import opened CharBuffer
  import opened XmlLoader
  import opened XmlBuilding
  import opened XmlBuilder
  import opened XmlUnset
  import F = XmlForest
  import W = XmlWalk
  import C = XmlContent
  import XmlTree

  /** The state with the text gathered so far. */
  function Gathered(st: State, text: seq<byte>, whitespace: bool): State {
    st.(buf := text, whitespace := whitespace)
  }

  /** How a turn ends: with the next one, with an error, because the input ends inside a tag, or by following a
      pointer that was never set. */
  datatype Turn = GoOn | Fail | Ended | Lost

  /** Text in front of < or, outside opaque text, in front of white space becomes a node. */
  method AddText(t: Builder, text: seq<byte>, ch: int, whitespace: bool) returns (ws: bool, flushed: bool)
    requires t.Valid()
    modifies t, t.nodes
    ensures t.Valid() && fresh(t.nodes - old(t.nodes))
    ensures FlushText(Gathered(old(t.Tree()), text, whitespace), ch)
            == Gathered(t.Tree(), if flushed then [] else text, ws)
  {
    FlushIs(t.Tree(), text, ch, whitespace);
    var space, opaque_ := IsXmlSpace(ch), t.mode == OpaqueMode;
    flushed := (ch == LT || (space && !opaque_)) && text != [];
    if flushed {
      ws := space && !opaque_;
      if opaque_ {
        t.AddLeaf(F.OpaqueValue(text));
      } else if !whitespace {
        t.AddLeaf(F.TextValue(false, text));
      }
    } else {
      ws := whitespace || (space && !opaque_);
    }
    if ch == LT && !opaque_ {
      ws := false;
    }
  }

  /** The text becomes a node, or is dropped, or stays. */
  lemma {:induction false} FlushIs(st: State, text: seq<byte>, ch: int, whitespace: bool)
    ensures var space, opaque_ := IsXmlSpace(ch), st.mode == OpaqueMode;
            var flushed := (ch == LT || (space && !opaque_)) && text != [];
            var ws := (if flushed then space else whitespace || (space && !opaque_)) && !(ch == LT && !opaque_);
            FlushText(Gathered(st, text, whitespace), ch)
            == Gathered(if !flushed then st
                        else if opaque_ then AddNode(st, XmlTree.Opaque(text))
                        else if !whitespace then AddNode(st, XmlTree.Text(false, text))
                        else st,
                        if flushed then [] else text, ws && !(flushed && opaque_))
  {
  }

  /** A new element, which becomes the parent of what follows or not. */
  method AddElement(cb: Callback, t: Builder, name: seq<byte>, attrs: seq<XmlTree.Attr>, opens: bool)
    requires t.Valid()
    modifies t, t.nodes
    ensures t.Valid() && fresh(t.nodes - old(t.nodes))
    ensures t.Tree() == if opens then Enter(cb, old(t.Tree()), name, attrs)
                        else AddNode(old(t.Tree()), XmlTree.Element(name, attrs, []))
  {
    if opens {
      t.Open(cb, name, attrs);
    } else {
      t.AddLeaf(F.ElementValue(name, attrs));
    }
  }

  /** Leaves the innermost element if it is called that. */
  method CloseIf(cb: Callback, t: Builder, name: seq<byte>) returns (same: bool)
    requires t.Valid()
    modifies t
    ensures t.Valid() && t.nodes == old(t.nodes)
    ensures var st := old(t.Tree());
            same == (st.stack != [] && name == st.stack[|st.stack| - 1].name)
            && t.Tree() == if same then Leave(cb, st) else st
  {
    same := t.ParentIs(name);
    if same {
      t.Close(cb);
    }
  }

  /** What the tag does. */
  method AddTag(cb: Callback, t: Builder, tag: Tag, ghost rest: seq<byte>) returns (end: Turn)
    requires t.Valid()
    modifies t, t.nodes
    ensures t.Valid() && fresh(t.nodes - old(t.nodes))
    ensures Acted(Act(cb, old(t.Tree()), TagRead(tag, rest)), end, t.Tree())
  {
    end := GoOn;
    match tag
    case BadTag =>
      end := Fail;
    case SpecialTag(name, adopts) =>
      var inside := t.HasParent();
      AddElement(cb, t, name, [], adopts && !inside);
    case EndTag(name) =>
      var same := CloseIf(cb, t, name);
      end := if same then GoOn else Fail;
    case StartTag(name, attrs, empty) =>
      AddElement(cb, t, name, attrs, !empty);
    case CutTag(name) =>
      AddElement(cb, t, name, [], false);
      end := Ended;
  }

  /** What is read, and what goes into the buffer, in a turn for the character ch. */
  method ReadOn(es: seq<Entity>, ch: int, flushed: bool, opaque_: bool, r: Reader, b: Buffer)
    returns (ok: bool, tag: Tag)
    requires es != [] && Sorted(es) && b.Valid()
    modifies r, b, b.buffer
    ensures b.Valid() && (b.buffer == old(b.buffer) || fresh(b.buffer))
    ensures HasRead(es, ch, opaque_, if flushed then [] else old(b.Contents()), old(r.rest),
                    ok, tag, b.Contents(), r.rest)
  {
    ok, tag := true, BadTag;
    if flushed {
      b.Reset();
    }
    if ch == LT {
      tag := ReadMarkupTag(es, r, b);
      b.Reset();
    } else if ch == AMP {
      var code := ReadEntity(es, r);
      if code == EOF {
        return false, tag;
      }
      b.AddChar(code);
    } else if opaque_ || !IsXmlSpace(ch) {
      b.AddChar(ch);
    }
  }

  /** The same; the tree is not touched. */
  method ReadApart(es: seq<Entity>, ch: int, flushed: bool, opaque_: bool, t: Builder, r: Reader, b: Buffer)
    returns (ok: bool, tag: Tag)
    requires es != [] && Sorted(es) && b.Valid() && t.Valid()
    modifies r, b, b.buffer
    ensures t.Valid() && b.Valid() && (b.buffer == old(b.buffer) || fresh(b.buffer))
    ensures HasRead(es, ch, opaque_, if flushed then [] else old(b.Contents()), old(r.rest),
                    ok, tag, b.Contents(), r.rest)
  {
    ok, tag := ReadOn(es, ch, flushed, opaque_, r, b);
  }

  /** A turn for a < in front of which there is no text; st is the state then. */
  method LoadMarkup(cb: Callback, es: seq<Entity>, ws: bool, flushed: bool, ghost st: State, t: Builder, r: Reader,
                    b: Buffer) returns (end: Turn)
    requires es != [] && Sorted(es) && t.Valid() && b.Valid() && st == Gathered(t.Tree(), [], ws)
    modifies t, t.nodes, r, b, b.buffer
    ensures t.Valid() && fresh(t.nodes - old(t.nodes))
    ensures b.Valid() && (b.buffer == old(b.buffer) || fresh(b.buffer))
    ensures Turned(TurnFlushed(cb, es, st, LT, old(r.rest)), end, Gathered(t.Tree(), b.Contents(), ws), r.rest)
  {
    ghost var s := r.rest;
    var ok, tag := ReadApart(es, LT, flushed, false, t, r, b);
    ghost var before := t.Tree();
    end := AddTag(cb, t, tag, r.rest);
    ActedGathered(cb, before, ws, TagRead(tag, r.rest), end, t.Tree());
    TagTurn(cb, es, st, s, tag, r.rest, end, Gathered(t.Tree(), b.Contents(), ws));
  }

  /** A turn for any other character, once the text in front of it has been dealt with. */
  method LoadChar(cb: Callback, es: seq<Entity>, ch: int, ws: bool, flushed: bool, ghost st: State, t: Builder,
                  r: Reader, b: Buffer) returns (end: Turn)
    requires es != [] && Sorted(es) && t.Valid() && b.Valid() && ch != LT
    requires st == Gathered(t.Tree(), if flushed then [] else b.Contents(), ws)
    modifies r, b, b.buffer
    ensures t.Valid() && b.Valid() && (b.buffer == old(b.buffer) || fresh(b.buffer))
    ensures Turned(TurnFlushed(cb, es, st, ch, old(r.rest)), end, Gathered(t.Tree(), b.Contents(), ws), r.rest)
  {
    ghost var s := r.rest;
    var opaque_ := t.mode == OpaqueMode;
    var ok, tag := ReadApart(es, ch, flushed, opaque_, t, r, b);
    end := if ok then GoOn else Fail;
    TextTurn(cb, es, st, ch, s, opaque_, ok, tag, b.Contents(), r.rest);
  }

  /** One turn of the loop of mxml_load_data, for the character ch; st is the state in front of it. */
  method LoadTurn(cb: Callback, es: seq<Entity>, ch: int, whitespace: bool, ghost st: State, t: Builder, r: Reader,
                  b: Buffer) returns (ws: bool, end: Turn)
    requires es != [] && Sorted(es) && t.Valid() && b.Valid() && st == Gathered(t.Tree(), b.Contents(), whitespace)
    modifies t, t.nodes, r, b, b.buffer
    ensures t.Valid() && fresh(t.nodes - old(t.nodes))
    ensures b.Valid() && (b.buffer == old(b.buffer) || fresh(b.buffer))
    ensures Turned(TurnFlushed(cb, es, FlushText(st, ch), ch, old(r.rest)),
                   end, Gathered(t.Tree(), b.Contents(), ws), r.rest)
  {
    var flushed;
    ws, flushed := AddText(t, b.buffer[..b.len], ch, whitespace);
    TurnCases(cb, es, st, ch, r.rest);
    if ch == LT {
      end := LoadMarkup(cb, es, ws, flushed, FlushText(st, ch), t, r, b);
    } else {
      end := LoadChar(cb, es, ch, ws, flushed, FlushText(st, ch), t, r, b);
    }
  }

  /** One pass of the loop: the turn for ch and, unless the loop is left, the next character. */
  method LoadStep(cb: Callback, es: seq<Entity>, ghost s: seq<byte>, ch: int, whitespace: bool, t: Builder, r: Reader,
                  b: Buffer) returns (ws: bool, end: Turn, next: int)
    requires es != [] && Sorted(es) && t.Valid() && b.Valid() && ch != EOF
    requires Reached(cb, es, s, GoOn, Gathered(t.Tree(), b.Contents(), whitespace), Got(ch, r.rest))
    modifies t, t.nodes, r, b, b.buffer
    ensures t.Valid() && fresh(t.nodes - old(t.nodes))
    ensures b.Valid() && (b.buffer == old(b.buffer) || fresh(b.buffer))
    ensures Reached(cb, es, s, end, Gathered(t.Tree(), b.Contents(), ws), Got(next, r.rest))
    ensures end == GoOn && next != EOF ==> |r.rest| < |old(r.rest)|
  {
    ghost var st, rest := Gathered(t.Tree(), b.Contents(), whitespace), r.rest;
    TurnCases(cb, es, st, ch, rest);
    ws, end, next := whitespace, Lost, ch;
    if !(t.mode == TextMode && b.len > 0 && (ch == LT || IsXmlSpace(ch)) && whitespace && !t.nodeSet) {
      ws, end := LoadTurn(cb, es, ch, whitespace, st, t, r, b);
      ghost var st', rest' := Gathered(t.Tree(), b.Contents(), ws), r.rest;
      if end == GoOn {
        next := NextChar(t, r, b);
      }
      OneTurn(cb, es, s, st, ch, rest, end, st', rest', Got(next, r.rest));
    }
  }

  /** A turn leads on. */
  lemma {:induction false} OneTurn(cb: Callback, es: seq<Entity>, s: seq<byte>, st: State, ch: int, rest: seq<byte>,
                                   end: Turn, st': State, rest': seq<byte>, g: Got)
    requires Load(cb, es, s) == LoopFrom(cb, es, st, Got(ch, rest)) && ch != EOF && !ReadsUnset(st, ch)
    requires Turned(TurnFlushed(cb, es, FlushText(st, ch), ch, rest), end, st', rest')
    requires end == GoOn ==> g == Getc(rest')
    ensures Reached(cb, es, s, end, st', g)
    ensures end == GoOn ==> |rest'| <= |rest|
  {
  }

  /** The loop of mxml_load_data. */
  method LoadLoop(cb: Callback, es: seq<Entity>, ghost s: seq<byte>, t: Builder, r: Reader, b: Buffer)
    returns (end: Turn)
    requires es != [] && Sorted(es) && t.Valid() && b.Valid()
    requires t.Tree() == INIT && b.Contents() == [] && r.rest == s
    modifies t, t.nodes, r, b, b.buffer
    ensures t.Valid() && fresh(t.nodes - old(t.nodes))
    ensures Load(cb, es, s) == Ending(end, t.Tree())
  {
    var ws := false;
    var ch := NextChar(t, r, b);
    end := GoOn;
    while ch != EOF && end == GoOn
      invariant t.Valid() && fresh(t.nodes - old(t.nodes))
      invariant b.Valid() && (b.buffer == old(b.buffer) || fresh(b.buffer))
      invariant Reached(cb, es, s, end, Gathered(t.Tree(), b.Contents(), ws), Got(ch, r.rest))
      decreases if end == GoOn && ch != EOF then |r.rest| + 1 else 0
    {
      ws, end, ch := LoadStep(cb, es, s, ch, ws, t, r, b);
    }
    LoopEnds(cb, es, s, end, t.Tree(), b.Contents(), ws, Got(ch, r.rest));
  }

  /** What a load comes to when the loop has been left. */
  function Ending(end: Turn, st: State): Outcome {
    match end
    case Fail => Null
    case Lost => Undefined
    case _ => Finish(st)
  }

  lemma {:induction false} LoopEnds(cb: Callback, es: seq<Entity>, s: seq<byte>, end: Turn, st: State, text: seq<byte>,
                                    ws: bool, g: Got)
    requires Reached(cb, es, s, end, Gathered(st, text, ws), g) && (g.ch == EOF || end != GoOn)
    ensures Load(cb, es, s) == Ending(end, st)
  {
  }

  /** What is returned when the loop has been left. */
  method LoadResult(t: Builder, end: Turn) returns (lost: bool, root: F.Node?)
    requires t.Valid()
    ensures var o := Ending(end, t.Tree());
            (lost <==> o == Undefined) && (!lost ==> Stands(o, root, t.s.vals, t.s.f))
  {
    lost, root := end == Lost, null;
    if end == GoOn || end == Ended {
      root := t.Result();
    }
  }

  /** Everything up to the end of the loop. */
  method Build(cb: Callback, es: seq<Entity>, s: seq<byte>) returns (t: Builder, end: Turn)
    requires es != [] && Sorted(es)
    ensures t.Valid() && fresh(t) && fresh(t.nodes)
    ensures Load(cb, es, s) == Ending(end, t.Tree())
  {
    var r := new Reader(s);
    var b := new Buffer();
    t := new Builder();
    end := LoadLoop(cb, es, s, t, r, b);
  }

  /** mxml_load_data for a NULL top node. `lost` says that a pointer was followed that was never set; else root is the
      tree, which stands alone in a forest of new nodes, or null. */
  method LoadData(cb: Callback, es: seq<Entity>, s: seq<byte>)
    returns (lost: bool, root: F.Node?, ghost vals: map<F.Node, F.Value>, ghost f: F.Forest)
    requires es != [] && Sorted(es)
    ensures F.Linked(f) && W.Knows(vals, f) && fresh(f.kids.Keys)
    ensures lost <==> StartsWithWord(es, s)
    ensures !lost ==> Stands(Load(cb, es, s), root, vals, f)
  {
    var t, end := Build(cb, es, s);
    lost, root := LoadResult(t, end);
    vals, f := t.s.vals, t.s.f;
    LostExactly(cb, es, s);
  }

  method NextChar(t: Builder, r: Reader, b: Buffer) returns (ch: int)
    requires t.Valid() && b.Valid()
    modifies r
    ensures t.Valid() && b.Valid() && Got(ch, r.rest) == Getc(old(r.rest))
  {
    ch := r.Next();
  }

  /** What the loop has come to is what is left of the specification. */
  predicate Reached(cb: Callback, es: seq<Entity>, s: seq<byte>, end: Turn, st: State, g: Got) {
    match end
    case GoOn => Load(cb, es, s) == LoopFrom(cb, es, st, g)
    case Fail => Load(cb, es, s) == Null
    case Ended => Load(cb, es, s) == Finish(st)
    case Lost => Load(cb, es, s) == Undefined
  }

  /** Loop once the next character has been read. */
  function LoopFrom(cb: Callback, es: seq<Entity>, st: State, g: Got): Outcome {
    if g.ch == EOF then Finish(st)
    else
      match TurnOn(cb, es, st, g.ch, g.rest)
      case Again(st', rest) => Loop(cb, es, st', rest)
      case Done(outcome) => outcome
  }

  lemma {:induction false} TurnCases(cb: Callback, es: seq<Entity>, st: State, ch: int, s: seq<byte>)
    ensures TurnOn(cb, es, st, ch, s)
            == if ReadsUnset(st, ch) then Done(Undefined) else TurnFlushed(cb, es, FlushText(st, ch), ch, s)
    ensures ch == LT ==> FlushText(st, ch).buf == []
  {
  }

  /** What a turn of the specification comes to. */
  predicate Turned(turn: XmlParser.Turned, end: Turn, st: State, rest: seq<byte>) {
    match turn
    case Again(st', rest') => end == GoOn && st' == st && rest' == rest
    case Done(o) => (end == Fail && o == Null) || (end == Lost && o == Undefined) || (end == Ended && o == Finish(st))
  }

  /** A turn for a tag is reading it and then acting on it. */
  lemma {:induction false} TagTurn(cb: Callback, es: seq<Entity>, st: State, s: seq<byte>, tag: Tag, rest: seq<byte>,
                                   end: Turn, st': State)
    requires st.buf == [] && TagRead(tag, rest) == TagOf(es, s) && Acted(Act(cb, st, TagRead(tag, rest)), end, st')
    ensures Turned(TurnFlushed(cb, es, st, LT, s), end, st', rest)
  {
    MarkupIsTag(cb, es, st, s);
  }

  lemma {:induction false} TextTurn(cb: Callback, es: seq<Entity>, st: State, ch: int, s: seq<byte>, opaque_: bool,
                                    ok: bool, tag: Tag, text: seq<byte>, rest: seq<byte>)
    requires ch != LT && opaque_ == (st.mode == OpaqueMode)
    requires HasRead(es, ch, opaque_, st.buf, s, ok, tag, text, rest)
    ensures Turned(TurnFlushed(cb, es, st, ch, s), if ok then GoOn else Fail, st.(buf := text), rest)
  {
  }

  /** What acting on a tag comes to. */
  predicate Acted(m: Markup, end: Turn, st: State) {
    match m
    case Next(st', _) => end == GoOn && st' == st
    case Failed => end == Fail
    case Stop(st') => end == Ended && st' == st
  }

  /** The white space seen so far plays no part in it. */
  lemma {:induction false} ActedGathered(cb: Callback, st: State, ws: bool, t: TagRead, end: Turn, st': State)
    requires Acted(Act(cb, st, t), end, st')
    ensures Acted(Act(cb, Gathered(st, [], ws), t), end, Gathered(st', [], ws))
  {
    match t.tag
    case BadTag =>
    case SpecialTag(name, adopts) => OneMoreGathered(cb, st, ws, name, []);
    case EndTag(name) => LeaveGathered(cb, st, ws);
    case StartTag(name, attrs, empty) => OneMoreGathered(cb, st, ws, name, attrs);
    case CutTag(name) => OneMoreGathered(cb, st, ws, name, []);
  }

  lemma {:induction false} LeaveGathered(cb: Callback, st: State, ws: bool)
    ensures st.stack != [] ==> Leave(cb, Gathered(st, [], ws)) == Gathered(Leave(cb, st), [], ws)
  {
  }

  lemma {:induction false} OneMoreGathered(cb: Callback, st: State, ws: bool, name: seq<byte>, attrs: seq<XmlTree.Attr>)
    ensures Enter(cb, Gathered(st, [], ws), name, attrs) == Gathered(Enter(cb, st, name, attrs), [], ws)
    ensures var n := XmlTree.Element(name, attrs, []);
            AddNode(Gathered(st, [], ws), n) == Gathered(AddNode(st, n), [], ws)
  {
  }

  /** What has been read, and gathered as text, in a turn for the character ch that starts with `before`. */
  predicate HasRead(es: seq<Entity>, ch: int, opaque_: bool, before: seq<byte>, s: seq<byte>,
                    ok: bool, tag: Tag, text: seq<byte>, rest: seq<byte>)
  {
    if ch == LT then ok && text == [] && TagRead(tag, rest) == TagOf(es, s)
    else if ch == AMP then
      var e := GetEntity(es, s);
      if e.ch == EOF then !ok else ok && rest == e.rest && text == before + Encode(e.ch)
    else ok && rest == s && text == if opaque_ || !IsXmlSpace(ch) then before + Encode(ch) else before
  }
}
