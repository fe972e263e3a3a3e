/** What the parser makes of tags as other programs write them: attributes with either quote or with none, white space
    at every place where it may stand, end tags, and input that ends too early. */
module XmlSyntax {
  import opened CString
  import opened Utf8
  import opened XmlEntity
  import opened XmlTree
  import opened XmlPrinter
  import opened XmlParser
  import opened XmlScanning
  import opened XmlRoundTrip

  predicate Spaces(s: seq<byte>) { forall i :: 0 <= i < |s| ==> IsXmlSpace(s[i]) }

  datatype Quoting = Double | Single | Bare

  /** An attribute as it stands in a tag: white space in front, its name, an equals sign with white space on both sides,
      and the characters of its value. */
  datatype Written = Written(front: seq<byte>, name: seq<byte>, before: seq<byte>, behind: seq<byte>, quoting: Quoting,
                             cs: seq<int>)

  /** A value in apostrophes holds none; one without quotes starts with a plain character and holds no white space, no
      equals sign and no slash. */
  ghost predicate IsWritten(a: Written) {
    && a.front != [] && Spaces(a.front) && PlainName(a.name) && Spaces(a.before) && Spaces(a.behind) && AllAllowed(a.cs)
    && match a.quoting
       case Double => true
       case Single => forall i :: 0 <= i < |a.cs| ==> a.cs[i] != APOS
       case Bare => a.cs != [] && StartsBare(a.cs[0]) && forall i :: 0 <= i < |a.cs| ==> InBare(a.cs[i])
  }

  predicate StartsBare(c: int) { 0 < c < 128 && NameChar(c) }

  predicate InBare(c: int) { !IsXmlSpace(c) && c != EQUALS && c != SLASH }

  ghost predicate AreWritten(atts: seq<Written>) { forall i :: 0 <= i < |atts| ==> IsWritten(atts[i]) }

  function ValueText(a: Written): seq<byte> {
    match a.quoting
    case Double => [34] + (Escape(EncodeAll(a.cs)) + [34])
    case Single => [39] + (Escape(EncodeAll(a.cs)) + [39])
    case Bare => Escape(EncodeAll(a.cs))
  }

  function AttrText(a: Written): seq<byte> {
    a.front + (a.name + (a.before + ([61] + (a.behind + ValueText(a)))))
  }

  function AttrTexts(atts: seq<Written>): seq<byte> {
    if atts == [] then [] else AttrText(atts[0]) + AttrTexts(atts[1..])
  }

  function AttrOf(a: Written): Attr { Attr(a.name, Some(EncodeAll(a.cs))) }

  function AttrsOf(atts: seq<Written>): seq<Attr> { if atts == [] then [] else [AttrOf(atts[0])] + AttrsOf(atts[1..]) }

  predicate Names(acc: seq<Attr>, name: seq<byte>) { exists i :: 0 <= i < |acc| && acc[i].name == name }

  /** No name twice. */
  predicate Fresh(acc: seq<Attr>, atts: seq<Written>)
    decreases |atts|
  {
    atts == [] || (!Names(acc, atts[0].name) && Fresh(acc + [AttrOf(atts[0])], atts[1..]))
  }

  predicate Valued(acc: seq<Attr>) { forall i :: 0 <= i < |acc| ==> acc[i].value.Some? }

  // ---- one attribute --------------------------------------------------------------------------

  lemma {:induction false} SkipRun(ws: seq<byte>, c: byte, s: seq<byte>)
    requires Spaces(ws) && Allowed(c) && c < 0x80 && !IsXmlSpace(c)
    ensures var g := Getc(ws + ([c] + s)); SkipSpace(g.ch, g.rest) == Got(c, s)
  {
    if ws == [] {
      assert ws + ([c] + s) == [c] + s;
      GetcAscii(c, s);
    } else {
      Associative([ws[0]], ws[1..], [c] + s);
      assert ws == [ws[0]] + ws[1..];
      GetcAscii(ws[0], ws[1..] + ([c] + s));
      GetcOfRun(ws[1..], c, s);
      SkipRun(ws[1..], c, s);
    }
  }

  lemma {:induction false} GetcOfRun(ws: seq<byte>, c: byte, s: seq<byte>)
    requires Spaces(ws) && Allowed(c) && c < 0x80
    ensures Getc(ws + ([c] + s)).ch != EOF
  {
    if ws == [] {
      assert ws + ([c] + s) == [c] + s;
      GetcAscii(c, s);
    } else {
      Associative([ws[0]], ws[1..], [c] + s);
      assert ws == [ws[0]] + ws[1..];
      GetcAscii(ws[0], ws[1..] + ([c] + s));
    }
  }

  /** The name, and the white space up to the equals sign. */
  lemma {:induction false} NameRun(es: seq<Entity>, name: seq<byte>, before: seq<byte>, rest: seq<byte>)
    returns (end: byte, after: seq<byte>)
    requires PlainName(name) && Spaces(before)
    ensures AttrName(es, name[0], name[1..] + (before + ([EQUALS] + rest))) == Scan(true, name, end, after)
    ensures SkipSpace(end, after) == Got(EQUALS, rest)
  {
    assert name == [name[0]] + name[1..];
    if before == [] {
      end, after := EQUALS, rest;
      assert before + ([EQUALS] + rest) == [EQUALS] + rest;
    } else {
      end, after := before[0], before[1..] + ([EQUALS] + rest);
      assert before == [before[0]] + before[1..];
      Associative([before[0]], before[1..], [EQUALS] + rest);
      GetcOfRun(before[1..], EQUALS, rest);
      SkipRun(before[1..], EQUALS, rest);
    }
    BareWordRun(es, name[1..], end, after, [name[0]]);
  }

  /** A value without quotes, up to what ends it. */
  lemma {:induction false} BareValueRun(es: seq<Entity>, cs: seq<int>, end: byte, s: seq<byte>, buf: seq<byte>)
    requires KnowsPredefined(es) && AllAllowed(cs) && forall i :: 0 <= i < |cs| ==> InBare(cs[i])
    requires IsXmlSpace(end) || end == GT || end == SLASH
    ensures BareWord(es, false, Escape(EncodeAll(cs)) + ([end] + s), buf) == Scan(true, buf + EncodeAll(cs), end, s)
    decreases |cs|
  {
    if cs == [] {
      assert Escape(EncodeAll(cs)) + ([end] + s) == [end] + s && buf + EncodeAll(cs) == buf;
      GetcAscii(end, s);
    } else {
      var tail := EncodeAll(cs[1..]);
      var rest := Escape(tail) + ([end] + s);
      EscapeAppend(Encode(cs[0]), tail);
      Associative(Escape(Encode(cs[0])), Escape(tail), [end] + s);
      Associative(buf, Encode(cs[0]), tail);
      GetcEscaped(es, cs[0], rest);
      BareValueRun(es, cs[1..], end, s, buf + Encode(cs[0]));
    }
  }

  /** What may follow a value without quotes. */
  predicate EndsBare(tail: seq<byte>) { tail != [] && (IsXmlSpace(tail[0]) || tail[0] == GT || tail[0] == SLASH) }

  lemma {:induction false} QuotedRun(es: seq<Entity>, quote: byte, behind: seq<byte>, cs: seq<int>, tail: seq<byte>)
    requires KnowsPredefined(es) && AllAllowed(cs) && Quotes(quote, cs) && Spaces(behind)
    ensures AttrValue(es, behind + ([quote] + (Escape(EncodeAll(cs)) + ([quote] + tail))))
            == Scan(true, EncodeAll(cs), quote, tail)
  {
    SkipRun(behind, quote, Escape(EncodeAll(cs)) + ([quote] + tail));
    QuotedValueRun(es, quote, cs, tail, []);
    AllowedText(cs);
    assert [] + EncodeAll(cs) == EncodeAll(cs);
  }

  lemma {:induction false} AllowedText(cs: seq<int>)
    requires AllAllowed(cs)
    ensures Unmark(EncodeAll(cs)) == EncodeAll(cs) && CStr(EncodeAll(cs)) == EncodeAll(cs)
    decreases |cs|
  {
    TextHasNoNul(cs);
    if cs != [] {
      AllowedText(cs[1..]);
      UnmarkKeeps(cs[0], EncodeAll(cs[1..]));
    }
  }

  lemma {:induction false} BareRun(es: seq<Entity>, behind: seq<byte>, cs: seq<int>, tail: seq<byte>)
    requires KnowsPredefined(es) && AllAllowed(cs) && Spaces(behind) && EndsBare(tail)
    requires cs != [] && StartsBare(cs[0]) && forall i :: 0 <= i < |cs| ==> InBare(cs[i])
    ensures AttrValue(es, behind + (Escape(EncodeAll(cs)) + tail)) == Scan(true, EncodeAll(cs), tail[0], tail[1..])
  {
    var r := BareStart(cs, tail);
    SkipRun(behind, cs[0], r);
    assert tail == [tail[0]] + tail[1..];
    BareValueRun(es, cs[1..], tail[0], tail[1..], [cs[0]]);
    BareValue(es, behind + ([cs[0]] + r), cs[0], r);
  }

  lemma {:induction false} BareStart(cs: seq<int>, tail: seq<byte>) returns (r: seq<byte>)
    requires cs != [] && StartsBare(cs[0])
    ensures Escape(EncodeAll(cs)) + tail == [cs[0]] + r && r == Escape(EncodeAll(cs[1..])) + tail
    ensures EncodeAll(cs) == [cs[0]] + EncodeAll(cs[1..])
  {
    r := Escape(EncodeAll(cs[1..])) + tail;
    EscapeAppend(Encode(cs[0]), EncodeAll(cs[1..]));
    EscapeEncode(cs[0]);
    Associative([cs[0]], Escape(EncodeAll(cs[1..])), tail);
  }

  lemma {:induction false} BareValue(es: seq<Entity>, s: seq<byte>, c: byte, r: seq<byte>)
    requires StartsBare(c) && var g := Getc(s); SkipSpace(g.ch, g.rest) == Got(c, r)
    ensures AttrValue(es, s) == BareWord(es, false, r, [c])
  {
  }

  /** The value in front of tail; what ends a value without quotes is tail's first character. */
  lemma {:induction false} ValueIsRead(es: seq<Entity>, a: Written, tail: seq<byte>) returns (r: Scan)
    requires KnowsPredefined(es) && IsWritten(a) && (a.quoting == Bare ==> EndsBare(tail))
    ensures r == AttrValue(es, a.behind + (ValueText(a) + tail)) && r.ok && r.buf == EncodeAll(a.cs)
    ensures if a.quoting == Bare then r.ch == tail[0] && r.rest == tail[1..]
            else (r.ch == QUOT || r.ch == APOS) && r.rest == tail
  {
    r := AttrValue(es, a.behind + (ValueText(a) + tail));
    var quote: byte := if a.quoting == Single then 39 else 34;
    if a.quoting == Bare {
      BareRun(es, a.behind, a.cs, tail);
    } else {
      Associative([quote], Escape(EncodeAll(a.cs)) + [quote], tail);
      Associative(Escape(EncodeAll(a.cs)), [quote], tail);
      QuotedRun(es, quote, a.behind, a.cs, tail);
    }
  }

  lemma {:induction false} NamedOrNot(acc: seq<Attr>, name: seq<byte>)
    requires Valued(acc)
    ensures GetAttr(acc, name).Some? <==> Names(acc, name)
    decreases |acc|
  {
    if acc != [] {
      NamedOrNot(acc[1..], name);
      assert Names(acc[1..], name) ==> Names(acc, name) by {
        if Names(acc[1..], name) {
          var i :| 0 <= i < |acc[1..]| && acc[1..][i].name == name;
          assert acc[i + 1].name == name;
        }
      }
      if Names(acc, name) && acc[0].name != name {
        var i :| 0 <= i < |acc| && acc[i].name == name;
        assert acc[1..][i - 1].name == name;
      }
    }
  }

  lemma {:induction false} OneAttrIsRead(es: seq<Entity>, acc: seq<Attr>, a: Written, r: seq<byte>, tail: seq<byte>)
    returns (p: Parsed)
    requires KnowsPredefined(es) && IsWritten(a) && Valued(acc) && (a.quoting == Bare ==> EndsBare(tail))
    requires r == a.name[1..] + (a.before + ([EQUALS] + (a.behind + (ValueText(a) + tail))))
    ensures p == OneAttr(es, acc, a.name[0], r)
    ensures if Names(acc, a.name) then p.ch == EOF
            else p.attrs == acc + [AttrOf(a)]
                 && if a.quoting == Bare then p.ch == tail[0] && p.rest == tail[1..]
                    else (p.ch == QUOT || p.ch == APOS) && p.rest == tail
  {
    p := OneAttr(es, acc, a.name[0], r);
    var end, after := NameRun(es, a.name, a.before, a.behind + (ValueText(a) + tail));
    assert CStr(a.name) == a.name by {
      assert |CStr(a.name)| == |a.name|;
    }
    NamedOrNot(acc, a.name);
    if !Names(acc, a.name) {
      var v := ValueIsRead(es, a, tail);
      AllowedText(a.cs);
      AbsentAttr(acc, a.name, Some(EncodeAll(a.cs)));
    }
  }

  lemma {:induction false} SkipSpaces(es: seq<Entity>, acc: seq<Attr>, ws: seq<byte>, s: seq<byte>)
    requires Spaces(ws)
    ensures ParseElement(es, acc, ws + s) == ParseElement(es, acc, s)
    decreases |ws|
  {
    if ws == [] {
      assert ws + s == s;
    } else {
      assert ws == [ws[0]] + ws[1..];
      Associative([ws[0]], ws[1..], s);
      SkipSeparator(es, acc, ws[0], ws[1..] + s);
      SkipSpaces(es, acc, ws[1..], s);
    }
  }

  lemma {:induction false} AfterBare(es: seq<Entity>, acc: seq<Attr>, c: byte, s: seq<byte>, r: seq<byte>, p: Parsed,
                                     tail: seq<byte>)
    requires NameChar(c) && Getc(s) == Got(c, r) && OneAttr(es, acc, c, r) == p
    requires EndsBare(tail) && p.ch == tail[0] && p.rest == tail[1..]
    ensures ParseElement(es, acc, s) == ParseElement(es, p.attrs, tail)
  {
    assert tail == [tail[0]] + tail[1..];
    GetcAscii(tail[0], tail[1..]);
  }

  lemma {:induction false} AfterQuoted(es: seq<Entity>, acc: seq<Attr>, c: byte, s: seq<byte>, r: seq<byte>, p: Parsed,
                                       tail: seq<byte>)
    requires NameChar(c) && Getc(s) == Got(c, r) && OneAttr(es, acc, c, r) == p
    requires (p.ch == QUOT || p.ch == APOS) && p.rest == tail
    ensures ParseElement(es, acc, s) == ParseElement(es, p.attrs, tail)
  {
  }

  /** An attribute in front of tail is added to the ones before it, unless its name is among them: that is an error. */
  lemma {:induction false} AttrIsRead(es: seq<Entity>, acc: seq<Attr>, a: Written, tail: seq<byte>)
    requires KnowsPredefined(es) && IsWritten(a) && Valued(acc) && (a.quoting == Bare ==> EndsBare(tail))
    ensures if Names(acc, a.name) then ParseElement(es, acc, AttrText(a) + tail).ch == EOF
            else ParseElement(es, acc, AttrText(a) + tail) == ParseElement(es, acc + [AttrOf(a)], tail)
  {
    var r := a.name[1..] + (a.before + ([EQUALS] + (a.behind + (ValueText(a) + tail))));
    var s := [a.name[0]] + r;
    TextIs(a, tail, s);
    SkipSpaces(es, acc, a.front, s);
    GetcAscii(a.name[0], r);
    var p := OneAttrIsRead(es, acc, a, r, tail);
    if !Names(acc, a.name) {
      if a.quoting == Bare {
        AfterBare(es, acc, a.name[0], s, r, p, tail);
      } else {
        AfterQuoted(es, acc, a.name[0], s, r, p, tail);
      }
    }
  }

  lemma {:induction false} TextIs(a: Written, tail: seq<byte>, s: seq<byte>)
    requires PlainName(a.name)
    requires s == [a.name[0]] + (a.name[1..] + (a.before + ([EQUALS] + (a.behind + (ValueText(a) + tail)))))
    ensures AttrText(a) + tail == a.front + s
  {
    var value := ValueText(a);
    assert a.name == [a.name[0]] + a.name[1..];
    Associative([a.name[0]], a.name[1..], a.before + ([EQUALS] + (a.behind + (value + tail))));
    Associative(a.front, a.name + (a.before + ([EQUALS] + (a.behind + value))), tail);
    Associative(a.name, a.before + ([EQUALS] + (a.behind + value)), tail);
    Associative(a.before, [EQUALS] + (a.behind + value), tail);
    Associative([EQUALS], a.behind + value, tail);
    Associative(a.behind, value, tail);
  }

  // ---- tags -----------------------------------------------------------------------------------

  lemma {:induction false} TextsEndBare(atts: seq<Written>, tail: seq<byte>)
    requires AreWritten(atts) && EndsBare(tail)
    ensures EndsBare(AttrTexts(atts) + tail)
  {
    if atts == [] {
      assert AttrTexts(atts) + tail == tail;
    } else {
      assert (AttrTexts(atts) + tail)[0] == atts[0].front[0];
    }
  }

  lemma {:induction false} AttrsAreRead(es: seq<Entity>, acc: seq<Attr>, atts: seq<Written>, tail: seq<byte>)
    requires KnowsPredefined(es) && AreWritten(atts) && Valued(acc) && EndsBare(tail)
    ensures var p := ParseElement(es, acc, AttrTexts(atts) + tail);
            if Fresh(acc, atts) then p == ParseElement(es, acc + AttrsOf(atts), tail) else p.ch == EOF
    decreases |atts|
  {
    if atts == [] {
      assert AttrTexts(atts) + tail == tail && acc + AttrsOf(atts) == acc;
    } else {
      var rest := AttrTexts(atts[1..]) + tail;
      Associative(AttrText(atts[0]), AttrTexts(atts[1..]), tail);
      Associative(acc, [AttrOf(atts[0])], AttrsOf(atts[1..]));
      TextsEndBare(atts[1..], tail);
      AttrIsRead(es, acc, atts[0], rest);
      if !Names(acc, atts[0].name) {
        AttrsAreRead(es, acc + [AttrOf(atts[0])], atts[1..], tail);
      }
    }
  }

  /** The end of a start tag. */
  function TagEnd(ws: seq<byte>, empty: bool): seq<byte> { ws + if empty then [47, 62] else [62] }

  lemma {:induction false} TagEnds(es: seq<Entity>, attrs: seq<Attr>, ws: seq<byte>, empty: bool, s: seq<byte>)
    requires Spaces(ws)
    ensures ParseElement(es, attrs, TagEnd(ws, empty) + s) == Parsed(if empty then SLASH else GT, attrs, s)
    ensures EndsBare(TagEnd(ws, empty) + s)
  {
    var close: seq<byte> := if empty then [47, 62] else [62];
    Associative(ws, close, s);
    SkipSpaces(es, attrs, ws, close + s);
    if empty {
      assert close + s == [47] + ([62] + s);
      GetcAscii(47, [62] + s);
    }
    GetcAscii(62, s);
  }

  /** The attribute part of a tag: the character the reader of the name stops at is white space. */
  lemma {:induction false} SpacedStart(cb: Callback, es: seq<Entity>, st: State, name: seq<byte>, atts: seq<Written>,
                                       end: seq<byte>)
    requires KnowsPredefined(es) && PlainName(name) && !IsSpecial(name) && AreWritten(atts) && EndsBare(end)
    requires atts == [] ==> IsXmlSpace(end[0])
    ensures ReadMarkup(cb, es, st, name + (AttrTexts(atts) + end))
            == if !Fresh([], atts) then Failed
               else var p := ParseElement(es, AttrsOf(atts), end);
                    if p.ch == EOF then Failed
                    else if p.ch == SLASH then Next(AddNode(st, Element(name, p.attrs, [])), p.rest)
                    else Next(Enter(cb, st, name, p.attrs), p.rest)
  {
    var x := AttrTexts(atts) + end;
    assert x == [x[0]] + x[1..] && IsXmlSpace(x[0]) by {
      assert atts != [] ==> x[0] == atts[0].front[0];
    }
    ReadName(cb, es, st, name, x[0], x[1..]);
    SkipSeparator(es, [], x[0], x[1..]);
    AttrsAreRead(es, [], atts, end);
    assert [] + AttrsOf(atts) == AttrsOf(atts);
  }

  lemma {:induction false} ShortTag(cb: Callback, es: seq<Entity>, st: State, name: seq<byte>, empty: bool,
                                    s: seq<byte>, end: seq<byte>)
    requires PlainName(name) && !IsSpecial(name) && end == TagEnd([], empty) + s
    ensures ReadMarkup(cb, es, st, name + end)
            == if empty then Next(AddNode(st, Element(name, [], [])), s) else Next(Enter(cb, st, name, []), s)
  {
    if empty {
      assert end == [47] + ([62] + s);
      GetcAscii(62, s);
      ReadName(cb, es, st, name, 47, [62] + s);
    } else {
      assert end == [62] + s;
      ReadName(cb, es, st, name, 62, s);
    }
  }

  /** A start tag behind its bracket, or the tag of an empty element: its name and its attributes, in order, whatever
      quotes and white space it is written with. A name that comes twice is an error. */
  lemma {:induction false} StartTagIsRead(cb: Callback, es: seq<Entity>, st: State, name: seq<byte>, atts: seq<Written>,
                                          ws: seq<byte>, empty: bool, s: seq<byte>)
    requires KnowsPredefined(es) && PlainName(name) && !IsSpecial(name) && AreWritten(atts) && Spaces(ws)
    ensures ReadMarkup(cb, es, st, name + (AttrTexts(atts) + (TagEnd(ws, empty) + s)))
            == if !Fresh([], atts) then Failed
               else if empty then Next(AddNode(st, Element(name, AttrsOf(atts), [])), s)
               else Next(Enter(cb, st, name, AttrsOf(atts)), s)
  {
    var end := TagEnd(ws, empty) + s;
    TagEnds(es, AttrsOf(atts), ws, empty, s);
    if atts == [] && ws == [] {
      assert AttrTexts(atts) + end == end;
      ShortTag(cb, es, st, name, empty, s, end);
    } else {
      assert atts == [] ==> end[0] == ws[0];
      SpacedStart(cb, es, st, name, atts, end);
    }
  }

  lemma {:induction false} ToEnd(ws: seq<byte>, s: seq<byte>)
    requires Spaces(ws)
    ensures ws != [] ==> SkipToEnd(ws[0], ws[1..] + ([GT] + s)) == s
    decreases |ws|
  {
    if ws != [] {
      if |ws| == 1 {
        assert ws[1..] + ([GT] + s) == [GT] + s;
        GetcAscii(GT, s);
      } else {
        assert ws[1..] == [ws[1]] + ws[2..] && ws[1..][1..] == ws[2..];
        Associative([ws[1]], ws[2..], [GT] + s);
        GetcAscii(ws[1], ws[2..] + ([GT] + s));
        ToEnd(ws[1..], s);
      }
    }
  }

  /** An end tag behind its bracket leaves the innermost open element if it has its name, and is an error otherwise. */
  lemma {:induction false} EndTagIsRead(cb: Callback, es: seq<Entity>, st: State, name: seq<byte>, ws: seq<byte>,
                                        s: seq<byte>)
    requires PlainName(name) && Spaces(ws)
    ensures ReadMarkup(cb, es, st, [47] + (name + (ws + ([62] + s))))
            == if st.stack != [] && st.stack[|st.stack| - 1].name == name then Next(Leave(cb, st), s) else Failed
  {
    var x := ws + ([62] + s);
    var end: byte := if ws == [] then 62 else ws[0];
    var after := if ws == [] then s else ws[1..] + ([62] + s);
    assert x == [end] + after by {
      if ws != [] {
        assert ws == [ws[0]] + ws[1..];
        Associative([ws[0]], ws[1..], [62] + s);
      }
    }
    TagNameStep(es, 47, name + x, []);
    assert [] + [SLASH] == [SLASH];
    TagNameRun(es, name, end, after, [SLASH]);
    var n := Scan(true, [SLASH] + name, end, after);
    ToEnd(ws, s);
    assert n.buf[1..] == name;
    IsEndTag(cb, es, st, [47] + (name + x), n);
  }

  lemma {:induction false} IsEndTag(cb: Callback, es: seq<Entity>, st: State, s: seq<byte>, n: Scan)
    requires TagName(es, s, []) == n && n.ok && n.buf != [] && n.buf[0] == SLASH
    ensures ReadMarkup(cb, es, st, s) == CloseTag(cb, st, n)
  {
  }

  // ---- what is written ------------------------------------------------------------------------

  /** amp; or lt; or gt; or quot; */
  predicate StartsReference(s: seq<byte>) {
    [97, 109, 112, 59] <= s || [108, 116, 59] <= s || [103, 116, 59] <= s || [113, 117, 111, 116, 59] <= s
  }

  /** No bracket and no double quote, and each & starts one of the four references. */
  predicate NoMarkup(s: seq<byte>) {
    && 60 !in s && 62 !in s && 34 !in s
    && forall i :: 0 <= i < |s| && s[i] == 38 ==> StartsReference(s[i + 1..])
  }

  lemma {:induction false} NoMarkupConcat(a: seq<byte>, b: seq<byte>)
    requires NoMarkup(a) && NoMarkup(b)
    ensures NoMarkup(a + b)
  {
    var s := a + b;
    forall i | 0 <= i < |s| && s[i] == 38 ensures StartsReference(s[i + 1..]) {
      if i < |a| {
        assert s[i + 1..] == a[i + 1..] + b;
      } else {
        assert s[i + 1..] == b[i - |a| + 1..];
      }
    }
  }

  lemma {:induction false} OneEscaped(c: byte)
    ensures NoMarkup(EscapeByte(c))
  {
    if c == 38 {
      assert EscapeByte(c) == [38, 97, 109, 112, 59] && EscapeByte(c)[1..] == [97, 109, 112, 59];
    } else if c == 60 {
      assert EscapeByte(c) == [38, 108, 116, 59] && EscapeByte(c)[1..] == [108, 116, 59];
    } else if c == 62 {
      assert EscapeByte(c) == [38, 103, 116, 59] && EscapeByte(c)[1..] == [103, 116, 59];
    } else if c == 34 {
      assert EscapeByte(c) == [38, 113, 117, 111, 116, 59] && EscapeByte(c)[1..] == [113, 117, 111, 116, 59];
    }
  }

  /** Escaped text is free of markup. */
  lemma {:induction false} EscapeHasNoMarkup(s: seq<byte>)
    ensures NoMarkup(Escape(s))
  {
    if s != [] {
      OneEscaped(s[0]);
      EscapeHasNoMarkup(s[1..]);
      NoMarkupConcat(EscapeByte(s[0]), Escape(s[1..]));
    }
  }

  /** A name in quotes is written up to its second quote, escaped in between, and closed. */
  lemma {:induction false} QuotedNameIsWritten(quote: byte, x: seq<byte>, rest: seq<byte>)
    requires (quote == 34 || quote == 39) && quote !in x && (rest == [] || rest[0] == quote)
    ensures NameBytes([quote] + (x + rest)) == [quote] + Escape(x) + [quote]
  {
    assert ([quote] + (x + rest))[1..] == x + rest;
    EscapedUntil(quote, x, rest);
  }

  lemma {:induction false} EscapedUntil(quote: byte, x: seq<byte>, rest: seq<byte>)
    requires quote !in x && (rest == [] || rest[0] == quote)
    ensures EscapeUntil(x + rest, quote) == Escape(x)
    decreases |x|
  {
    if x == [] {
      assert x + rest == rest;
    } else {
      assert (x + rest)[1..] == x[1..] + rest && x[0] in x;
      EscapedUntil(quote, x[1..], rest);
    }
  }

  // ---- references in names and declarations ---------------------------------------------------

  /** Characters of a tag name; <, & and > are written as references. */
  ghost predicate InName(cs: seq<int>) {
    AllAllowed(cs) && forall i :: 0 <= i < |cs| ==> !IsXmlSpace(cs[i]) && cs[i] != SLASH
  }

  /** The name of a tag is read with its references replaced, up to white space, a slash or the bracket. */
  lemma {:induction false} TagNameIsRead(es: seq<Entity>, cs: seq<int>, end: byte, s: seq<byte>, buf: seq<byte>)
    requires KnowsPredefined(es) && InName(cs) && (IsXmlSpace(end) || end == GT || end == SLASH)
    requires buf != [] && buf[0] != BANG && buf[0] != QUESTION
    ensures TagName(es, Escape(EncodeAll(cs)) + ([end] + s), buf) == Scan(true, buf + EncodeAll(cs), end, s)
    decreases |cs|
  {
    if cs == [] {
      assert Escape(EncodeAll(cs)) + ([end] + s) == [end] + s && buf + EncodeAll(cs) == buf;
      GetcAscii(end, s);
    } else {
      var tail := EncodeAll(cs[1..]);
      var rest := Escape(tail) + ([end] + s);
      EscapeAppend(Encode(cs[0]), tail);
      Associative(Escape(Encode(cs[0])), Escape(tail), [end] + s);
      Associative(buf, Encode(cs[0]), tail);
      GetcEscaped(es, cs[0], rest);
      assert (buf + Encode(cs[0]))[0] == buf[0];
      TagNameIsRead(es, cs[1..], end, s, buf + Encode(cs[0]));
    }
  }

  /** The rest of a declaration, from a character that is not its end on, with its references replaced. */
  lemma {:induction false} DeclarationIsRead(es: seq<Entity>, cs: seq<int>, s: seq<byte>, buf: seq<byte>)
    requires KnowsPredefined(es) && AllAllowed(cs)
    ensures var g := Getc(Escape(EncodeAll(cs)) + ([GT] + s));
            g.ch != EOF && DeclarationRest(es, g.ch, g.rest, buf) == Scan(true, buf + EncodeAll(cs), GT, s)
    decreases |cs|
  {
    if cs == [] {
      assert Escape(EncodeAll(cs)) + ([GT] + s) == [GT] + s && buf + EncodeAll(cs) == buf;
      GetcAscii(GT, s);
    } else {
      var tail := EncodeAll(cs[1..]);
      var rest := Escape(tail) + ([GT] + s);
      EscapeAppend(Encode(cs[0]), tail);
      Associative(Escape(Encode(cs[0])), Escape(tail), [GT] + s);
      Associative(buf, Encode(cs[0]), tail);
      GetcEscaped(es, cs[0], rest);
      DeclarationIsRead(es, cs[1..], s, buf + Encode(cs[0]));
    }
  }

  // ---- tags that are not read -----------------------------------------------------------------

  /** A bracket in a tag name is an error. */
  lemma {:induction false} BracketInName(cb: Callback, es: seq<Entity>, st: State, name: seq<byte>, s: seq<byte>)
    requires PlainName(name) && !IsSpecial(name)
    ensures ReadMarkup(cb, es, st, name + ([LT] + s)) == Failed
  {
    BracketStops(es, name, s, []);
  }

  lemma {:induction false} BracketStops(es: seq<Entity>, name: seq<byte>, s: seq<byte>, buf: seq<byte>)
    requires forall i :: 0 <= i < |name| ==> NameChar(name[i])
    requires if buf == [] then name == [] || name[0] != BANG else buf[0] != BANG && buf[0] != QUESTION
    ensures !TagName(es, name + ([LT] + s), buf).ok
    decreases |name|
  {
    if name == [] {
      assert name + ([LT] + s) == [LT] + s;
      GetcAscii(LT, s);
    } else {
      assert name == [name[0]] + name[1..];
      Associative([name[0]], name[1..], [LT] + s);
      GetcAscii(name[0], name[1..] + ([LT] + s));
      assert (buf + [name[0]])[0] == if buf == [] then name[0] else buf[0];
      BracketStops(es, name[1..], s, buf + [name[0]]);
    }
  }

  /** A slash that does not close the tag is an error, behind the name and behind the attributes. */
  lemma {:induction false} LoneSlash(cb: Callback, es: seq<Entity>, st: State, name: seq<byte>, attrs: seq<Attr>,
                                     s: seq<byte>)
    requires PlainName(name) && !IsSpecial(name) && Getc(s).ch != GT
    ensures ReadMarkup(cb, es, st, name + ([SLASH] + s)) == Failed
    ensures ParseElement(es, attrs, [SLASH] + s).ch == EOF
  {
    ReadName(cb, es, st, name, SLASH, s);
    GetcAscii(SLASH, s);
  }

  /** So is an attribute name behind which a slash, a question mark or the closing bracket stands. */
  lemma {:induction false} NameAlone(es: seq<Entity>, acc: seq<Attr>, name: seq<byte>, end: byte, s: seq<byte>)
    requires PlainName(name) && (end == SLASH || end == QUESTION || end == GT)
    ensures ParseElement(es, acc, name + ([end] + s)).ch == EOF
  {
    var r := name[1..] + ([end] + s);
    assert name == [name[0]] + name[1..];
    Associative([name[0]], name[1..], [end] + s);
    GetcAscii(name[0], r);
    NameEnds(es, name[1..], end, s, [name[0]]);
    NoEquals(es, acc, name[0], r);
    AttrFails(es, acc, name[0], name + ([end] + s), r);
  }

  lemma {:induction false} NoEquals(es: seq<Entity>, acc: seq<Attr>, c: byte, r: seq<byte>)
    requires var n := AttrName(es, c, r); !IsXmlSpace(n.ch) && n.ch != EQUALS
    ensures OneAttr(es, acc, c, r).ch == EOF
  {
  }

  lemma {:induction false} AttrFails(es: seq<Entity>, acc: seq<Attr>, c: byte, s: seq<byte>, r: seq<byte>)
    requires (NameChar(c) || c == QUOT || c == APOS) && Getc(s) == Got(c, r) && OneAttr(es, acc, c, r).ch == EOF
    ensures ParseElement(es, acc, s).ch == EOF
  {
  }

  lemma {:induction false} NameEnds(es: seq<Entity>, name: seq<byte>, end: byte, s: seq<byte>, buf: seq<byte>)
    requires forall i :: 0 <= i < |name| ==> NameChar(name[i])
    requires end == SLASH || end == QUESTION || end == GT
    ensures BareWord(es, true, name + ([end] + s), buf) == Scan(true, buf + name, end, s)
    decreases |name|
  {
    if name == [] {
      assert name + ([end] + s) == [end] + s && buf + name == buf;
      GetcAscii(end, s);
    } else {
      assert name == [name[0]] + name[1..];
      Associative([name[0]], name[1..], [end] + s);
      Associative(buf, [name[0]], name[1..]);
      GetcAscii(name[0], name[1..] + ([end] + s));
      NameEnds(es, name[1..], end, s, buf + [name[0]]);
    }
  }

  /** An attribute name in quotes is never read, whatever follows: the equals sign is looked for at the closing
      quote. */
  lemma {:induction false} QuotedNameFails(es: seq<Entity>, acc: seq<Attr>, quote: byte, s: seq<byte>)
    requires quote == 34 || quote == 39
    ensures ParseElement(es, acc, [quote] + s).ch == EOF
  {
    GetcAscii(quote, s);
    QuotedNameEnd(es, quote, s, [quote]);
    NoEquals(es, acc, quote, s);
    AttrFails(es, acc, quote, [quote] + s, s);
  }

  lemma {:induction false} QuotedNameEnd(es: seq<Entity>, quote: byte, s: seq<byte>, buf: seq<byte>)
    ensures var n := QuotedName(es, quote, s, buf); n.ch == quote || n.ch == EOF
    decreases |s|
  {
    var g := Getc(s);
    if g.ch != EOF {
      var e := if g.ch == AMP then GetEntity(es, g.rest) else g;
      if e.ch != EOF && e.ch != quote {
        QuotedNameEnd(es, quote, e.rest, buf + Encode(e.ch));
      }
    }
  }

  // ---- input that ends too early --------------------------------------------------------------

  /** Start tags, one inside the other. */
  function Opened(names: seq<seq<byte>>): seq<byte> {
    if names == [] then [] else [60] + (names[0] + ([62] + Opened(names[1..])))
  }

  predicate TagNames(names: seq<seq<byte>>) {
    forall i :: 0 <= i < |names| ==> PlainName(names[i]) && !IsSpecial(names[i])
  }

  lemma {:induction false} OpenedRun(cb: Callback, es: seq<Entity>, st: State, names: seq<seq<byte>>)
    returns (end: State)
    requires KnowsPredefined(es) && ReadyFor(cb, st) && TagNames(names)
    ensures Loop(cb, es, st, Opened(names)) == Finish(end)
    ensures end.roots == st.roots && |end.stack| == |st.stack| + |names| && st.stack <= end.stack
    ensures names != [] ==> end.stack[|st.stack|] == Frame(names[0], [], [])
    decreases |names|
  {
    if names == [] {
      end := st;
    } else {
      var s := Opened(names[1..]);
      var next := Enter(cb, st, names[0], []).(buf := []);
      StartTagIsRead(cb, es, st, names[0], [], [], false, s);
      assert AttrTexts([]) + (TagEnd([], false) + s) == [62] + s;
      LoopMarkup(cb, es, st, names[0] + ([62] + s), Enter(cb, st, names[0], []), s);
      end := OpenedRun(cb, es, next, names[1..]);
    }
  }

  /** Elements without content, one behind the other. */
  function Singles(names: seq<seq<byte>>): seq<byte> {
    if names == [] then [] else [60] + (names[0] + ([47, 62] + Singles(names[1..])))
  }

  lemma {:induction false} SinglesRun(cb: Callback, es: seq<Entity>, st: State, names: seq<seq<byte>>)
    requires KnowsPredefined(es) && Ready(st) && st.stack == [] && TagNames(names)
    ensures Loop(cb, es, st, Singles(names))
            == if st.roots != [] then Loaded(st.roots[0])
               else if names != [] then Loaded(Element(names[0], [], []))
               else Null
    decreases |names|
  {
    if names != [] {
      var next := AddNode(st, Element(names[0], [], [])).(buf := []);
      SingleTurn(cb, es, st, names[0], Singles(names[1..]));
      SinglesRun(cb, es, next, names[1..]);
    }
  }

  lemma {:induction false} SingleTurn(cb: Callback, es: seq<Entity>, st: State, name: seq<byte>, s: seq<byte>)
    requires KnowsPredefined(es) && Ready(st) && PlainName(name) && !IsSpecial(name)
    ensures Loop(cb, es, st, [60] + (name + ([47, 62] + s)))
            == Loop(cb, es, AddNode(st, Element(name, [], [])).(buf := []), s)
  {
    StartTagIsRead(cb, es, st, name, [], [], true, s);
    assert AttrTexts([]) + (TagEnd([], true) + s) == [47, 62] + s;
    LoopMarkup(cb, es, st, name + ([47, 62] + s), AddNode(st, Element(name, [], [])), s);
  }

  /** Of several trees in a document the first one is loaded. */
  lemma {:induction false} FirstTreeIsLoaded(cb: Callback, es: seq<Entity>, names: seq<seq<byte>>)
    requires KnowsPredefined(es) && TagNames(names) && names != []
    ensures Load(cb, es, Singles(names)) == Loaded(Element(names[0], [], []))
  {
    SinglesRun(cb, es, INIT, names);
  }

  /** Input that ends inside a tag name: the element is there, and reading stops. */
  lemma {:induction false} CutName(cb: Callback, es: seq<Entity>, st: State, name: seq<byte>)
    requires PlainName(name) && !IsSpecial(name)
    ensures ReadMarkup(cb, es, st, name) == Stop(AddNode(st, Element(name, [], [])))
  {
    NameToEnd(es, name, []);
    assert [] + name == name && name[0] != SLASH && name != S_COMMENT && name != S_CDATA;
  }

  lemma {:induction false} NameToEnd(es: seq<Entity>, name: seq<byte>, buf: seq<byte>)
    requires forall i :: 0 <= i < |name| ==> NameChar(name[i])
    requires if buf == [] then name == [] || name[0] != BANG else buf[0] != BANG && buf[0] != QUESTION
    ensures TagName(es, name, buf) == Scan(true, buf + name, EOF, [])
    decreases |name|
  {
    if name == [] {
      assert buf + name == buf;
    } else {
      assert name == [name[0]] + name[1..];
      Associative(buf, [name[0]], name[1..]);
      GetcAscii(name[0], name[1..]);
      assert (buf + [name[0]])[0] == if buf == [] then name[0] else buf[0];
      NameToEnd(es, name[1..], buf + [name[0]]);
    }
  }

  /** A document that ends inside its root is loaded; one that ends deeper, or holds nothing, is an error. */
  lemma {:induction false} EndsTooEarly(cb: Callback, es: seq<Entity>, names: seq<seq<byte>>)
    requires KnowsPredefined(es) && TagNames(names)
    ensures Load(cb, es, Opened(names)) == if |names| == 1 then Loaded(Element(names[0], [], [])) else Null
  {
    var end := OpenedRun(cb, es, INIT, names);
  }
}
