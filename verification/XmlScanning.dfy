/** Reading escaped text: how the scanners of the parser run over what the printer writes. */
module XmlScanning {
  import opened CString
  import opened Utf8
  import opened XmlEntity
  import opened XmlTree
  import opened XmlPrinter
  import opened XmlParser

  lemma {:induction false} GetcAscii(c: byte, s: seq<byte>)
    requires Allowed(c) && c < 0x80
    ensures Getc([c] + s) == Got(c, s)
  {
  }

  // ---- character references -------------------------------------------------------------------

  predicate IsWord(word: seq<byte>) { forall i :: 0 <= i < |word| ==> IsAlnum(word[i]) || word[i] == HASH }

  lemma {:induction false} WordRun(word: seq<byte>, acc: seq<byte>, c: byte, s: seq<byte>)
    requires IsWord(word) && |acc| + |word| <= 63 && Allowed(c) && c <= 126 && !IsAlnum(c) && c != HASH
    ensures EntityChars(word + ([c] + s), acc) == Scan(true, acc + word, c, s)
    decreases |word|
  {
    if word == [] {
      assert word + ([c] + s) == [c] + s && acc + word == acc;
      GetcAscii(c, s);
    } else {
      Associative([word[0]], word[1..], [c] + s);
      Associative(acc, [word[0]], word[1..]);
      assert word == [word[0]] + word[1..];
      GetcAscii(word[0], word[1..] + ([c] + s));
      WordRun(word[1..], acc + [word[0]], c, s);
    }
  }

  /** The number that digits stand for in a positional system. */
  function ValueOf(ds: seq<nat>, base: nat): nat {
    if ds == [] then 0 else ValueOf(ds[..|ds| - 1], base) * base + ds[|ds| - 1]
  }

  /** A character that stands for a digit; from ten on it is a letter, in either case. */
  predicate StandsFor(c: byte, d: nat) { if d < 10 then c == 48 + d else d < 16 && (c == 55 + d || c == 87 + d) }

  predicate Spells(cs: seq<byte>, ds: seq<nat>, base: nat) {
    |cs| == |ds| && forall i :: 0 <= i < |cs| ==> ds[i] < base && StandsFor(cs[i], ds[i])
  }

  function AtMost(n: nat): nat { if n > 0x7FFF_FFFF then 0x7FFF_FFFF else n }

  /** One more digit at the end. */
  lemma {:induction false} NumberSnoc(cs: seq<byte>, c: byte, base: nat, acc: nat)
    requires forall i :: 0 <= i < |cs| ==> DigitValue(cs[i]) < base
    requires DigitValue(c) < base
    ensures Number(cs + [c], base, acc) == AtMost(Number(cs, base, acc) * base + DigitValue(c))
    decreases |cs|
  {
    if cs == [] {
      assert cs + [c] == [c] && [c][1..] == [];
    } else {
      assert (cs + [c])[0] == cs[0] && (cs + [c])[1..] == cs[1..] + [c];
      NumberSnoc(cs[1..], c, base, AtMost(acc * base + DigitValue(cs[0])));
    }
  }

  lemma {:induction false} DigitValueIs(c: byte, d: nat)
    requires StandsFor(c, d)
    ensures DigitValue(c) == d && IsAlnum(c)
  {
  }

  /** strtol reads the number, or the largest one there is. */
  lemma {:induction false} NumberIs(cs: seq<byte>, ds: seq<nat>, base: nat)
    requires (base == 10 || base == 16) && Spells(cs, ds, base)
    ensures Number(cs, base, 0) == AtMost(ValueOf(ds, base))
    decreases |cs|
  {
    if cs != [] {
      var n := |cs| - 1;
      NumberIs(cs[..n], ds[..n], base);
      forall i | 0 <= i < |cs| ensures DigitValue(cs[i]) < base {
        DigitValueIs(cs[i], ds[i]);
      }
      DigitValueIs(cs[n], ds[n]);
      assert cs == cs[..n] + [cs[n]];
      NumberSnoc(cs[..n], cs[n], base, 0);
    }
  }

  /** In base 16 the digits may, once more, have 0x in front. */
  lemma {:induction false} PrefixedHex(cs: seq<byte>, ds: seq<nat>, x: byte)
    requires Spells(cs, ds, 16) && (x == 120 || x == 88)
    ensures HexNumber([48, x] + cs) == AtMost(ValueOf(ds, 16))
  {
    NumberIs(cs, ds, 16);
    assert ([48, x] + cs)[2..] == cs;
  }

  lemma {:induction false} SpelledIsWord(cs: seq<byte>, ds: seq<nat>, base: nat)
    requires Spells(cs, ds, base)
    ensures forall i :: 0 <= i < |cs| ==> IsAlnum(cs[i]) && cs[i] != 120
  {
    forall i | 0 <= i < |cs| ensures IsAlnum(cs[i]) && cs[i] != 120 {
      DigitValueIs(cs[i], ds[i]);
    }
  }

  lemma {:induction false} HashRun(word: seq<byte>, s: seq<byte>)
    requires |word| <= 62 && IsWord(word)
    ensures EntityChars([HASH] + (word + ([SEMICOLON] + s)), []) == Scan(true, [HASH] + word, SEMICOLON, s)
  {
    var all := [HASH] + word;
    Associative([HASH], word, [SEMICOLON] + s);
    WordRun(all, [], SEMICOLON, s);
    assert [] + all == all;
  }

  /** A reference to a character by its number, XML 1.0, section 4.1: # and decimal digits, or #x and hexadecimal
      digits with letters of either case, at most 63 characters in all, is read as that character; a control character
      is refused. */
  lemma {:induction false} CharacterReference(es: seq<Entity>, cs: seq<byte>, ds: seq<nat>, base: nat, s: seq<byte>)
    requires (base == 10 || base == 16) && Spells(cs, ds, base) && |cs| <= 61
    ensures var n, word := ValueOf(ds, base), if base == 16 then [120] + cs else cs;
            GetEntity(es, [HASH] + (word + ([SEMICOLON] + s)))
            == Got(if BadChar(n) then EOF else if n > 0x7FFF_FFFF then 0x7FFF_FFFF else n, s)
  {
    SpelledIsWord(cs, ds, base);
    NumberIs(cs, ds, base);
    if base == 16 {
      HashRun([120] + cs, s);
      assert ([HASH] + ([120] + cs))[2..] == cs;
    } else {
      HashRun(cs, s);
      assert ([HASH] + cs)[1..] == cs;
    }
  }

  /** The digits of a number. */
  function DigitsOf(n: nat, base: nat): (ds: seq<nat>)
    requires base == 10 || base == 16
    ensures ds != [] && (forall i :: 0 <= i < |ds| ==> ds[i] < base) && ValueOf(ds, base) == n
  {
    if n < base then [n] else DigitsOf(n / base, base) + [n % base]
  }

  lemma {:induction false} FewDigits(n: nat, base: nat, k: nat)
    requires (base == 10 || base == 16) && k >= 1 && n < Power10(k)
    ensures |DigitsOf(n, base)| <= k
  {
    if n >= base {
      FewDigits(n / base, base, k - 1);
    }
  }

  function Power10(k: nat): nat { if k == 0 then 1 else 10 * Power10(k - 1) }

  /** So every character the reader takes has references, decimal and hexadecimal. */
  lemma {:induction false} ReferenceIsRead(es: seq<Entity>, n: int, cs: seq<byte>, base: nat, s: seq<byte>)
    requires (base == 10 || base == 16) && Readable(n) && Spells(cs, DigitsOf(n, base), base)
    ensures var word := if base == 16 then [120] + cs else cs;
            GetEntity(es, [HASH] + (word + ([SEMICOLON] + s))) == Got(n, s)
  {
    assert Power10(3) == 1000 && Power10(5) == 100_000 && Power10(7) == 10_000_000;
    FewDigits(n, base, 7);
    CharacterReference(es, cs, DigitsOf(n, base), base, s);
  }

  /** A reference by name: the character the table lists for it; an unknown name is refused, and so is a reference that
      another character than a semicolon ends. */
  lemma {:induction false} NamedReference(es: seq<Entity>, name: seq<byte>, c: byte, s: seq<byte>)
    requires IsWord(name) && name != [] && name[0] != HASH && |name| <= 63
    requires Allowed(c) && c <= 126 && !IsAlnum(c) && c != HASH
    ensures var n := Lookup(es, name);
            GetEntity(es, name + ([c] + s)) == Got(if c != 59 || BadChar(n) then EOF else n, s)
  {
    WordRun(name, [], c, s);
    assert [] + name == name;
  }

  lemma {:induction false} EntityNameIsWord(c: byte)
    requires NeedsEntity(c)
    ensures var n := EntityName(c); n != [] && n[0] != HASH && |n| <= 4 && IsWord(n)
  {
  }

  /** &name; is read back as the character it stands for. */
  lemma {:induction false} GetEntityNamed(es: seq<Entity>, c: byte, s: seq<byte>)
    requires KnowsPredefined(es) && NeedsEntity(c)
    ensures GetEntity(es, EntityName(c) + [SEMICOLON] + s) == Got(c, s)
  {
    EntityNameIsWord(c);
    Associative(EntityName(c), [SEMICOLON], s);
    NamedReference(es, EntityName(c), SEMICOLON, s);
  }

  // ---- escaped text ---------------------------------------------------------------------------

  lemma {:induction false} EscapeAppend(a: seq<byte>, b: seq<byte>)
    ensures Escape(a + b) == Escape(a) + Escape(b)
    decreases |a|
  {
    if a == [] {
      assert a + b == b;
    } else {
      assert (a + b)[0] == a[0] && (a + b)[1..] == a[1..] + b;
      EscapeAppend(a[1..], b);
      Associative(EscapeByte(a[0]), Escape(a[1..]), Escape(b));
    }
  }

  lemma {:induction false} EscapePlain(s: seq<byte>)
    requires forall i :: 0 <= i < |s| ==> !NeedsEntity(s[i])
    ensures Escape(s) == s
    decreases |s|
  {
    if s != [] {
      EscapePlain(s[1..]);
      assert s == [s[0]] + s[1..];
    }
  }

  lemma {:induction false} EscapeEncode(ch: int)
    requires Allowed(ch)
    ensures Escape(Encode(ch)) == if NeedsEntity(ch) then [AMP] + (EntityName(ch) + [SEMICOLON]) else Encode(ch)
  {
    if NeedsEntity(ch) {
      assert Encode(ch)[1..] == [];
      Associative([AMP], EntityName(ch), [SEMICOLON]);
    } else {
      EscapePlain(Encode(ch));
    }
  }

  /** The first reading step on an escaped character: the character itself, or & and the entity. */
  lemma {:induction false} GetcEscaped(es: seq<Entity>, ch: int, s: seq<byte>)
    requires KnowsPredefined(es) && Allowed(ch)
    ensures var g := Getc(Escape(Encode(ch)) + s);
            if NeedsEntity(ch) then g.ch == AMP && GetEntity(es, g.rest) == Got(ch, s) else g == Got(ch, s)
  {
    EscapeEncode(ch);
    if NeedsEntity(ch) {
      var e := EntityName(ch) + [SEMICOLON];
      Associative([AMP], e, s);
      GetcAscii(AMP, e + s);
      GetEntityNamed(es, ch, s);
    } else {
      GetcEncode(ch, s);
    }
  }

  ghost predicate AllAllowed(cs: seq<int>) { forall i :: 0 <= i < |cs| ==> Allowed(cs[i]) }

  ghost predicate AllReadable(cs: seq<int>) { forall i :: 0 <= i < |cs| ==> Readable(cs[i]) }

  /** What the first of some characters leaves of a text in front of what the others leave. */
  lemma {:induction false} UnmarkFirst(cs: seq<int>, buf: seq<byte>)
    requires cs != [] && AllReadable(cs)
    ensures var e := Encode(cs[0]);
            var first := if cs[0] == MARK then buf else buf + e;
            buf + Unmark(EncodeAll(cs)) == first + Unmark(EncodeAll(cs[1..]))
  {
    var tail := EncodeAll(cs[1..]);
    if cs[0] == MARK {
      UnmarkSkips(tail);
    } else {
      UnmarkKeeps(cs[0], tail);
      Associative(buf, Encode(cs[0]), Unmark(tail));
    }
  }

  lemma {:induction false} EscapeMark()
    ensures Escape(Encode(MARK)) == Encode(MARK)
  {
    EscapePlain(Encode(MARK));
  }

  /** A quote that does not occur in the text as it is written. */
  predicate Quotes(quote: byte, cs: seq<int>) {
    quote == QUOT || (quote == APOS && forall i :: 0 <= i < |cs| ==> cs[i] != APOS)
  }

  /** A quoted value is read back without its marks, and the reader stands behind the closing quote. */
  lemma {:induction false} QuotedValueRun(es: seq<Entity>, quote: byte, cs: seq<int>, s: seq<byte>, buf: seq<byte>)
    requires KnowsPredefined(es) && AllReadable(cs) && Quotes(quote, cs)
    ensures QuotedValue(es, quote, Escape(EncodeAll(cs)) + ([quote] + s), buf)
            == Scan(true, buf + Unmark(EncodeAll(cs)), quote, s)
    decreases |cs|
  {
    var end := [quote] + s;
    if cs == [] {
      assert Escape(EncodeAll(cs)) + end == end && buf + Unmark(EncodeAll(cs)) == buf;
      GetcAscii(quote, s);
    } else {
      var tail := EncodeAll(cs[1..]);
      var rest := Escape(tail) + end;
      EscapeAppend(Encode(cs[0]), tail);
      Associative(Escape(Encode(cs[0])), Escape(tail), end);
      UnmarkFirst(cs, buf);
      if cs[0] == MARK {
        EscapeMark();
        SkipMarkInValue(es, quote, rest, buf);
        QuotedValueRun(es, quote, cs[1..], s, buf);
      } else {
        GetcEscaped(es, cs[0], rest);
        QuotedValueRun(es, quote, cs[1..], s, buf + Encode(cs[0]));
      }
    }
  }

  lemma {:induction false} SkipMarkInValue(es: seq<Entity>, quote: int, s: seq<byte>, buf: seq<byte>)
    ensures QuotedValue(es, quote, Encode(MARK) + s, buf) == QuotedValue(es, quote, s, buf)
  {
    GetcSkipsMark(s);
  }

  /** Text between tags goes to the string buffer, without its marks. */
  lemma {:induction false} TextRun(cb: Callback, es: seq<Entity>, st: State, cs: seq<int>, s: seq<byte>)
    requires KnowsPredefined(es) && AllReadable(cs) && st.mode == OpaqueMode
    ensures Loop(cb, es, st, Escape(EncodeAll(cs)) + s)
            == Loop(cb, es, st.(buf := st.buf + Unmark(EncodeAll(cs))), s)
    decreases |cs|
  {
    if cs == [] {
      assert Escape(EncodeAll(cs)) + s == s && st.buf + Unmark(EncodeAll(cs)) == st.buf;
    } else {
      var tail := EncodeAll(cs[1..]);
      var rest := Escape(tail) + s;
      EscapeAppend(Encode(cs[0]), tail);
      Associative(Escape(Encode(cs[0])), Escape(tail), s);
      UnmarkFirst(cs, st.buf);
      if cs[0] == MARK {
        EscapeMark();
        SkipMark(cb, es, st, rest);
        TextRun(cb, es, st, cs[1..], s);
      } else {
        GetcEscaped(es, cs[0], rest);
        TextStep(cb, es, st, Escape(Encode(cs[0])) + rest, cs[0], rest);
        TextRun(cb, es, st.(buf := st.buf + Encode(cs[0])), cs[1..], s);
      }
    }
  }

  lemma {:induction false} SkipMark(cb: Callback, es: seq<Entity>, st: State, s: seq<byte>)
    ensures Loop(cb, es, st, Encode(MARK) + s) == Loop(cb, es, st, s)
  {
    GetcSkipsMark(s);
  }

  lemma {:induction false} TextStep(cb: Callback, es: seq<Entity>, st: State, s: seq<byte>, ch: int, rest: seq<byte>)
    requires st.mode == OpaqueMode && ch != EOF
    requires var g := Getc(s);
             if NeedsEntity(ch) then g.ch == AMP && GetEntity(es, g.rest) == Got(ch, rest) else g == Got(ch, rest)
    ensures Loop(cb, es, st, s) == Loop(cb, es, st.(buf := st.buf + Encode(ch)), rest)
  {
  }

  // ---- names ----------------------------------------------------------------------------------

  /** Printable ASCII without markup. */
  predicate NameChar(c: byte) {
    33 <= c <= 126 && c != LT && c != GT && c != AMP && c != SLASH && c != EQUALS && c != QUESTION
    && c != QUOT && c != APOS
  }

  predicate PlainName(s: seq<byte>) { s != [] && forall i :: 0 <= i < |s| ==> NameChar(s[i]) }

  /** Reading on from a prefix that is not the start of a comment or CDATA section. */
  lemma {:induction false} TagNameRun(es: seq<Entity>, name: seq<byte>, end: byte, s: seq<byte>, buf: seq<byte>)
    requires forall i :: 0 <= i < |name| ==> NameChar(name[i])
    requires IsXmlSpace(end) || end == GT || (end == SLASH && buf + name != [])
    requires if buf == [] then name == [] || name[0] != BANG else buf[0] != BANG && buf[0] != QUESTION
    ensures TagName(es, name + ([end] + s), buf) == Scan(true, buf + name, end, s)
    decreases |name|
  {
    if name == [] {
      assert name + ([end] + s) == [end] + s && buf + name == buf;
      GetcAscii(end, s);
    } else {
      var c := name[0];
      assert name == [c] + name[1..];
      Associative([c], name[1..], [end] + s);
      Associative(buf, [c], name[1..]);
      GetcAscii(c, name[1..] + ([end] + s));
      assert (buf + [c])[0] == if buf == [] then c else buf[0];
      TagNameRun(es, name[1..], end, s, buf + [c]);
    }
  }

  /** A bare attribute name, up to the character that ends it. */
  lemma {:induction false} BareWordRun(es: seq<Entity>, name: seq<byte>, end: byte, s: seq<byte>, buf: seq<byte>)
    requires forall i :: 0 <= i < |name| ==> NameChar(name[i])
    requires end == EQUALS || end == GT || IsXmlSpace(end)
    ensures BareWord(es, true, name + ([end] + s), buf) == Scan(true, buf + name, end, s)
    decreases |name|
  {
    if name == [] {
      assert name + ([end] + s) == [end] + s && buf + name == buf;
      GetcAscii(end, s);
    } else {
      assert name == [name[0]] + name[1..];
      Associative([name[0]], name[1..], [end] + s);
      Associative(buf, [name[0]], name[1..]);
      GetcAscii(name[0], name[1..] + ([end] + s));
      BareWordRun(es, name[1..], end, s, buf + [name[0]]);
    }
  }

  // ---- attributes -----------------------------------------------------------------------------

  ghost predicate PlainAttr(a: Attr) { PlainName(a.name) && a.value.Some? && IsText(a.value.value) }

  /** Distinct plain names, and values that are text. */
  ghost predicate PlainAttrs(attrs: seq<Attr>) {
    && (forall i :: 0 <= i < |attrs| ==> PlainAttr(attrs[i]))
    && (forall i, j :: 0 <= i < j < |attrs| ==> attrs[i].name != attrs[j].name)
  }

  lemma {:induction false} TextHasNoNul(cs: seq<int>)
    requires AllReadable(cs)
    ensures CStr(Unmark(EncodeAll(cs))) == Unmark(EncodeAll(cs))
  {
    NoNul(cs);
    UnmarkNoNul(EncodeAll(cs));
    var s := Unmark(EncodeAll(cs));
    assert |CStr(s)| == |s|;
  }

  lemma {:induction false} NoNul(cs: seq<int>)
    requires AllReadable(cs)
    ensures 0 !in EncodeAll(cs)
    decreases |cs|
  {
    if cs != [] {
      NoNul(cs[1..]);
    }
  }

  lemma {:induction false} UnmarkNoNul(s: seq<byte>)
    requires 0 !in s
    ensures 0 !in Unmark(s)
    decreases |s|
  {
    if s != [] {
      UnmarkNoNul(if MARK_BYTES <= s then s[3..] else s[1..]);
    }
  }

  lemma {:induction false} AbsentAttr(attrs: seq<Attr>, name: seq<byte>, value: Option<seq<byte>>)
    requires forall i :: 0 <= i < |attrs| ==> attrs[i].name != name
    ensures GetAttr(attrs, name) == None && SetAttr(attrs, name, value) == attrs + [Attr(name, value)]
    decreases |attrs|
  {
    if attrs != [] {
      AbsentAttr(attrs[1..], name, value);
      assert attrs == [attrs[0]] + attrs[1..];
      Associative([attrs[0]], attrs[1..], [Attr(name, value)]);
    }
  }

  lemma {:induction false} AttrValueRun(es: seq<Entity>, v: seq<byte>, s: seq<byte>)
    requires KnowsPredefined(es) && IsText(v)
    ensures AttrValue(es, [QUOT] + (Escape(v) + ([QUOT] + s))) == Scan(true, Unmark(v), QUOT, s)
    ensures CStr(Unmark(v)) == Unmark(v)
  {
    var cs :| IsTextOf(v, cs);
    GetcAscii(QUOT, Escape(v) + ([QUOT] + s));
    QuotedValueRun(es, QUOT, cs, s, []);
    assert [] + Unmark(v) == Unmark(v);
    TextHasNoNul(cs);
  }

  /** The attributes as they are read: without U+FEFF in their values. */
  function UnmarkedAttr(a: Attr): Attr {
    if a.value.Some? then Attr(a.name, Some(Unmark(a.value.value))) else a
  }

  function UnmarkedAttrs(attrs: seq<Attr>): (r: seq<Attr>)
    ensures |r| == |attrs|
  {
    if attrs == [] then [] else [UnmarkedAttr(attrs[0])] + UnmarkedAttrs(attrs[1..])
  }

  predicate OtherNames(acc: seq<Attr>, attrs: seq<Attr>) {
    forall i, j :: 0 <= i < |acc| && 0 <= j < |attrs| ==> acc[i].name != attrs[j].name
  }

  /** name="value" behind the separator is added to the attributes. */
  lemma {:induction false} AttrRun(es: seq<Entity>, acc: seq<Attr>, a: Attr, s: seq<byte>)
    requires KnowsPredefined(es) && PlainAttr(a)
    requires forall i :: 0 <= i < |acc| ==> acc[i].name != a.name
    ensures ParseElement(es, acc, a.name + ([EQUALS] + ([QUOT] + (Escape(a.value.value) + ([QUOT] + s)))))
            == ParseElement(es, acc + [UnmarkedAttr(a)], s)
  {
    var name, v := a.name, a.value.value;
    var tail := [QUOT] + (Escape(v) + ([QUOT] + s));
    var r := name[1..] + ([EQUALS] + tail);
    assert name == [name[0]] + name[1..];
    Associative([name[0]], name[1..], [EQUALS] + tail);
    GetcAscii(name[0], r);
    assert AttrName(es, name[0], r) == Scan(true, name, EQUALS, tail) by {
      BareWordRun(es, name[1..], EQUALS, tail, [name[0]]);
    }
    AttrValueRun(es, v, s);
    AbsentAttr(acc, name, Some(Unmark(v)));
    assert CStr(name) == name by {
      assert |CStr(name)| == |name|;
    }
    ParseAttr(es, acc, name + ([EQUALS] + tail), name[0], r, acc + [UnmarkedAttr(a)], s);
  }

  lemma {:induction false} ParseAttr(es: seq<Entity>, acc: seq<Attr>, s: seq<byte>, c: byte, r: seq<byte>,
                                     attrs: seq<Attr>, rest: seq<byte>)
    requires NameChar(c) && Getc(s) == Got(c, r) && OneAttr(es, acc, c, r) == Parsed(QUOT, attrs, rest)
    ensures ParseElement(es, acc, s) == ParseElement(es, attrs, rest)
  {
  }

  /** White space between attributes is skipped. */
  lemma {:induction false} SkipSeparator(es: seq<Entity>, acc: seq<Attr>, c: byte, s: seq<byte>)
    requires IsXmlSpace(c)
    ensures ParseElement(es, acc, [c] + s) == ParseElement(es, acc, s)
  {
  }

  lemma {:induction false} AttrBytesAre(a: Attr, col: nat, wrap: int, s: seq<byte>)
    requires PlainAttr(a)
    ensures AttrBytes(a, col, wrap) + s
            == [Separator(a, col, wrap)] + (a.name + ([EQUALS] + ([QUOT] + (Escape(a.value.value) + ([QUOT] + s)))))
  {
    var sep, v := [Separator(a, col, wrap)], Escape(a.value.value);
    assert NameBytes(a.name) == a.name && [EQUALS, QUOT] == [EQUALS] + [QUOT];
    ValueBehind(sep + a.name, v, s);
    Associative(sep, a.name, [EQUALS] + ([QUOT] + (v + ([QUOT] + s))));
  }

  lemma {:induction false} ValueBehind(a: seq<byte>, v: seq<byte>, s: seq<byte>)
    ensures (a + ([EQUALS, QUOT] + v + [QUOT])) + s == a + ([EQUALS] + ([QUOT] + (v + ([QUOT] + s))))
  {
  }

  /** All attributes are read back, in order. */
  lemma {:induction false} AttrsRun(es: seq<Entity>, acc: seq<Attr>, attrs: seq<Attr>, col: nat, wrap: int,
                                    s: seq<byte>)
    requires KnowsPredefined(es) && PlainAttrs(attrs) && OtherNames(acc, attrs)
    ensures ParseElement(es, acc, AttrsBytes(attrs, col, wrap) + s) == ParseElement(es, acc + UnmarkedAttrs(attrs), s)
    decreases |attrs|
  {
    if attrs == [] {
      assert AttrsBytes(attrs, col, wrap) + s == s && acc + UnmarkedAttrs(attrs) == acc;
    } else {
      var a := attrs[0];
      var tail := AttrsBytes(attrs[1..], AttrCol(a, col, wrap), wrap) + s;
      Associative(AttrBytes(a, col, wrap), AttrsBytes(attrs[1..], AttrCol(a, col, wrap), wrap), s);
      Associative(acc, [UnmarkedAttr(a)], UnmarkedAttrs(attrs[1..]));
      AttrBytesAre(a, col, wrap, tail);
      SkipSeparator(es, acc, Separator(a, col, wrap),
        a.name + ([EQUALS] + ([QUOT] + (Escape(a.value.value) + ([QUOT] + tail)))));
      AttrRun(es, acc, a, tail);
      AttrsRun(es, acc + [UnmarkedAttr(a)], attrs[1..], AttrCol(a, col, wrap), wrap, s);
    }
  }

  // ---- attributes without a value -------------------------------------------------------------

  /** Distinct plain names; values that are text, or none. */
  ghost predicate NamedAttrs(attrs: seq<Attr>) {
    && (forall i :: 0 <= i < |attrs| ==>
         PlainName(attrs[i].name) && (attrs[i].value.Some? ==> IsText(attrs[i].value.value)))
    && (forall i, j :: 0 <= i < j < |attrs| ==> attrs[i].name != attrs[j].name)
  }

  predicate HasNull(attrs: seq<Attr>) { exists i :: 0 <= i < |attrs| && attrs[i].value == None }

  /** How what is written behind the attributes starts. */
  predicate FollowsAttrs(tail: seq<byte>) {
    |tail| >= 2 && (tail[0] == GT || (tail[0] == SPACE && tail[1] == SLASH))
  }

  /** A bare name that is not followed by an equals sign is an error. */
  lemma {:induction false} BareNameFails(es: seq<Entity>, acc: seq<Attr>, name: seq<byte>, end: byte, s: seq<byte>)
    requires PlainName(name) && (end == GT || IsXmlSpace(end))
    requires IsXmlSpace(end) ==> s != [] && (NameChar(s[0]) || s[0] == SLASH)
    ensures ParseElement(es, acc, name + ([end] + s)).ch == EOF
  {
    var r := name[1..] + ([end] + s);
    assert name == [name[0]] + name[1..];
    Associative([name[0]], name[1..], [end] + s);
    GetcAscii(name[0], r);
    BareWordRun(es, name[1..], end, s, [name[0]]);
    assert AttrName(es, name[0], r) == Scan(true, name, end, s);
    assert SkipSpace(end, s).ch != EQUALS by {
      if IsXmlSpace(end) {
        GetcAscii(s[0], s[1..]);
        assert s == [s[0]] + s[1..];
      }
    }
    assert OneAttr(es, acc, name[0], r).ch == EOF;
  }

  lemma {:induction false} NullAttrFails(es: seq<Entity>, acc: seq<Attr>, a: Attr, col: nat, wrap: int, rest: seq<byte>)
    requires PlainName(a.name) && a.value == None
    requires |rest| >= 2 && (rest[0] == GT || (IsXmlSpace(rest[0]) && (NameChar(rest[1]) || rest[1] == SLASH)))
    ensures ParseElement(es, acc, AttrBytes(a, col, wrap) + rest).ch == EOF
  {
    var sep := Separator(a, col, wrap);
    assert AttrBytes(a, col, wrap) + rest == [sep] + (a.name + rest);
    SkipSeparator(es, acc, sep, a.name + rest);
    assert rest == [rest[0]] + rest[1..];
    BareNameFails(es, acc, a.name, rest[0], rest[1..]);
  }

  /** The attributes of an element are not read back if one of them has no value. */
  lemma {:induction false} NullFails(es: seq<Entity>, acc: seq<Attr>, attrs: seq<Attr>, col: nat, wrap: int,
                                     tail: seq<byte>)
    requires KnowsPredefined(es) && NamedAttrs(attrs) && OtherNames(acc, attrs) && HasNull(attrs)
    requires FollowsAttrs(tail)
    ensures ParseElement(es, acc, AttrsBytes(attrs, col, wrap) + tail).ch == EOF
    decreases |attrs|
  {
    var a, col' := attrs[0], AttrCol(attrs[0], col, wrap);
    var rest := AttrsBytes(attrs[1..], col', wrap) + tail;
    Associative(AttrBytes(a, col, wrap), AttrsBytes(attrs[1..], col', wrap), tail);
    if a.value == None {
      RestStarts(attrs[1..], col', wrap, tail);
      NullAttrFails(es, acc, a, col, wrap, rest);
    } else {
      AttrBytesAre(a, col, wrap, rest);
      SkipSeparator(es, acc, Separator(a, col, wrap),
        a.name + ([EQUALS] + ([QUOT] + (Escape(a.value.value) + ([QUOT] + rest)))));
      AttrRun(es, acc, a, rest);
      NullBehind(attrs);
      NullFails(es, acc + [UnmarkedAttr(a)], attrs[1..], col', wrap, tail);
    }
  }

  lemma {:induction false} NullBehind(attrs: seq<Attr>)
    requires HasNull(attrs) && attrs[0].value != None
    ensures HasNull(attrs[1..])
  {
    var i :| 0 <= i < |attrs| && attrs[i].value == None;
    assert attrs[1..][i - 1] == attrs[i];
  }

  lemma {:induction false} RestStarts(attrs: seq<Attr>, col: nat, wrap: int, tail: seq<byte>)
    requires NamedAttrs(attrs)
    requires FollowsAttrs(tail)
    ensures var rest := AttrsBytes(attrs, col, wrap) + tail;
            && |rest| >= 2 && (rest[0] == GT || (IsXmlSpace(rest[0]) && (NameChar(rest[1]) || rest[1] == SLASH)))
  {
    if attrs == [] {
      assert AttrsBytes(attrs, col, wrap) + tail == tail;
    } else {
      var bytes := AttrBytes(attrs[0], col, wrap);
      assert bytes[0] == Separator(attrs[0], col, wrap) && bytes[1] == attrs[0].name[0];
    }
  }
}
