/** Reading a SIP message of any header lines, in any order, with any bytes behind them. */
module SipHeaders {
  import opened CString
  import opened Text
  import opened SipSpec

  datatype Header = Header(name: seq<byte>, value: seq<byte>)

  /** A name and a value that make one line. */
  predicate IsHeader(h: Header) { IsName(h.name) && OneLine(h.value) }

  predicate AreHeaders(hs: seq<Header>) { forall i :: 0 <= i < |hs| ==> IsHeader(hs[i]) }

  function HeaderLines(hs: seq<Header>): (ls: seq<seq<byte>>)
    ensures |ls| == |hs|
  {
    if hs == [] then [] else HeaderLines(hs[..|hs| - 1]) + [Line(hs[|hs| - 1].name, hs[|hs| - 1].value)]
  }

  /** The value of the last line with one of the names. */
  function Given(hs: seq<Header>, names: set<seq<byte>>): Option<seq<byte>> {
    if hs == [] then None
    else if hs[|hs| - 1].name in names then Some(hs[|hs| - 1].value)
    else Given(hs[..|hs| - 1], names)
  }

  function ValueOr(v: Option<seq<byte>>, otherwise: seq<byte>): seq<byte> { if v.Some? then v.value else otherwise }

  /** At most n bytes of it. */
  function Short(v: Option<seq<byte>>, n: nat, otherwise: seq<byte>): seq<byte> {
    if v.None? then otherwise else if |v.value| <= n then v.value else v.value[..n]
  }

  function Number(v: Option<seq<byte>>, otherwise: int): int { if v.Some? then Atoi(v.value) else otherwise }

  /** The structure behind the header lines. */
  function Filled(sip: Sip, hs: seq<Header>): Sip {
    sip.(to := ValueOr(Given(hs, {S_TO}), sip.to),
         from := ValueOr(Given(hs, {S_FROM}), sip.from),
         callId := Short(Given(hs, {S_CALL_ID, S_CALLID}), 64, sip.callId),
         cSeq := Short(Given(hs, {S_CSEQ}), 32, sip.cSeq),
         contentType := Short(Given(hs, {S_CONTENT_TYPE}), 16, sip.contentType),
         maxForwards := Number(Given(hs, {S_MAX_FORWARDS}), sip.maxForwards),
         expires := Number(Given(hs, {S_EXPIRES}), sip.expires),
         contentLength := Number(Given(hs, {S_CONTENT_LENGTH}), sip.contentLength))
  }

  /** A message with any header lines and any bytes behind the empty line. */
  function Letter(first: seq<byte>, hs: seq<Header>, rest: seq<byte>): seq<byte> {
    first + (Cat(HeaderLines(hs)) + (CRLF + rest))
  }

  /** The header lines the parser comes to: it stops at the twentieth line. */
  function Seen(hs: seq<Header>): seq<Header> { if |hs| <= 19 then hs else hs[..19] }

  /** What it takes for the bytes behind the header lines. */
  function Left(hs: seq<Header>, rest: seq<byte>): seq<byte> {
    if |hs| <= 18 then rest else Cat(HeaderLines(hs)[19..]) + (CRLF + rest)
  }

  /** Every field holds the value of the last line of its name, and is kept without one. The body is cut at
      the last Content-Length (RFC 3261, section 18.3), and empty without one. */
  lemma {:induction false} LetterIsRead(sip: Sip, first: seq<byte>, hs: seq<Header>, rest: seq<byte>)
    requires IsLine(first) && Find(first, BLANK) < |first|
    requires AreHeaders(hs)
    ensures var r := ParseSip(sip, Letter(first, hs, rest));
            var n, left := Number(Given(Seen(hs), {S_CONTENT_LENGTH}), 0), Left(hs, rest);
            && r.sip == Filled(SetHead(sip, first), Seen(hs))
            && r.body == Some(if n <= 0 then [] else if n < |left| then left[..n] else left)
  {
    var lines, seen := [first] + HeaderLines(hs), [first] + HeaderLines(Seen(hs));
    AreLines(hs);
    assert lines[1..] == HeaderLines(hs) && seen[1..] == HeaderLines(Seen(hs));
    Associative(first, Cat(HeaderLines(hs)), CRLF + rest);
    if |hs| <= 18 {
      SplitMessage(lines, rest, 20);
    } else {
      SeenLines(hs);
      SplitLong(lines, rest);
      assert lines[..20] == seen && lines[20..] == HeaderLines(hs)[19..];
    }
    HeadersAreSet(SetHead(sip, first), Seen(hs));
    LengthIsLast(Seen(hs), 0);
  }

  /** A body of the announced length is read whole, whatever stands behind it. */
  lemma {:induction false} BodyIsRead(sip: Sip, first: seq<byte>, hs: seq<Header>, body: seq<byte>, more: seq<byte>)
    requires IsLine(first) && Find(first, BLANK) < |first| && |hs| <= 18
    requires AreHeaders(hs)
    requires Given(hs, {S_CONTENT_LENGTH}) == Some(Signed(|body|))
    ensures ParseSip(sip, Letter(first, hs, body + more)).body == Some(body)
  {
    LetterIsRead(sip, first, hs, body + more);
    CutIs(hs, body, more);
  }

  lemma {:induction false} CutIs(hs: seq<Header>, body: seq<byte>, more: seq<byte>)
    requires |hs| <= 18 && Given(hs, {S_CONTENT_LENGTH}) == Some(Signed(|body|))
    ensures Number(Given(Seen(hs), {S_CONTENT_LENGTH}), 0) == |body| && Left(hs, body + more) == body + more
    ensures (body + more)[..|body|] == body && (more == [] ==> body + more == body)
  {
    AtoiOfSigned(|body|);
  }

  /** The first line of a message: of an answer the number, from at most 16 characters, and at most 48 characters of the
      reason are kept; of a request the command and the address, whatever follows them. */
  lemma {:induction false} FirstLineIsRead(sip: Sip, a: seq<byte>, b: seq<byte>, c: seq<byte>)
    requires OneWord(a) && OneWord(b) && OneLine(c)
    ensures IsLine(Words(a, b, c)) && Find(Words(a, b, c), BLANK) < |Words(a, b, c)|
    ensures SetHead(sip, Words(a, b, c))
         == if a == [83, 73, 80, 47, 50, 46, 48] then
              sip.(answerNum := Atoi(if |b| <= 16 then b else b[..16]), cmdName := if |c| <= 48 then c else c[..48])
            else sip.(cmdName := a, header := b)
  {
    WordsParse(a, b, c);
    WordsIsLine(a, b, c);
  }

  /** A message whose lines break off in front of the twentieth is not read at all. */
  lemma {:induction false} BrokenOffIsIgnored(sip: Sip, lines: seq<seq<byte>>, part: seq<byte>)
    requires |lines| < 20 && AllLines(lines) && LF !in part
    ensures ParseSip(sip, Cat(lines) + part) == Parsed(sip, None)
  {
    SplitCat(lines, Cat(lines) + part, part, 20, 20 - |lines|);
    FindNone(part, LF);
    NoEndStays(lines);
  }

  lemma {:induction false} NoEndStays(lines: seq<seq<byte>>)
    ensures PrependAll(lines, NoEnd) == NoEnd
    decreases |lines|
  {
    if lines != [] {
      NoEndStays(lines[1..]);
    }
  }

  lemma {:induction false} AreLines(hs: seq<Header>)
    requires AreHeaders(hs)
    ensures AllLines(HeaderLines(hs))
  {
    if hs != [] {
      var h := hs[|hs| - 1];
      AreLines(hs[..|hs| - 1]);
      LineParts(h.name, h.value);
      AllLinesAppend(HeaderLines(hs[..|hs| - 1]), Line(h.name, h.value));
    }
  }

  lemma {:induction false} AllLinesAppend(lines: seq<seq<byte>>, l: seq<byte>)
    requires AllLines(lines) && IsLine(l)
    ensures AllLines(lines + [l])
  {
    if lines == [] {
      assert lines + [l] == [l] && [l][1..] == [];
    } else {
      AllLinesAppend(lines[1..], l);
      assert (lines + [l])[1..] == lines[1..] + [l];
    }
  }

  lemma {:induction false} SeenLines(hs: seq<Header>)
    requires |hs| >= 19
    ensures HeaderLines(hs)[..19] == HeaderLines(Seen(hs))
    decreases |hs|
  {
    if |hs| == 19 {
      assert Seen(hs) == hs && HeaderLines(hs)[..19] == HeaderLines(hs);
    } else {
      SeenLines(hs[..|hs| - 1]);
      assert Seen(hs[..|hs| - 1]) == Seen(hs);
    }
  }

  lemma {:induction false} CatAppend(a: seq<seq<byte>>, b: seq<seq<byte>>)
    ensures Cat(a + b) == Cat(a) + Cat(b)
  {
    if a == [] {
      assert a + b == b;
    } else {
      assert (a + b)[1..] == a[1..] + b;
      CatAppend(a[1..], b);
      Associative(a[0], Cat(a[1..]), Cat(b));
    }
  }

  lemma {:induction false} AllLinesPrefix(lines: seq<seq<byte>>, n: nat)
    requires AllLines(lines) && n <= |lines|
    ensures AllLines(lines[..n])
  {
    if n > 0 {
      AllLinesPrefix(lines[1..], n - 1);
      assert lines[..n][1..] == lines[1..][..n - 1];
    }
  }

  /** After twenty lines the rest is what stands behind them. */
  lemma {:induction false} SplitLong(lines: seq<seq<byte>>, rest: seq<byte>)
    requires |lines| >= 20 && AllLines(lines)
    ensures SplitLines(Cat(lines) + (CRLF + rest), 20) == Lines(lines[..20], Cat(lines[20..]) + (CRLF + rest))
  {
    var end := Cat(lines[20..]) + (CRLF + rest);
    assert lines == lines[..20] + lines[20..];
    CatAppend(lines[..20], lines[20..]);
    Associative(Cat(lines[..20]), Cat(lines[20..]), CRLF + rest);
    AllLinesPrefix(lines, 20);
    SplitCat(lines[..20], Cat(lines) + (CRLF + rest), end, 20, 0);
    PrependAllIs(lines[..20], end);
  }

  lemma {:induction false} SetFieldsAppend(sip: Sip, lines: seq<seq<byte>>, l: seq<byte>)
    ensures SetFields(sip, lines + [l]) == SetField(SetFields(sip, lines), LineName(l), LineValue(l))
    decreases |lines|
  {
    if lines == [] {
      assert lines + [l] == [l] && [l][1..] == [];
    } else {
      assert (lines + [l])[1..] == lines[1..] + [l];
      SetFieldsAppend(SetField(sip, LineName(lines[0]), LineValue(lines[0])), lines[1..], l);
    }
  }

  /** One more line sets its field and no other. */
  lemma {:induction false} OneMore(sip: Sip, hs: seq<Header>)
    requires hs != []
    ensures var h := hs[|hs| - 1];
            SetField(Filled(sip, hs[..|hs| - 1]), h.name, h.value) == Filled(sip, hs)
  {
  }

  lemma {:induction false} HeadersAreSet(sip: Sip, hs: seq<Header>)
    requires AreHeaders(hs)
    ensures SetFields(sip, HeaderLines(hs)) == Filled(sip, hs)
  {
    if hs != [] {
      var h := hs[|hs| - 1];
      HeadersAreSet(sip, hs[..|hs| - 1]);
      LineParts(h.name, h.value);
      SetFieldsAppend(sip, HeaderLines(hs[..|hs| - 1]), Line(h.name, h.value));
      OneMore(sip, hs);
    }
  }

  lemma {:induction false} XmlLenAppend(lines: seq<seq<byte>>, l: seq<byte>, len: int)
    ensures XmlLen(lines + [l], len)
         == if LineName(l) == S_CONTENT_LENGTH then Atoi(LineValue(l)) else XmlLen(lines, len)
    decreases |lines|
  {
    if lines == [] {
      assert lines + [l] == [l] && [l][1..] == [];
    } else {
      assert (lines + [l])[1..] == lines[1..] + [l];
      XmlLenAppend(lines[1..], l, if LineName(lines[0]) == S_CONTENT_LENGTH then Atoi(LineValue(lines[0])) else len);
    }
  }

  lemma {:induction false} LengthIsLast(hs: seq<Header>, len: int)
    requires AreHeaders(hs)
    ensures XmlLen(HeaderLines(hs), len) == Number(Given(hs, {S_CONTENT_LENGTH}), len)
  {
    if hs != [] {
      var h := hs[|hs| - 1];
      LengthIsLast(hs[..|hs| - 1], len);
      LineParts(h.name, h.value);
      XmlLenAppend(HeaderLines(hs[..|hs| - 1]), Line(h.name, h.value), len);
    }
  }
}
