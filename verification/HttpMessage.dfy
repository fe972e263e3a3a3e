/** All messages of jni/httpAPI.c: GET and POST requests and answers, printed, scanned and parsed. */
module HttpMessageSpec {
  import opened CString
  import opened Text
  import opened HttpGetSpec

  const LETTER_G: byte := 71
  const LETTER_P: byte := 80
  const LETTER_H: byte := 72

  const POST_SLASH: seq<byte> := [80, 79, 83, 84, 32, 47]
  const HTTP_1_1: seq<byte> := [72, 84, 84, 80, 47, 49, 46, 49]

  /** HTTP/1.1 200 OK */
  const OK_LINE: seq<byte> := [72, 84, 84, 80, 47, 49, 46, 49, 32, 50, 48, 48, 32, 79, 75]

  /** Command */
  const COMMAND: seq<byte> := [67, 111, 109, 109, 97, 110, 100]

  /** Content-Length: */
  const LENGTH: seq<byte> := [67, 111, 110, 116, 101, 110, 116, 45, 76, 101, 110, 103, 116, 104, 58]

  /** Content-Type: and text/xml; and Charset=UTF-8 */
  const TYPE: seq<byte> := [67, 111, 110, 116, 101, 110, 116, 45, 84, 121, 112, 101, 58]
  const XML: seq<byte> := [116, 101, 120, 116, 47, 120, 109, 108, 59]
  const CHARSET: seq<byte> := [67, 104, 97, 114, 115, 101, 116, 61, 85, 84, 70, 45, 56]

  const TYPE_FORM: seq<byte> := TYPE + CHARSET
  const TYPE_XML: seq<byte> := TYPE + (XML + CHARSET)

  const REQ_TYPE_POST: nat := 1
  const RESP_TYPE: nat := 2

  // ---- printing -------------------------------------------------------------------------------

  function Lines(ls: seq<seq<byte>>): seq<byte> { if ls == [] then [] else ls[0] + (CRLF + Lines(ls[1..])) }

  /** Lines, an empty line, and the body. */
  function Written(ls: seq<seq<byte>>, body: seq<byte>): seq<byte> { Lines(ls) + (CRLF + body) }

  function LengthLine(n: nat): seq<byte> { LENGTH + Signed(n) }

  /** The first line of a POST request of version v. */
  function PostStart(cmd: seq<byte>, v: seq<byte>): seq<byte> { POST_SLASH + (cmd + ([BLANK] + v)) }

  function PostLine(cmd: seq<byte>): seq<byte> { PostStart(cmd, HTTP_1_0) }

  function CommandLine(cmd: seq<byte>): seq<byte> { COMMAND + ([COLON] + cmd) }

  function PostLines(cmd: seq<byte>, n: nat, seqNo: uint32): seq<seq<byte>> {
    [PostLine(cmd), TYPE_FORM, LengthLine(n), SeqLine(seqNo)]
  }

  function AnswerLines(cmd: seq<byte>, n: nat, seqNo: uint32): seq<seq<byte>> {
    [OK_LINE, CommandLine(cmd), TYPE_XML, LengthLine(n), SeqLine(seqNo)]
  }

  /** st_http_makeHttp for POST and for RESPONSE */
  function MakePost(cmd: seq<byte>, body: seq<byte>, seqNo: uint32): seq<byte> {
    Written(PostLines(cmd, |body|, seqNo), body)
  }

  function MakeAnswer(cmd: seq<byte>, xml: seq<byte>, seqNo: uint32): seq<byte> {
    Written(AnswerLines(cmd, |xml|, seqNo), xml)
  }

  // ---- scanning -------------------------------------------------------------------------------

  /** The loop over the pairs of a body: & and = alternate up to the end or the first line end. */
  function BodyScan(t: seq<byte>, paired: bool): bool {
    if t == [] || t[0] == LF then paired
    else if t[0] == AMPERSAND then paired && BodyScan(t[1..], false)
    else if t[0] == EQUALS then !paired && BodyScan(t[1..], true)
    else BodyScan(t[1..], paired)
  }

  /** The first line starts with POST / and a character that is no blank, and ends with the version. */
  predicate PostLineScan(s: seq<byte>) {
    && |s| > 6 && s[..6] == POST_SLASH && s[6] != BLANK
    && var e := StrStr(s[6..], CRLF); e >= 0 && VersionAt(s, 6 + e)
  }

  predicate FirstPairScan(s2: seq<byte>) {
    var n := Find(s2, EQUALS);
    0 < n < |s2| && PairsScan(s2[n + 1..])
  }

  function BehindEquals(s2: seq<byte>): seq<byte>
    requires FirstPairScan(s2)
  {
    s2[Find(s2, EQUALS) + 1..]
  }

  /** Behind the first question mark, if there is one, pairs. */
  predicate MarkScan(s1: seq<byte>) {
    var q := Find(s1, QUESTION);
    q < |s1| ==> FirstPairScan(s1[q + 1..])
  }

  /** Where the scan of the header lines starts. */
  function BehindMark(s1: seq<byte>): seq<byte>
    requires MarkScan(s1)
  {
    var q := Find(s1, QUESTION);
    if q < |s1| then BehindEquals(s1[q + 1..]) else s1
  }

  predicate BodyPairsScan(body: seq<byte>) {
    var n := Find(body, EQUALS);
    0 < n < |body| && (var a := Find(body, AMPERSAND); a < |body| ==> BodyScan(body[a..], true))
  }

  /** Behind the first empty line; st_http_getHead copies it to http_body. */
  function Body(s: seq<byte>): seq<byte> {
    var e := StrStr(s, CRLF + CRLF);
    if e < 0 then [] else s[e + 4..]
  }

  predicate ScanPost(msg: seq<byte>) {
    var s := SkipBlanks(msg);
    && PostLineScan(s) && MarkScan(s[6..]) && HeadersScan(BehindMark(s[6..]))
    && StrStr(msg, CRLF + CRLF) >= 0 && BodyPairsScan(Body(msg))
  }

  predicate ScanAnswer(s: seq<byte>) {
    && |s| >= 9 && s[..5] == HTTP_1_1[..5] && s[6] == HTTP_1_1[6] && s[8] == BLANK
    && StrStr(s, CRLF) >= 0 && HeadersScan(s)
  }

  /** st_http_scanHttpMsg on a C string: true for the result 0. */
  predicate Scan(msg: seq<byte>) {
    var s := SkipBlanks(msg);
    if |msg| >= MAX_HTTP_PACKAGE_LEN || s == [] then false
    else if s[0] == LETTER_G then ScanGet(msg)
    else if s[0] == LETTER_P then ScanPost(msg)
    else s[0] == LETTER_H && ScanAnswer(s)
  }

  // ---- parsing --------------------------------------------------------------------------------

  /** HTTP_OBJECT */
  datatype Message = Message(kind: nat, seqNo: int, cmd: seq<byte>, params: seq<Param>, xml: seq<byte>)

  /** What follows the last slash. */
  function LastPart(url: seq<byte>): seq<byte>
    decreases |url|
  {
    var i := Find(url, SLASH);
    if i < |url| then LastPart(url[i + 1..]) else url
  }

  /** Between the first colon behind Command and the end of the line. */
  function CommandOf(head: seq<byte>): seq<byte> {
    var c := StrStr(head, COMMAND);
    if c < 0 then []
    else
      var t := head[c..];
      var n, e := Find(t, COLON), StrStr(t, CRLF);
      if n < e then t[n + 1..e] else []
  }

  /** st_http_parseHttp on a message that has been scanned */
  function Parse(s: seq<byte>): Message {
    var head := Head(s);
    var line := FirstLine(head);
    var word := Method(line);
    if word == GET_SLASH[..3] then
      var g := ParseGet(s);
      Message(REQ_TYPE_GET, g.seqNo, g.cmd, g.params, [])
    else if word == POST_SLASH[..4] then Message(REQ_TYPE_POST, SeqOf(head), LastPart(Url(line)), [], Body(s))
    else if word == HTTP_1_1 then Message(RESP_TYPE, SeqOf(head), CommandOf(head), [], Body(s))
    else Message(REQ_TYPE_GET, SeqOf(head), [], [], [])
  }

  /** The fixed buffers: a head of at most 1023 bytes, at most 127 characters behind Seq:, a target or a command that
      fits its field; an answer has the line that names its command. */
  predicate Fits(s: seq<byte>) {
    && StrStr(s, CRLF + CRLF) >= 0 && |Head(s)| < 1024 && FitsSeq(Head(s))
    && var line := FirstLine(Head(s));
       var word := Method(line);
       && (word == GET_SLASH[..3] ==> FitsTarget(Url(line)))
       && (word == POST_SLASH[..4] ==> |Url(line)| <= 32)
       && (word == HTTP_1_1 ==> FitsCommand(Head(s)))
  }

  predicate FitsCommand(head: seq<byte>) {
    var c := StrStr(head, COMMAND);
    c >= 0 && var n, e := Find(head[c..], COLON), StrStr(head[c..], CRLF); n < e < n + 33
  }

  // ---- searching line by line -----------------------------------------------------------------

  lemma {:induction false} MismatchAt(s: seq<byte>, p: seq<byte>, j: nat, i: nat)
    requires i < |p| && j + i < |s| && s[j + i] != p[i]
    ensures !MatchAt(s, p, j)
  {
  }

  lemma {:induction false} MatchIsSlice(s: seq<byte>, p: seq<byte>, j: nat)
    requires j + |p| <= |s|
    ensures MatchAt(s, p, j) <==> s[j..j + |p|] == p
  {
    if s[j..j + |p|] == p {
      forall k | 0 <= k < |p| ensures s[j + k] == p[k] {
        assert s[j..j + |p|][k] == s[j + k];
      }
    }
  }

  /** A text that lacks one of its characters does not contain p. */
  lemma {:induction false} NoChar(x: seq<byte>, p: seq<byte>, i: nat)
    requires i < |p| && p[i] !in x
    ensures StrStr(x, p) < 0
  {
    StrStrIsFirst(x, p);
    forall j: nat ensures !MatchAt(x, p, j) {
      if j + i < |x| {
        assert x[j + i] in x;
        MismatchAt(x, p, j, i);
      }
    }
  }

  lemma {:induction false} NoFirst(x: seq<byte>, p: seq<byte>)
    requires p != [] && p[0] !in x
    ensures StrStr(x, p) < 0
  {
    NoChar(x, p, 0);
  }

  lemma {:induction false} MatchInFrontOf(s: seq<byte>, a: seq<byte>, b: seq<byte>, p: seq<byte>, j: nat)
    requires s == a + b && j + |p| <= |a|
    ensures MatchAt(s, p, j) <==> MatchAt(a, p, j)
  {
    assert s[j..j + |p|] == a[j..j + |p|];
    MatchIsSlice(s, p, j);
    MatchIsSlice(a, p, j);
  }

  lemma {:induction false} MatchBehind(s: seq<byte>, a: seq<byte>, b: seq<byte>, p: seq<byte>, k: nat)
    requires s == a + b
    ensures MatchAt(s, p, |a| + k) <==> MatchAt(b, p, k)
  {
    if k + |p| <= |b| {
      assert s[|a| + k..|a| + k + |p|] == b[k..k + |p|];
      MatchIsSlice(s, p, |a| + k);
      MatchIsSlice(b, p, k);
    }
  }

  /** No line end in it, so it is found inside a line or not at all. */
  lemma {:induction false} NoneAcross(x: seq<byte>, y: seq<byte>, p: seq<byte>)
    requires p != [] && CR !in p && LF !in p && StrStr(x, p) < 0 && StrStr(y, p) < 0
    ensures StrStr(x + (CRLF + y), p) < 0
  {
    var s := x + (CRLF + y);
    assert s == (x + CRLF) + y;
    StrStrIsFirst(x, p);
    StrStrIsFirst(y, p);
    StrStrIsFirst(s, p);
    forall j: nat ensures !MatchAt(s, p, j) {
      if j + |p| <= |x| {
        MatchInFrontOf(s, x, CRLF + y, p, j);
      } else if j <= |x| {
        assert j + |p| <= |s| ==> s[|x|] == CR && p[|x| - j] in p;
        if |x| < |s| {
          MismatchAt(s, p, j, |x| - j);
        }
      } else if j == |x| + 1 {
        assert s[j] == LF && p[0] in p;
        MismatchAt(s, p, j, 0);
      } else {
        MatchBehind(s, x + CRLF, y, p, j - |x| - 2);
      }
    }
  }

  lemma {:induction false} NoneInLines(ls: seq<seq<byte>>, p: seq<byte>)
    requires p != [] && CR !in p && LF !in p && forall l <- ls :: StrStr(l, p) < 0
    ensures StrStr(Lines(ls), p) < 0
    decreases |ls|
  {
    if ls == [] {
      NoFirst([], p);
    } else {
      NoneInLines(ls[1..], p);
      NoneAcross(ls[0], Lines(ls[1..]), p);
    }
  }

  /** A word whose first character does not come again in it is found where it was written, if not earlier. */
  lemma {:induction false} FoundBehind(s: seq<byte>, a: seq<byte>, p: seq<byte>, b: seq<byte>)
    requires p != [] && (forall k :: 0 < k < |p| ==> p[k] != p[0]) && s == a + (p + b) && StrStr(a, p) < 0
    ensures StrStr(s, p) == |a| && s[|a|..] == p + b && s[|a| + |p|..] == b
  {
    StrStrIsFirst(a, p);
    forall j | 0 <= j < |a| ensures !MatchAt(s, p, j) {
      if j + |p| <= |a| {
        MatchInFrontOf(s, a, p + b, p, j);
      } else {
        assert s[|a|] == p[0];
        MismatchAt(s, p, j, |a| - j);
      }
    }
    assert forall i :: 0 <= i < |p| ==> s[|a| + i] == p[i];
    FirstMatch(s, p, |a|);
  }

  lemma {:induction false} LinesAppend(a: seq<seq<byte>>, b: seq<seq<byte>>)
    ensures Lines(a + b) == Lines(a) + Lines(b)
    decreases |a|
  {
    if a == [] {
      assert a + b == b;
    } else {
      assert (a + b)[0] == a[0] && (a + b)[1..] == a[1..] + b;
      LinesAppend(a[1..], b);
      Associative(a[0], CRLF + Lines(a[1..]), Lines(b));
      Associative(CRLF, Lines(a[1..]), Lines(b));
    }
  }

  /** A line: neither empty nor with a line end in it. */
  predicate IsLine(l: seq<byte>) { l != [] && CR !in l && LF !in l }

  /** The text of a line. */
  predicate InLine(s: seq<byte>) { CR !in s && LF !in s }

  predicate AreLines(ls: seq<seq<byte>>) { forall l <- ls :: IsLine(l) }

  /** A line with a colon, as the scanner wants every line to be but the first. */
  predicate IsHeader(l: seq<byte>) { IsLine(l) && COLON in l }

  predicate AreHeaders(ls: seq<seq<byte>>) { forall l <- ls :: IsHeader(l) }

  lemma {:induction false} WrittenFirst(ls: seq<seq<byte>>, body: seq<byte>)
    requires ls != []
    ensures Written(ls, body) == ls[0] + (CRLF + Written(ls[1..], body))
  {
    Associative(ls[0], CRLF + Lines(ls[1..]), CRLF + body);
    Associative(CRLF, Lines(ls[1..]), CRLF + body);
  }

  /** The first empty line is the one behind the lines. */
  lemma {:induction false} EmptyLineOf(ls: seq<seq<byte>>, body: seq<byte>)
    requires ls != [] && AreLines(ls)
    ensures StrStr(Written(ls, body), CRLF + CRLF) == |Lines(ls)| - 2
    decreases |ls|
  {
    var s, p, l, rest := Written(ls, body), CRLF + CRLF, ls[0], Written(ls[1..], body);
    assert p == [CR, LF, CR, LF];
    assert l in ls;
    WrittenFirst(ls, body);
    if |ls| == 1 {
      assert rest == CRLF + body;
      forall j | 0 <= j < |l| ensures !MatchAt(s, p, j) {
        assert s[j] == l[j];
        MismatchAt(s, p, j, 0);
      }
      assert s[|l|] == CR && s[|l| + 1] == LF && s[|l| + 2] == CR && s[|l| + 3] == LF;
      FirstMatch(s, p, |l|);
    } else {
      EmptyLineOf(ls[1..], body);
      assert rest[0] == ls[1][0] != CR by {
        assert ls[1] in ls && ls[1..][0] == ls[1];
      }
      OneLineFurther(s, l, rest);
    }
  }

  lemma {:induction false} OneLineFurther(s: seq<byte>, l: seq<byte>, rest: seq<byte>)
    requires s == l + (CRLF + rest) && CR !in l && rest != [] && rest[0] != CR && StrStr(rest, CRLF + CRLF) >= 0
    ensures StrStr(s, CRLF + CRLF) == |l| + 2 + StrStr(rest, CRLF + CRLF)
  {
    var p, e := CRLF + CRLF, StrStr(rest, CRLF + CRLF);
    assert p == [CR, LF, CR, LF];
    StrStrIsFirst(rest, p);
    assert s[|l|] == CR && s[|l| + 1] == LF && s[|l| + 2] == rest[0];
    forall j | 0 <= j < |l| + 2 + e ensures !MatchAt(s, p, j) {
      if j < |l| {
        assert s[j] == l[j];
        MismatchAt(s, p, j, 0);
      } else if j == |l| {
        MismatchAt(s, p, j, 2);
      } else if j == |l| + 1 {
        MismatchAt(s, p, j, 0);
      } else {
        MatchBehind(s, l + CRLF, rest, p, j - |l| - 2);
      }
    }
    MatchBehind(s, l + CRLF, rest, p, e);
    FirstMatch(s, p, |l| + 2 + e);
  }

  /** The head is the lines and the empty one, the body what follows. */
  lemma {:induction false} HeadAndBody(ls: seq<seq<byte>>, body: seq<byte>)
    requires ls != [] && AreLines(ls)
    ensures var s := Written(ls, body);
            StrStr(s, CRLF + CRLF) >= 0 && Head(s) == Lines(ls) + CRLF && Body(s) == body
  {
    EmptyLineOf(ls, body);
    var s, n := Written(ls, body), |Lines(ls)|;
    Associative(Lines(ls), CRLF, body);
    assert s[..n + 2] == Lines(ls) + CRLF && s[n + 2..] == body;
  }

  lemma {:induction false} FirstOfLines(ls: seq<seq<byte>>, tail: seq<byte>)
    requires ls != [] && AreLines(ls)
    ensures FirstLine(Lines(ls) + tail) == ls[0]
  {
    Associative(ls[0], CRLF + Lines(ls[1..]), tail);
    Associative(CRLF, Lines(ls[1..]), tail);
    assert ls[0] in ls;
    FirstLineIs(Lines(ls) + tail, ls[0], Lines(ls[1..]) + tail);
  }

  /** Lines in front of the empty one pass the scan exactly if each has a colon. */
  lemma {:induction false} HeadersExactly(ls: seq<seq<byte>>, body: seq<byte>)
    requires AreLines(ls)
    ensures HeaderScan(Written(ls, body)) <==> AreHeaders(ls)
    decreases |ls|
  {
    var s := Written(ls, body);
    if ls == [] {
      assert s == [] + (CRLF + body);
      CrlfBehind(s, [], body);
    } else {
      HeadersExactly(ls[1..], body);
      WrittenFirst(ls, body);
      assert ls[0] in ls && ls == [ls[0]] + ls[1..];
      CrlfBehind(s, ls[0], Written(ls[1..], body));
      assert s[..|ls[0]|] == ls[0];
    }
  }

  predicate NoneContains(ls: seq<seq<byte>>, p: seq<byte>) { forall l <- ls :: StrStr(l, p) < 0 }

  /** The first line in which p occurs is l. */
  ghost predicate FirstWith(ls: seq<seq<byte>>, p: seq<byte>, l: seq<byte>) {
    exists i :: 0 <= i < |ls| && ls[i] == l && NoneContains(ls[..i], p)
  }

  /** A line among others. */
  lemma {:induction false} LineAmong(ls: seq<seq<byte>>, i: nat, tail: seq<byte>)
    requires i < |ls|
    ensures Lines(ls) + tail == Lines(ls[..i]) + (ls[i] + (CRLF + (Lines(ls[i + 1..]) + tail)))
  {
    var l, rest := ls[i], Lines(ls[i + 1..]);
    assert ls == ls[..i] + ls[i..] && ls[i..][0] == l && ls[i..][1..] == ls[i + 1..];
    LinesAppend(ls[..i], ls[i..]);
    Associative(Lines(ls[..i]), Lines(ls[i..]), tail);
    Associative(l, CRLF + rest, tail);
    Associative(CRLF, rest, tail);
  }

  // ---- the lines of the printers --------------------------------------------------------------

  predicate OtherChar(c: byte) { c == CR || c == LF || c == 0 || c == QUESTION || c == SEQ[0] }

  lemma {:induction false} SignedHasNo(n: int, c: byte)
    requires OtherChar(c)
    ensures c !in Signed(n)
  {
    SignedChars(n);
  }

  lemma {:induction false} LengthHasNo(c: byte)
    requires OtherChar(c)
    ensures c !in LENGTH
  {
  }

  lemma {:induction false} LengthLineHasNo(n: nat, c: byte)
    requires OtherChar(c)
    ensures c !in LengthLine(n)
  {
    SignedHasNo(n, c);
    LengthHasNo(c);
  }

  lemma {:induction false} LengthLineIsLine(n: nat)
    ensures IsHeader(LengthLine(n)) && StrStr(LengthLine(n), SEQ) < 0
  {
    LengthLineHasNo(n, CR);
    LengthLineHasNo(n, LF);
    LengthLineHasNo(n, SEQ[0]);
    assert LengthLine(n)[|LENGTH| - 1] == COLON;
    NoFirst(LengthLine(n), SEQ);
  }

  lemma {:induction false} TypeParts(c: byte)
    requires OtherChar(c)
    ensures c !in TYPE && c !in XML && c !in CHARSET
  {
  }

  lemma {:induction false} TypeLinesAreLines()
    ensures IsHeader(TYPE_FORM) && QUESTION !in TYPE_FORM && StrStr(TYPE_FORM, SEQ) < 0
    ensures IsHeader(TYPE_XML) && 0 !in TYPE_XML && StrStr(TYPE_XML, SEQ) < 0
  {
    TypeParts(CR);
    TypeParts(LF);
    TypeParts(0);
    TypeParts(QUESTION);
    TypeParts(SEQ[0]);
    assert TYPE[12] == COLON && COLON in TYPE;
    NoFirst(TYPE_FORM, SEQ);
    NoFirst(TYPE_XML, SEQ);
  }

  lemma {:induction false} SeqLineIsLine(seqNo: uint32)
    ensures IsHeader(SeqLine(seqNo)) && QUESTION !in SeqLine(seqNo) && 0 !in SeqLine(seqNo)
  {
    SignedChars(AsInt(seqNo));
    assert SeqLine(seqNo)[3] == COLON;
  }

  lemma {:induction false} NumberBehind(head: seq<byte>, a: seq<byte>, seqNo: uint32, rest: seq<byte>)
    requires StrStr(a, SEQ) < 0 && head == a + (SeqLine(seqNo) + (CRLF + rest))
    ensures SeqOf(head) == AsInt(seqNo) && FitsSeq(head)
  {
    Associative(SEQ, Signed(AsInt(seqNo)), CRLF + rest);
    assert CRLF + rest == [CR] + ([LF] + rest);
    SeqIsRead(head, a, seqNo, [LF] + rest);
    SeqFits(head, a, seqNo, [LF] + rest);
  }

  /** The number is read from the first line in which Seq: occurs. */
  lemma {:induction false} NumberIsRead(ls: seq<seq<byte>>, seqNo: uint32, tail: seq<byte>)
    requires FirstWith(ls, SEQ, SeqLine(seqNo))
    ensures var s := Lines(ls) + tail; SeqOf(s) == AsInt(seqNo) && FitsSeq(s)
  {
    var i :| 0 <= i < |ls| && ls[i] == SeqLine(seqNo) && NoneContains(ls[..i], SEQ);
    LineAmong(ls, i, tail);
    NoneInLines(ls[..i], SEQ);
    NumberBehind(Lines(ls) + tail, Lines(ls[..i]), seqNo, Lines(ls[i + 1..]) + tail);
  }

  /** No blank, no tab and no NUL. */
  predicate IsSolid(s: seq<byte>) { forall i :: 0 <= i < |s| ==> s[i] != 32 && s[i] != 9 && s[i] != 0 }

  /** In general the number is what atoi makes of the characters behind Seq: up to a blank or a tab: none, if that
      comes at once. */
  lemma {:induction false} NumberEndsAtBlank(ls: seq<seq<byte>>, digits: seq<byte>, rest: seq<byte>, tail: seq<byte>)
    requires FirstWith(ls, SEQ, SEQ + (digits + rest)) && CR !in digits && CR !in rest
    requires IsSolid(digits) && (rest == [] || rest[0] == 32 || rest[0] == 9)
    ensures SeqOf(Lines(ls) + tail) == Atoi(digits)
  {
    var line := SEQ + (digits + rest);
    var i :| 0 <= i < |ls| && ls[i] == line && NoneContains(ls[..i], SEQ);
    var a, b := Lines(ls[..i]), [LF] + (Lines(ls[i + 1..]) + tail);
    LineAmong(ls, i, tail);
    NoneInLines(ls[..i], SEQ);
    assert CRLF + (Lines(ls[i + 1..]) + tail) == [CR] + b;
    Associative(SEQ, digits + rest, [CR] + b);
    SeqBehind(Lines(ls) + tail, a, (digits + rest) + ([CR] + b));
    FindBehind(digits + rest, CR, b);
    GapsEnd(digits, rest);
  }

  lemma {:induction false} GapsEnd(digits: seq<byte>, rest: seq<byte>)
    requires IsSolid(digits) && (rest == [] || rest[0] == 32 || rest[0] == 9)
    ensures CStr(Gaps(digits + rest)) == digits
    decreases |digits|
  {
    if digits == [] {
      assert digits + rest == rest;
    } else {
      assert (digits + rest)[1..] == digits[1..] + rest;
      assert digits == [digits[0]] + digits[1..];
      GapsEnd(digits[1..], rest);
    }
  }

  /** A text that starts with a word and a blank. */
  lemma {:induction false} StartIs(s: seq<byte>, word: seq<byte>, rest: seq<byte>)
    requires word != [] && BLANK !in word && s == word + ([BLANK] + rest)
    ensures SkipBlanks(s) == s && Method(s) == word
  {
    assert word[0] in word;
    FindBehind(word, BLANK, rest);
  }

  lemma {:induction false} UrlBehind(line: seq<byte>, a: seq<byte>, cmd: seq<byte>, tail: seq<byte>)
    requires SLASH !in a && BLANK !in cmd && line == a + ([SLASH] + (cmd + ([BLANK] + tail)))
    ensures Url(line) == [SLASH] + cmd
  {
    var url := [SLASH] + cmd;
    FindBehind(a, SLASH, cmd + ([BLANK] + tail));
    assert line[|a|..] == url + ([BLANK] + tail);
    FindBehind(url, BLANK, tail);
  }

  // ---- GET requests ---------------------------------------------------------------------------

  lemma {:induction false} GetMethod(cmd: seq<byte>, ps: seq<Param>, seqNo: uint32)
    requires IsCommand(cmd) && PlainParams(ps)
    ensures Method(FirstLine(Head(MakeGet(cmd, Join(ps), seqNo)))) == GET_SLASH[..3]
  {
    var line := MessageLines(cmd, Join(ps), seqNo);
    LineChars(line, cmd, ps);
    WholeHead(cmd, ps, seqNo);
    FirstLineIs(MakeGet(cmd, Join(ps), seqNo), line, SeqLine(seqNo) + (CRLF + CRLF));
    CommandChars(cmd);
    JoinChars(ps, BLANK);
    UrlIs(line, cmd, Join(ps));
  }

  lemma {:induction false} ParsedLikeGet(s: seq<byte>)
    requires Method(FirstLine(Head(s))) == GET_SLASH[..3]
    ensures var g := ParseGet(s); Parse(s) == Message(REQ_TYPE_GET, g.seqNo, g.cmd, g.params, [])
    ensures FitsBuffers(s) ==> Fits(s)
  {
  }

  /** The parser for all messages takes a printed GET request for one, and takes it apart. */
  lemma {:induction false} GetIsParsed(cmd: seq<byte>, ps: seq<Param>, seqNo: uint32)
    requires IsCommand(cmd) && PlainParams(ps) && NumberComesFirst(cmd, ps)
    ensures Parse(MakeGet(cmd, Join(ps), seqNo)) == Message(REQ_TYPE_GET, AsInt(seqNo), cmd, ps, [])
    ensures var s := MakeGet(cmd, Join(ps), seqNo);
            |s| < 512 && |cmd| < 32 && |ps| <= MAX_PARAM_NUM && ShortParams(ps) ==> Fits(s)
  {
    var s := MakeGet(cmd, Join(ps), seqNo);
    GetMethod(cmd, ps, seqNo);
    ParsedLikeGet(s);
    GetRoundTrip(cmd, ps, seqNo);
    if |s| < 512 && |cmd| < 32 && |ps| <= MAX_PARAM_NUM && ShortParams(ps) {
      PrintedFits(cmd, ps, seqNo);
    }
  }

  /** The first line of a GET request of version v. */
  function GetStart(cmd: seq<byte>, query: seq<byte>, v: seq<byte>): seq<byte> {
    GET_SLASH + (cmd + ([QUESTION] + (query + ([BLANK] + v))))
  }

  lemma {:induction false} GetStartChars(cmd: seq<byte>, query: seq<byte>, v: seq<byte>)
    requires InLine(cmd) && InLine(query) && IsVersion(v)
    ensures IsLine(GetStart(cmd, query, v))
  {
    VersionChars(v, CR);
    VersionChars(v, LF);
    GetParts();
    assert InLine(cmd + ([QUESTION] + (query + ([BLANK] + v))));
  }

  lemma {:induction false} GetParts()
    ensures GET_SLASH == GET_SLASH[..3] + ([BLANK] + [SLASH]) && GET_SLASH == GET_SLASH[..4] + [SLASH]
    ensures InLine(GET_SLASH) && BLANK !in GET_SLASH[..3] && SLASH !in GET_SLASH[..4]
  {
  }

  lemma {:induction false} GetIsText(cmd: seq<byte>, query: seq<byte>, v: seq<byte>, t: seq<byte>)
    ensures GetStart(cmd, query, v) + (CRLF + t) == GetText(cmd, query, v, t)
  {
    Associative([BLANK], v, CRLF + t);
    Associative(query, [BLANK] + v, CRLF + t);
    Associative([QUESTION], query + ([BLANK] + v), CRLF + t);
    Associative(cmd, [QUESTION] + (query + ([BLANK] + v)), CRLF + t);
    Associative(GET_SLASH, cmd + ([QUESTION] + (query + ([BLANK] + v))), CRLF + t);
  }

  /** The scanner accepts a GET request, of any version and with any header lines and body, exactly if it has a command,
      its query starts with something and an equals sign and goes on with pairs, each header line has a colon, and it is
      shorter than 128 KiB. If no & follows in the query, the next one in the message is taken for one of the query. */
  lemma {:induction false} GetScannedExactly(cmd: seq<byte>, ts: seq<seq<byte>>, v: seq<byte>,
                                             headers: seq<seq<byte>>, body: seq<byte>)
    requires InLine(cmd) && QUESTION !in cmd && AreParts(ts) && EQUALS in Joined(ts) && IsVersion(v)
    requires AreLines(headers)
    ensures var s := Written([GetStart(cmd, Joined(ts), v)] + headers, body);
            Scan(s) <==>
            && |s| < 131072 && cmd != [] && Joined(ts)[0] != EQUALS && ArePairs(Behind(ts)) && AreHeaders(headers)
            && (Behind(ts) == [] ==> PairsScan(Written(headers, body)))
  {
    var line := GetStart(cmd, Joined(ts), v);
    WrittenFirst([line] + headers, body);
    assert ([line] + headers)[1..] == headers;
    GetIsText(cmd, Joined(ts), v, Written(headers, body));
    GetExactly(cmd, ts, v, Written(headers, body));
    HeadersExactly(headers, body);
  }

  lemma {:induction false} GetStartIs(cmd: seq<byte>, query: seq<byte>, v: seq<byte>)
    requires BLANK !in cmd && BLANK !in query
    ensures var line := GetStart(cmd, query, v);
            Method(line) == GET_SLASH[..3] && Url(line) == [SLASH] + (cmd + ([QUESTION] + query))
  {
    var target := cmd + ([QUESTION] + query);
    var tail := target + ([BLANK] + v);
    GetParts();
    Associative([QUESTION], query, [BLANK] + v);
    Associative(cmd, [QUESTION] + query, [BLANK] + v);
    assert GetStart(cmd, query, v) == GET_SLASH + tail;
    Associative(GET_SLASH[..3], [BLANK] + [SLASH], tail);
    Associative([BLANK], [SLASH], tail);
    StartIs(GET_SLASH + tail, GET_SLASH[..3], [SLASH] + tail);
    Associative(GET_SLASH[..4], [SLASH], tail);
    UrlBehind(GET_SLASH + tail, GET_SLASH[..4], target, v);
  }

  /** A GET request of any version and with any header lines and body: its command, its pairs in order and its number,
      from the first line in which Seq: occurs, are read. */
  lemma {:induction false} GetIsRead(cmd: seq<byte>, ps: seq<Param>, v: seq<byte>, headers: seq<seq<byte>>,
                                     seqNo: uint32, body: seq<byte>)
    requires IsCommand(cmd) && PlainParams(ps) && IsVersion(v) && AreLines(headers)
    requires FirstWith([GetStart(cmd, Join(ps), v)] + headers, SEQ, SeqLine(seqNo))
    ensures Parse(Written([GetStart(cmd, Join(ps), v)] + headers, body))
            == Message(REQ_TYPE_GET, AsInt(seqNo), cmd, ps, [])
  {
    var line := GetStart(cmd, Join(ps), v);
    var ls := [line] + headers;
    CommandChars(cmd);
    JoinChars(ps, CR);
    JoinChars(ps, LF);
    JoinChars(ps, BLANK);
    GetStartChars(cmd, Join(ps), v);
    GetStartIs(cmd, Join(ps), v);
    HeadAndBody(ls, body);
    FirstOfLines(ls, CRLF);
    NumberIsRead(ls, seqNo, CRLF);
    UrlParts(Url(line), cmd, Join(ps));
    PairsAreRead(ps);
    ParsedLikeGet(Written(ls, body));
  }

  // ---- answers --------------------------------------------------------------------------------

  lemma {:induction false} CommandLineIsLine(cmd: seq<byte>)
    requires InLine(cmd)
    ensures IsHeader(CommandLine(cmd))
  {
    assert CommandLine(cmd)[7] == COLON;
  }

  lemma {:induction false} FiveLines(first: seq<byte>, a: seq<byte>, b: seq<byte>, c: seq<byte>, d: seq<byte>)
    requires IsLine(first) && IsHeader(a) && IsHeader(b) && IsHeader(c) && IsHeader(d)
    ensures AreLines([first, a, b, c, d]) && AreHeaders([first, a, b, c, d][1..])
  {
    assert [first, a, b, c, d][1..] == [a, b, c, d];
  }

  lemma {:induction false} OkIsLine()
    ensures IsLine(OK_LINE)
  {
  }

  lemma {:induction false} AnswerLinesAre(cmd: seq<byte>, n: nat, seqNo: uint32)
    requires InLine(cmd)
    ensures AreLines(AnswerLines(cmd, n, seqNo)) && AreHeaders(AnswerLines(cmd, n, seqNo)[1..])
  {
    CommandLineIsLine(cmd);
    TypeLinesAreLines();
    LengthLineIsLine(n);
    SeqLineIsLine(seqNo);
    OkIsLine();
    FiveLines(OK_LINE, CommandLine(cmd), TYPE_XML, LengthLine(n), SeqLine(seqNo));
  }

  /** The first line of an answer: HTTP/d.e, a blank and any text. */
  function StatusLine(d: byte, e: byte, text: seq<byte>): seq<byte> { [72, 84, 84, 80, 47, d, 46, e, 32] + text }

  lemma {:induction false} StatusLineIsLine(d: byte, e: byte, text: seq<byte>)
    requires InLine([d, e]) && InLine(text)
    ensures IsLine(StatusLine(d, e, text))
  {
    assert d in [d, e] && e in [d, e];
  }

  lemma {:induction false} AnswerScans(s: seq<byte>, d: byte, e: byte, text: seq<byte>, rest: seq<byte>)
    requires IsLine(StatusLine(d, e, text)) && s == StatusLine(d, e, text) + (CRLF + rest)
    ensures SkipBlanks(s) == s && s[0] == LETTER_H
    ensures ScanAnswer(s) <==> HeaderScan(rest)
  {
    CrlfBehind(s, StatusLine(d, e, text), rest);
    assert s[..5] == HTTP_1_1[..5];
  }

  /** The scanner accepts an answer, whatever its version, its status, its header lines and its body, exactly if each
      header line has a colon and the message is shorter than 128 KiB. */
  lemma {:induction false} AnswerScannedExactly(d: byte, e: byte, text: seq<byte>, headers: seq<seq<byte>>,
                                                body: seq<byte>)
    requires InLine([d, e]) && InLine(text) && AreLines(headers)
    ensures var s := Written([StatusLine(d, e, text)] + headers, body);
            Scan(s) <==> |s| < 131072 && AreHeaders(headers)
  {
    var line := StatusLine(d, e, text);
    StatusLineIsLine(d, e, text);
    WrittenFirst([line] + headers, body);
    assert ([line] + headers)[1..] == headers;
    AnswerScans(Written([line] + headers, body), d, e, text, Written(headers, body));
    HeadersExactly(headers, body);
  }

  lemma {:induction false} OkIsStatus(cmd: seq<byte>, n: nat, seqNo: uint32)
    ensures OK_LINE == StatusLine(49, 49, OK_LINE[9..]) && InLine([49, 49]) && InLine(OK_LINE[9..])
    ensures AnswerLines(cmd, n, seqNo) == [OK_LINE] + AnswerLines(cmd, n, seqNo)[1..]
  {
  }

  /** The scanner accepts every printed answer that is not too long. */
  lemma {:induction false} AnswerAccepted(cmd: seq<byte>, xml: seq<byte>, seqNo: uint32)
    requires InLine(cmd)
    ensures var s := MakeAnswer(cmd, xml, seqNo); Scan(s) <==> |s| < MAX_HTTP_PACKAGE_LEN
  {
    AnswerLinesAre(cmd, |xml|, seqNo);
    OkIsStatus(cmd, |xml|, seqNo);
    AnswerScannedExactly(49, 49, OK_LINE[9..], AnswerLines(cmd, |xml|, seqNo)[1..], xml);
  }

  /** The command is read from the first line in which Command occurs. */
  lemma {:induction false} CommandIsRead(ls: seq<seq<byte>>, cmd: seq<byte>, tail: seq<byte>)
    requires InLine(cmd) && FirstWith(ls, COMMAND, CommandLine(cmd))
    ensures CommandOf(Lines(ls) + tail) == cmd
    ensures |cmd| < 32 ==> FitsCommand(Lines(ls) + tail)
  {
    var i :| 0 <= i < |ls| && ls[i] == CommandLine(cmd) && NoneContains(ls[..i], COMMAND);
    LineAmong(ls, i, tail);
    NoneInLines(ls[..i], COMMAND);
    CommandBehind(Lines(ls) + tail, Lines(ls[..i]), cmd, Lines(ls[i + 1..]) + tail);
  }

  lemma {:induction false} CommandText(t: seq<byte>, cmd: seq<byte>, rest: seq<byte>)
    requires InLine(cmd) && t == CommandLine(cmd) + (CRLF + rest)
    ensures Find(t, COLON) == 7 && StrStr(t, CRLF) == 8 + |cmd| <= |t| && t[8..8 + |cmd|] == cmd
  {
    CommandLineIsLine(cmd);
    CrlfBehind(t, CommandLine(cmd), rest);
    Associative(COMMAND, [COLON] + cmd, CRLF + rest);
    Associative([COLON], cmd, CRLF + rest);
    FindBehind(COMMAND, COLON, cmd + (CRLF + rest));
  }

  lemma {:induction false} CommandBehind(head: seq<byte>, a: seq<byte>, cmd: seq<byte>, rest: seq<byte>)
    requires InLine(cmd) && StrStr(a, COMMAND) < 0 && head == a + (CommandLine(cmd) + (CRLF + rest))
    ensures CommandOf(head) == cmd
    ensures |cmd| < 32 ==> FitsCommand(head)
  {
    Associative(COMMAND, [COLON] + cmd, CRLF + rest);
    FoundBehind(head, a, COMMAND, ([COLON] + cmd) + (CRLF + rest));
    CommandText(head[|a|..], cmd, rest);
  }

  lemma {:induction false} AnswerHead(cmd: seq<byte>, n: nat, seqNo: uint32) returns (rest: seq<byte>)
    ensures Lines(AnswerLines(cmd, n, seqNo)) + CRLF == (OK_LINE + CRLF) + (CommandLine(cmd) + (CRLF + rest))
  {
    var ls := AnswerLines(cmd, n, seqNo);
    assert ls[1..][0] == CommandLine(cmd) && ls[1..][1..] == ls[2..];
    rest := Lines(ls[2..]) + CRLF;
    assert Lines(ls) == OK_LINE + (CRLF + (CommandLine(cmd) + (CRLF + Lines(ls[2..]))));
    var tail := CommandLine(cmd) + (CRLF + Lines(ls[2..]));
    Associative(OK_LINE, CRLF + tail, CRLF);
    Associative(CRLF, tail, CRLF);
    Associative(CommandLine(cmd), CRLF + Lines(ls[2..]), CRLF);
    Associative(CRLF, Lines(ls[2..]), CRLF);
    Associative(OK_LINE, CRLF, tail + CRLF);
  }

  lemma {:induction false} ParsedAsGet(s: seq<byte>)
    requires Method(FirstLine(Head(s))) == GET_SLASH[..3] && FitsTarget(Url(FirstLine(Head(s))))
    ensures var url := Url(FirstLine(Head(s)));
            var q := Find(url, QUESTION);
            Parse(s)
            == Message(REQ_TYPE_GET, SeqOf(Head(s)), url[1..q], ParamsOf(Tokens(url[q + 1..], AMPERSAND)), [])
  {
  }

  lemma {:induction false} ParsedAsAnswer(s: seq<byte>)
    requires Method(FirstLine(Head(s))) == HTTP_1_1
    ensures Parse(s) == Message(RESP_TYPE, SeqOf(Head(s)), CommandOf(Head(s)), [], Body(s))
  {
  }

  lemma {:induction false} StatusIsAnswer(text: seq<byte>)
    ensures Method(StatusLine(49, 49, text)) == HTTP_1_1
  {
    assert StatusLine(49, 49, text) == HTTP_1_1 + ([BLANK] + text);
    StartIs(StatusLine(49, 49, text), HTTP_1_1, text);
  }

  /** The lines of an answer of version 1.1. */
  function LinesOf(text: seq<byte>, headers: seq<seq<byte>>): seq<seq<byte>> { [StatusLine(49, 49, text)] + headers }

  /** Whatever the number, the status and the other lines are, an answer is parsed as one, with its body and the command
      that the first line with Command in it names. */
  lemma {:induction false} AnswerFields(text: seq<byte>, headers: seq<seq<byte>>, cmd: seq<byte>, body: seq<byte>)
    requires InLine(text) && AreLines(headers) && InLine(cmd)
    requires FirstWith(LinesOf(text, headers), COMMAND, CommandLine(cmd))
    ensures var ls := LinesOf(text, headers);
            var s := Written(ls, body);
            && StrStr(s, CRLF + CRLF) >= 0 && Head(s) == Lines(ls) + CRLF && Method(FirstLine(Head(s))) == HTTP_1_1
            && Parse(s) == Message(RESP_TYPE, SeqOf(Head(s)), cmd, [], body)
            && (|cmd| < 32 ==> FitsCommand(Head(s)))
  {
    var ls := LinesOf(text, headers);
    StatusLineIsLine(49, 49, text);
    HeadAndBody(ls, body);
    FirstOfLines(ls, CRLF);
    StatusIsAnswer(text);
    ParsedAsAnswer(Written(ls, body));
    CommandIsRead(ls, cmd, CRLF);
  }

  /** An answer of version 1.1 with any status and any header lines: its number, its command and its body are read, from
      the first lines in which their names occur; and it keeps the parser's buffers if the command fits its field and
      the head its buffer. */
  lemma {:induction false} AnswerIsRead(text: seq<byte>, headers: seq<seq<byte>>, cmd: seq<byte>, seqNo: uint32,
                                        body: seq<byte>)
    requires InLine(text) && AreLines(headers) && InLine(cmd)
    requires FirstWith(LinesOf(text, headers), COMMAND, CommandLine(cmd))
    requires FirstWith(LinesOf(text, headers), SEQ, SeqLine(seqNo))
    ensures var s := Written(LinesOf(text, headers), body);
            && Parse(s) == Message(RESP_TYPE, AsInt(seqNo), cmd, [], body)
            && (|cmd| < 32 && |Head(s)| < 1024 ==> Fits(s))
  {
    AnswerFields(text, headers, cmd, body);
    NumberIsRead(LinesOf(text, headers), seqNo, CRLF);
  }

  lemma {:induction false} PrintedLines(cmd: seq<byte>, n: nat, seqNo: uint32)
    requires InLine(cmd)
    ensures var ls := AnswerLines(cmd, n, seqNo);
            ls == LinesOf(OK_LINE[9..], ls[1..]) && AreLines(ls[1..]) && InLine(OK_LINE[9..])
            && FirstWith(ls, COMMAND, CommandLine(cmd))
  {
    var ls := AnswerLines(cmd, n, seqNo);
    OkIsStatus(cmd, n, seqNo);
    AnswerLinesAre(cmd, n, seqNo);
    NoFirst(OK_LINE, COMMAND);
    assert ls[..1] == [OK_LINE] && ls[1] == CommandLine(cmd);
    assert NoneContains(ls[..1], COMMAND);
  }

  lemma {:induction false} FifthIsFirst(a: seq<byte>, b: seq<byte>, c: seq<byte>, d: seq<byte>, e: seq<byte>,
                                        p: seq<byte>)
    requires StrStr(a, p) < 0 && StrStr(b, p) < 0 && StrStr(c, p) < 0 && StrStr(d, p) < 0
    ensures FirstWith([a, b, c, d, e], p, e)
  {
    assert [a, b, c, d, e][..4] == [a, b, c, d];
    assert NoneContains([a, b, c, d, e][..4], p) && [a, b, c, d, e][4] == e;
  }

  lemma {:induction false} PrintedNumber(cmd: seq<byte>, n: nat, seqNo: uint32)
    requires StrStr(CommandLine(cmd), SEQ) < 0
    ensures FirstWith(AnswerLines(cmd, n, seqNo), SEQ, SeqLine(seqNo))
  {
    TypeLinesAreLines();
    LengthLineIsLine(n);
    NoFirst(OK_LINE, SEQ);
    FifthIsFirst(OK_LINE, CommandLine(cmd), TYPE_XML, LengthLine(n), SeqLine(seqNo), SEQ);
  }

  /** Parsing a printed answer gives its number, its command and its body, and keeps the parser's buffers if the
      command fits its field and the head its buffer. */
  lemma {:induction false} AnswerRoundTrip(cmd: seq<byte>, xml: seq<byte>, seqNo: uint32)
    requires InLine(cmd) && StrStr(CommandLine(cmd), SEQ) < 0
    ensures Parse(MakeAnswer(cmd, xml, seqNo)) == Message(RESP_TYPE, AsInt(seqNo), cmd, [], xml)
    ensures var s := MakeAnswer(cmd, xml, seqNo); |cmd| < 32 && |Head(s)| < 1024 ==> Fits(s)
  {
    PrintedLines(cmd, |xml|, seqNo);
    PrintedNumber(cmd, |xml|, seqNo);
    AnswerIsRead(OK_LINE[9..], AnswerLines(cmd, |xml|, seqNo)[1..], cmd, seqNo, xml);
  }

  /** A word whose first character is not in a is found behind a if it is anywhere. */
  lemma {:induction false} FoundLater(a: seq<byte>, l: seq<byte>, p: seq<byte>)
    requires p != [] && p[0] !in a && StrStr(l, p) >= 0
    ensures StrStr(a + l, p) == |a| + StrStr(l, p)
  {
    var s, r := a + l, StrStr(l, p);
    StrStrIsFirst(l, p);
    forall j | 0 <= j < |a| + r ensures !MatchAt(s, p, j) {
      if j < |a| {
        assert s[j] == a[j];
        MismatchAt(s, p, j, 0);
      } else {
        MatchBehind(s, a, l, p, j - |a|);
      }
    }
    MatchBehind(s, a, l, p, r);
    FirstMatch(s, p, |a| + r);
  }

  /** Seq: in the line l hides the number that follows. */
  lemma {:induction false} LineHides(a: seq<byte>, l: seq<byte>, rest: seq<byte>)
    requires SEQ[0] !in a && CR !in l && StrStr(l, SEQ) >= 0
    ensures SeqOf(a + (l + (CRLF + rest))) == Atoi(CStr(Gaps(l[StrStr(l, SEQ) + 4..])))
  {
    FoundLater(a, l, SEQ);
    assert (a + l)[|a| + StrStr(l, SEQ) + 4..] == l[StrStr(l, SEQ) + 4..];
    Associative(a, l, CRLF + rest);
    LineHidesNumber(a + (l + (CRLF + rest)), a + l, rest);
  }

  lemma {:induction false} OkHasNoSeq()
    ensures SEQ[0] !in OK_LINE + CRLF
  {
  }

  lemma {:induction false} HeadHides(head: seq<byte>, cmd: seq<byte>, rest: seq<byte>)
    requires InLine(cmd) && StrStr(CommandLine(cmd), SEQ) >= 0
    requires head == (OK_LINE + CRLF) + (CommandLine(cmd) + (CRLF + rest))
    ensures SeqOf(head) == Atoi(CStr(Gaps(CommandLine(cmd)[StrStr(CommandLine(cmd), SEQ) + 4..])))
  {
    CommandLineIsLine(cmd);
    OkHasNoSeq();
    LineHides(OK_LINE + CRLF, CommandLine(cmd), rest);
  }

  lemma {:induction false} AnswerNumberHidden(cmd: seq<byte>, n: uint32)
    requires InLine(cmd) && StrStr(CommandLine(cmd), SEQ) >= 0
    ensures Parse(MakeAnswer(cmd, [], n)).seqNo
         == Atoi(CStr(Gaps(CommandLine(cmd)[StrStr(CommandLine(cmd), SEQ) + 4..])))
  {
    PrintedLines(cmd, 0, n);
    AnswerFields(OK_LINE[9..], AnswerLines(cmd, 0, n)[1..], cmd, []);
    var rest := AnswerHead(cmd, 0, n);
    HeadHides(Head(MakeAnswer(cmd, [], n)), cmd, rest);
  }

  /** Answers are read back, whatever their numbers and bodies are, exactly if Seq: does not occur in the line that
      names the command. */
  lemma {:induction false} AnswersAreReadExactly(cmd: seq<byte>)
    requires InLine(cmd)
    ensures StrStr(CommandLine(cmd), SEQ) < 0 <==>
            forall xml: seq<byte>, n: uint32 ::
              Parse(MakeAnswer(cmd, xml, n)) == Message(RESP_TYPE, AsInt(n), cmd, [], xml)
  {
    if StrStr(CommandLine(cmd), SEQ) < 0 {
      forall xml: seq<byte>, n: uint32
        ensures Parse(MakeAnswer(cmd, xml, n)) == Message(RESP_TYPE, AsInt(n), cmd, [], xml)
      {
        AnswerRoundTrip(cmd, xml, n);
      }
    } else {
      AnswerNumberHidden(cmd, 0);
      AnswerNumberHidden(cmd, 1);
      assert AsInt(0) != AsInt(1);
    }
  }

  // ---- the kind of a message ------------------------------------------------------------------

  lemma {:induction false} WithoutCrAppend(a: seq<byte>, b: seq<byte>)
    ensures WithoutCr(a + b) == WithoutCr(a) + WithoutCr(b)
    decreases |a|
  {
    if a == [] {
      assert a + b == b;
    } else {
      assert (a + b)[1..] == a[1..] + b;
      WithoutCrAppend(a[1..], b);
    }
  }

  /** A blank in front of a message is a blank in front of its first line. */
  lemma {:induction false} BlankInFront(s: seq<byte>)
    requires StrStr(s, CRLF + CRLF) >= 0
    ensures StrStr([BLANK] + s, CRLF + CRLF) >= 0
    ensures FirstLine(Head([BLANK] + s)) == [BLANK] + FirstLine(Head(s))
  {
    var p, u, e := CRLF + CRLF, [BLANK] + s, StrStr(s, CRLF + CRLF);
    StrStrIsFirst(s, p);
    forall j | 0 <= j < 1 + e ensures !MatchAt(u, p, j) {
      if j == 0 {
        MismatchAt(u, p, 0, 0);
      } else {
        MatchBehind(u, [BLANK], s, p, j - 1);
      }
    }
    MatchBehind(u, [BLANK], s, p, e);
    FirstMatch(u, p, 1 + e);
    assert Head(u) == [BLANK] + Head(s);
    FindInFront(BLANK, Head(s), LF);
    var n := Find(Head(s), LF);
    assert Head(u)[..n + 1] == [BLANK] + Head(s)[..n];
    WithoutCrAppend([BLANK], Head(s)[..n]);
    assert [BLANK][1..] == [];
  }

  lemma {:induction false} FindInFront(b: byte, s: seq<byte>, c: byte)
    requires b != c
    ensures Find([b] + s, c) == 1 + Find(s, c)
  {
    assert ([b] + s)[1..] == s;
  }

  /** The first line without its blanks is what follows the blanks, up to the first LF and without any CR. */
  lemma {:induction false} LineBehindBlanks(msg: seq<byte>) returns (t: seq<byte>)
    requires StrStr(msg, CRLF + CRLF) >= 0 && SkipBlanks(msg) != [] && SkipBlanks(msg)[0] !in [CR, LF]
    ensures t <= SkipBlanks(msg) && LF !in t && SkipBlanks(FirstLine(Head(msg))) == WithoutCr(t)
    ensures |t| < |SkipBlanks(msg)| && t != []
    ensures SkipBlanks(msg)[|t|] == LF
    decreases |msg|
  {
    if msg[0] == BLANK {
      assert msg == [BLANK] + msg[1..];
      StrStrIsFirst(msg, CRLF + CRLF);
      StrStrIsFirst(msg[1..], CRLF + CRLF);
      MismatchAt(msg, CRLF + CRLF, 0, 0);
      MatchBehind(msg, [BLANK], msg[1..], CRLF + CRLF, StrStr(msg, CRLF + CRLF) - 1);
      BlankInFront(msg[1..]);
      t := LineBehindBlanks(msg[1..]);
    } else {
      var e, head := StrStr(msg, CRLF + CRLF), Head(msg);
      StrStrIsFirst(msg, CRLF + CRLF);
      FindIsFirst(head, LF);
      assert head[e + 1] == LF by {
        assert msg[e + 1] == (CRLF + CRLF)[1];
      }
      t := head[..Find(head, LF)];
      assert t[0] == msg[0];
    }
  }

  lemma {:induction false} WithoutCrOfPlain(a: seq<byte>, b: seq<byte>)
    requires CR !in a
    ensures WithoutCr(a + b) == a + WithoutCr(b)
  {
    WithoutCrAppend(a, b);
    WithoutCrPrefix(a, a);
    WithoutCrShorter(a);
  }

  lemma {:induction false} WithoutCrShorter(a: seq<byte>)
    ensures |WithoutCr(a)| <= |a|
  {
    if a != [] {
      WithoutCrShorter(a[1..]);
    }
  }

  /** The characters 1.1 are what is left of the version, up to the first LF, only if they are the version. */
  lemma {:induction false} VersionIsLeft(t: seq<byte>, x: byte, y: byte)
    requires t <= [x, 46, y, BLANK] + t[if |t| < 4 then |t| else 4..] && |t| != 1 && |t| != 3
    requires |WithoutCr(t)| >= 3 && WithoutCr(t)[..3] == [49, 46, 49]
    ensures x == 49 && y == 49
  {
    WithoutCrShorter(t);
    assert t[0] == x && t[1] == 46 && t[2] == y && t[3] == BLANK;
    assert t == [x] + ([46] + ([y] + ([BLANK] + t[4..])));
    WithoutCrAppend([x], [46] + ([y] + ([BLANK] + t[4..])));
    WithoutCrOfPlain([46], [y] + ([BLANK] + t[4..]));
    WithoutCrAppend([y], [BLANK] + t[4..]);
    WithoutCrOfPlain([BLANK], t[4..]);
    assert WithoutCr([x]) == if x == CR then [] else [x] by {
      assert [x][1..] == [];
    }
    assert WithoutCr([y]) == if y == CR then [] else [y] by {
      assert [y][1..] == [];
    }
    var rest := [BLANK] + WithoutCr(t[4..]);
    assert WithoutCr(t) == WithoutCr([x]) + ([46] + (WithoutCr([y]) + rest));
    assert WithoutCr(t)[0] == 49 && WithoutCr(t)[1] == 46 && WithoutCr(t)[2] == 49;
    assert rest[0] == BLANK;
  }

  /** The first line of an answer, without its blanks, is HTTP/ and what is left of the rest. */
  lemma {:induction false} AnswerLine(msg: seq<byte>) returns (t: seq<byte>)
    requires ScanAnswer(SkipBlanks(msg)) && StrStr(msg, CRLF + CRLF) >= 0
    ensures t <= SkipBlanks(msg)[5..] && |t| < |SkipBlanks(msg)| - 5 && SkipBlanks(msg)[5 + |t|] == LF
    ensures SkipBlanks(FirstLine(Head(msg))) == HTTP_1_1[..5] + WithoutCr(t)
  {
    var s := SkipBlanks(msg);
    assert forall i :: 0 <= i < 5 ==> s[i] == HTTP_1_1[..5][i];
    var line := LineBehindBlanks(msg);
    assert |line| >= 5;
    t := line[5..];
    assert line == line[..5] + t && line[..5] == HTTP_1_1[..5];
    WithoutCrOfPlain(line[..5], t);
  }

  lemma {:induction false} WordOf(line: seq<byte>, v: seq<byte>)
    requires SkipBlanks(line) == HTTP_1_1[..5] + v
    ensures HTTP_1_1[..5] <= Method(line)
    ensures Method(line) == HTTP_1_1 ==> |v| >= 3 && v[..3] == [49, 46, 49]
  {
    var u := SkipBlanks(line);
    FindIsFirst(u, BLANK);
    var n := Find(u, BLANK);
    assert n >= 5;
    if Method(line) == HTTP_1_1 {
      assert u[..n][5..] == v[..n - 5] == HTTP_1_1[5..];
    }
  }

  /** An answer is parsed as one exactly if its version is 1.1; else its method is another word that starts with
      HTTP/. */
  lemma {:induction false} AnswerKind(msg: seq<byte>)
    requires ScanAnswer(SkipBlanks(msg)) && StrStr(msg, CRLF + CRLF) >= 0
    ensures var word := Method(FirstLine(Head(msg)));
            HTTP_1_1[..5] <= word && (word == HTTP_1_1 <==> HTTP_1_1 <= SkipBlanks(msg))
  {
    var s := SkipBlanks(msg);
    var t := AnswerLine(msg);
    WordOf(FirstLine(Head(msg)), WithoutCr(t));
    if Method(FirstLine(Head(msg))) == HTTP_1_1 {
      assert s[5..] == [s[5], 46, s[7], BLANK] + s[9..];
      VersionIsLeft(t, s[5], s[7]);
      VersionIs(s);
    }
    if HTTP_1_1 <= s {
      assert HTTP_1_1 + [BLANK] == s[..9];
      MethodIs(msg, HTTP_1_1);
    }
  }

  lemma {:induction false} VersionIs(s: seq<byte>)
    requires ScanAnswer(s) && s[5] == 49 && s[7] == 49
    ensures HTTP_1_1 <= s
  {
    assert forall i :: 0 <= i < 5 ==> s[..5][i] == HTTP_1_1[..5][i];
    assert forall i :: 0 <= i < 8 ==> s[i] == HTTP_1_1[i];
  }

  /** What the parser makes of a message that has been scanned: a message that starts with P is a POST request, an
      answer of version 1.1 is an answer, and any other answer is returned as a GET request without a command. */
  lemma {:induction false} KindIs(msg: seq<byte>)
    requires Scan(msg) && StrStr(msg, CRLF + CRLF) >= 0
    ensures var s, m := SkipBlanks(msg), Parse(msg);
            && m.kind == (if s[0] == LETTER_P then REQ_TYPE_POST
                          else if HTTP_1_1 <= s then RESP_TYPE
                          else REQ_TYPE_GET)
            && (s[0] == LETTER_H && !(HTTP_1_1 <= s) ==> m == Message(REQ_TYPE_GET, SeqOf(Head(msg)), [], [], []))
  {
    var s := SkipBlanks(msg);
    if s[0] == LETTER_G {
      ScannedIsGet(msg);
    } else if s[0] == LETTER_P {
      ScannedIsPost(msg);
    } else {
      AnswerKind(msg);
    }
  }

  lemma {:induction false} ScannedIsPost(msg: seq<byte>)
    requires ScanPost(msg) && StrStr(msg, CRLF + CRLF) >= 0
    ensures Method(FirstLine(Head(msg))) == POST_SLASH[..4]
  {
    var s := SkipBlanks(msg);
    assert POST_SLASH[..4] + [BLANK] == s[..6][..5] == s[..5];
    MethodIs(msg, POST_SLASH[..4]);
  }

  // ---- POST requests --------------------------------------------------------------------------

  /** Characters that end neither the line nor the target. */
  predicate InTarget(s: seq<byte>) { InLine(s) && BLANK !in s }

  lemma {:induction false} PostParts()
    ensures POST_SLASH == POST_SLASH[..4] + ([BLANK] + [SLASH]) && POST_SLASH == POST_SLASH[..5] + [SLASH]
    ensures InLine(POST_SLASH) && IsVersion(HTTP_1_0) && BLANK !in POST_SLASH[..4] && SLASH !in POST_SLASH[..5]
  {
  }

  lemma {:induction false} PostStartIs(cmd: seq<byte>, v: seq<byte>)
    requires InTarget(cmd) && IsVersion(v)
    ensures var line := PostStart(cmd, v);
            IsLine(line) && Method(line) == POST_SLASH[..4] && Url(line) == [SLASH] + cmd
  {
    var line, tail := PostStart(cmd, v), cmd + ([BLANK] + v);
    PostParts();
    VersionChars(v, CR);
    VersionChars(v, LF);
    Associative(POST_SLASH[..4], [BLANK] + [SLASH], tail);
    Associative([BLANK], [SLASH], tail);
    StartIs(line, POST_SLASH[..4], [SLASH] + tail);
    Associative(POST_SLASH[..5], [SLASH], tail);
    UrlBehind(line, POST_SLASH[..5], cmd, v);
  }

  lemma {:induction false} FourLines(first: seq<byte>, a: seq<byte>, b: seq<byte>, c: seq<byte>)
    requires IsLine(first) && IsHeader(a) && IsHeader(b) && IsHeader(c)
    ensures AreLines([first, a, b, c]) && AreHeaders([first, a, b, c][1..])
  {
    assert [first, a, b, c][1..] == [a, b, c];
  }

  lemma {:induction false} PostLinesAre(cmd: seq<byte>, n: nat, seqNo: uint32)
    requires InTarget(cmd)
    ensures AreLines(PostLines(cmd, n, seqNo)) && AreHeaders(PostLines(cmd, n, seqNo)[1..])
  {
    PostParts();
    PostStartIs(cmd, HTTP_1_0);
    TypeLinesAreLines();
    LengthLineIsLine(n);
    SeqLineIsLine(seqNo);
    FourLines(PostLine(cmd), TYPE_FORM, LengthLine(n), SeqLine(seqNo));
  }

  lemma {:induction false} FourthIsFirst(a: seq<byte>, b: seq<byte>, c: seq<byte>, d: seq<byte>, p: seq<byte>)
    requires StrStr(a, p) < 0 && StrStr(b, p) < 0 && StrStr(c, p) < 0
    ensures FirstWith([a, b, c, d], p, d)
  {
    assert [a, b, c, d][..3] == [a, b, c];
    assert NoneContains([a, b, c, d][..3], p) && [a, b, c, d][3] == d;
  }

  lemma {:induction false} PostNumber(cmd: seq<byte>, n: nat, seqNo: uint32)
    requires StrStr(PostLine(cmd), SEQ) < 0
    ensures var s := Lines(PostLines(cmd, n, seqNo)) + CRLF; SeqOf(s) == AsInt(seqNo) && FitsSeq(s)
  {
    TypeLinesAreLines();
    LengthLineIsLine(n);
    FourthIsFirst(PostLine(cmd), TYPE_FORM, LengthLine(n), SeqLine(seqNo), SEQ);
    NumberIsRead(PostLines(cmd, n, seqNo), seqNo, CRLF);
  }

  lemma {:induction false} ParsedAsPost(s: seq<byte>)
    requires Method(FirstLine(Head(s))) == POST_SLASH[..4]
    ensures Parse(s) == Message(REQ_TYPE_POST, SeqOf(Head(s)), LastPart(Url(FirstLine(Head(s)))), [], Body(s))
  {
  }

  lemma {:induction false} LastPartOf(cmd: seq<byte>)
    ensures LastPart([SLASH] + cmd) == LastPart(cmd)
    ensures LastPart(cmd) == cmd <==> SLASH !in cmd
  {
    assert ([SLASH] + cmd)[1..] == cmd;
    FindIsFirst(cmd, SLASH);
    if SLASH in cmd {
      LastPartShorter(cmd[Find(cmd, SLASH) + 1..]);
    } else {
      FindNone(cmd, SLASH);
    }
  }

  lemma {:induction false} LastPartShorter(s: seq<byte>)
    ensures |LastPart(s)| <= |s|
    decreases |s|
  {
    var i := Find(s, SLASH);
    if i < |s| {
      LastPartShorter(s[i + 1..]);
    }
  }

  /** Whatever the number and the lines are, a POST request is parsed as one, with its body and what follows the last
      slash of its command. */
  lemma {:induction false} PostFields(cmd: seq<byte>, v: seq<byte>, headers: seq<seq<byte>>, body: seq<byte>)
    requires InTarget(cmd) && IsVersion(v) && AreLines(headers)
    ensures var s := Written([PostStart(cmd, v)] + headers, body);
            && StrStr(s, CRLF + CRLF) >= 0 && Head(s) == Lines([PostStart(cmd, v)] + headers) + CRLF
            && Parse(s) == Message(REQ_TYPE_POST, SeqOf(Head(s)), LastPart(cmd), [], body)
            && (FitsSeq(Head(s)) && |cmd| < 32 && |Head(s)| < 1024 ==> Fits(s))
  {
    var ls := [PostStart(cmd, v)] + headers;
    PostStartIs(cmd, v);
    HeadAndBody(ls, body);
    FirstOfLines(ls, CRLF);
    ParsedAsPost(Written(ls, body));
    LastPartOf(cmd);
  }

  /** A POST request of any version and with any header lines: its command, its body and its number, from the first line
      in which Seq: occurs, are read. */
  lemma {:induction false} PostIsRead(cmd: seq<byte>, v: seq<byte>, headers: seq<seq<byte>>, seqNo: uint32,
                                      body: seq<byte>)
    requires InTarget(cmd) && SLASH !in cmd && IsVersion(v) && AreLines(headers)
    requires FirstWith([PostStart(cmd, v)] + headers, SEQ, SeqLine(seqNo))
    ensures var s := Written([PostStart(cmd, v)] + headers, body);
            && Parse(s) == Message(REQ_TYPE_POST, AsInt(seqNo), cmd, [], body)
            && (|cmd| < 32 && |Head(s)| < 1024 ==> Fits(s))
  {
    PostFields(cmd, v, headers, body);
    LastPartOf(cmd);
    NumberIsRead([PostStart(cmd, v)] + headers, seqNo, CRLF);
  }

  lemma {:induction false} PostBody(cmd: seq<byte>, body: seq<byte>, seqNo: uint32)
    requires InTarget(cmd)
    ensures var s := MakePost(cmd, body, seqNo);
            && Head(s) == Lines(PostLines(cmd, |body|, seqNo)) + CRLF
            && Parse(s) == Message(REQ_TYPE_POST, SeqOf(Head(s)), LastPart(cmd), [], body)
            && (FitsSeq(Head(s)) && |cmd| < 32 && |Head(s)| < 1024 ==> Fits(s))
  {
    var ls := PostLines(cmd, |body|, seqNo);
    PostLinesAre(cmd, |body|, seqNo);
    PostParts();
    assert ls == [PostStart(cmd, HTTP_1_0)] + ls[1..];
    PostFields(cmd, HTTP_1_0, ls[1..], body);
  }

  /** Parsing a printed POST request gives its number, its command and its body. */
  lemma {:induction false} PostRoundTrip(cmd: seq<byte>, body: seq<byte>, seqNo: uint32)
    requires InTarget(cmd) && SLASH !in cmd && StrStr(PostLine(cmd), SEQ) < 0
    ensures Parse(MakePost(cmd, body, seqNo)) == Message(REQ_TYPE_POST, AsInt(seqNo), cmd, [], body)
    ensures var s := MakePost(cmd, body, seqNo); |cmd| < 32 && |Head(s)| < 1024 ==> Fits(s)
  {
    PostBody(cmd, body, seqNo);
    LastPartOf(cmd);
    PostNumber(cmd, |body|, seqNo);
  }

  lemma {:induction false} FirstLineHides(ls: seq<seq<byte>>)
    requires ls != [] && CR !in ls[0] && StrStr(ls[0], SEQ) >= 0
    ensures SeqOf(Lines(ls) + CRLF) == Atoi(CStr(Gaps(ls[0][StrStr(ls[0], SEQ) + 4..])))
  {
    WrittenFirst(ls, []);
    assert CRLF + [] == CRLF;
    LineHidesNumber(Lines(ls) + CRLF, ls[0], Written(ls[1..], []));
  }

  lemma {:induction false} PostNumberHidden(cmd: seq<byte>, n: uint32)
    requires InTarget(cmd) && StrStr(PostLine(cmd), SEQ) >= 0
    ensures Parse(MakePost(cmd, [], n)).seqNo == Atoi(CStr(Gaps(PostLine(cmd)[StrStr(PostLine(cmd), SEQ) + 4..])))
  {
    PostBody(cmd, [], n);
    PostParts();
    PostStartIs(cmd, HTTP_1_0);
    FirstLineHides(PostLines(cmd, 0, n));
  }

  /** POST requests are read back, whatever their numbers and bodies are, exactly if there is no slash in the command
      and Seq: does not occur in the first line. */
  lemma {:induction false} PostsAreReadExactly(cmd: seq<byte>)
    requires InTarget(cmd)
    ensures SLASH !in cmd && StrStr(PostLine(cmd), SEQ) < 0 <==>
            forall body: seq<byte>, n: uint32 ::
              Parse(MakePost(cmd, body, n)) == Message(REQ_TYPE_POST, AsInt(n), cmd, [], body)
  {
    if SLASH in cmd {
      PostBody(cmd, [], 0);
      LastPartOf(cmd);
    } else if StrStr(PostLine(cmd), SEQ) < 0 {
      forall body: seq<byte>, n: uint32
        ensures Parse(MakePost(cmd, body, n)) == Message(REQ_TYPE_POST, AsInt(n), cmd, [], body)
      {
        PostRoundTrip(cmd, body, n);
      }
    } else {
      PostNumberHidden(cmd, 0);
      PostNumberHidden(cmd, 1);
      assert AsInt(0) != AsInt(1);
    }
  }

  // ---- the scanner accepts POST requests ------------------------------------------------------

  /** Exactly one equals sign. */
  predicate HasOne(t: seq<byte>) {
    var n := Find(t, EQUALS);
    n < |t| && EQUALS !in t[n + 1..]
  }

  predicate HaveOne(ts: seq<seq<byte>>) { ts == [] || (HasOne(ts[0]) && HaveOne(ts[1..])) }

  /** A body of parts: the first equals sign has something in front, and every part but the first has exactly one. */
  predicate GoodBody(ts: seq<seq<byte>>) {
    EQUALS in Joined(ts) && Joined(ts)[0] != EQUALS && HaveOne(ts[1..])
  }

  lemma {:induction false} BodyScanRun(a: seq<byte>, t: seq<byte>, paired: bool)
    requires forall i :: 0 <= i < |a| ==> a[i] != LF && a[i] != AMPERSAND && a[i] != EQUALS
    ensures BodyScan(a + t, paired) == BodyScan(t, paired)
    decreases |a|
  {
    if a == [] {
      assert a + t == t;
    } else {
      assert (a + t)[1..] == a[1..] + t;
      BodyScanRun(a[1..], t, paired);
    }
  }

  /** Behind an equals sign another one is refused. */
  lemma {:induction false} BodyValueScans(b: seq<byte>, u: seq<byte>)
    requires IsPart(b)
    ensures BodyScan(b + u, true) <==> EQUALS !in b && BodyScan(u, true)
  {
    FindIsFirst(b, EQUALS);
    var n := Find(b, EQUALS);
    if n == |b| {
      assert b[..n] == b;
      BodyScanRun(b, u, true);
    } else {
      var rest := b[n + 1..] + u;
      assert b[n] in b && b + u == b[..n] + ([EQUALS] + rest);
      BodyScanRun(b[..n], [EQUALS] + rest, true);
    }
  }

  lemma {:induction false} BodyPartScans(t: seq<byte>, u: seq<byte>)
    requires IsPart(t) && !BodyScan(u, false)
    ensures BodyScan([AMPERSAND] + (t + u), true) <==> HasOne(t) && BodyScan(u, true)
  {
    FindIsFirst(t, EQUALS);
    var n := Find(t, EQUALS);
    assert ([AMPERSAND] + (t + u))[1..] == t + u;
    if n == |t| {
      assert t[..n] == t;
      BodyScanRun(t, u, false);
    } else {
      var b := t[n + 1..];
      var rest := [EQUALS] + (b + u);
      assert t + u == t[..n] + rest && rest[1..] == b + u;
      BodyScanRun(t[..n], rest, false);
      BodyValueScans(b, u);
    }
  }

  lemma {:induction false} BodyPartsScan(ts: seq<seq<byte>>)
    requires ts != [] && AreParts(ts)
    ensures BodyScan([AMPERSAND] + Joined(ts), true) <==> HaveOne(ts)
    decreases |ts|
  {
    if |ts| == 1 {
      assert ts[0] + [] == ts[0];
      BodyPartScans(ts[0], []);
    } else {
      BodyPartScans(ts[0], [AMPERSAND] + Joined(ts[1..]));
      BodyPartsScan(ts[1..]);
    }
  }

  lemma {:induction false} BodyPairsExactly(ts: seq<seq<byte>>)
    requires AreParts(ts)
    ensures BodyPairsScan(Joined(ts)) <==> GoodBody(ts)
  {
    var body := Joined(ts);
    FindIsFirst(body, EQUALS);
    if EQUALS in body {
      FindInside(body, EQUALS);
    } else {
      FindNone(body, EQUALS);
    }
    if |ts| > 1 {
      FindBehind(ts[0], AMPERSAND, Joined(ts[1..]));
      assert body[|ts[0]|..] == [AMPERSAND] + Joined(ts[1..]);
      BodyPartsScan(ts[1..]);
    } else if |ts| == 1 {
      FindNone(body, AMPERSAND);
    }
  }

  lemma {:induction false} PairHasOne(ts: seq<seq<byte>>)
    requires ArePairs(ts)
    ensures HaveOne(ts)
    decreases |ts|
  {
    if ts != [] {
      PairHasOne(ts[1..]);
    }
  }

  /** The pairs of a body are accepted if there are any. */
  lemma {:induction false} BodyPairsAccepted(ps: seq<Param>)
    requires PlainParams(ps)
    ensures GoodBody(Pairs(ps)) <==> ps != []
  {
    PlainPairs(ps);
    if ps != [] {
      PlainPairs(ps[1..]);
      PairHasOne(Pairs(ps[1..]));
      assert Pairs(ps)[1..] == Pairs(ps[1..]);
    }
  }

  /** The scanner also looks for a question mark behind the first line: one in the body has to be followed, not at once,
      by an = with no & behind it. */
  predicate MarkHarmless(body: seq<byte>) {
    var q := Find(body, QUESTION);
    q < |body| ==> OnePair(body[q + 1..])
  }

  predicate OnePair(s2: seq<byte>) {
    var n := Find(s2, EQUALS);
    0 < n < |s2| && AMPERSAND !in s2[n + 1..]
  }

  lemma {:induction false} PairScanNeedsEnd(t: seq<byte>, prev: byte, paired: bool)
    requires LF !in t
    ensures !PairScan(t, prev, paired)
    decreases |t|
  {
    if t != [] {
      PairScanNeedsEnd(t[1..], t[0], false);
      PairScanNeedsEnd(t[1..], t[0], true);
    }
  }

  lemma {:induction false} PairsWithoutEnd(s3: seq<byte>)
    requires LF !in s3
    ensures PairsScan(s3) <==> AMPERSAND !in s3
  {
    FindIsFirst(s3, AMPERSAND);
    if AMPERSAND in s3 {
      PairScanNeedsEnd(s3[Find(s3, AMPERSAND)..], 0, true);
    } else {
      FindNone(s3, AMPERSAND);
    }
  }

  lemma {:induction false} FindInBody(a: seq<byte>, body: seq<byte>, c: byte)
    requires c !in a
    ensures Find(a + body, c) == |a| + Find(body, c)
    decreases |a|
  {
    if a == [] {
      assert a + body == body;
    } else {
      assert (a + body)[1..] == a[1..] + body;
      FindInBody(a[1..], body, c);
    }
  }

  lemma {:induction false} PairsBehindMark(s2: seq<byte>)
    requires InLine(s2)
    ensures FirstPairScan(s2) <==> OnePair(s2)
    ensures FirstPairScan(s2) ==> InLine(BehindEquals(s2))
  {
    var n := Find(s2, EQUALS);
    if n < |s2| {
      PairsWithoutEnd(s2[n + 1..]);
    }
  }

  lemma {:induction false} MarkPlace(s1: seq<byte>, a: seq<byte>, body: seq<byte>, q: nat)
    requires s1 == a + body && QUESTION !in a && q == Find(body, QUESTION)
    ensures Find(s1, QUESTION) == |a| + q && |s1| == |a| + |body|
    ensures q < |body| ==> s1[|a| + q + 1..] == body[q + 1..]
  {
    FindInBody(a, body, QUESTION);
  }

  lemma {:induction false} MarkFound(s1: seq<byte>, p: nat, s2: seq<byte>)
    requires p == Find(s1, QUESTION) && p < |s1| && s1[p + 1..] == s2 && InLine(s2)
    ensures MarkScan(s1) <==> OnePair(s2)
    ensures MarkScan(s1) ==> InLine(BehindMark(s1))
  {
    PairsBehindMark(s2);
  }

  /** What the scanner finds behind the first slash: no question mark in front of the body. */
  lemma {:induction false} MarkIsInBody(s1: seq<byte>, a: seq<byte>, body: seq<byte>)
    requires s1 == a + body && QUESTION !in a && InLine(body)
    ensures MarkScan(s1) <==> MarkHarmless(body)
    ensures MarkScan(s1) && QUESTION in body ==> InLine(BehindMark(s1))
    ensures MarkScan(s1) && QUESTION !in body ==> BehindMark(s1) == s1
  {
    if QUESTION in body {
      var q := Find(body, QUESTION);
      FindInside(body, QUESTION);
      MarkPlace(s1, a, body, q);
      MarkFound(s1, |a| + q, body[q + 1..]);
    } else {
      NoMark(body);
      NoMark(s1);
    }
  }

  lemma {:induction false} NoMark(s1: seq<byte>)
    requires QUESTION !in s1
    ensures MarkScan(s1) && BehindMark(s1) == s1 && MarkHarmless(s1)
  {
    FindNone(s1, QUESTION);
  }

  lemma {:induction false} PostLineAccepted(s: seq<byte>, cmd: seq<byte>, v: seq<byte>, rest: seq<byte>)
    requires InTarget(cmd) && IsVersion(v) && s == PostStart(cmd, v) + (CRLF + rest)
    ensures SkipBlanks(s) == s && |s| > 6 && s[0] == LETTER_P && s[6..] == cmd + ([BLANK] + v) + (CRLF + rest)
    ensures PostLineScan(s) <==> cmd != []
  {
    var tail := cmd + ([BLANK] + v);
    VersionChars(v, CR);
    assert s == POST_SLASH + (tail + (CRLF + rest));
    assert s[6..] == tail + (CRLF + rest) && s[..6] == POST_SLASH;
    CrlfBehind(s[6..], tail, rest);
    var e := 6 + |tail|;
    assert s[e - 8..e] == v;
    VersionIsThere(s, e, v);
    assert s[6] == tail[0];
  }

  lemma {:induction false} NotInLines(ls: seq<seq<byte>>, c: byte)
    requires c != CR && c != LF && forall l <- ls :: c !in l
    ensures c !in Lines(ls) + CRLF
    decreases |ls|
  {
    if ls != [] {
      NotInLines(ls[1..], c);
    }
  }

  /** The scan of the header lines starts behind the pair that a question mark in the body makes it look at, if there
      is one; then it finds none. */
  lemma {:induction false} PostHeaders(s1: seq<byte>, a: seq<byte>, rest: seq<byte>, headers: seq<byte>,
                                       body: seq<byte>)
    requires s1 == a + (CRLF + rest) && rest == headers + body && InLine(a) && InLine(body)
    requires QUESTION !in a && QUESTION !in headers
    ensures MarkScan(s1) <==> MarkHarmless(body)
    ensures MarkScan(s1) ==> (HeadersScan(BehindMark(s1)) <==> QUESTION in body || HeaderScan(rest))
  {
    CrlfBehind(s1, a, rest);
    assert s1 == (a + (CRLF + headers)) + body;
    MarkIsInBody(s1, a + (CRLF + headers), body);
    if MarkScan(s1) && QUESTION in body {
      NoFirst(BehindMark(s1), CRLF);
    }
  }

  lemma {:induction false} PostTail(cmd: seq<byte>, v: seq<byte>)
    requires InTarget(cmd) && QUESTION !in cmd && IsVersion(v)
    ensures InLine(cmd + ([BLANK] + v)) && QUESTION !in cmd + ([BLANK] + v)
  {
    VersionChars(v, CR);
    VersionChars(v, LF);
    VersionChars(v, QUESTION);
  }

  /** What decides about a POST request. */
  lemma {:induction false} PostScans(s: seq<byte>, cmd: seq<byte>, v: seq<byte>, rest: seq<byte>, headers: seq<byte>,
                                     body: seq<byte>)
    requires InTarget(cmd) && QUESTION !in cmd && IsVersion(v) && QUESTION !in headers && InLine(body)
    requires s == PostStart(cmd, v) + (CRLF + rest) && rest == headers + body
    requires StrStr(s, CRLF + CRLF) >= 0 && Body(s) == body
    ensures SkipBlanks(s) == s && s != [] && s[0] == LETTER_P
    ensures ScanPost(s) <==>
            cmd != [] && MarkHarmless(body) && (QUESTION in body || HeaderScan(rest)) && BodyPairsScan(body)
  {
    PostLineAccepted(s, cmd, v, rest);
    PostTail(cmd, v);
    PostHeaders(s[6..], cmd + ([BLANK] + v), rest, headers, body);
  }

  /** The scanner accepts a POST request, of any version and with any header lines, exactly if it has a command, the
      parts of its body are good, a question mark in the body does no harm or, without one, the header lines have their
      colons, and the message is shorter than 128 KiB. */
  lemma {:induction false} PostScannedExactly(cmd: seq<byte>, v: seq<byte>, headers: seq<seq<byte>>,
                                              ts: seq<seq<byte>>)
    requires InTarget(cmd) && QUESTION !in cmd && IsVersion(v) && AreParts(ts)
    requires AreLines(headers) && forall l <- headers :: QUESTION !in l
    ensures var s, body := Written([PostStart(cmd, v)] + headers, Joined(ts)), Joined(ts);
            Scan(s) <==>
            && |s| < 131072 && cmd != [] && GoodBody(ts)
            && MarkHarmless(body) && (QUESTION in body || AreHeaders(headers))
  {
    var ls, body := [PostStart(cmd, v)] + headers, Joined(ts);
    JoinedChars(ts, CR);
    JoinedChars(ts, LF);
    PostStartIs(cmd, v);
    WrittenFirst(ls, body);
    assert ls[1..] == headers;
    HeadersExactly(headers, body);
    HeadAndBody(ls, body);
    NotInLines(headers, QUESTION);
    Associative(Lines(headers), CRLF, body);
    PostScans(Written(ls, body), cmd, v, Written(headers, body), Lines(headers) + CRLF, body);
    BodyPairsExactly(ts);
  }

  lemma {:induction false} HeadersHaveNoMark(n: nat, seqNo: uint32)
    ensures forall l <- [TYPE_FORM, LengthLine(n), SeqLine(seqNo)] :: QUESTION !in l
  {
    TypeLinesAreLines();
    LengthLineHasNo(n, QUESTION);
    SeqLineIsLine(seqNo);
  }

  /** The scanner accepts what the printer writes exactly if there is a command and at least one pair, a question mark
      in the pairs does no harm, and the message is not too long. */
  lemma {:induction false} PostAccepted(cmd: seq<byte>, ps: seq<Param>, seqNo: uint32)
    requires IsCommand(cmd) && PlainParams(ps)
    ensures var s := MakePost(cmd, Join(ps), seqNo);
            Scan(s) <==> cmd != [] && ps != [] && MarkHarmless(Join(ps)) && |s| < MAX_HTTP_PACKAGE_LEN
  {
    var n := |Join(ps)|;
    var headers := PostLines(cmd, n, seqNo)[1..];
    CommandChars(cmd);
    PostLinesAre(cmd, n, seqNo);
    PostParts();
    PlainPairs(ps);
    assert headers == [TYPE_FORM, LengthLine(n), SeqLine(seqNo)];
    assert PostLines(cmd, n, seqNo) == [PostStart(cmd, HTTP_1_0)] + headers;
    HeadersHaveNoMark(n, seqNo);
    PostScannedExactly(cmd, HTTP_1_0, headers, Pairs(ps));
    BodyPairsAccepted(ps);
  }
}

/** st_http_makeHttp, st_http_scanHttpMsg and st_http_parseHttp, as they run. */
module HttpMessages {
  import opened CString
  import opened Text
  import opened HttpGetSpec
  import opened HttpMessageSpec
  import opened HttpGet

  /** The type argument of st_http_makeHttp. */
  datatype Form = Get | Post | Response

  function MakeText(form: Form, cmd: seq<byte>, text: seq<byte>, seqNo: uint32): seq<byte> {
    match form
    case Get => MakeGet(cmd, text, seqNo)
    case Post => MakePost(cmd, text, seqNo)
    case Response => MakeAnswer(cmd, text, seqNo)
  }

  /** st_http_makeHttp: the text is put together in 512 bytes and copied to buffer, without its NUL. */
  method MakeHttp(form: Form, seqNo: uint32, buffer: array<byte>, cmd: seq<byte>, text: seq<byte>) returns (len: nat)
    requires var s := MakeText(form, cmd, text, seqNo); |s| < 512 && |s| <= buffer.Length
    modifies buffer
    ensures var s := MakeText(form, cmd, text, seqNo); len == |s| && buffer[..] == s + old(buffer[len..])
  {
    var buf := MakeText(form, cmd, text, seqNo);
    len := |buf|;
    forall i | 0 <= i < len {
      buffer[i] := buf[i];
    }
    assert buffer[..len] == buf && buffer[len..] == old(buffer[len..]);
    assert buffer[..] == buffer[..len] + buffer[len..];
  }

  /** The loop over the pairs of a body; t starts at the first &. */
  method ScanBody(t: seq<byte>) returns (ok: bool)
    ensures ok == BodyScan(t, true)
  {
    var i, paired := 0, true;
    while i < |t| && t[i] != LF
      invariant 0 <= i <= |t|
      invariant BodyScan(t, true) == BodyScan(t[i..], paired)
    {
      assert t[i..][0] == t[i] && t[i..][1..] == t[i + 1..];
      if t[i] == AMPERSAND {
        if !paired {
          return false;
        }
        paired := false;
      } else if t[i] == EQUALS {
        if paired {
          return false;
        }
        paired := true;
      }
      i := i + 1;
    }
    ok := paired;
  }

  /** The pairs behind the empty line. */
  method ScanBodyPairs(body: seq<byte>) returns (ok: bool)
    ensures ok == BodyPairsScan(body)
  {
    var n := Find(body, EQUALS);
    if n == |body| || n == 0 {
      return false;
    }
    ok := true;
    var a := Find(body, AMPERSAND);
    if a < |body| {
      ok := ScanBody(body[a..]);
    }
  }

  /** One pair, and more behind an &; cur is where the scan goes on. */
  method ScanFirstPair(s2: seq<byte>) returns (ok: bool, cur: seq<byte>)
    ensures ok == FirstPairScan(s2)
    ensures ok ==> cur == BehindEquals(s2)
  {
    var n := Find(s2, EQUALS);
    if n == |s2| || n == 0 {
      return false, [];
    }
    ok, cur := true, s2[n + 1..];
    var a := Find(cur, AMPERSAND);
    FindIsFirst(cur, AMPERSAND);
    if a < |cur| {
      ok := ScanPairs(cur[a..]);
    }
  }

  /** The pairs behind the first question mark, if there is one. */
  method ScanMark(s1: seq<byte>) returns (ok: bool, cur: seq<byte>)
    ensures ok == MarkScan(s1)
    ensures ok ==> cur == BehindMark(s1)
  {
    ok, cur := true, s1;
    var q := Find(s1, QUESTION);
    if q < |s1| {
      ok, cur := ScanFirstPair(s1[q + 1..]);
    }
  }

  /** Case 'G' */
  method ScanGetCase(s: seq<byte>) returns (ok: bool)
    ensures ok <==> LineScan(s) && TargetScan(s[5..])
  {
    if |s| < 5 || s[..5] != GET_SLASH {
      return false;
    }
    var s1 := s[5..];
    var e := StrStr(s1, CRLF);
    if e < 0 || !VersionAt(s, 5 + e) {
      return false;
    }
    var q := Find(s1, QUESTION);
    if q == |s1| || q == 0 {
      return false;
    }
    ok := ScanQuery(s1[q + 1..]);
  }

  /** Case 'P': the first line */
  method ScanPostLine(s: seq<byte>) returns (ok: bool)
    ensures ok == PostLineScan(s)
  {
    if |s| <= 6 || s[..6] != POST_SLASH {
      return false;
    }
    var e := StrStr(s[6..], CRLF);
    ok := e >= 0 && VersionAt(s, 6 + e) && s[6] != BLANK;
  }

  /** What may follow a question mark, and the header lines. */
  method ScanPostHead(s1: seq<byte>) returns (ok: bool)
    ensures ok <==> MarkScan(s1) && HeadersScan(BehindMark(s1))
  {
    var cur;
    ok, cur := ScanMark(s1);
    if ok {
      ok := ScanHeaders(cur);
    }
  }

  /** The pairs behind the empty line. */
  method ScanPostBody(msg: seq<byte>) returns (ok: bool)
    ensures ok <==> StrStr(msg, CRLF + CRLF) >= 0 && BodyPairsScan(Body(msg))
  {
    var e := StrStr(msg, CRLF + CRLF);
    if e < 0 {
      return false;
    }
    ok := ScanBodyPairs(msg[e + 4..]);
  }

  /** Case 'P' */
  method ScanPostCase(msg: seq<byte>, s: seq<byte>) returns (ok: bool)
    requires s == SkipBlanks(msg)
    ensures ok == ScanPost(msg)
  {
    ok := ScanPostLine(s);
    if ok {
      ok := ScanPostHead(s[6..]);
    }
    if ok {
      ok := ScanPostBody(msg);
    }
  }

  /** Case 'H' */
  method ScanAnswerCase(s: seq<byte>) returns (ok: bool)
    ensures ok == ScanAnswer(s)
  {
    if |s| < 9 || s[..5] != HTTP_1_1[..5] || s[6] != HTTP_1_1[6] || s[8] != BLANK {
      return false;
    }
    if StrStr(s, CRLF) < 0 {
      return false;
    }
    ok := ScanHeaders(s);
  }

  /** st_http_scanHttpMsg: true for 0 */
  method ScanHttpMsg(msg: seq<byte>) returns (ok: bool)
    requires 0 !in msg
    ensures ok == Scan(msg)
  {
    if |msg| >= MAX_HTTP_PACKAGE_LEN {
      return false;
    }
    var cur := SkipBlanks(msg);
    if cur == [] {
      return false;
    }
    if cur[0] == LETTER_G {
      ok := ScanGetCase(cur);
    } else if cur[0] == LETTER_P {
      ok := ScanPostCase(msg, cur);
    } else if cur[0] == LETTER_H {
      ok := ScanAnswerCase(cur);
    } else {
      ok := false;
    }
  }

  /** HTTP_OBJECT after memset */
  const EMPTY := Message(0, 0, [], [], [])

  class HttpObject {
    var kind: nat
    var seqNo: int
    var cmd: seq<byte>
    var params: seq<Param>
    var xml: seq<byte>

    ghost function State(): Message
      reads this
    {
      Message(kind, seqNo, cmd, params, xml)
    }

    constructor ()
      ensures State() == EMPTY
    {
      kind, seqNo, cmd, params, xml := 0, 0, [], [], [];
    }

    /** The strtok loop */
    method ReadParams(query: seq<byte>)
      requires params == [] && FitsParams(query)
      modifies this`params
      ensures params == ParamsOf(Tokens(query, AMPERSAND))
    {
      var rest := SkipChar(query, AMPERSAND);
      while rest != []
        invariant rest != [] ==> rest[0] != AMPERSAND
        invariant params + ParamsOf(Tokens(rest, AMPERSAND)) == ParamsOf(Tokens(query, AMPERSAND))
        decreases |rest|
      {
        var n := Find(rest, AMPERSAND);
        var p := ParamOf(rest[..n]);
        assert SkipChar(rest, AMPERSAND) == rest;
        var next := SkipChar(rest[n..], AMPERSAND);
        TokensSkip(rest[n..]);
        assert Tokens(rest, AMPERSAND) == [rest[..n]] + Tokens(next, AMPERSAND);
        assert ParamsOf(Tokens(rest, AMPERSAND)) == [p] + ParamsOf(Tokens(next, AMPERSAND)) by {
          assert ([rest[..n]] + Tokens(next, AMPERSAND))[1..] == Tokens(next, AMPERSAND);
        }
        Associative(params, [p], ParamsOf(Tokens(next, AMPERSAND)));
        params := params + [p];
        rest := next;
      }
    }

    /** The GET branch: the command is between the first slash and the question mark, the pairs are behind it. */
    method ReadTarget(url: seq<byte>)
      requires params == [] && FitsTarget(url)
      modifies this`cmd, this`params
      ensures var q := Find(url, QUESTION);
              cmd == url[1..q] && params == ParamsOf(Tokens(url[q + 1..], AMPERSAND))
    {
      var q := Find(url, QUESTION);
      cmd := url[1..q];
      ReadParams(url[q + 1..]);
    }

    /** The POST branch: each slash starts the command anew. */
    method ReadPath(url: seq<byte>)
      requires cmd == [] && |url| <= 32 && (url == [] || url[0] == SLASH)
      modifies this`cmd
      ensures cmd == LastPart(url)
    {
      var rest := url;
      var i := Find(rest, SLASH);
      while i < |rest|
        invariant i == Find(rest, SLASH) && LastPart(rest) == LastPart(url)
        invariant cmd == rest || (rest == url && cmd == [] && (url == [] || i == 0))
        decreases |rest|
      {
        rest := rest[i + 1..];
        cmd := rest;
        i := Find(rest, SLASH);
      }
    }

    /** The answer branch. */
    method ReadCommand(head: seq<byte>)
      requires FitsCommand(head)
      modifies this`cmd
      ensures cmd == CommandOf(head)
    {
      var t := head[StrStr(head, COMMAND)..];
      var n, e := Find(t, COLON), StrStr(t, CRLF);
      cmd := t[n + 1..e];
    }

    /** The branches for the three methods. */
    method ReadFields(msg: seq<byte>, line: seq<byte>)
      requires kind == 0 && cmd == [] && params == [] && xml == [] && Fits(msg) && line == FirstLine(Head(msg))
      modifies this`kind, this`cmd, this`params, this`xml
      ensures Message(kind, SeqOf(Head(msg)), cmd, params, xml) == Parse(msg)
    {
      var word := Method(line);
      if word == GET_SLASH[..3] {
        ParsedAsGet(msg);
        kind := REQ_TYPE_GET;
        ReadTarget(Url(line));
      } else if word == POST_SLASH[..4] {
        ParsedAsPost(msg);
        kind := REQ_TYPE_POST;
        UrlStarts(line);
        ReadPath(Url(line));
        xml := Body(msg);
      } else if word == HTTP_1_1 {
        ParsedAsAnswer(msg);
        kind := RESP_TYPE;
        ReadCommand(Head(msg));
        xml := Body(msg);
      }
    }

    /** What follows the scan. */
    method ReadMessage(msg: seq<byte>)
      requires State() == EMPTY && Fits(msg)
      modifies this
      ensures State() == Parse(msg)
    {
      var head := Head(msg);
      seqNo := GetSeq(head);
      var line := GetLine(head);
      ReadFields(msg, line);
    }

    /** st_http_parseHttp: false for the result 0. A message that passes the scan has to fit the buffers. */
    method ParseHttp(msg: seq<byte>) returns (ok: bool)
      requires 0 !in msg && (Scan(msg) ==> Fits(msg))
      modifies this
      ensures ok == Scan(msg)
      ensures State() == if ok then Parse(msg) else EMPTY
    {
      kind, seqNo, cmd, params, xml := 0, 0, [], [], [];
      ok := ScanHttpMsg(msg);
      if ok {
        ReadMessage(msg);
      }
    }
  }

  lemma {:induction false} UrlStarts(line: seq<byte>)
    ensures Url(line) == [] || Url(line)[0] == SLASH
  {
    FindIsFirst(line, SLASH);
  }
}
