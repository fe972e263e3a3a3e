/** Searching for characters, and numbers as text. */
module Text {
  import opened CString

  const CR: byte := 13
  const LF: byte := 10
  const CRLF: seq<byte> := [13, 10]
  const BLANK: byte := 32
  const COLON: byte := 58

  /** strchr: the first position of c, or |s|. */
  function Find(s: seq<byte>, c: byte): (i: nat)
    ensures i <= |s|
  {
    if s == [] || s[0] == c then 0 else 1 + Find(s[1..], c)
  }

  lemma {:induction false} FindIsFirst(s: seq<byte>, c: byte)
    ensures var i := Find(s, c); (i < |s| ==> s[i] == c) && c !in s[..i]
  {
    if s != [] && s[0] != c {
      FindIsFirst(s[1..], c);
      var i := Find(s, c);
      assert s[..i] == [s[0]] + s[1..][..i - 1];
    }
  }

  lemma {:induction false} FindNone(s: seq<byte>, c: byte)
    requires c !in s
    ensures Find(s, c) == |s|
  {
    if s != [] {
      FindNone(s[1..], c);
    }
  }

  lemma {:induction false} FindBehind(a: seq<byte>, c: byte, b: seq<byte>)
    requires c !in a
    ensures Find(a + ([c] + b), c) == |a|
    ensures (a + ([c] + b))[..|a|] == a && (a + ([c] + b))[|a| + 1..] == b
    decreases |a|
  {
    if a == [] {
      assert a + ([c] + b) == [c] + b;
    } else {
      FindBehind(a[1..], c, b);
      assert (a + ([c] + b))[1..] == a[1..] + ([c] + b);
    }
  }

  /** %d of a number that is not negative. */
  function Decimal(n: nat): (r: seq<byte>)
    ensures r != [] && forall i :: 0 <= i < |r| ==> IsDigit(r[i])
  {
    if n < 10 then [48 + n] else Decimal(n / 10) + [48 + n % 10]
  }

  function Ten(k: nat): nat { if k == 0 then 1 else 10 * Ten(k - 1) }

  lemma {:induction false} DecimalLength(n: nat, k: nat)
    requires k >= 1 && n < Ten(k)
    ensures |Decimal(n)| <= k
  {
    if n >= 10 {
      DecimalLength(n / 10, k - 1);
    }
  }

  /** An int has at most ten digits. */
  lemma {:induction false} SignedLength(n: int)
    requires -0x8000_0000 <= n < 0x8000_0000
    ensures |Signed(n)| <= 11
  {
    assert Ten(2) == 100;
    assert Ten(4) == 1_0000;
    assert Ten(6) == 100_0000;
    assert Ten(8) == 1_0000_0000;
    assert Ten(10) == 100_0000_0000;
    DecimalLength(if n < 0 then 0 - n else n, 10);
  }

  /** %d */
  function Signed(n: int): seq<byte> { if n < 0 then [45] + Decimal(0 - n) else Decimal(n) }

  lemma {:induction false} DigitsAppend(a: seq<byte>, b: seq<byte>, acc: nat)
    requires forall i :: 0 <= i < |a| ==> IsDigit(a[i])
    ensures Digits(a + b, acc) == Digits(b, Digits(a, acc))
    decreases |a|
  {
    if a == [] {
      assert a + b == b;
    } else {
      assert (a + b)[0] == a[0] && (a + b)[1..] == a[1..] + b;
      DigitsAppend(a[1..], b, 10 * acc + (a[0] - 48));
    }
  }

  lemma {:induction false} DigitsOfDecimal(n: nat)
    ensures Digits(Decimal(n), 0) == n
  {
    if n < 10 {
      assert Decimal(n)[1..] == [];
    } else {
      DigitsOfDecimal(n / 10);
      DigitsAppend(Decimal(n / 10), [48 + n % 10], 0);
      assert [48 + n % 10][1..] == [];
    }
  }

  /** atoi undoes %d. */
  lemma {:induction false} AtoiOfSigned(n: int)
    ensures Atoi(Signed(n)) == n
  {
    if n < 0 {
      DigitsOfDecimal(0 - n);
      assert Signed(n)[1..] == Decimal(0 - n);
    } else {
      DigitsOfDecimal(n);
    }
  }

  lemma {:induction false} AtoiSkips(ws: seq<byte>, s: seq<byte>)
    requires forall i :: 0 <= i < |ws| ==> ws[i] == 32 || 9 <= ws[i] <= 13
    ensures Atoi(ws + s) == Atoi(s)
    decreases |ws|
  {
    if ws == [] {
      assert ws + s == s;
    } else {
      assert (ws + s)[1..] == ws[1..] + s;
      AtoiSkips(ws[1..], s);
    }
  }

  lemma {:induction false} DigitsStop(n: nat, rest: seq<byte>)
    requires rest == [] || !(48 <= rest[0] <= 57)
    ensures Digits(Decimal(n) + rest, 0) == n
  {
    DigitsOfDecimal(n);
    DigitsAppend(Decimal(n), rest, 0);
  }

  /** What atoi makes of a text: white space in front is skipped, a sign is taken, and the number ends at the first
      character that is no digit. */
  lemma {:induction false} AtoiReads(ws: seq<byte>, n: int, rest: seq<byte>)
    requires forall i :: 0 <= i < |ws| ==> ws[i] == 32 || 9 <= ws[i] <= 13
    requires rest == [] || !(48 <= rest[0] <= 57)
    ensures Atoi(ws + (Signed(n) + rest)) == n
    ensures n >= 0 ==> Atoi(ws + ([43] + (Signed(n) + rest))) == n
  {
    var d := Decimal(if n < 0 then 0 - n else n);
    AtoiSkips(ws, Signed(n) + rest);
    AtoiSkips(ws, [43] + (Signed(n) + rest));
    DigitsStop(if n < 0 then 0 - n else n, rest);
    SignIsTaken(d + rest);
    Associative([45], d, rest);
  }

  lemma {:induction false} SignIsTaken(digits: seq<byte>)
    requires digits != [] && IsDigit(digits[0])
    ensures Atoi([45] + digits) == 0 - Digits(digits, 0)
    ensures Atoi([43] + digits) == Digits(digits, 0) == Atoi(digits)
  {
    assert ([45] + digits)[1..] == digits && ([43] + digits)[1..] == digits;
  }

  lemma {:induction false} SignedChars(n: int)
    ensures forall i :: 0 <= i < |Signed(n)| ==> Signed(n)[i] == 45 || IsDigit(Signed(n)[i])
  {
  }
}

/** SIP messages as text, and the structure they are read into (jni/DecodeSip.c). */
module SipSpec {
  import opened CString
  import opened Text

  const SIP_2_0: seq<byte> := [83, 73, 80, 47, 50, 46, 48]
  const S_OK: seq<byte> := [79, 75]
  const S_200: seq<byte> := [50, 48, 48]
  const S_70: seq<byte> := [55, 48]
  const S_TO: seq<byte> := [84, 111]
  const S_FROM: seq<byte> := [70, 114, 111, 109]
  const S_CSEQ: seq<byte> := [67, 83, 101, 113]
  const S_CALL_ID: seq<byte> := [67, 97, 108, 108, 45, 73, 68]
  const S_CALLID: seq<byte> := [67, 97, 108, 108, 105, 100]
  const S_CONTENT_TYPE: seq<byte> := [67, 111, 110, 116, 101, 110, 116, 45, 84, 121, 112, 101]
  const S_CONTENT_LENGTH: seq<byte> := [67, 111, 110, 116, 101, 110, 116, 45, 76, 101, 110, 103, 116, 104]
  const S_MAX_FORWARDS: seq<byte> := [77, 97, 120, 45, 70, 111, 114, 119, 97, 114, 100, 115]
  const S_EXPIRES: seq<byte> := [69, 120, 112, 105, 114, 101, 115]

  /** sip_cmd_t */
  datatype Sip = Sip(
    cmdName: seq<byte>, answerNum: int, header: seq<byte>, to: seq<byte>, from: seq<byte>, callId: seq<byte>,
    cSeq: seq<byte>, contentType: seq<byte>, maxForwards: int, expires: int, contentLength: int)

  // ---- printing -------------------------------------------------------------------------------

  function Line(name: seq<byte>, value: seq<byte>): seq<byte> { name + ([COLON] + (value + CRLF)) }

  function Cat(lines: seq<seq<byte>>): seq<byte> { if lines == [] then [] else lines[0] + Cat(lines[1..]) }

  /** The header fields this program writes. */
  datatype Key = To | From | CSeq | CallId | MaxForwards | ContentType | ContentLength

  function NameOf(k: Key): seq<byte> {
    match k
    case To => S_TO
    case From => S_FROM
    case CSeq => S_CSEQ
    case CallId => S_CALL_ID
    case MaxForwards => S_MAX_FORWARDS
    case ContentType => S_CONTENT_TYPE
    case ContentLength => S_CONTENT_LENGTH
  }

  datatype Field = Field(key: Key, value: seq<byte>)

  function LinesOf(fs: seq<Field>): (ls: seq<seq<byte>>)
    ensures |ls| == |fs|
  {
    if fs == [] then [] else [Line(NameOf(fs[0].key), fs[0].value)] + LinesOf(fs[1..])
  }

  /** The lines of st_sip_setSipGeneral in front of the empty one. */
  function Fields(to: seq<byte>, from: seq<byte>, cSeq: seq<byte>, callId: seq<byte>, contentType: seq<byte>,
                  contentLength: int): seq<Field>
  {
    [Field(To, to), Field(From, from), Field(CSeq, cSeq), Field(CallId, callId), Field(MaxForwards, S_70),
     Field(ContentType, contentType), Field(ContentLength, Signed(contentLength))]
  }

  function General(to: seq<byte>, from: seq<byte>, cSeq: seq<byte>, callId: seq<byte>, contentType: seq<byte>,
                   contentLength: int): (ls: seq<seq<byte>>)
    ensures |ls| == 7
  {
    LinesOf(Fields(to, from, cSeq, callId, contentType, contentLength))
  }

  function Words(a: seq<byte>, b: seq<byte>, c: seq<byte>): seq<byte> {
    a + ([BLANK] + (b + ([BLANK] + (c + CRLF))))
  }

  /** st_sip_setSipHeader */
  function RequestLine(cmd: seq<byte>, head: seq<byte>): seq<byte> {
    if cmd == S_OK then Words(SIP_2_0, S_200, S_OK) else Words(cmd, head, SIP_2_0)
  }

  /** The first line of an answer; `reasons` are the numbers st_sip_answerRequest knows. */
  function StatusLine(reasons: map<nat, seq<byte>>, answerNum: int): seq<byte> {
    if answerNum in reasons then Words(SIP_2_0, Decimal(answerNum), reasons[answerNum]) else []
  }

  function Message(first: seq<byte>, general: seq<seq<byte>>, body: seq<byte>): seq<byte> {
    first + (Cat(general) + (CRLF + body))
  }

  // ---- parsing --------------------------------------------------------------------------------

  datatype Split = NoEnd | Lines(lines: seq<seq<byte>>, rest: seq<byte>)

  /** At most n lines up to an empty one. */
  function SplitLines(s: seq<byte>, n: nat): (r: Split)
    ensures r.Lines? ==> |r.lines| <= n
  {
    if n == 0 then Lines([], s)
    else
      var p := Find(s, LF);
      if p == |s| then NoEnd
      else if p == 1 && s[0] == CR then Lines([], s[2..])
      else Prepend(s[..p + 1], SplitLines(s[p + 1..], n - 1))
  }

  function Prepend(line: seq<byte>, r: Split): Split {
    if r.NoEnd? then r else Lines([line] + r.lines, r.rest)
  }

  /** The two blanks and the CR of a first line. */
  datatype HeadLine = BadLine | HeadLine(cmd: seq<byte>, addr: seq<byte>, rest: seq<byte>)

  function ParseHeadLine(line: seq<byte>): HeadLine {
    var p := Find(line, BLANK);
    if p == |line| then BadLine
    else
      var s := line[p + 1..];
      var q := Find(s, BLANK);
      if q == |s| then BadLine
      else
        var u := s[q + 1..];
        var r := Find(u, CR);
        if r == |u| then BadLine else HeadLine(line[..p], s[..q], u[..r])
  }

  /** strncpy */
  function Copy(s: seq<byte>, n: nat): seq<byte> { if |s| <= n then s else s[..n] }

  /** What the first line sets. */
  function SetHead(sip: Sip, line: seq<byte>): Sip {
    match ParseHeadLine(line)
    case BadLine => sip
    case HeadLine(cmd, addr, rest) =>
      if cmd == SIP_2_0 then sip.(answerNum := Atoi(Copy(addr, 16)), cmdName := Copy(rest, 48))
      else sip.(cmdName := cmd, header := addr)
  }

  /** st_sip_parseCmdLine: what is in front of the first colon, and what is between it and the first CR. */
  function LineName(line: seq<byte>): seq<byte> {
    var p := Find(line, COLON);
    if p == |line| then [] else line[..p]
  }

  function LineValue(line: seq<byte>): seq<byte> {
    var p, q := Find(line, COLON), Find(line, CR);
    if p == |line| || q == |line| || q <= p then [] else line[p + 1..q]
  }

  function SetField(sip: Sip, name: seq<byte>, value: seq<byte>): Sip {
    if name == S_TO then sip.(to := value)
    else if name == S_FROM then sip.(from := value)
    else if name == S_CSEQ then sip.(cSeq := Copy(value, 32))
    else if name == S_CALL_ID || name == S_CALLID then sip.(callId := Copy(value, 64))
    else if name == S_CONTENT_TYPE then sip.(contentType := Copy(value, 16))
    else if name == S_CONTENT_LENGTH then sip.(contentLength := Atoi(value))
    else if name == S_MAX_FORWARDS then sip.(maxForwards := Atoi(value))
    else if name == S_EXPIRES then sip.(expires := Atoi(value))
    else sip
  }

  function SetFields(sip: Sip, lines: seq<seq<byte>>): Sip
    decreases |lines|
  {
    if lines == [] then sip else SetFields(SetField(sip, LineName(lines[0]), LineValue(lines[0])), lines[1..])
  }

  /** Content-Length as it was in this message; 0 without such a line. */
  function XmlLen(lines: seq<seq<byte>>, len: int): int {
    if lines == [] then len
    else XmlLen(lines[1..], if LineName(lines[0]) == S_CONTENT_LENGTH then Atoi(LineValue(lines[0])) else len)
  }

  /** The structure and, if parsing got that far, the body. */
  datatype Parsed = Parsed(sip: Sip, body: Option<seq<byte>>)

  /** st_sip_parseSip on the C string s */
  function ParseSip(sip: Sip, s: seq<byte>): Parsed {
    match SplitLines(s, 20)
    case NoEnd => Parsed(sip, None)
    case Lines(lines, rest) =>
      if lines == [] || Find(lines[0], BLANK) == |lines[0]| then Parsed(sip, None)
      else
        var len := XmlLen(lines[1..], 0);
        Parsed(SetFields(SetHead(sip, lines[0]), lines[1..]), Some(if len < 0 then [] else Copy(rest, len)))
  }

  // ---- parsing undoes printing ----------------------------------------------------------------

  predicate OneLine(s: seq<byte>) { CR !in s && LF !in s }

  /** Something and CRLF. */
  predicate IsLine(l: seq<byte>) { |l| > 2 && OneLine(l[..|l| - 2]) && l[|l| - 2..] == CRLF }

  lemma {:induction false} SplitOne(l: seq<byte>, s: seq<byte>, rest: seq<byte>, n: nat)
    requires IsLine(l) && n > 0 && s == l + rest
    ensures SplitLines(s, n) == Prepend(l, SplitLines(rest, n - 1))
  {
    var a := l[..|l| - 1];
    assert l == a + [LF];
    assert a == l[..|l| - 2] + [CR];
    Associative(a, [LF], rest);
    FindBehind(a, LF, rest);
    assert s[..|l|] == l && s[|l|..] == rest;
  }

  lemma {:induction false} SplitEmpty(body: seq<byte>, n: nat)
    requires n > 0
    ensures SplitLines(CRLF + body, n) == Lines([], body)
  {
    var s := [CR] + ([LF] + body);
    assert CRLF + body == s;
    FindBehind([CR], LF, body);
    assert s[..2] == CRLF;
  }

  predicate AllLines(lines: seq<seq<byte>>) { lines == [] || (IsLine(lines[0]) && AllLines(lines[1..])) }

  function PrependAll(lines: seq<seq<byte>>, r: Split): Split {
    if lines == [] then r else Prepend(lines[0], PrependAll(lines[1..], r))
  }

  lemma {:induction false} PrependAllIs(lines: seq<seq<byte>>, body: seq<byte>)
    ensures PrependAll(lines, Lines([], body)) == Lines(lines, body)
  {
    if lines != [] {
      PrependAllIs(lines[1..], body);
      assert lines == [lines[0]] + lines[1..];
    }
  }

  /** Lines of a message are found again, and then what comes behind them. */
  lemma {:induction false} SplitCat(lines: seq<seq<byte>>, s: seq<byte>, end: seq<byte>, n: nat, m: nat)
    requires n == |lines| + m && AllLines(lines) && s == Cat(lines) + end
    ensures SplitLines(s, n) == PrependAll(lines, SplitLines(end, m))
    decreases |lines|
  {
    if lines == [] {
      assert s == end;
    } else {
      var rest := Cat(lines[1..]) + end;
      Associative(lines[0], Cat(lines[1..]), end);
      SplitCat(lines[1..], rest, end, n - 1, m);
      SplitOne(lines[0], s, rest, n);
    }
  }

  /** All lines of a message in front of the empty one, if there are less than n. */
  lemma {:induction false} SplitMessage(lines: seq<seq<byte>>, body: seq<byte>, n: nat)
    requires |lines| < n && AllLines(lines)
    ensures SplitLines(Cat(lines) + (CRLF + body), n) == Lines(lines, body)
  {
    SplitCat(lines, Cat(lines) + (CRLF + body), CRLF + body, n, n - |lines|);
    SplitEmpty(body, n - |lines|);
    PrependAllIs(lines, body);
  }

  lemma {:induction false} EndsLine(x: seq<byte>)
    requires x != [] && OneLine(x)
    ensures IsLine(x + CRLF)
  {
  }

  lemma {:induction false} LineParts(name: seq<byte>, value: seq<byte>)
    requires name != [] && OneLine(name) && COLON !in name && OneLine(value)
    ensures IsLine(Line(name, value)) && LineName(Line(name, value)) == name && LineValue(Line(name, value)) == value
  {
    var l := Line(name, value);
    FindBehind(name, COLON, value + CRLF);
    var a := name + ([COLON] + value);
    assert l == a + ([CR] + [LF]) && l == a + CRLF;
    FindBehind(a, CR, [LF]);
    EndsLine(a);
    assert l[|name| + 1..|a|] == value;
  }

  predicate OneWord(s: seq<byte>) { OneLine(s) && BLANK !in s }

  lemma {:induction false} WordsParse(a: seq<byte>, b: seq<byte>, c: seq<byte>)
    requires OneWord(a) && OneWord(b) && OneLine(c)
    ensures ParseHeadLine(Words(a, b, c)) == HeadLine(a, b, c)
    ensures Find(Words(a, b, c), BLANK) == |a| < |Words(a, b, c)|
  {
    FindBehind(a, BLANK, b + ([BLANK] + (c + CRLF)));
    FindBehind(b, BLANK, c + CRLF);
    assert c + CRLF == c + ([CR] + [LF]);
    FindBehind(c, CR, [LF]);
  }

  lemma {:induction false} WordsIsLine(a: seq<byte>, b: seq<byte>, c: seq<byte>)
    requires OneWord(a) && OneWord(b) && OneLine(c)
    ensures IsLine(Words(a, b, c))
  {
  }

  /** Values that fit the fields of sip_cmd_t. */
  predicate FitsFields(to: seq<byte>, from: seq<byte>, cSeq: seq<byte>, callId: seq<byte>, contentType: seq<byte>) {
    && OneLine(to) && OneLine(from) && OneLine(cSeq) && OneLine(callId) && OneLine(contentType)
    && |cSeq| < 32 && |callId| < 64 && |contentType| < 16
  }

  predicate IsName(n: seq<byte>) { n != [] && OneLine(n) && COLON !in n }

  /** What a line of that key sets. */
  function SetKey(sip: Sip, f: Field): Sip {
    match f.key
    case To => sip.(to := f.value)
    case From => sip.(from := f.value)
    case CSeq => sip.(cSeq := Copy(f.value, 32))
    case CallId => sip.(callId := Copy(f.value, 64))
    case MaxForwards => sip.(maxForwards := Atoi(f.value))
    case ContentType => sip.(contentType := Copy(f.value, 16))
    case ContentLength => sip.(contentLength := Atoi(f.value))
  }

  function SetKeys(sip: Sip, fs: seq<Field>): Sip
    decreases |fs|
  {
    if fs == [] then sip else SetKeys(SetKey(sip, fs[0]), fs[1..])
  }

  /** The names are proper names, and they are told apart. */
  lemma {:induction false} KeyIsKnown(sip: Sip, f: Field)
    ensures IsName(NameOf(f.key)) && (NameOf(f.key) == S_CONTENT_LENGTH <==> f.key == ContentLength)
    ensures SetField(sip, NameOf(f.key), f.value) == SetKey(sip, f)
  {
  }

  /** Printed fields are lines, and reading them sets the fields. */
  lemma {:induction false} LinesSet(sip: Sip, fs: seq<Field>)
    requires forall i :: 0 <= i < |fs| ==> OneLine(fs[i].value)
    ensures AllLines(LinesOf(fs)) && SetFields(sip, LinesOf(fs)) == SetKeys(sip, fs)
    decreases |fs|
  {
    if fs != [] {
      var f := fs[0];
      KeyIsKnown(sip, f);
      LineParts(NameOf(f.key), f.value);
      LinesSet(SetKey(sip, f), fs[1..]);
      assert LinesOf(fs)[1..] == LinesOf(fs[1..]);
    }
  }

  lemma {:induction false} LastLine(fs: seq<Field>)
    requires fs != []
    ensures LinesOf(fs)[|fs| - 1] == Line(NameOf(fs[|fs| - 1].key), fs[|fs| - 1].value)
    decreases |fs|
  {
    if |fs| > 1 {
      LastLine(fs[1..]);
    }
  }

  lemma {:induction false} NumbersFit(n: int)
    ensures Atoi(Signed(n)) == n && OneLine(Signed(n)) && Atoi(S_70) == 70 && OneLine(S_70)
  {
    AtoiOfSigned(n);
    SignedChars(n);
    AtoiOfSigned(70);
    assert Decimal(7) == [55] && Decimal(70) == [55] + [48];
  }

  lemma {:induction false} SetKeysFrom(sip: Sip, fs: seq<Field>, i: nat) returns (sip': Sip)
    requires i < |fs|
    ensures sip' == SetKey(sip, fs[i]) && SetKeys(sip, fs[i..]) == SetKeys(sip', fs[i + 1..])
  {
    sip' := SetKey(sip, fs[i]);
    assert fs[i..][0] == fs[i] && fs[i..][1..] == fs[i + 1..];
  }

  lemma {:induction false} SetSeven(sip: Sip, fs: seq<Field>)
    requires |fs| == 7
    ensures SetKeys(sip, fs) == SetKey(SetKey(SetKey(SetKey(SetKey(SetKey(SetKey(sip, fs[0]), fs[1]), fs[2]), fs[3]),
                                                     fs[4]), fs[5]), fs[6])
  {
    var s1 := SetKeysFrom(sip, fs, 0);
    var s2 := SetKeysFrom(s1, fs, 1);
    var s3 := SetKeysFrom(s2, fs, 2);
    var s4 := SetKeysFrom(s3, fs, 3);
    var s5 := SetKeysFrom(s4, fs, 4);
    var s6 := SetKeysFrom(s5, fs, 5);
    var s7 := SetKeysFrom(s6, fs, 6);
    assert fs[0..] == fs && fs[7..] == [];
  }

  /** The general lines set the fields. */
  lemma {:induction false} GeneralFields(sip: Sip, to: seq<byte>, from: seq<byte>, cSeq: seq<byte>, callId: seq<byte>,
                                         contentType: seq<byte>, n: int)
    requires FitsFields(to, from, cSeq, callId, contentType)
    ensures SetKeys(sip, Fields(to, from, cSeq, callId, contentType, n))
            == sip.(to := to, from := from, cSeq := cSeq, callId := callId, contentType := contentType,
                    maxForwards := 70, contentLength := n)
  {
    NumbersFit(n);
    SetSeven(sip, Fields(to, from, cSeq, callId, contentType, n));
  }

  /** They are lines, they set the fields, and the last one gives the length of the body. */
  lemma {:induction false} GeneralParts(sip: Sip, to: seq<byte>, from: seq<byte>, cSeq: seq<byte>, callId: seq<byte>,
                                        contentType: seq<byte>, n: int)
    requires FitsFields(to, from, cSeq, callId, contentType)
    ensures var g := General(to, from, cSeq, callId, contentType, n);
            && AllLines(g) && XmlLen(g, 0) == n
            && SetFields(sip, g) == sip.(to := to, from := from, cSeq := cSeq, callId := callId,
                                         contentType := contentType, maxForwards := 70, contentLength := n)
  {
    var fs := Fields(to, from, cSeq, callId, contentType, n);
    NumbersFit(n);
    LinesSet(sip, fs);
    GeneralFields(sip, to, from, cSeq, callId, contentType, n);
    LastLine(fs);
    KeyIsKnown(sip, fs[6]);
    LineParts(S_CONTENT_LENGTH, Signed(n));
    XmlLenLast(LinesOf(fs), 0);
  }

  lemma {:induction false} XmlLenLast(lines: seq<seq<byte>>, len: int)
    requires lines != [] && LineName(lines[|lines| - 1]) == S_CONTENT_LENGTH
    ensures XmlLen(lines, len) == Atoi(LineValue(lines[|lines| - 1]))
    decreases |lines|
  {
    if |lines| > 1 {
      XmlLenLast(lines[1..], if LineName(lines[0]) == S_CONTENT_LENGTH then Atoi(LineValue(lines[0])) else len);
    }
  }

  /** Reading back a message of a first line, the general lines and a body whose length they give. */
  lemma {:induction false} ParseMessage(sip: Sip, first: seq<byte>, to: seq<byte>, from: seq<byte>, cSeq: seq<byte>,
                                        callId: seq<byte>, contentType: seq<byte>, body: seq<byte>)
    requires IsLine(first) && Find(first, BLANK) < |first| && FitsFields(to, from, cSeq, callId, contentType)
    ensures ParseSip(sip, Message(first, General(to, from, cSeq, callId, contentType, |body|), body))
            == Parsed(SetHead(sip, first).(to := to, from := from, cSeq := cSeq, callId := callId,
                        contentType := contentType, maxForwards := 70, contentLength := |body|), Some(body))
  {
    var g := General(to, from, cSeq, callId, contentType, |body|);
    var lines := [first] + g;
    GeneralParts(SetHead(sip, first), to, from, cSeq, callId, contentType, |body|);
    assert lines[1..] == g;
    Associative(first, Cat(g), CRLF + body);
    SplitMessage(lines, body, 20);
  }

  /** st_sip_parseSip undoes st_sip_setSip and st_sip_makeMsg. */
  lemma {:induction false} RequestRoundTrip(sip: Sip, cmd: seq<byte>, head: seq<byte>, to: seq<byte>, from: seq<byte>,
      cSeq: seq<byte>, callId: seq<byte>, contentType: seq<byte>, body: seq<byte>)
    requires OneWord(cmd) && OneWord(head) && cmd != S_OK && cmd != SIP_2_0
    requires FitsFields(to, from, cSeq, callId, contentType)
    ensures ParseSip(sip, Message(RequestLine(cmd, head), General(to, from, cSeq, callId, contentType, |body|), body))
            == Parsed(Sip(cmd, sip.answerNum, head, to, from, callId, cSeq, contentType, 70, sip.expires, |body|),
                      Some(body))
  {
    WordsParse(cmd, head, SIP_2_0);
    WordsIsLine(cmd, head, SIP_2_0);
    ParseMessage(sip, RequestLine(cmd, head), to, from, cSeq, callId, contentType, body);
  }

  /** The command OK is sent, and read, as the answer 200. */
  lemma {:induction false} OkRoundTrip(sip: Sip, head: seq<byte>, to: seq<byte>, from: seq<byte>, cSeq: seq<byte>,
                                       callId: seq<byte>, contentType: seq<byte>, body: seq<byte>)
    requires FitsFields(to, from, cSeq, callId, contentType)
    ensures ParseSip(sip, Message(RequestLine(S_OK, head), General(to, from, cSeq, callId, contentType, |body|), body))
            == Parsed(Sip(S_OK, 200, sip.header, to, from, callId, cSeq, contentType, 70, sip.expires, |body|),
                Some(body))
  {
    TwoHundred();
    WordsParse(SIP_2_0, S_200, S_OK);
    WordsIsLine(SIP_2_0, S_200, S_OK);
    ParseMessage(sip, RequestLine(S_OK, head), to, from, cSeq, callId, contentType, body);
  }

  lemma {:induction false} TwoHundred()
    ensures OneWord(S_200) && Atoi(S_200) == 200 && OneWord(SIP_2_0) && OneLine(S_OK)
  {
    AtoiOfSigned(200);
    assert Decimal(2) == [50] && Decimal(20) == [50] + [48] && Decimal(200) == [50, 48] + [48];
  }

  /** The texts behind the numbers are single lines that fit cmdName. */
  predicate GoodReasons(reasons: map<nat, seq<byte>>) {
    forall n :: n in reasons ==> 100 <= n < 1000 && OneLine(reasons[n]) && |reasons[n]| < 48
  }

  lemma {:induction false} ThreeDigits(n: nat)
    requires 100 <= n < 1000
    ensures |Decimal(n)| == 3 && OneWord(Decimal(n)) && Atoi(Decimal(n)) == n
  {
    assert |Decimal(n / 10 / 10)| == 1;
    assert |Decimal(n / 10)| == 2;
    AtoiOfSigned(n);
  }

  /** For every number that st_sip_answerRequest knows, the answer is read back. */
  lemma {:induction false} AnswerRoundTrip(reasons: map<nat, seq<byte>>, sip: Sip, answerNum: nat, request: Sip,
                                           body: seq<byte>)
    requires GoodReasons(reasons) && answerNum in reasons
    requires FitsFields(request.to, request.from, request.cSeq, request.callId, request.contentType)
    ensures ParseSip(sip, Message(StatusLine(reasons, answerNum),
                General(request.to, request.from, request.cSeq, request.callId, request.contentType, |body|), body))
            == Parsed(Sip(reasons[answerNum], answerNum, sip.header, request.to, request.from, request.callId,
                          request.cSeq, request.contentType, 70, sip.expires, |body|), Some(body))
  {
    ThreeDigits(answerNum);
    WordsParse(SIP_2_0, Decimal(answerNum), reasons[answerNum]);
    WordsIsLine(SIP_2_0, Decimal(answerNum), reasons[answerNum]);
    ParseMessage(sip, StatusLine(reasons, answerNum), request.to, request.from, request.cSeq, request.callId,
      request.contentType, body);
  }

  /** For any other number the answer has no status line: reading it never gives a number. */
  lemma {:induction false} UnknownAnswerIsLost(reasons: map<nat, seq<byte>>, sip: Sip, answerNum: nat, to: seq<byte>,
      from: seq<byte>, cSeq: seq<byte>, callId: seq<byte>, contentType: seq<byte>, body: seq<byte>)
    requires answerNum !in reasons && FitsFields(to, from, cSeq, callId, contentType)
    ensures var g := General(to, from, cSeq, callId, contentType, |body|);
            ParseSip(sip, Message(StatusLine(reasons, answerNum), g, body)).sip.answerNum == sip.answerNum
  {
    var g := General(to, from, cSeq, callId, contentType, |body|);
    var first := Line(S_TO, to);
    GeneralParts(sip, to, from, cSeq, callId, contentType, |body|);
    assert [] + (Cat(g) + (CRLF + body)) == Cat(g) + (CRLF + body);
    SplitMessage(g, body, 20);
    assert g[0] == first && first[0] == S_TO[0];
    HeadKeepsNumber(sip, first);
    FieldsKeepNumber(SetHead(sip, first), g[1..]);
  }

  lemma {:induction false} HeadKeepsNumber(sip: Sip, line: seq<byte>)
    requires line != [] && line[0] == S_TO[0]
    ensures SetHead(sip, line).answerNum == sip.answerNum
  {
  }

  lemma {:induction false} FieldsKeepNumber(sip: Sip, lines: seq<seq<byte>>)
    ensures SetFields(sip, lines).answerNum == sip.answerNum
    decreases |lines|
  {
    if lines != [] {
      FieldsKeepNumber(SetField(sip, LineName(lines[0]), LineValue(lines[0])), lines[1..]);
    }
  }
}

/** The functions of jni/DecodeSip.c. */
module SipMessages {
  import opened CString
  import opened Text
  import opened SipSpec

  /** The buffers of st_sip_parseSip: lines of at most 127 bytes, names of at most 31 and values of at most 95; the
      value ends behind the colon; a status line has its two blanks; the body has at most 4095 bytes. */
  predicate Fits(s: seq<byte>) {
    var r := SplitLines(s, 20);
    && |s| < 5120 && ShortLines(s, 20)
    && (r.Lines? && r.lines != [] ==>
          && HeadFits(r.lines[0]) && (forall i :: 1 <= i < |r.lines| ==> LineFits(r.lines[i]))
          && 0 <= XmlLen(r.lines[1..], 0) < 4096)
  }

  predicate ShortLines(s: seq<byte>, n: nat)
    decreases n
  {
    var p := Find(s, LF);
    n == 0 || p == |s| || (p == 1 && s[0] == CR) || (p < 127 && ShortLines(s[p + 1..], n - 1))
  }

  predicate HeadFits(l: seq<byte>) {
    match ParseHeadLine(l)
    case BadLine => !(SIP_2_0 + [BLANK] <= l)
    case HeadLine(cmd, addr, rest) => |cmd| < 48 && |addr| < 96 && |rest| < 96
  }

  predicate LineFits(l: seq<byte>) {
    var p, q := Find(l, COLON), Find(l, CR);
    p < |l| ==> p < 32 && (q < |l| ==> p < q && q - p <= 96)
  }

  predicate ShortLine(l: seq<byte>) { IsLine(l) && |l| <= 127 }

  /** Printed lines are short enough. */
  lemma {:induction false} ShortCat(lines: seq<seq<byte>>, s: seq<byte>, body: seq<byte>, n: nat)
    requires |lines| < n && s == Cat(lines) + (CRLF + body)
    requires forall i :: 0 <= i < |lines| ==> ShortLine(lines[i])
    ensures ShortLines(s, n)
    decreases |lines|
  {
    if lines == [] {
      assert s == [CR] + ([LF] + body);
      FindBehind([CR], LF, body);
    } else {
      var l, rest := lines[0], Cat(lines[1..]) + (CRLF + body);
      Associative(l, Cat(lines[1..]), CRLF + body);
      ShortCat(lines[1..], rest, body, n - 1);
      ShortOne(l, s, rest, n);
    }
  }

  lemma {:induction false} ShortOne(l: seq<byte>, s: seq<byte>, rest: seq<byte>, n: nat)
    requires ShortLine(l) && n > 0 && s == l + rest && ShortLines(rest, n - 1)
    ensures ShortLines(s, n)
  {
    var a := l[..|l| - 1];
    assert l == a + [LF] && a == l[..|l| - 2] + [CR];
    Associative(a, [LF], rest);
    FindBehind(a, LF, rest);
  }

  predicate ShortField(f: Field) { OneLine(f.value) && |f.value| < 96 }

  lemma {:induction false} FieldFits(f: Field)
    requires ShortField(f)
    ensures var l := Line(NameOf(f.key), f.value); ShortLine(l) && LineFits(l)
  {
    var name, l := NameOf(f.key), Line(NameOf(f.key), f.value);
    KeyIsKnown(Sip([], 0, [], [], [], [], [], [], 0, 0, 0), f);
    LineParts(name, f.value);
    FindBehind(name, COLON, f.value + CRLF);
    var a := name + ([COLON] + f.value);
    assert l == a + ([CR] + [LF]);
    FindBehind(a, CR, [LF]);
  }

  lemma {:induction false} FieldsFit(fs: seq<Field>)
    requires forall i :: 0 <= i < |fs| ==> ShortField(fs[i])
    ensures forall i :: 0 <= i < |fs| ==> ShortLine(LinesOf(fs)[i]) && LineFits(LinesOf(fs)[i])
    decreases |fs|
  {
    if fs != [] {
      FieldFits(fs[0]);
      FieldsFit(fs[1..]);
      assert LinesOf(fs)[1..] == LinesOf(fs[1..]);
      forall i | 1 <= i < |fs| ensures ShortLine(LinesOf(fs)[i]) && LineFits(LinesOf(fs)[i]) {
        assert LinesOf(fs)[i] == LinesOf(fs[1..])[i - 1];
      }
    }
  }

  lemma {:induction false} GeneralFits(to: seq<byte>, from: seq<byte>, cSeq: seq<byte>, callId: seq<byte>,
                                       contentType: seq<byte>, n: nat)
    requires FitsFields(to, from, cSeq, callId, contentType) && |to| < 96 && |from| < 96 && n < 4096
    ensures var g := General(to, from, cSeq, callId, contentType, n);
            forall i :: 0 <= i < |g| ==> ShortLine(g[i]) && LineFits(g[i])
  {
    NumbersFit(n);
    SignedLength(n);
    FieldsFit(Fields(to, from, cSeq, callId, contentType, n));
  }

  /** A printed message fits the parser's buffers if its values and its first line do. */
  lemma {:induction false} MessageFits(first: seq<byte>, to: seq<byte>, from: seq<byte>, cSeq: seq<byte>,
                                       callId: seq<byte>, contentType: seq<byte>, body: seq<byte>)
    requires ShortLine(first) && HeadFits(first) && |body| < 4096
    requires FitsFields(to, from, cSeq, callId, contentType) && |to| < 96 && |from| < 96
    requires |Message(first, General(to, from, cSeq, callId, contentType, |body|), body)| < 5120
    ensures Fits(Message(first, General(to, from, cSeq, callId, contentType, |body|), body))
  {
    var g := General(to, from, cSeq, callId, contentType, |body|);
    var lines, s := [first] + g, Message(first, g, body);
    GeneralFits(to, from, cSeq, callId, contentType, |body|);
    GeneralParts(Sip([], 0, [], [], [], [], [], [], 0, 0, 0), to, from, cSeq, callId, contentType, |body|);
    assert lines[1..] == g;
    assert Cat(lines) == first + Cat(g);
    Associative(first, Cat(g), CRLF + body);
    SplitMessage(lines, body, 20);
    ShortCat(lines, s, body, 20);
  }

  /** sip_cmd_t, whose fields st_sip_parseSip fills in one after the other. */
  class SipCmd {
    var cmdName: seq<byte>
    var answerNum: int
    var header: seq<byte>
    var to: seq<byte>
    var from: seq<byte>
    var callId: seq<byte>
    var cSeq: seq<byte>
    var contentType: seq<byte>
    var maxForwards: int
    var expires: int
    var contentLength: int

    ghost function State(): Sip
      reads this
    {
      Sip(cmdName, answerNum, header, to, from, callId, cSeq, contentType, maxForwards, expires, contentLength)
    }

    constructor ()
      ensures State() == Sip([], 0, [], [], [], [], [], [], 0, 0, 0)
    {
      cmdName, answerNum, header, to, from, callId, cSeq := [], 0, [], [], [], [], [];
      contentType, maxForwards, expires, contentLength := [], 0, 0, 0;
    }

    /** st_sip_parseSipHeadline, and what the caller does with its results */
    method SetHead(line: seq<byte>)
      modifies this
      ensures State() == SipSpec.SetHead(old(State()), line)
    {
      var p1 := Find(line, BLANK);
      if p1 == |line| {
        return;
      }
      var behind := line[p1 + 1..];
      var p2 := Find(behind, BLANK);
      if p2 == |behind| {
        return;
      }
      var rest := behind[p2 + 1..];
      var p3 := Find(rest, CR);
      if p3 == |rest| {
        return;
      }
      if line[..p1] == SIP_2_0 {
        answerNum := Atoi(Copy(behind[..p2], 16));
        cmdName := Copy(rest[..p3], 48);
      } else {
        cmdName := line[..p1];
        header := behind[..p2];
      }
    }

    /** The chain of comparisons for one line. */
    method SetField(name: seq<byte>, value: seq<byte>) returns (xmlLen: Option<int>)
      modifies this
      ensures State() == SipSpec.SetField(old(State()), name, value)
      ensures xmlLen == if name == S_CONTENT_LENGTH then Some(Atoi(value)) else None
    {
      xmlLen := None;
      if name == S_TO {
        to := value;
      } else if name == S_FROM {
        from := value;
      } else if name == S_CSEQ {
        cSeq := Copy(value, 32);
      } else if name == S_CALL_ID || name == S_CALLID {
        callId := Copy(value, 64);
      } else if name == S_CONTENT_TYPE {
        contentType := Copy(value, 16);
      } else if name == S_CONTENT_LENGTH {
        contentLength := Atoi(value);
        xmlLen := Some(contentLength);
      } else if name == S_MAX_FORWARDS {
        maxForwards := Atoi(value);
      } else if name == S_EXPIRES {
        expires := Atoi(value);
      }
    }

    /** The loop over the lines behind the first. */
    method SetFields(lines: seq<seq<byte>>) returns (xmlLen: int)
      modifies this
      ensures State() == SipSpec.SetFields(old(State()), lines) && xmlLen == XmlLen(lines, 0)
    {
      xmlLen := 0;
      var i := 0;
      while i < |lines|
        invariant 0 <= i <= |lines|
        invariant SipSpec.SetFields(State(), lines[i..]) == SipSpec.SetFields(old(State()), lines)
        invariant XmlLen(lines[i..], xmlLen) == XmlLen(lines, 0)
      {
        assert lines[i..][0] == lines[i] && lines[i..][1..] == lines[i + 1..];
        var len := SetField(LineName(lines[i]), LineValue(lines[i]));
        if len.Some? {
          xmlLen := len.value;
        }
        i := i + 1;
      }
    }

    /** st_sip_parseSip; the body is None if the call returns before it is stored. */
    method Parse(msg: seq<byte>) returns (body: Option<seq<byte>>)
      requires Fits(CStr(msg))
      modifies this
      ensures Parsed(State(), body) == ParseSip(old(State()), CStr(msg))
    {
      var r := ReadLines(CStr(msg));
      if r.NoEnd? || r.lines == [] || Find(r.lines[0], BLANK) == |r.lines[0]| {
        return None;
      }
      SetHead(r.lines[0]);
      var xmlLen := SetFields(r.lines[1..]);
      body := Some(if xmlLen < 0 then [] else Copy(r.rest, xmlLen));
    }
  }

  lemma {:induction false} PrependOne(lines: seq<seq<byte>>, l: seq<byte>, r: Split)
    ensures PrependAll(lines + [l], r) == PrependAll(lines, Prepend(l, r))
    decreases |lines|
  {
    if lines == [] {
      assert lines + [l] == [l] && [l][1..] == [];
    } else {
      assert (lines + [l])[0] == lines[0] && (lines + [l])[1..] == lines[1..] + [l];
      PrependOne(lines[1..], l, r);
    }
  }

  lemma {:induction false} PrependEnd(lines: seq<seq<byte>>, r: Split)
    requires r.Lines? && r.lines == []
    ensures PrependAll(lines, r) == Lines(lines, r.rest)
    ensures PrependAll(lines, NoEnd) == NoEnd
  {
    if lines != [] {
      PrependEnd(lines[1..], r);
      assert lines == [lines[0]] + lines[1..];
    }
  }

  /** The first loop of st_sip_parseSip: up to twenty lines, or an empty one. */
  method ReadLines(s: seq<byte>) returns (r: Split)
    ensures r == SplitLines(s, 20)
  {
    var lines: seq<seq<byte>> := [];
    var p1 := s;
    var i := 0;
    while i < 20
      invariant 0 <= i <= 20
      invariant SplitLines(s, 20) == PrependAll(lines, SplitLines(p1, 20 - i))
    {
      PrependEnd(lines, Lines([], if |p1| >= 2 then p1[2..] else []));
      var p2 := Find(p1, LF);
      if p2 == |p1| {
        return NoEnd;
      }
      var line := p1[..p2 + 1];
      if p2 == 1 && p1[0] == CR {
        return Lines(lines, p1[2..]);
      }
      PrependOne(lines, line, SplitLines(p1[p2 + 1..], 19 - i));
      lines, p1, i := lines + [line], p1[p2 + 1..], i + 1;
    }
    PrependEnd(lines, Lines([], p1));
    r := Lines(lines, p1);
  }

  /** st_sip_setSipGeneral: the buffer is filled by strcat. */
  method SetGeneral(to: seq<byte>, from: seq<byte>, cSeq: seq<byte>, callId: seq<byte>, contentType: seq<byte>,
                    contentLength: int) returns (buf: seq<byte>)
    ensures buf == Cat(General(to, from, cSeq, callId, contentType, contentLength)) + CRLF
  {
    var fs := Fields(to, from, cSeq, callId, contentType, contentLength);
    buf := [];
    var i := 0;
    while i < |fs|
      invariant 0 <= i <= |fs|
      invariant buf + Cat(LinesOf(fs[i..])) == Cat(LinesOf(fs))
    {
      assert fs[i..][0] == fs[i] && fs[i..][1..] == fs[i + 1..];
      var line := Line(NameOf(fs[i].key), fs[i].value);
      assert LinesOf(fs[i..]) == [line] + LinesOf(fs[i + 1..]);
      Associative(buf, line, Cat(LinesOf(fs[i + 1..])));
      buf := buf + line;
      i := i + 1;
    }
    assert buf + [] == buf;
    buf := buf + CRLF;
  }

  /** st_sip_setSip followed by st_sip_makeMsg */
  method MakeRequest(cmd: seq<byte>, head: seq<byte>, to: seq<byte>, from: seq<byte>, cSeq: seq<byte>,
                     callId: seq<byte>, contentType: seq<byte>, contentLength: int, body: seq<byte>)
    returns (msg: seq<byte>)
    requires |RequestLine(cmd, head)| < 128
    ensures msg == Message(RequestLine(cmd, head), General(to, from, cSeq, callId, contentType, contentLength), body)
  {
    var header := RequestLine(cmd, head);
    var general := SetGeneral(to, from, cSeq, callId, contentType, contentLength);
    msg := header + general + body;
    ghost var g := Cat(General(to, from, cSeq, callId, contentType, contentLength));
    Associative(header, g, CRLF);
    Associative(header + g, CRLF, body);
    Associative(header, g, CRLF + body);
  }

  /** st_sip_answerRequest; `reasons` stands for its chain of comparisons. */
  method AnswerRequest(reasons: map<nat, seq<byte>>, answerNum: int, request: SipCmd, xmlLen: int)
    returns (answer: Option<seq<byte>>)
    requires GoodReasons(reasons)
    ensures answer == if answerNum < 100 then None
                      else Some(Message(StatusLine(reasons, answerNum),
                             General(request.to, request.from, request.cSeq, request.callId, request.contentType,
                                     if xmlLen > 0 then xmlLen else 0), []))
  {
    if answerNum < 100 {
      return None;
    }
    var len := 0;
    if xmlLen > 0 {
      len := xmlLen;
    }
    var first := StatusLine(reasons, answerNum);
    var general := SetGeneral(request.to, request.from, request.cSeq, request.callId, request.contentType, len);
    answer := Some(first + general);
    assert CRLF + [] == CRLF;
  }
}
