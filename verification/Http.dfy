/** The GET part of the HTTP text protocol of jni/httpAPI.c: printing, scanning and parsing. */
module HttpGetSpec {
  import opened CString
  import opened Text

  const AMPERSAND: byte := 38
  const SLASH: byte := 47
  const EQUALS: byte := 61
  const QUESTION: byte := 63
  const TAB: byte := 9

  const GET_SLASH: seq<byte> := [71, 69, 84, 32, 47]
  const HTTP_1_0: seq<byte> := [72, 84, 84, 80, 47, 49, 46, 48]
  const SEQ: seq<byte> := [83, 101, 113, 58]

  const MAX_HTTP_PACKAGE_LEN: nat := 128 * 1024
  const MAX_PARAM_NUM: nat := 16
  const REQ_TYPE_GET: nat := 0

  datatype Param = Param(name: seq<byte>, value: seq<byte>)

  // ---- printing -------------------------------------------------------------------------------

  function Pair(p: Param): seq<byte> { p.name + ([EQUALS] + p.value) }

  /** name=value pairs joined by & */
  function Join(ps: seq<Param>): seq<byte> {
    if ps == [] then []
    else if |ps| == 1 then Pair(ps[0])
    else Pair(ps[0]) + ([AMPERSAND] + Join(ps[1..]))
  }

  /** An unsigned int printed with %d */
  function AsInt(seqNo: uint32): int { if seqNo < 0x8000_0000 then seqNo else seqNo - 0x1_0000_0000 }

  function SeqLine(seqNo: uint32): seq<byte> { SEQ + Signed(AsInt(seqNo)) }

  /** What follows the command in the first line. */
  function Query(params: seq<byte>): seq<byte> { [QUESTION] + (params + ([BLANK] + HTTP_1_0)) }

  /** st_http_makeHttp for GET */
  function MakeGet(cmd: seq<byte>, params: seq<byte>, seqNo: uint32): seq<byte> {
    GET_SLASH + (cmd + (Query(params) + (CRLF + (SeqLine(seqNo) + (CRLF + CRLF)))))
  }

  // ---- scanning -------------------------------------------------------------------------------

  /** The loop over the parameters, from an & up to the end of the line: & and = must alternate. */
  function PairScan(t: seq<byte>, prev: byte, paired: bool): bool {
    if t == [] then false
    else if t[0] == LF then paired
    else if t[0] == AMPERSAND then paired && PairScan(t[1..], t[0], false)
    else if t[0] == EQUALS then !paired && prev != AMPERSAND && PairScan(t[1..], t[0], true)
    else PairScan(t[1..], t[0], paired)
  }

  /** Every header line has a colon. */
  function HeaderScan(t: seq<byte>): bool
    decreases |t|
  {
    var h := StrStr(t, CRLF);
    if h <= 0 then true
    else COLON in t[..h] && HeaderScan(t[h + 2..])
  }

  /** The last eight characters of the first line are HTTP/x.y */
  predicate VersionAt(s: seq<byte>, end: nat) {
    8 <= end <= |s| && s[end - 8..end - 3] == HTTP_1_0[..5] && s[end - 2] == HTTP_1_0[6]
  }

  function SkipBlanks(s: seq<byte>): seq<byte> { if s != [] && s[0] == BLANK then SkipBlanks(s[1..]) else s }

  /** The parameters behind the first value alternate. */
  predicate PairsScan(s3: seq<byte>) {
    var a := Find(s3, AMPERSAND);
    a < |s3| ==> PairScan(s3[a..], 0, true)
  }

  predicate HeadersScan(s3: seq<byte>) {
    var h := StrStr(s3, CRLF);
    h >= 0 ==> HeaderScan(s3[h + 2..])
  }

  /** The scan behind the question mark. */
  predicate QueryScan(s2: seq<byte>) {
    var n := Find(s2, EQUALS);
    0 < n < |s2| && PairsScan(s2[n + 1..]) && HeadersScan(s2[n + 1..])
  }

  /** The scan behind the first slash. */
  predicate TargetScan(s1: seq<byte>) {
    var q := Find(s1, QUESTION);
    0 < q < |s1| && QueryScan(s1[q + 1..])
  }

  /** The first line starts with GET / and ends with the version. */
  predicate LineScan(s: seq<byte>) {
    |s| >= 5 && s[..5] == GET_SLASH && var e := StrStr(s[5..], CRLF); e >= 0 && VersionAt(s, 5 + e)
  }

  /** The scan of a message that starts with G. */
  predicate ScanGet(msg: seq<byte>) {
    var s := SkipBlanks(msg);
    |msg| < MAX_HTTP_PACKAGE_LEN && LineScan(s) && TargetScan(s[5..])
  }

  // ---- parsing --------------------------------------------------------------------------------

  /** st_http_getHead: up to and including the empty line. */
  function Head(s: seq<byte>): seq<byte> {
    var e := StrStr(s, CRLF + CRLF);
    if e < 0 then [] else s[..e + 4]
  }

  /** The digits of a number, with a NUL in the place of every blank. */
  function Gaps(s: seq<byte>): seq<byte> {
    if s == [] then [] else [if s[0] == BLANK || s[0] == TAB then 0 else s[0]] + Gaps(s[1..])
  }

  /** st_http_getSeq */
  function SeqOf(head: seq<byte>): int {
    var p := StrStr(head, SEQ);
    if p < 0 then 0
    else
      var t := head[p + 4..];
      Atoi(CStr(Gaps(t[..Find(t, CR)])))
  }

  function WithoutCr(s: seq<byte>): seq<byte> {
    if s == [] then [] else (if s[0] == CR then [] else [s[0]]) + WithoutCr(s[1..])
  }

  /** st_http_getLine */
  function FirstLine(head: seq<byte>): seq<byte> { WithoutCr(head[..Find(head, LF)]) }

  /** st_http_getMethod */
  function Method(line: seq<byte>): seq<byte> { var s := SkipBlanks(line); s[..Find(s, BLANK)] }

  /** st_http_getURL */
  function Url(line: seq<byte>): seq<byte> { var s := line[Find(line, SLASH)..]; s[..Find(s, BLANK)] }

  function SkipChar(s: seq<byte>, c: byte): (r: seq<byte>)
    ensures |r| <= |s| && (r != [] ==> r[0] != c)
  {
    if s != [] && s[0] == c then SkipChar(s[1..], c) else s
  }

  /** The tokens of strtok */
  function Tokens(s: seq<byte>, c: byte): seq<seq<byte>>
    decreases |s|
  {
    var t := SkipChar(s, c);
    if t == [] then []
    else
      var n := Find(t, c);
      if n == 0 then [] else [t[..n]] + Tokens(t[n..], c)
  }

  function ParamOf(token: seq<byte>): Param {
    var e := Find(token, EQUALS);
    Param(token[..e], if e < |token| then token[e + 1..] else [])
  }

  function ParamsOf(tokens: seq<seq<byte>>): (ps: seq<Param>)
    ensures |ps| == |tokens|
  {
    if tokens == [] then [] else [ParamOf(tokens[0])] + ParamsOf(tokens[1..])
  }

  /** HTTP_OBJECT for a GET request */
  datatype Request = Request(kind: nat, seqNo: int, cmd: seq<byte>, params: seq<Param>)

  /** st_http_parseHttp, for a message that has been scanned and whose method is GET */
  function ParseGet(s: seq<byte>): Request {
    var head := Head(s);
    var url := Url(FirstLine(head));
    var q := Find(url, QUESTION);
    Request(REQ_TYPE_GET, SeqOf(head), if 1 <= q then url[1..q] else [],
            if q < |url| then ParamsOf(Tokens(url[q + 1..], AMPERSAND)) else [])
  }

  /** The fixed buffers: a head of at most 1023 bytes, at most 127 characters behind Seq:, a command of at most 31. */
  predicate FitsBuffers(s: seq<byte>) {
    StrStr(s, CRLF + CRLF) >= 0 && |Head(s)| < 1024 && FitsSeq(Head(s)) && FitsTarget(Url(FirstLine(Head(s))))
  }

  predicate FitsTarget(url: seq<byte>) {
    var q := Find(url, QUESTION);
    1 <= q <= 32 && q < |url| && FitsParams(url[q + 1..])
  }

  predicate FitsSeq(head: seq<byte>) {
    var p := StrStr(head, SEQ);
    p >= 0 ==> Find(head[p + 4..], CR) < 128
  }

  /** At most 16 parameters, each with an equals sign, names and values of at most 255 bytes. */
  predicate FitsParams(query: seq<byte>) {
    var ts := Tokens(query, AMPERSAND);
    |ts| <= MAX_PARAM_NUM && (forall t <- ts :: EQUALS in t) && ShortParams(ParamsOf(ts))
  }

  predicate ShortParams(ps: seq<Param>) { forall p <- ps :: |p.name| < 256 && |p.value| < 256 }

  // ---- parsing undoes printing ----------------------------------------------------------------

  /** Characters that end neither the string nor the line nor the target. */
  predicate TargetChar(c: byte) { c != 0 && c != CR && c != LF && c != BLANK }

  /** A command: the first question mark ends it. */
  predicate IsCommand(cmd: seq<byte>) { forall i :: 0 <= i < |cmd| ==> TargetChar(cmd[i]) && cmd[i] != QUESTION }

  /** Characters of a name or value. */
  predicate PlainChar(c: byte) { TargetChar(c) && c != AMPERSAND && c != EQUALS }

  predicate Plain(s: seq<byte>) { forall i :: 0 <= i < |s| ==> PlainChar(s[i]) }

  predicate PlainParams(ps: seq<Param>) {
    ps == [] || (ps[0].name != [] && Plain(ps[0].name) && Plain(ps[0].value) && PlainParams(ps[1..]))
  }

  /** The number is searched for from the start of the message, so the first line must not contain Seq: */
  predicate NumberComesFirst(cmd: seq<byte>, ps: seq<Param>) {
    StrStr(GET_SLASH + (cmd + Query(Join(ps))), SEQ) < 0
  }

  /** The first CRLF behind text without CR. */
  lemma {:induction false} CrlfBehind(s: seq<byte>, a: seq<byte>, b: seq<byte>)
    requires s == a + (CRLF + b) && CR !in a
    ensures StrStr(s, CRLF) == |a| && s[|a| + 2..] == b
  {
    forall j | 0 <= j < |a| ensures !MatchAt(s, CRLF, j) {
      assert s[j] == a[j] && CRLF[0] == CR;
    }
    assert s[|a|] == CR && s[|a| + 1] == LF;
    FirstMatch(s, CRLF, |a|);
  }

  /** The empty line behind two lines. */
  lemma {:induction false} EmptyLineBehind(s: seq<byte>, a: seq<byte>, b: seq<byte>)
    requires s == a + (CRLF + (b + (CRLF + CRLF))) && CR !in a && CR !in b && b != []
    ensures StrStr(s, CRLF + CRLF) == |a| + 2 + |b| && |s| == |a| + 2 + |b| + 4
  {
    var p, k := CRLF + CRLF, |a| + 2 + |b|;
    assert p == [CR, LF, CR, LF];
    assert s[|a|] == CR && s[|a| + 1] == LF;
    assert forall i :: 0 <= i < |b| ==> s[|a| + 2 + i] == b[i];
    assert s[k] == CR && s[k + 1] == LF && s[k + 2] == CR && s[k + 3] == LF;
    forall j | 0 <= j < k ensures !MatchAt(s, p, j) {
      if j < |a| {
        assert s[j] == a[j];
      } else if j == |a| {
        assert s[j + 2] == b[0];
        assert p[2] == CR;
      } else if j == |a| + 1 {
        assert p[0] == CR;
      } else {
        assert s[j] == b[j - |a| - 2];
        assert p[0] == CR;
      }
    }
    FirstMatch(s, p, k);
  }

  /** Seq: is found where it was written if it does not occur in front of that: it does not overlap itself. */
  lemma {:induction false} SeqBehind(s: seq<byte>, a: seq<byte>, b: seq<byte>)
    requires s == a + (SEQ + b) && StrStr(a, SEQ) < 0
    ensures StrStr(s, SEQ) == |a| && s[|a| + 4..] == b
  {
    StrStrIsFirst(a, SEQ);
    forall j | 0 <= j < |a| ensures !MatchAt(s, SEQ, j) {
      if j + 4 <= |a| {
        MatchInFront(s, a, j);
      } else {
        var k := |a| - j;
        assert s[j + k] == SEQ[0];
        assert SEQ[k] != SEQ[0];
      }
    }
    assert forall i :: 0 <= i < 4 ==> s[|a| + i] == SEQ[i];
    FirstMatch(s, SEQ, |a|);
  }

  /** Whether Seq: stands at a position is decided by the four characters there. */
  lemma {:induction false} MatchInFront(s: seq<byte>, a: seq<byte>, j: nat)
    requires a <= s && j + 4 <= |a|
    ensures MatchAt(s, SEQ, j) <==> MatchAt(a, SEQ, j)
  {
  }

  /** A line break behind it does not make Seq: occur. */
  lemma {:induction false} NoSeqBeforeBreak(line: seq<byte>)
    requires StrStr(line, SEQ) < 0
    ensures StrStr(line + CRLF, SEQ) < 0
  {
    StrStrIsFirst(line, SEQ);
    StrStrIsFirst(line + CRLF, SEQ);
    var s := line + CRLF;
    forall j: nat ensures !MatchAt(s, SEQ, j) {
      if j + 4 <= |line| {
        MatchInFront(s, line, j);
      } else if j + 4 <= |s| {
        assert s[j + 3] == CR || s[j + 3] == LF;
        assert SEQ[3] == COLON;
      }
    }
  }

  // ---- what the scanner accepts ---------------------------------------------------------------

  /** The parts of a query, joined by & */
  function Joined(ts: seq<seq<byte>>): seq<byte> {
    if ts == [] then []
    else if |ts| == 1 then ts[0]
    else ts[0] + ([AMPERSAND] + Joined(ts[1..]))
  }

  /** A part of a query stays on its line. */
  predicate IsPart(t: seq<byte>) { AMPERSAND !in t && CR !in t && LF !in t }

  predicate AreParts(ts: seq<seq<byte>>) { forall i :: 0 <= i < |ts| ==> IsPart(ts[i]) }

  /** name=value with a name and without another equals sign. */
  predicate IsPair(t: seq<byte>) {
    var n := Find(t, EQUALS);
    0 < n < |t| && EQUALS !in t[n + 1..]
  }

  predicate ArePairs(ts: seq<seq<byte>>) { ts == [] || (IsPair(ts[0]) && ArePairs(ts[1..])) }

  /** The parts behind the first one with an equals sign. */
  function Behind(ts: seq<seq<byte>>): seq<seq<byte>> {
    if ts == [] then [] else if EQUALS in ts[0] then ts[1..] else Behind(ts[1..])
  }

  /** Characters that are neither &, = nor the end of the line leave the pairing alone. */
  lemma {:induction false} PairScanRun(a: seq<byte>, t: seq<byte>, prev: byte, paired: bool)
    requires forall i :: 0 <= i < |a| ==> a[i] != LF && a[i] != AMPERSAND && a[i] != EQUALS
    ensures PairScan(a + t, prev, paired) == PairScan(t, if a == [] then prev else a[|a| - 1], paired)
    decreases |a|
  {
    if a == [] {
      assert a + t == t;
    } else {
      assert (a + t)[1..] == a[1..] + t;
      PairScanRun(a[1..], t, a[0], paired);
    }
  }

  /** Behind a pair it does not matter what stood in front. */
  lemma {:induction false} PairedIsEnough(t: seq<byte>, prev: byte)
    ensures PairScan(t, prev, true) == PairScan(t, 0, true)
  {
  }

  /** The rest of a part, behind its equals sign: another one is refused. */
  lemma {:induction false} ValueScans(b: seq<byte>, u: seq<byte>)
    requires IsPart(b)
    ensures PairScan(b + u, EQUALS, true) <==> EQUALS !in b && PairScan(u, 0, true)
  {
    FindIsFirst(b, EQUALS);
    var n := Find(b, EQUALS);
    if n == |b| {
      assert b[..n] == b;
      PairScanRun(b, u, EQUALS, true);
      PairedIsEnough(u, if b == [] then EQUALS else b[|b| - 1]);
    } else {
      var rest := b[n + 1..] + u;
      assert b[n] in b && b + u == b[..n] + ([EQUALS] + rest);
      PairScanRun(b[..n], [EQUALS] + rest, EQUALS, true);
    }
  }

  /** What follows a part: it is accepted behind a pair only. */
  ghost predicate Closes(u: seq<byte>) { forall c: byte :: !PairScan(u, c, false) }

  lemma {:induction false} PartScans(t: seq<byte>, u: seq<byte>, prev: byte)
    requires IsPart(t) && Closes(u)
    ensures PairScan([AMPERSAND] + (t + u), prev, true) <==> IsPair(t) && PairScan(u, 0, true)
  {
    FindIsFirst(t, EQUALS);
    var n := Find(t, EQUALS);
    assert ([AMPERSAND] + (t + u))[1..] == t + u;
    if n == |t| {
      assert t[..n] == t;
      PairScanRun(t, u, AMPERSAND, false);
    } else {
      var b := t[n + 1..];
      var rest := [EQUALS] + (b + u);
      assert t + u == t[..n] + rest && rest[1..] == b + u;
      PairScanRun(t[..n], rest, AMPERSAND, false);
      ValueScans(b, u);
    }
  }

  /** Parts behind an & are accepted exactly if they are pairs. */
  lemma {:induction false} PartsScan(ts: seq<seq<byte>>, u: seq<byte>, prev: byte)
    requires ts != [] && AreParts(ts) && Closes(u) && PairScan(u, 0, true)
    ensures PairScan([AMPERSAND] + (Joined(ts) + u), prev, true) <==> ArePairs(ts)
    decreases |ts|
  {
    if |ts| == 1 {
      PartScans(ts[0], u, prev);
    } else {
      var rest := [AMPERSAND] + (Joined(ts[1..]) + u);
      Associative(ts[0], [AMPERSAND] + Joined(ts[1..]), u);
      Associative([AMPERSAND], Joined(ts[1..]), u);
      PartScans(ts[0], rest, prev);
      PartsScan(ts[1..], u, 0);
    }
  }

  /** HTTP/ and two digits with a point. */
  predicate IsVersion(v: seq<byte>) {
    |v| == 8 && v[..5] == [72, 84, 84, 80, 47] && IsDigit(v[5]) && v[6] == 46 && IsDigit(v[7])
  }

  lemma {:induction false} VersionChars(v: seq<byte>, c: byte)
    requires IsVersion(v) && (c == AMPERSAND || c == EQUALS || c == QUESTION || c == BLANK || c == CR || c == LF)
    ensures c !in v
  {
    assert forall i :: 0 <= i < 5 ==> v[i] == v[..5][i];
  }

  /** The end of the first line. */
  function Ending(v: seq<byte>, t: seq<byte>): seq<byte> { [BLANK] + (v + (CRLF + t)) }

  lemma {:induction false} EndingScans(v: seq<byte>, t: seq<byte>)
    requires IsVersion(v)
    ensures Closes(Ending(v, t)) && PairScan(Ending(v, t), 0, true)
  {
    var a := [BLANK] + (v + [CR]);
    VersionChars(v, AMPERSAND);
    VersionChars(v, EQUALS);
    VersionChars(v, LF);
    assert Ending(v, t) == a + ([LF] + t);
    forall c: byte ensures !PairScan(Ending(v, t), c, false) {
      PairScanRun(a, [LF] + t, c, false);
    }
    PairScanRun(a, [LF] + t, 0, true);
  }

  /** A query is: something without = and &, an equals sign, something without &, and more parts. */
  lemma {:induction false} FirstEquals(ts: seq<seq<byte>>) returns (x: seq<byte>, y: seq<byte>)
    requires AreParts(ts) && EQUALS in Joined(ts)
    ensures EQUALS !in x && CR !in x && IsPart(y) && AreParts(Behind(ts))
    ensures Joined(ts) == x + ([EQUALS] + (y + if Behind(ts) == [] then [] else [AMPERSAND] + Joined(Behind(ts))))
    decreases |ts|
  {
    var rest := if |ts| == 1 then [] else [AMPERSAND] + Joined(ts[1..]);
    assert Joined(ts) == ts[0] + rest;
    if EQUALS in ts[0] {
      FindIsFirst(ts[0], EQUALS);
      var n := Find(ts[0], EQUALS);
      FindInside(ts[0], EQUALS);
      x, y := ts[0][..n], ts[0][n + 1..];
      assert ts[0] == x + ([EQUALS] + y);
      Associative(x, [EQUALS] + y, rest);
      Associative([EQUALS], y, rest);
    } else {
      x, y := FirstEquals(ts[1..]);
      var more := y + if Behind(ts[1..]) == [] then [] else [AMPERSAND] + Joined(Behind(ts[1..]));
      x := ts[0] + ([AMPERSAND] + x);
      assert Joined(ts) == x + ([EQUALS] + more);
    }
  }

  lemma {:induction false} FindInside(s: seq<byte>, c: byte)
    requires c in s
    ensures Find(s, c) < |s|
  {
    FindIsFirst(s, c);
    assert s[..|s|] == s;
  }

  lemma {:induction false} FindFurther(a: seq<byte>, s: seq<byte>, c: byte)
    requires c !in a
    ensures Find(a + s, c) == |a| + Find(s, c) && (a + s)[|a| + Find(s, c)..] == s[Find(s, c)..]
    decreases |a|
  {
    if a == [] {
      assert a + s == s;
    } else {
      assert (a + s)[1..] == a[1..] + s;
      FindFurther(a[1..], s, c);
    }
  }

  lemma {:induction false} PairsFurther(a: seq<byte>, s: seq<byte>)
    requires AMPERSAND !in a
    ensures PairsScan(a + s) <==> PairsScan(s)
  {
    FindFurther(a, s, AMPERSAND);
  }

  lemma {:induction false} HeadersFollow(s3: seq<byte>, a: seq<byte>, t: seq<byte>)
    requires s3 == a + (CRLF + t) && CR !in a
    ensures HeadersScan(s3) <==> HeaderScan(t)
  {
    CrlfBehind(s3, a, t);
  }

  /** Nothing behind the first pair: the next & is looked for behind the first line. */
  lemma {:induction false} LastValue(y: seq<byte>, v: seq<byte>, t: seq<byte>)
    requires IsPart(y) && IsVersion(v)
    ensures var s3 := y + Ending(v, t); (PairsScan(s3) <==> PairsScan(t)) && (HeadersScan(s3) <==> HeaderScan(t))
  {
    var a := y + ([BLANK] + v);
    VersionChars(v, AMPERSAND);
    VersionChars(v, CR);
    assert y + Ending(v, t) == a + (CRLF + t) && y + Ending(v, t) == (a + CRLF) + t;
    PairsFurther(a + CRLF, t);
    HeadersFollow(y + Ending(v, t), a, t);
  }

  lemma {:induction false} MoreValues(y: seq<byte>, ts: seq<seq<byte>>, v: seq<byte>, t: seq<byte>)
    requires IsPart(y) && IsVersion(v) && ts != [] && AreParts(ts)
    ensures var s3 := y + ([AMPERSAND] + (Joined(ts) + Ending(v, t)));
            (PairsScan(s3) <==> ArePairs(ts)) && (HeadersScan(s3) <==> HeaderScan(t))
  {
    var rest := Joined(ts) + Ending(v, t);
    EndingScans(v, t);
    PartsScan(ts, Ending(v, t), 0);
    PairsFrom(y, rest);
    JoinedChars(ts, CR);
    VersionChars(v, CR);
    LineGoesOn(y, Joined(ts), v, t);
    HeadersFollow(y + ([AMPERSAND] + rest), y + ([AMPERSAND] + (Joined(ts) + ([BLANK] + v))), t);
  }

  lemma {:induction false} PairsFrom(y: seq<byte>, rest: seq<byte>)
    requires AMPERSAND !in y
    ensures PairsScan(y + ([AMPERSAND] + rest)) <==> PairScan([AMPERSAND] + rest, 0, true)
  {
    FindBehind(y, AMPERSAND, rest);
    assert (y + ([AMPERSAND] + rest))[|y|..] == [AMPERSAND] + rest;
  }

  lemma {:induction false} LineGoesOn(y: seq<byte>, query: seq<byte>, v: seq<byte>, t: seq<byte>)
    ensures y + ([AMPERSAND] + (query + Ending(v, t))) == y + ([AMPERSAND] + (query + ([BLANK] + v))) + (CRLF + t)
  {
    Associative([BLANK], v, CRLF + t);
    Associative(query, [BLANK] + v, CRLF + t);
    Associative([AMPERSAND], query + ([BLANK] + v), CRLF + t);
    Associative(y, [AMPERSAND] + (query + ([BLANK] + v)), CRLF + t);
  }

  lemma {:induction false} JoinedChars(ts: seq<seq<byte>>, c: byte)
    requires c != AMPERSAND && forall i :: 0 <= i < |ts| ==> c !in ts[i]
    ensures c !in Joined(ts)
    decreases |ts|
  {
    if ts != [] {
      JoinedChars(ts[1..], c);
    }
  }

  /** What is accepted behind the question mark: a first equals sign with something in front, then pairs only, and
      header lines. If no & follows in the query, the next one in the message is taken for one of the query. */
  predicate GoodQuery(ts: seq<seq<byte>>, t: seq<byte>) {
    && Joined(ts) != [] && Joined(ts)[0] != EQUALS
    && ArePairs(Behind(ts)) && (Behind(ts) == [] ==> PairsScan(t)) && HeaderScan(t)
  }

  lemma {:induction false} QueryExactly(ts: seq<seq<byte>>, v: seq<byte>, t: seq<byte>)
    requires AreParts(ts) && EQUALS in Joined(ts) && IsVersion(v)
    ensures QueryScan(Joined(ts) + Ending(v, t)) <==> GoodQuery(ts, t)
  {
    var x, y := FirstEquals(ts);
    var more := if Behind(ts) == [] then [] else [AMPERSAND] + Joined(Behind(ts));
    QueryIs(Joined(ts), x, y + more, Ending(v, t));
    Associative(y, more, Ending(v, t));
    if Behind(ts) == [] {
      assert more + Ending(v, t) == Ending(v, t);
      LastValue(y, v, t);
    } else {
      Associative([AMPERSAND], Joined(Behind(ts)), Ending(v, t));
      MoreValues(y, Behind(ts), v, t);
    }
  }

  lemma {:induction false} QueryIs(query: seq<byte>, x: seq<byte>, rest: seq<byte>, end: seq<byte>)
    requires query == x + ([EQUALS] + rest) && EQUALS !in x
    ensures QueryScan(query + end) <==> query[0] != EQUALS && PairsScan(rest + end) && HeadersScan(rest + end)
  {
    Associative(x, [EQUALS] + rest, end);
    Associative([EQUALS], rest, end);
    FindBehind(x, EQUALS, rest + end);
    assert x != [] ==> x[0] in x && query[0] == x[0];
  }

  /** Without any equals sign the query is refused. */
  lemma {:induction false} NoQuery(s2: seq<byte>)
    requires EQUALS !in s2
    ensures !QueryScan(s2)
  {
    FindNone(s2, EQUALS);
  }

  /** The first line of a GET request, and what follows. */
  function GetText(cmd: seq<byte>, query: seq<byte>, v: seq<byte>, t: seq<byte>): seq<byte> {
    GET_SLASH + (cmd + ([QUESTION] + (query + Ending(v, t))))
  }

  lemma {:induction false} FirstLineEnds(s: seq<byte>, cmd: seq<byte>, query: seq<byte>, v: seq<byte>, t: seq<byte>)
    requires s == GetText(cmd, query, v, t) && CR !in cmd && CR !in query && IsVersion(v)
    ensures LineScan(s) && s[5..] == cmd + ([QUESTION] + (query + Ending(v, t)))
  {
    var a := cmd + ([QUESTION] + (query + ([BLANK] + v)));
    VersionChars(v, CR);
    assert s[..5] == GET_SLASH && s[5..] == a + (CRLF + t);
    CrlfBehind(s[5..], a, t);
    assert s[5 + |a| - 8..5 + |a|] == v;
    VersionIsThere(s, 5 + |a|, v);
  }

  lemma {:induction false} VersionIsThere(s: seq<byte>, end: nat, v: seq<byte>)
    requires 8 <= end <= |s| && s[end - 8..end] == v && IsVersion(v)
    ensures VersionAt(s, end)
  {
    HttpSlash();
    SliceParts(s, end, v);
  }

  lemma {:induction false} HttpSlash()
    ensures HTTP_1_0[..5] == [72, 84, 84, 80, 47] && HTTP_1_0[6] == 46
  {
  }

  lemma {:induction false} SliceParts(s: seq<byte>, end: nat, v: seq<byte>)
    requires 8 <= end <= |s| && s[end - 8..end] == v
    ensures s[end - 8..end - 3] == v[..5] && s[end - 2] == v[6]
  {
    var w := s[end - 8..end];
    assert w[..5] == s[end - 8..end - 3] && w[6] == s[end - 2];
  }

  /** The scanner accepts a GET request, of any version and with anything behind its first line, exactly if it has a
      command, its query and the header lines are accepted, and it is shorter than 128 KiB. */
  lemma {:induction false} GetExactly(cmd: seq<byte>, ts: seq<seq<byte>>, v: seq<byte>, t: seq<byte>)
    requires CR !in cmd && QUESTION !in cmd && AreParts(ts) && IsVersion(v)
    ensures var s := GetText(cmd, Joined(ts), v, t);
            && (EQUALS in Joined(ts) ==> (ScanGet(s) <==> cmd != [] && GoodQuery(ts, t) && |s| < 131072))
            && (EQUALS !in Joined(ts) + t ==> !ScanGet(s))
  {
    JoinedChars(ts, CR);
    FirstLineEnds(GetText(cmd, Joined(ts), v, t), cmd, Joined(ts), v, t);
    TargetIs(GetText(cmd, Joined(ts), v, t), cmd, Joined(ts) + Ending(v, t));
    if EQUALS in Joined(ts) {
      QueryExactly(ts, v, t);
    } else if EQUALS !in t {
      VersionChars(v, EQUALS);
      NoQuery(Joined(ts) + Ending(v, t));
    }
  }

  lemma {:induction false} TargetIs(s: seq<byte>, cmd: seq<byte>, s2: seq<byte>)
    requires LineScan(s) && s[5..] == cmd + ([QUESTION] + s2) && QUESTION !in cmd
    ensures ScanGet(s) <==> |s| < 131072 && cmd != [] && QueryScan(s2)
  {
    ScanIsTarget(s);
    TargetScans(s[5..], cmd, s2);
  }

  lemma {:induction false} ScanIsTarget(s: seq<byte>)
    requires LineScan(s)
    ensures ScanGet(s) <==> |s| < 131072 && TargetScan(s[5..])
  {
    assert s[0] == s[..5][0];
  }

  lemma {:induction false} TargetScans(s1: seq<byte>, cmd: seq<byte>, s2: seq<byte>)
    requires s1 == cmd + ([QUESTION] + s2) && QUESTION !in cmd
    ensures TargetScan(s1) <==> cmd != [] && QueryScan(s2)
  {
    FindBehind(cmd, QUESTION, s2);
  }

  // ---- the scanner accepts what the printer writes --------------------------------------------

  function Pairs(ps: seq<Param>): (ts: seq<seq<byte>>)
    ensures |ts| == |ps|
  {
    if ps == [] then [] else [Pair(ps[0])] + Pairs(ps[1..])
  }

  lemma {:induction false} PlainHas(s: seq<byte>, c: byte)
    requires Plain(s) && !PlainChar(c)
    ensures c !in s
  {
  }

  lemma {:induction false} PlainPair(p: Param)
    requires p.name != [] && Plain(p.name) && Plain(p.value)
    ensures IsPart(Pair(p)) && IsPair(Pair(p)) && EQUALS in Pair(p)
  {
    PlainHas(p.name, EQUALS);
    FindBehind(p.name, EQUALS, p.value);
    PlainHas(p.value, EQUALS);
    PlainHas(p.name, AMPERSAND);
    PlainHas(p.value, AMPERSAND);
    PlainHas(p.name, CR);
    PlainHas(p.value, CR);
    PlainHas(p.name, LF);
    PlainHas(p.value, LF);
  }

  lemma {:induction false} PlainPairs(ps: seq<Param>)
    requires PlainParams(ps)
    ensures AreParts(Pairs(ps)) && ArePairs(Pairs(ps)) && Join(ps) == Joined(Pairs(ps))
    ensures ps != [] ==> EQUALS in Join(ps) && Join(ps)[0] != EQUALS && Behind(Pairs(ps)) == Pairs(ps[1..])
    decreases |ps|
  {
    if ps != [] {
      PlainPair(ps[0]);
      PlainPairs(ps[1..]);
      PlainHas(ps[0].name, EQUALS);
      assert Join(ps)[0] == ps[0].name[0] && ps[0].name[0] in ps[0].name;
      assert Pairs(ps)[1..] == Pairs(ps[1..]);
    }
  }

  lemma {:induction false} SeqLineChars(seqNo: uint32)
    ensures CR !in SeqLine(seqNo) && LF !in SeqLine(seqNo) && |SeqLine(seqNo)| > 4 && COLON in SeqLine(seqNo)
  {
  }

  lemma {:induction false} HeaderScans(seqNo: uint32)
    ensures HeaderScan(After(seqNo))
  {
    SeqLineChars(seqNo);
    CrlfBehind(After(seqNo), SeqLine(seqNo), CRLF);
    assert CRLF == [] + (CRLF + []);
    CrlfBehind(CRLF, [], []);
    assert After(seqNo)[..|SeqLine(seqNo)|] == SeqLine(seqNo);
  }

  /** The lines behind the first one. */
  function After(seqNo: uint32): seq<byte> { SeqLine(seqNo) + (CRLF + CRLF) }

  lemma {:induction false} AfterChars(seqNo: uint32)
    ensures EQUALS !in After(seqNo) && AMPERSAND !in After(seqNo)
  {
  }

  lemma {:induction false} Shape(cmd: seq<byte>, params: seq<byte>, seqNo: uint32)
    ensures MakeGet(cmd, params, seqNo) == GetText(cmd, params, HTTP_1_0, After(seqNo)) && IsVersion(HTTP_1_0)
  {
    var rest := CRLF + After(seqNo);
    Associative([QUESTION], params + ([BLANK] + HTTP_1_0), rest);
    Associative(params, [BLANK] + HTTP_1_0, rest);
    Associative([BLANK], HTTP_1_0, rest);
  }

  lemma {:induction false} CommandChars(cmd: seq<byte>)
    requires IsCommand(cmd)
    ensures QUESTION !in cmd && CR !in cmd && LF !in cmd && BLANK !in cmd
  {
  }

  /** The characters of the query part. */
  lemma {:induction false} JoinChars(ps: seq<Param>, c: byte)
    requires PlainParams(ps) && !PlainChar(c) && c != AMPERSAND && c != EQUALS
    ensures c !in Join(ps)
    decreases |ps|
  {
    if ps != [] {
      PlainHas(ps[0].name, c);
      PlainHas(ps[0].value, c);
      JoinChars(ps[1..], c);
    }
  }

  /** The scanner accepts what the printer writes exactly if there is a command and at least one pair, and the
      message is not too long. */
  lemma {:induction false} ScanAccepts(cmd: seq<byte>, ps: seq<Param>, seqNo: uint32)
    requires IsCommand(cmd) && PlainParams(ps)
    ensures ScanGet(MakeGet(cmd, Join(ps), seqNo))
            <==> cmd != [] && ps != [] && |MakeGet(cmd, Join(ps), seqNo)| < MAX_HTTP_PACKAGE_LEN
  {
    var t := After(seqNo);
    Shape(cmd, Join(ps), seqNo);
    CommandChars(cmd);
    PlainPairs(ps);
    GetExactly(cmd, Pairs(ps), HTTP_1_0, t);
    HeaderScans(seqNo);
    AfterChars(seqNo);
    FindNone(t, AMPERSAND);
    if ps != [] {
      PlainPairs(ps[1..]);
    }
  }

  // ---- the parser takes it apart --------------------------------------------------------------

  lemma {:induction false} DigitsSurvive(s: seq<byte>)
    requires forall i :: 0 <= i < |s| ==> s[i] == 45 || IsDigit(s[i])
    ensures Gaps(s) == s && CStr(s) == s
  {
    if s != [] {
      DigitsSurvive(s[1..]);
      assert s == [s[0]] + s[1..];
    }
  }

  /** The number is found and read. */
  lemma {:induction false} SeqIsRead(head: seq<byte>, a: seq<byte>, seqNo: uint32, b: seq<byte>)
    requires head == a + (SEQ + (Signed(AsInt(seqNo)) + ([CR] + b))) && StrStr(a, SEQ) < 0
    ensures SeqOf(head) == AsInt(seqNo)
  {
    var d := Signed(AsInt(seqNo));
    SeqBehind(head, a, d + ([CR] + b));
    SignedChars(AsInt(seqNo));
    FindBehind(d, CR, b);
    DigitsSurvive(d);
    AtoiOfSigned(AsInt(seqNo));
  }

  lemma {:induction false} WithoutCrIs(s: seq<byte>)
    requires CR !in s
    ensures WithoutCr(s + [CR]) == s
  {
    if s == [] {
      assert s + [CR] == [CR] && [CR][1..] == [];
    } else {
      assert (s + [CR])[1..] == s[1..] + [CR];
      WithoutCrIs(s[1..]);
      assert s == [s[0]] + s[1..];
    }
  }

  lemma {:induction false} FirstLineIs(head: seq<byte>, a: seq<byte>, b: seq<byte>)
    requires head == a + (CRLF + b) && CR !in a && LF !in a
    ensures FirstLine(head) == a
  {
    assert head == (a + [CR]) + ([LF] + b);
    FindBehind(a + [CR], LF, b);
    WithoutCrIs(a);
  }

  lemma {:induction false} UrlIs(line: seq<byte>, cmd: seq<byte>, params: seq<byte>)
    requires line == GET_SLASH + (cmd + ([QUESTION] + (params + ([BLANK] + HTTP_1_0))))
    requires BLANK !in cmd && BLANK !in params
    ensures Url(line) == [SLASH] + (cmd + ([QUESTION] + params))
    ensures Method(line) == GET_SLASH[..3]
  {
    var url := [SLASH] + (cmd + ([QUESTION] + params));
    assert line == GET_SLASH[..4] + ([SLASH] + (cmd + ([QUESTION] + (params + ([BLANK] + HTTP_1_0)))));
    FindBehind(GET_SLASH[..4], SLASH, cmd + ([QUESTION] + (params + ([BLANK] + HTTP_1_0))));
    assert line[4..] == url + ([BLANK] + HTTP_1_0);
    FindBehind(url, BLANK, HTTP_1_0);
    assert line == GET_SLASH[..3] + ([BLANK] + line[4..]);
    FindBehind(GET_SLASH[..3], BLANK, line[4..]);
    assert line[0] == GET_SLASH[0];
  }

  lemma {:induction false} UrlParts(url: seq<byte>, cmd: seq<byte>, params: seq<byte>)
    requires url == [SLASH] + (cmd + ([QUESTION] + params)) && QUESTION !in cmd
    ensures Find(url, QUESTION) == 1 + |cmd| < |url|
    ensures url[1..1 + |cmd|] == cmd && url[|cmd| + 2..] == params
  {
    var a := [SLASH] + cmd;
    assert url == a + ([QUESTION] + params);
    FindBehind(a, QUESTION, params);
  }

  lemma {:induction false} TokenIsPair(p: Param)
    requires p.name != [] && Plain(p.name) && Plain(p.value)
    ensures ParamOf(Pair(p)) == p && Pair(p) != [] && AMPERSAND !in Pair(p)
  {
    PlainHas(p.name, EQUALS);
    PlainHas(p.name, AMPERSAND);
    PlainHas(p.value, AMPERSAND);
    FindBehind(p.name, EQUALS, p.value);
  }

  lemma {:induction false} TokensStep(a: seq<byte>, s: seq<byte>)
    requires a != [] && AMPERSAND !in a
    ensures Tokens(a + ([AMPERSAND] + s), AMPERSAND) == [a] + Tokens([AMPERSAND] + s, AMPERSAND)
    ensures Tokens([AMPERSAND] + s, AMPERSAND) == Tokens(s, AMPERSAND)
    ensures Tokens(a, AMPERSAND) == [a]
  {
    FindBehind(a, AMPERSAND, s);
    assert (a + ([AMPERSAND] + s))[|a|..] == [AMPERSAND] + s;
    FindNone(a, AMPERSAND);
    assert a[..|a|] == a && a[|a|..] == [] && [a] + [] == [a];
    assert a[0] in a && (a + ([AMPERSAND] + s))[0] == a[0];
    assert ([AMPERSAND] + s)[1..] == s;
  }

  /** The pairs are found again. */
  lemma {:induction false} PairsAreRead(ps: seq<Param>)
    requires PlainParams(ps)
    ensures ParamsOf(Tokens(Join(ps), AMPERSAND)) == ps
    ensures forall t <- Tokens(Join(ps), AMPERSAND) :: EQUALS in t
    decreases |ps|
  {
    if ps != [] {
      TokenIsPair(ps[0]);
      PairsAreRead(ps[1..]);
      TokensStep(Pair(ps[0]), Join(ps[1..]));
      assert ps == [ps[0]] + ps[1..];
      if |ps| > 1 {
        assert Tokens(Join(ps), AMPERSAND) == [Pair(ps[0])] + Tokens(Join(ps[1..]), AMPERSAND);
      } else {
        assert ps[1..] == [];
      }
    }
  }

  /** The lines of the message. */
  lemma {:induction false} MessageLines(cmd: seq<byte>, params: seq<byte>, seqNo: uint32) returns (line: seq<byte>)
    ensures line == GET_SLASH + (cmd + ([QUESTION] + (params + ([BLANK] + HTTP_1_0))))
    ensures MakeGet(cmd, params, seqNo) == line + (CRLF + (SeqLine(seqNo) + (CRLF + CRLF)))
    ensures MakeGet(cmd, params, seqNo) == (line + CRLF) + (SEQ + (Signed(AsInt(seqNo)) + ([CR] + ([LF] + CRLF))))
  {
    line := GET_SLASH + (cmd + Query(params));
    var t := SeqLine(seqNo) + (CRLF + CRLF);
    Associative(cmd, Query(params), CRLF + t);
    Associative(GET_SLASH, cmd + Query(params), CRLF + t);
    Associative(line, CRLF, t);
    Associative(SEQ, Signed(AsInt(seqNo)), CRLF + CRLF);
    assert CRLF + CRLF == [CR] + ([LF] + CRLF);
  }

  lemma {:induction false} LineChars(line: seq<byte>, cmd: seq<byte>, ps: seq<Param>)
    requires line == GET_SLASH + (cmd + ([QUESTION] + (Join(ps) + ([BLANK] + HTTP_1_0))))
    requires IsCommand(cmd) && PlainParams(ps)
    ensures CR !in line && LF !in line
  {
    CommandChars(cmd);
    JoinChars(ps, CR);
    JoinChars(ps, LF);
  }

  /** Parsing a printed GET request gives its number, its command and its pairs in order. */
  lemma {:induction false} GetRoundTrip(cmd: seq<byte>, ps: seq<Param>, seqNo: uint32)
    requires IsCommand(cmd) && PlainParams(ps) && NumberComesFirst(cmd, ps)
    ensures ParseGet(MakeGet(cmd, Join(ps), seqNo)) == Request(REQ_TYPE_GET, AsInt(seqNo), cmd, ps)
  {
    var s := MakeGet(cmd, Join(ps), seqNo);
    var line := MessageLines(cmd, Join(ps), seqNo);
    LineChars(line, cmd, ps);
    WholeHead(cmd, ps, seqNo);
    assert SeqOf(s) == AsInt(seqNo) by {
      NoSeqBeforeBreak(line);
      SeqIsRead(s, line + CRLF, seqNo, [LF] + CRLF);
    }
    assert FirstLine(s) == line by {
      FirstLineIs(s, line, SeqLine(seqNo) + (CRLF + CRLF));
    }
    UrlOfLine(line, cmd, ps);
  }

  /** Seq: in the first line hides the number: what is read does not depend on it. */
  lemma {:induction false} LineHidesNumber(head: seq<byte>, line: seq<byte>, rest: seq<byte>)
    requires head == line + (CRLF + rest) && StrStr(line, SEQ) >= 0 && CR !in line[StrStr(line, SEQ) + 4..]
    ensures SeqOf(head) == Atoi(CStr(Gaps(line[StrStr(line, SEQ) + 4..])))
  {
    var q := StrStr(line, SEQ);
    StrStrIsFirst(line, SEQ);
    forall j | 0 <= j < q ensures !MatchAt(head, SEQ, j) {
      MatchInFront(head, line, j);
    }
    MatchInFront(head, line, q);
    FirstMatch(head, SEQ, q);
    assert head[q + 4..] == line[q + 4..] + ([CR] + ([LF] + rest));
    FindBehind(line[q + 4..], CR, [LF] + rest);
  }

  /** The number is read back, whatever it is, exactly if the first line does not contain Seq: */
  lemma {:induction false} NumberIsReadExactly(cmd: seq<byte>, ps: seq<Param>)
    requires IsCommand(cmd) && PlainParams(ps)
    ensures NumberComesFirst(cmd, ps) <==>
            forall n: uint32 :: ParseGet(MakeGet(cmd, Join(ps), n)).seqNo == AsInt(n)
  {
    if NumberComesFirst(cmd, ps) {
      forall n: uint32 ensures ParseGet(MakeGet(cmd, Join(ps), n)).seqNo == AsInt(n) {
        GetRoundTrip(cmd, ps, n);
      }
    } else {
      SameNumber(cmd, ps, 0, 1);
      assert AsInt(0) != AsInt(1);
    }
  }

  lemma {:induction false} SameNumber(cmd: seq<byte>, ps: seq<Param>, m: uint32, n: uint32)
    requires IsCommand(cmd) && PlainParams(ps) && !NumberComesFirst(cmd, ps)
    ensures ParseGet(MakeGet(cmd, Join(ps), m)).seqNo == ParseGet(MakeGet(cmd, Join(ps), n)).seqNo
  {
    WholeHead(cmd, ps, m);
    WholeHead(cmd, ps, n);
    var line := MessageLines(cmd, Join(ps), m);
    var line' := MessageLines(cmd, Join(ps), n);
    LineChars(line, cmd, ps);
    LineHidesNumber(MakeGet(cmd, Join(ps), m), line, SeqLine(m) + (CRLF + CRLF));
    LineHidesNumber(MakeGet(cmd, Join(ps), n), line, SeqLine(n) + (CRLF + CRLF));
  }

  lemma {:induction false} WholeHead(cmd: seq<byte>, ps: seq<Param>, seqNo: uint32)
    requires IsCommand(cmd) && PlainParams(ps)
    ensures var s := MakeGet(cmd, Join(ps), seqNo); StrStr(s, CRLF + CRLF) >= 0 && Head(s) == s
  {
    var s := MakeGet(cmd, Join(ps), seqNo);
    var line := MessageLines(cmd, Join(ps), seqNo);
    LineChars(line, cmd, ps);
    SeqLineChars(seqNo);
    EmptyLineBehind(s, line, SeqLine(seqNo));
  }

  lemma {:induction false} UrlOfLine(line: seq<byte>, cmd: seq<byte>, ps: seq<Param>)
    requires line == GET_SLASH + (cmd + ([QUESTION] + (Join(ps) + ([BLANK] + HTTP_1_0))))
    requires IsCommand(cmd) && PlainParams(ps)
    ensures var url := Url(line);
            var q := Find(url, QUESTION);
            && 1 <= q < |url| && url[1..q] == cmd && ParamsOf(Tokens(url[q + 1..], AMPERSAND)) == ps
  {
    CommandChars(cmd);
    JoinChars(ps, BLANK);
    UrlIs(line, cmd, Join(ps));
    UrlParts(Url(line), cmd, Join(ps));
    PairsAreRead(ps);
  }

  /** What the printer writes fits the parser's buffers if it fits its own and the command fits its field. */
  lemma {:induction false} PrintedFits(cmd: seq<byte>, ps: seq<Param>, seqNo: uint32)
    requires IsCommand(cmd) && PlainParams(ps) && |cmd| < 32 && |ps| <= MAX_PARAM_NUM && ShortParams(ps)
    requires NumberComesFirst(cmd, ps) && |MakeGet(cmd, Join(ps), seqNo)| < 512
    ensures FitsBuffers(MakeGet(cmd, Join(ps), seqNo))
  {
    var s := MakeGet(cmd, Join(ps), seqNo);
    var line := MessageLines(cmd, Join(ps), seqNo);
    LineChars(line, cmd, ps);
    WholeHead(cmd, ps, seqNo);
    assert FirstLine(s) == line by {
      FirstLineIs(s, line, SeqLine(seqNo) + (CRLF + CRLF));
    }
    NoSeqBeforeBreak(line);
    SeqFits(s, line + CRLF, seqNo, [LF] + CRLF);
    UrlFits(line, cmd, ps);
  }

  lemma {:induction false} UrlFits(line: seq<byte>, cmd: seq<byte>, ps: seq<Param>)
    requires line == GET_SLASH + (cmd + ([QUESTION] + (Join(ps) + ([BLANK] + HTTP_1_0))))
    requires IsCommand(cmd) && PlainParams(ps) && |cmd| < 32 && |ps| <= MAX_PARAM_NUM && ShortParams(ps)
    ensures FitsTarget(Url(line))
  {
    CommandChars(cmd);
    JoinChars(ps, BLANK);
    UrlIs(line, cmd, Join(ps));
    UrlParts(Url(line), cmd, Join(ps));
    PairsAreRead(ps);
  }

  lemma {:induction false} SeqFits(head: seq<byte>, a: seq<byte>, seqNo: uint32, b: seq<byte>)
    requires head == a + (SEQ + (Signed(AsInt(seqNo)) + ([CR] + b))) && StrStr(a, SEQ) < 0
    ensures FitsSeq(head)
  {
    var d := Signed(AsInt(seqNo));
    SeqBehind(head, a, d + ([CR] + b));
    SignedChars(AsInt(seqNo));
    SignedLength(AsInt(seqNo));
    FindBehind(d, CR, b);
  }

  // ---- the method of a message ----------------------------------------------------------------

  /** The blanks and the first characters of a message. */
  lemma {:induction false} BlanksAndStart(s: seq<byte>, v: seq<byte>) returns (p: seq<byte>)
    requires v != [] && v[0] != BLANK && v <= SkipBlanks(s) && CR !in v && LF !in v
    ensures p <= s && SkipBlanks(p) == v && CR !in p && LF !in p
    decreases |s|
  {
    if s[0] == BLANK {
      var q := BlanksAndStart(s[1..], v);
      p := [BLANK] + q;
    } else {
      p := v;
    }
  }

  lemma {:induction false} SkipPrefix(p: seq<byte>, s: seq<byte>)
    requires p <= s && SkipBlanks(p) != []
    ensures SkipBlanks(p) <= SkipBlanks(s)
    decreases |p|
  {
    if p[0] == BLANK {
      SkipPrefix(p[1..], s[1..]);
    }
  }

  lemma {:induction false} WithoutCrPrefix(p: seq<byte>, s: seq<byte>)
    requires p <= s && CR !in p
    ensures p <= WithoutCr(s)
    decreases |p|
  {
    if p != [] {
      assert p[0] in p && s[0] == p[0];
      WithoutCrPrefix(p[1..], s[1..]);
      assert p == [p[0]] + p[1..];
    }
  }

  lemma {:induction false} NoneInFront(s: seq<byte>, p: seq<byte>, c: byte)
    requires p <= s && c !in p
    ensures forall j :: 0 <= j < |p| ==> s[j] != c
  {
  }

  /** A message without CR and LF in its front p keeps p in its first line. */
  lemma {:induction false} FirstLineStarts(s: seq<byte>, p: seq<byte>)
    requires p <= s && CR !in p && LF !in p && StrStr(s, CRLF + CRLF) >= 0
    ensures p <= FirstLine(Head(s))
  {
    var e := StrStr(s, CRLF + CRLF);
    StrStrIsFirst(s, CRLF + CRLF);
    assert s[e] == CR by {
      assert s[e + 0] == (CRLF + CRLF)[0];
    }
    NoneInFront(s, p, CR);
    var head := Head(s);
    FindIsFirst(head, LF);
    var n := Find(head, LF);
    NoneInFront(head, p, LF);
    WithoutCrPrefix(p, head[..n]);
  }

  /** A word and a blank at the start of a message, behind blanks: the word is the method. */
  lemma {:induction false} MethodIs(s: seq<byte>, word: seq<byte>)
    requires word != [] && CR !in word && LF !in word && BLANK !in word
    requires word + [BLANK] <= SkipBlanks(s) && StrStr(s, CRLF + CRLF) >= 0
    ensures Method(FirstLine(Head(s))) == word
  {
    var v := word + [BLANK];
    assert v[0] == word[0] && word[0] in word;
    var p := BlanksAndStart(s, v);
    FirstLineStarts(s, p);
    var line := SkipBlanks(FirstLine(Head(s)));
    SkipPrefix(p, FirstLine(Head(s)));
    assert line == word + ([BLANK] + line[|v|..]);
    FindBehind(word, BLANK, line[|v|..]);
  }

  /** What the scanner accepts is a GET request for the parser. */
  lemma {:induction false} ScannedIsGet(s: seq<byte>)
    requires ScanGet(s) && StrStr(s, CRLF + CRLF) >= 0
    ensures Method(FirstLine(Head(s))) == GET_SLASH[..3]
  {
    var u := SkipBlanks(s);
    assert GET_SLASH[..3] + [BLANK] == u[..5][..4] == u[..4];
    MethodIs(s, GET_SLASH[..3]);
  }
}

/** The loops that scan and read the parts of a message. */
module HttpGet {
  import opened CString
  import opened Text
  import opened HttpGetSpec

  /** The loop over the parameters; t starts at the first &. */
  method ScanPairs(t: seq<byte>) returns (ok: bool)
    requires t != [] && t[0] == AMPERSAND
    ensures ok == PairScan(t, 0, true)
  {
    var i, paired := 0, true;
    while i < |t| && t[i] != LF
      invariant 0 <= i <= |t|
      invariant PairScan(t, 0, true) == PairScan(t[i..], if i == 0 then 0 else t[i - 1], paired)
      decreases |t| - i
    {
      assert t[i..][0] == t[i] && t[i..][1..] == t[i + 1..];
      if t[i] == AMPERSAND {
        if !paired {
          return false;
        }
        paired := false;
      } else if t[i] == EQUALS {
        if paired || t[i - 1] == AMPERSAND {
          return false;
        }
        paired := true;
      }
      i := i + 1;
    }
    ok := i < |t| && paired;
  }

  /** The inner loop over one header line: is there a colon in it? */
  method HasColon(line: seq<byte>) returns (ok: bool)
    ensures ok <==> COLON in line
  {
    var i := 0;
    while i < |line| && line[i] != COLON
      invariant 0 <= i <= |line| && COLON !in line[..i]
    {
      i := i + 1;
    }
    ok := i < |line|;
    assert line[..|line|] == line;
  }

  /** The loop over the header lines. */
  method ScanHeaders(s3: seq<byte>) returns (ok: bool)
    ensures ok == HeadersScan(s3)
  {
    var cur := s3;
    var found := StrStr(cur, CRLF);
    while found >= 0
      invariant found == StrStr(cur, CRLF) && (found >= 0 ==> found + 2 <= |cur|)
      invariant HeadersScan(s3) == if found < 0 then true else HeaderScan(cur[found + 2..])
      decreases |cur|
    {
      cur := cur[found + 2..];
      found := StrStr(cur, CRLF);
      if found <= 0 {
        return true;
      }
      var colon := HasColon(cur[..found]);
      if !colon {
        return false;
      }
    }
    ok := true;
  }

  /** The scan behind the question mark */
  method ScanQuery(s2: seq<byte>) returns (ok: bool)
    ensures ok == QueryScan(s2)
  {
    var n := Find(s2, EQUALS);
    if n == |s2| || n == 0 {
      return false;
    }
    var s3 := s2[n + 1..];
    var a := Find(s3, AMPERSAND);
    FindIsFirst(s3, AMPERSAND);
    if a < |s3| {
      var pairs := ScanPairs(s3[a..]);
      if !pairs {
        return false;
      }
    }
    ok := ScanHeaders(s3);
  }

  /** The loop of st_http_getSeq, over the characters in front of the CR */
  method CopyDigits(t: seq<byte>) returns (digits: seq<byte>)
    ensures digits == Gaps(t[..Find(t, CR)])
  {
    digits := [];
    var i := 0;
    ghost var u := t[..Find(t, CR)];
    FindAfter(t, CR, 0);
    while i < |t| && t[i] != CR
      invariant 0 <= i <= |u| && (i == |u| <==> i == |t| || t[i] == CR)
      invariant Gaps(u) == digits + Gaps(u[i..])
    {
      var d := if t[i] == BLANK || t[i] == TAB then 0 else t[i];
      assert u[i..][0] == t[i] && u[i..][1..] == u[i + 1..];
      Associative(digits, [d], Gaps(u[i + 1..]));
      digits := digits + [d];
      i := i + 1;
      FindAfter(t, CR, i);
    }
    assert u[i..] == [] && digits + [] == digits;
  }

  /** st_http_getSeq */
  method GetSeq(head: seq<byte>) returns (seqNo: int)
    ensures seqNo == SeqOf(head)
  {
    var p := StrStr(head, SEQ);
    if p < 0 {
      return 0;
    }
    var digits := CopyDigits(head[p + 4..]);
    seqNo := Atoi(CStr(digits));
  }

  lemma {:induction false} FindAfter(s: seq<byte>, c: byte, i: nat)
    requires i <= |s| && i <= Find(s, c)
    ensures i == Find(s, c) <==> i == |s| || s[i] == c
  {
    FindIsFirst(s, c);
    if i < Find(s, c) {
      assert s[i] in s[..Find(s, c)];
    }
  }

  /** st_http_getLine */
  method GetLine(head: seq<byte>) returns (line: seq<byte>)
    ensures line == FirstLine(head)
  {
    line := [];
    var i := 0;
    ghost var e := Find(head, LF);
    while i < |head| && head[i] != LF
      invariant 0 <= i <= |head| && i <= e
      invariant WithoutCr(head[..e]) == line + WithoutCr(head[i..e])
    {
      FindAfter(head, LF, i);
      assert head[i..e][0] == head[i] && head[i..e][1..] == head[i + 1..e];
      if head[i] != CR {
        Associative(line, [head[i]], WithoutCr(head[i + 1..e]));
        line := line + [head[i]];
      } else {
        assert [] + WithoutCr(head[i + 1..e]) == WithoutCr(head[i + 1..e]);
      }
      i := i + 1;
    }
    FindAfter(head, LF, i);
    assert head[i..i] == [] && line + [] == line;
  }

  lemma {:induction false} TokensSkip(s: seq<byte>)
    ensures Tokens(SkipChar(s, AMPERSAND), AMPERSAND) == Tokens(s, AMPERSAND)
    ensures SkipChar(SkipChar(s, AMPERSAND), AMPERSAND) == SkipChar(s, AMPERSAND)
  {
  }
}
