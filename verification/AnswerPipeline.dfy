/** From the server's answers to the waiter: the byte stream is framed, the messages are parsed, the replies go into the
    mailbox, and whoever waits for one gets it. */
module AnswerPipeline {
  import opened CString
  import opened Text
  import opened HttpGetSpec
  import opened HttpMessageSpec
  import opened StreamFramingSpec
  import M = MailboxSpec

  /** What the server answers with: a status, header lines, of which three carry the command, the number and the length
      of the body, and the body. */
  datatype Answer = Answer(text: seq<byte>, headers: seq<seq<byte>>, cmd: seq<byte>, xml: seq<byte>, seqNo: uint32)

  function LinesIn(a: Answer): seq<seq<byte>> { LinesOf(a.text, a.headers) }

  function Print(a: Answer): seq<byte> { Written(LinesIn(a), a.xml) }

  function PrintAll(ans: seq<Answer>): seq<seq<byte>> { if ans == [] then [] else [Print(ans[0])] + PrintAll(ans[1..]) }

  /** A C string, in whose header lines the three names first occur where they are meant to. */
  ghost predicate Printable(a: Answer) {
    && InLine(a.text) && AreHeaders(a.headers) && InLine(a.cmd)
    && (forall l <- LinesIn(a) :: 0 !in l) && 0 !in a.xml
    && FirstWith(LinesIn(a), COMMAND, CommandLine(a.cmd))
    && FirstWith(LinesIn(a), SEQ, SeqLine(a.seqNo))
    && FirstWith(LinesIn(a), LENGTH, LengthLine(|a.xml|))
  }

  // ---- a printed answer is a message ----------------------------------------------------------

  /** A C string: it holds no NUL. */
  lemma {:induction false} AnswerIsCString(a: Answer)
    requires Printable(a)
    ensures 0 !in Print(a) && CStr(Print(a)) == Print(a)
  {
    NotInLines(LinesIn(a), 0);
    Associative(Lines(LinesIn(a)), CRLF, a.xml);
    CStrWhole(Print(a));
  }

  lemma {:induction false} CStrWhole(s: seq<byte>)
    requires 0 !in s
    ensures CStr(s) == s
  {
    CStrPrefix(s, |s|);
  }

  lemma {:induction false} LengthBehind(head: seq<byte>, a: seq<byte>, ws: seq<byte>, n: int, rest: seq<byte>)
    requires forall i :: 0 <= i < |ws| ==> ws[i] == 32 || 9 <= ws[i] <= 13
    requires StrStr(a, LENGTH) < 0 && head == a + ((LENGTH + (ws + Signed(n))) + (CRLF + rest))
    ensures BodyLen(head) == if n < 0 then 0 else n
  {
    Associative(LENGTH, ws + Signed(n), CRLF + rest);
    Associative(ws, Signed(n), CRLF + rest);
    FoundBehind(head, a, LENGTH, ws + (Signed(n) + (CRLF + rest)));
    AtoiReads(ws, n, CRLF + rest);
    assert LENGTH == LENGTH_FLAG;
  }

  /** The length is read from the first line in which its name occurs; white space may stand in front of it, and a
      negative length counts as none. */
  lemma {:induction false} LengthIsRead(ls: seq<seq<byte>>, ws: seq<byte>, n: int, tail: seq<byte>)
    requires forall i :: 0 <= i < |ws| ==> ws[i] == 32 || 9 <= ws[i] <= 13
    requires FirstWith(ls, LENGTH, LENGTH + (ws + Signed(n)))
    ensures BodyLen(Lines(ls) + tail) == if n < 0 then 0 else n
  {
    var i :| 0 <= i < |ls| && ls[i] == LENGTH + (ws + Signed(n)) && NoneContains(ls[..i], LENGTH);
    LineAmong(ls, i, tail);
    NoneInLines(ls[..i], LENGTH);
    LengthBehind(Lines(ls) + tail, Lines(ls[..i]), ws, n, Lines(ls[i + 1..]) + tail);
  }

  lemma {:induction false} LinesAreLines(a: Answer)
    requires InLine(a.text) && AreHeaders(a.headers)
    ensures AreLines(LinesIn(a)) && AreLines(a.headers)
  {
    StatusLineIsLine(49, 49, a.text);
  }

  /** The framer takes a printed answer for one message. */
  lemma {:induction false} AnswerIsMessage(a: Answer)
    requires Printable(a)
    ensures IsMessage(Print(a)) && HeadLen(Print(a)) == |Head(Print(a))|
  {
    LinesAreLines(a);
    HeadAndBody(LinesIn(a), a.xml);
    AnswerIsCString(a);
    assert HEAD_END == CRLF + CRLF;
    assert [] + Signed(|a.xml|) == Signed(|a.xml|);
    LengthIsRead(LinesIn(a), [], |a.xml|, CRLF);
    Associative(Lines(LinesIn(a)), CRLF, a.xml);
  }

  // ---- what the receiving thread does with the messages ---------------------------------------

  /** PACK_ELEMENT: the message and the time it came in. */
  function ReplyOf(m: Message, time: int): M.Reply { M.Reply(m.kind, m.cmd, m.seqNo, m.xml, time) }

  /** clientlinkProcessRecvData, as far as answers go: what the scanner accepts and the parser takes for an answer is
      put into the mailbox. clock[i] is the time at which message i is dealt with. */
  function RepliesFrom(ms: seq<seq<byte>>, clock: seq<int>): seq<M.Reply>
    requires |clock| >= |ms|
  {
    if ms == [] then []
    else
      (if Scan(ms[0]) && Parse(ms[0]).kind == RESP_TYPE then [ReplyOf(Parse(ms[0]), clock[0])] else [])
      + RepliesFrom(ms[1..], clock[1..])
  }

  /** The reply that carries an answer. */
  function Carrying(a: Answer, time: int): M.Reply { M.Reply(M.RESP_TYPE, a.cmd, AsInt(a.seqNo), a.xml, time) }

  function AllCarrying(ans: seq<Answer>, clock: seq<int>): (rs: seq<M.Reply>)
    requires |clock| >= |ans|
    ensures |rs| == |ans| && forall i :: 0 <= i < |ans| ==> rs[i] == Carrying(ans[i], clock[i])
  {
    if ans == [] then [] else [Carrying(ans[0], clock[0])] + AllCarrying(ans[1..], clock[1..])
  }

  /** An answer that fits the receive buffer and the parser's limits. */
  ghost predicate Transmittable(a: Answer, nMax: nat) {
    var s := Print(a);
    && Printable(a) && |Head(s)| + 256 <= nMax && |s| < nMax
    && |s| < MAX_HTTP_PACKAGE_LEN && |a.cmd| < 32 && |Head(s)| < 1024
  }

  ghost predicate AllTransmittable(ans: seq<Answer>, nMax: nat) {
    forall i :: 0 <= i < |ans| ==> Transmittable(ans[i], nMax)
  }

  /** The only colon of the line is the one behind Command, so neither name occurs in it. */
  lemma {:induction false} NoNames(cmd: seq<byte>)
    requires COLON !in cmd
    ensures StrStr(CommandLine(cmd), SEQ) < 0 && StrStr(CommandLine(cmd), LENGTH) < 0
  {
    var s := CommandLine(cmd);
    StrStrIsFirst(s, SEQ);
    StrStrIsFirst(s, LENGTH);
    OnlyColon(cmd);
    forall j: nat ensures !MatchAt(s, SEQ, j) && !MatchAt(s, LENGTH, j) {
      if j == 4 {
        MismatchAt(s, SEQ, j, 0);
      } else if j + 3 < |s| {
        MismatchAt(s, SEQ, j, 3);
      }
      if j + 14 < |s| {
        MismatchAt(s, LENGTH, j, 14);
      }
    }
  }

  lemma {:induction false} OnlyColon(cmd: seq<byte>)
    requires COLON !in cmd
    ensures var s := CommandLine(cmd); |s| > 7 && s[4] != SEQ[0] && forall j :: 0 <= j < |s| && j != 7 ==> s[j] != COLON
  {
    var s := CommandLine(cmd);
    forall j | 0 <= j < |s| && j != 7 ensures s[j] != COLON {
      if j > 7 {
        assert s[j] == cmd[j - 8];
      }
    }
  }

  /** What this program's own printer writes. */
  function Own(cmd: seq<byte>, xml: seq<byte>, seqNo: uint32): Answer {
    Answer(OK_LINE[9..], AnswerLines(cmd, |xml|, seqNo)[1..], cmd, xml, seqNo)
  }

  lemma {:induction false} PartsHaveNo(n: nat, seqNo: uint32)
    ensures 0 !in OK_LINE && 0 !in COMMAND && 0 !in TYPE_XML && 0 !in LengthLine(n) && 0 !in SeqLine(seqNo)
    ensures LENGTH[8] !in OK_LINE && LENGTH[8] !in TYPE_XML
  {
    LengthLineHasNo(n, 0);
    SeqLineIsLine(seqNo);
    TypeLinesAreLines();
    TypeHasNoL();
  }

  lemma {:induction false} TypeHasNoL()
    ensures LENGTH[8] !in TYPE && LENGTH[8] !in XML && LENGTH[8] !in CHARSET
  {
  }

  lemma {:induction false} FourthIsFirst5(a: seq<byte>, b: seq<byte>, c: seq<byte>, d: seq<byte>, e: seq<byte>,
                                          p: seq<byte>)
    requires StrStr(a, p) < 0 && StrStr(b, p) < 0 && StrStr(c, p) < 0
    ensures FirstWith([a, b, c, d, e], p, d)
  {
    assert [a, b, c, d, e][..3] == [a, b, c];
    assert NoneContains([a, b, c, d, e][..3], p) && [a, b, c, d, e][3] == d;
  }

  lemma {:induction false} FiveHaveNo(a: seq<byte>, b: seq<byte>, c: seq<byte>, d: seq<byte>, e: seq<byte>)
    requires 0 !in a && 0 !in b && 0 !in c && 0 !in d && 0 !in e
    ensures forall l <- [a, b, c, d, e] :: 0 !in l
  {
  }

  /** A command without a colon keeps the names where they are meant to be. */
  lemma {:induction false} OwnIsPrintable(cmd: seq<byte>, xml: seq<byte>, seqNo: uint32)
    requires InLine(cmd) && 0 !in cmd && 0 !in xml && COLON !in cmd
    ensures Printable(Own(cmd, xml, seqNo)) && Print(Own(cmd, xml, seqNo)) == MakeAnswer(cmd, xml, seqNo)
  {
    var n := |xml|;
    NoNames(cmd);
    PrintedLines(cmd, n, seqNo);
    PrintedNumber(cmd, n, seqNo);
    AnswerLinesAre(cmd, n, seqNo);
    PartsHaveNo(n, seqNo);
    NoChar(OK_LINE, LENGTH, 8);
    NoChar(TYPE_XML, LENGTH, 8);
    FourthIsFirst5(OK_LINE, CommandLine(cmd), TYPE_XML, LengthLine(n), SeqLine(seqNo), LENGTH);
    FiveHaveNo(OK_LINE, CommandLine(cmd), TYPE_XML, LengthLine(n), SeqLine(seqNo));
  }

  lemma {:induction false} LinesLength(first: seq<byte>, ls: seq<seq<byte>>)
    ensures |Lines([first] + ls)| == |first| + 2 + |Lines(ls)|
  {
    assert ([first] + ls)[1..] == ls;
  }

  lemma {:induction false} FiveLength(a: seq<byte>, b: seq<byte>, c: seq<byte>, d: seq<byte>, e: seq<byte>)
    ensures |Lines([a, b, c, d, e])| == |a| + |b| + |c| + |d| + |e| + 10
  {
    LinesAppend([a, b, c], [d, e]);
    assert [a, b, c] + [d, e] == [a, b, c, d, e];
    LinesLength(e, []);
    LinesLength(d, [e]);
    LinesLength(c, []);
    LinesLength(b, [c]);
    LinesLength(a, [b, c]);
    assert [e] + [] == [e] && [d] + [e] == [d, e];
    assert [c] + [] == [c] && [b] + [c] == [b, c] && [a] + [b, c] == [a, b, c];
  }

  lemma {:induction false} OwnHeadLength(cmd: seq<byte>, xml: seq<byte>, seqNo: uint32)
    requires InLine(cmd) && |xml| < 0x8000_0000
    ensures |Head(MakeAnswer(cmd, xml, seqNo))| <= |cmd| + 111 && |MakeAnswer(cmd, xml, seqNo)| <= |cmd| + |xml| + 111
  {
    var n := |xml|;
    SignedLength(n);
    SignedLength(AsInt(seqNo));
    AnswerLinesAre(cmd, n, seqNo);
    HeadAndBody(AnswerLines(cmd, n, seqNo), xml);
    FiveLength(OK_LINE, CommandLine(cmd), TYPE_XML, LengthLine(n), SeqLine(seqNo));
  }

  /** Every answer this program prints with a command of less than 32 characters that has no colon and a body that is
      not too long. */
  lemma {:induction false} PlainIsTransmittable(cmd: seq<byte>, xml: seq<byte>, seqNo: uint32, nMax: nat)
    requires InLine(cmd) && 0 !in cmd && 0 !in xml && COLON !in cmd && |cmd| < 32
    requires |xml| + 160 <= MAX_HTTP_PACKAGE_LEN && |xml| + 160 <= nMax && 512 <= nMax
    ensures Transmittable(Own(cmd, xml, seqNo), nMax)
  {
    OwnIsPrintable(cmd, xml, seqNo);
    OwnHeadLength(cmd, xml, seqNo);
  }

  lemma {:induction false} PrintAllAt(ans: seq<Answer>)
    ensures |PrintAll(ans)| == |ans| && forall i :: 0 <= i < |ans| ==> PrintAll(ans)[i] == Print(ans[i])
  {
    if ans != [] {
      PrintAllAt(ans[1..]);
    }
  }

  lemma {:induction false} AnswersAreParsed(ans: seq<Answer>, nMax: nat, clock: seq<int>)
    requires AllTransmittable(ans, nMax) && |clock| >= |ans|
    ensures |PrintAll(ans)| == |ans| && RepliesFrom(PrintAll(ans), clock) == AllCarrying(ans, clock)
    ensures forall m <- PrintAll(ans) :: HttpMessageSpec.Fits(m)
    decreases |ans|
  {
    if ans != [] {
      var a := ans[0];
      LinesAreLines(a);
      AnswerScannedExactly(49, 49, a.text, a.headers, a.xml);
      AnswerIsRead(a.text, a.headers, a.cmd, a.seqNo, a.xml);
      AnswersAreParsed(ans[1..], nMax, clock[1..]);
    }
  }

  /** Whatever pieces the stream comes in, the mailbox is given every answer once, in order, with its command, number
      and body, and no message is too large for the parser's buffers. */
  lemma {:induction false} AnswersArrive(ans: seq<Answer>, cut: Cuts, nMax: nat, clock: seq<int>)
    requires nMax > 0 && AllTransmittable(ans, nMax) && |clock| >= |ans|
    ensures var received := RecvAll(Concat(PrintAll(ans)), cut, nMax);
            && |received| == |ans| && RepliesFrom(received, clock) == AllCarrying(ans, clock)
            && forall m <- received :: HttpMessageSpec.Fits(m)
  {
    var ms := PrintAll(ans);
    PrintAllAt(ans);
    forall i | 0 <= i < |ms| ensures IsMessage(ms[i]) && StreamFramingSpec.Fits(ms[i], nMax) {
      AnswerIsMessage(ans[i]);
    }
    StreamFraming(ms, cut, nMax);
    AnswersAreParsed(ans, nMax, clock);
  }

  // ---- the waiter -----------------------------------------------------------------------------

  predicate NoneAnswers(rs: seq<M.Reply>, cmd: seq<byte>, n: int) { forall r <- rs :: !M.Answers(r, cmd, n) }

  /** r is the only one of these replies that answers. */
  predicate OnlyAnswer(rs: seq<M.Reply>, r: M.Reply, cmd: seq<byte>, n: int) {
    forall x <- rs :: M.Answers(x, cmd, n) ==> x == r
  }

  lemma {:induction false} AddAllHas(q: seq<M.Reply>, rs: seq<M.Reply>, r: M.Reply)
    ensures r in M.AddAll(q, rs) <==> r in q || r in rs
    decreases |rs|
  {
    if rs != [] {
      AddAllHas([rs[0]] + q, rs[1..], r);
      assert rs == [rs[0]] + rs[1..];
    }
  }

  /** The replies that come in between the looks, one batch in front of each look. */
  function Flat(arrivals: seq<seq<M.Reply>>): seq<M.Reply> {
    if arrivals == [] then [] else arrivals[0] + Flat(arrivals[1..])
  }

  /** A look at a list in which only r answers. */
  lemma {:induction false} LookFinds(q: seq<M.Reply>, r: M.Reply, cmd: seq<byte>, n: int)
    requires cmd != [] && OnlyAnswer(q, r, cmd, n) && M.Answers(r, cmd, n)
    ensures M.Find(q, cmd, n) == if r in q then M.Delivered(r) else M.Nothing
  {
    var i := M.Scan(q, cmd, n);
    if i < |q| {
      assert q[i] in q;
    }
  }

  /** A waiter gets the one reply that answers, whatever else comes in before and after it. */
  lemma {:induction false} WaiterGetsReply(q: seq<M.Reply>, arrivals: seq<seq<M.Reply>>, r: M.Reply, cmd: seq<byte>,
                                           n: int)
    requires cmd != [] && M.Answers(r, cmd, n) && r in Flat(arrivals)
    requires NoneAnswers(q, cmd, n) && OnlyAnswer(Flat(arrivals), r, cmd, n)
    ensures M.Poll(q, cmd, n, arrivals).look == M.Delivered(r)
    decreases |arrivals|
  {
    var q1, rest := M.AddAll(q, arrivals[0]), Flat(arrivals[1..]);
    forall x | x in q1 && M.Answers(x, cmd, n) ensures x == r {
      AddAllHas(q, arrivals[0], x);
    }
    LookFinds(q1, r, cmd, n);
    AddAllHas(q, arrivals[0], r);
    if r !in q1 {
      WaiterGetsReply(q1, arrivals[1..], r, cmd, n);
    }
  }

  lemma {:induction false} OnlyOneCarries(ans: seq<Answer>, clock: seq<int>, k: nat)
    requires |clock| >= |ans| && k < |ans|
    requires forall j :: 0 <= j < |ans| && ans[j].cmd == ans[k].cmd && ans[j].seqNo == ans[k].seqNo ==> j == k
    ensures var r, rs := Carrying(ans[k], clock[k]), AllCarrying(ans, clock);
            r in rs && M.Answers(r, r.cmd, r.seqNo) && OnlyAnswer(rs, r, r.cmd, r.seqNo)
  {
    var r, rs := Carrying(ans[k], clock[k]), AllCarrying(ans, clock);
    assert rs[k] == r;
    forall x | x in rs && M.Answers(x, r.cmd, r.seqNo) ensures x == r {
      var j :| 0 <= j < |rs| && rs[j] == x;
    }
  }

  /** From the server to the waiter: answers to requests with different numbers or commands, whatever their status and
      their other header lines, sent one after the other, cut into any pieces by the network and put into the mailbox
      between any looks of a waiter. Who waits for one of them, and finds no older reply that would do, gets
      its body. */
  lemma {:induction false} WaiterGetsAnswer(ans: seq<Answer>, cut: Cuts, nMax: nat, received: seq<seq<byte>>,
                                            clock: seq<int>, q: seq<M.Reply>, arrivals: seq<seq<M.Reply>>, k: nat)
    requires nMax > 0 && AllTransmittable(ans, nMax) && received == RecvAll(Concat(PrintAll(ans)), cut, nMax)
    requires |clock| >= |ans| && |clock| >= |received| && Flat(arrivals) == RepliesFrom(received, clock)
    requires k < |ans| && ans[k].cmd != [] && NoneAnswers(q, ans[k].cmd, AsInt(ans[k].seqNo))
    requires forall j :: 0 <= j < |ans| && ans[j].cmd == ans[k].cmd && ans[j].seqNo == ans[k].seqNo ==> j == k
    ensures M.Poll(q, ans[k].cmd, AsInt(ans[k].seqNo), arrivals).look == M.Delivered(Carrying(ans[k], clock[k]))
  {
    AnswersArrive(ans, cut, nMax, clock);
    OnlyOneCarries(ans, clock, k);
    WaiterGetsReply(q, arrivals, Carrying(ans[k], clock[k]), ans[k].cmd, AsInt(ans[k].seqNo));
  }
}
