/** recvPackage of jni/httpAPI.c: cutting a TCP stream into head + Content-Length messages. */
module StreamFramingSpec {
  import opened CString

  const HEAD_END: seq<byte> := [13, 10, 13, 10]

  /** "Content-Length:" */
  const LENGTH_FLAG: seq<byte> := [67, 111, 110, 116, 101, 110, 116, 45, 76, 101, 110, 103, 116, 104, 58]

  /** The network's choice: how many bytes a call gets when that many are still to come, before the
      caller's own limit is applied. No two calls ever see the same number, so this is any segmentation. */
  type Cuts = nat -> nat

  /** recv of at most n bytes returns at least one and at most all that is there. */
  function RecvLen(pending: seq<byte>, cut: Cuts, n: nat): (k: nat)
    requires pending != [] && n > 0
    ensures 1 <= k <= n && k <= |pending|
  {
    var want := if cut(|pending|) == 0 then 1 else cut(|pending|);
    var most := if n < |pending| then n else |pending|;
    if want < most then want else most
  }

  /** Position behind the head terminator in the C string held by buf, or -1. */
  function HeadLen(buf: seq<byte>): int {
    var p := StrStr(CStr(buf), HEAD_END);
    if p < 0 then -1 else p + 4
  }

  lemma {:induction false} CStrPrefix(s: seq<byte>, n: nat)
    requires n <= |s| && forall k :: 0 <= k < n ==> s[k] != 0
    ensures n <= |CStr(s)| && CStr(s)[..n] == s[..n]
  {
  }

  lemma {:induction false} MatchInPrefix(s: seq<byte>, t: seq<byte>, i: nat)
    requires t <= s
    ensures MatchAt(t, HEAD_END, i) ==> MatchAt(s, HEAD_END, i)
    ensures MatchAt(s, HEAD_END, i) && i + 4 <= |t| ==> MatchAt(t, HEAD_END, i)
  {
  }

  /** What the search sees of a stream with a head of h bytes after b bytes of it. */
  lemma {:induction false} HeadLenOfPrefix(s: seq<byte>, b: nat, h: nat)
    requires HeadLen(s) == h && b <= |s|
    ensures 4 <= h <= |s| && HeadLen(s[..b]) == if b < h then -1 else h
    ensures forall k :: 0 <= k < h ==> s[k] != 0
  {
    var c, x := CStr(s), CStr(s[..b]);
    StrStrIsFirst(c, HEAD_END);
    StrStrIsFirst(x, HEAD_END);
    MatchInPrefix(s, c, h - 4);
    if b >= h {
      CStrPrefix(s[..b], h);
      MatchInPrefix(s, x, h - 4);
      forall j | 0 <= j < h - 4 ensures !MatchAt(x, HEAD_END, j) {
        MatchInPrefix(s, x, j);
        MatchInPrefix(s, c, j);
      }
      FirstMatch(x, HEAD_END, h - 4);
    } else {
      forall j: nat ensures !MatchAt(x, HEAD_END, j) {
        if MatchAt(x, HEAD_END, j) {
          MatchInPrefix(s, x, j);
          MatchInPrefix(s, c, j);
        }
      }
    }
  }

  /** A terminator that was not there before ends in the new bytes. */
  lemma {:induction false} HeadLenGrows(buf: seq<byte>, more: seq<byte>)
    requires HeadLen(buf) < 0
    ensures HeadLen(buf + more) < 0 || |buf| < HeadLen(buf + more) <= |buf + more|
  {
    var h := HeadLen(buf + more);
    if h >= 0 {
      HeadLenOfPrefix(buf + more, |buf|, h);
      assert (buf + more)[..|buf|] == buf;
    }
  }

  /** Return value, bytes in the caller's buffer, bytes still unread. */
  datatype Received = Received(ret: int, data: seq<byte>, rest: seq<byte>)

  function PeekSize(nMax: nat): nat { if nMax < 256 then nMax else 256 }

  /** readHeadFlag: peek, look for the terminator in all bytes so far, and take off the stream what was
      peeked, or only the head once it is complete. With nothing left to read the deadline passes: 0. */
  function ReadHead(pending: seq<byte>, cut: Cuts, buf: seq<byte>, nMax: nat): Received
    requires nMax > 0 && HeadLen(buf) < 0
    decreases |pending|
  {
    if pending == [] then Received(0, buf, pending)
    else
      var k := RecvLen(pending, cut, PeekSize(nMax));
      var all := buf + pending[..k];
      if nMax < |all| then Received(-2, all, pending[k..])
      else
        var h := HeadLen(all);
        if h < 0 then ReadHead(pending[k..], cut, all, nMax)
        else
          HeadLenGrows(buf, pending[..k]);
          Received(h, all, pending[h - |buf|..])
  }

  /** The body length a head announces: 0 without the flag or with a value that is not positive. */
  function BodyLen(head: seq<byte>): nat {
    var p := StrStr(head, LENGTH_FLAG);
    if p < 0 then 0
    else
      var n := Atoi(head[p + |LENGTH_FLAG|..]);
      if n <= 0 then 0 else n
  }

  /** my_readn: all n bytes, however many calls it takes; if the stream dries up first, 0. */
  function ReadN(pending: seq<byte>, n: nat): Received {
    if n <= |pending| then Received(n, pending[..n], pending[n..]) else Received(0, pending, [])
  }

  /** recvPackage once the head is in. */
  function Finish(r: Received, nMax: nat): Received
    requires 0 < r.ret <= |r.data|
  {
    var head := r.data[..r.ret];
    var n := BodyLen(head);
    if n == 0 then Received(r.ret, head, r.rest)
    else if nMax <= r.ret + n then Received(-2, head, r.rest)
    else
      var b := ReadN(r.rest, n);
      Received(if b.ret == n then r.ret + n else b.ret, head + b.data, b.rest)
  }

  /** recvPackage */
  function RecvPackage(pending: seq<byte>, cut: Cuts, nMax: nat): Received
    requires nMax > 0
  {
    var r := ReadHead(pending, cut, [], nMax);
    if r.ret <= 0 then r
    else
      ReadHeadRet(pending, cut, [], nMax);
      Finish(r, nMax)
  }

  /** A positive result of readHeadFlag is a position inside the buffer, and something is consumed. */
  lemma {:induction false} ReadHeadRet(pending: seq<byte>, cut: Cuts, buf: seq<byte>, nMax: nat)
    requires nMax > 0 && HeadLen(buf) < 0
    ensures var r := ReadHead(pending, cut, buf, nMax);
            && (r.ret > 0 ==> r.ret <= |r.data|)
            && (pending != [] ==> |r.rest| < |pending|)
    decreases |pending|
  {
    if pending != [] {
      var k := RecvLen(pending, cut, PeekSize(nMax));
      HeadLenGrows(buf, pending[..k]);
      if HeadLen(buf + pending[..k]) < 0 {
        ReadHeadRet(pending[k..], cut, buf + pending[..k], nMax);
      }
    }
  }

  lemma {:induction false} Progress(pending: seq<byte>, cut: Cuts, nMax: nat)
    requires nMax > 0 && pending != []
    ensures var r := RecvPackage(pending, cut, nMax);
            |r.rest| < |pending| && (r.ret > 0 ==> r.ret == |r.data|)
  {
    ReadHeadRet(pending, cut, [], nMax);
  }

  /** The messages a reader of the whole stream gets. */
  function RecvAll(pending: seq<byte>, cut: Cuts, nMax: nat): seq<seq<byte>>
    requires nMax > 0
    decreases |pending|
  {
    if pending == [] then []
    else
      Progress(pending, cut, nMax);
      var r := RecvPackage(pending, cut, nMax);
      (if r.ret > 0 then [r.data] else []) + RecvAll(r.rest, cut, nMax)
  }

  /** A head, ended by the first empty line and free of NUL, and the body it announces. */
  predicate IsMessage(m: seq<byte>) {
    var h := HeadLen(m);
    h >= 0 && h <= |m| && |m| == h + BodyLen(m[..h])
  }

  /** Room for the head and one more peek, and for the message. */
  predicate Fits(m: seq<byte>, nMax: nat) {
    HeadLen(m) + 256 <= nMax && |m| < nMax
  }

  lemma {:induction false} HeadLenExtends(m: seq<byte>, rest: seq<byte>)
    requires HeadLen(m) >= 0
    ensures HeadLen(m + rest) == HeadLen(m)
  {
    var h, s := HeadLen(m), m + rest;
    StrStrIsFirst(CStr(m), HEAD_END);
    HeadLenOfPrefix(m, |m|, h);
    CStrPrefix(s, h);
    var c := CStr(s);
    MatchInPrefix(s, m, h - 4);
    MatchInPrefix(m, CStr(m), h - 4);
    MatchInPrefix(s, c, h - 4);
    forall j | 0 <= j < h - 4 ensures !MatchAt(c, HEAD_END, j) {
      MatchInPrefix(s, c, j);
      MatchInPrefix(s, m, j);
      MatchInPrefix(m, CStr(m), j);
    }
    FirstMatch(c, HEAD_END, h - 4);
  }

  /** The head of length h is reported, is in the buffer, and what follows it is still unread. */
  predicate HeadRead(r: Received, s: seq<byte>, h: nat)
    requires h <= |s|
  {
    r.ret == h && h <= |r.data| <= |s| && r.data == s[..|r.data|] && r.rest == s[h..]
  }

  /** However the stream is cut, the head is recognised at its end and nothing behind it is consumed. */
  lemma {:induction false} ReadHeadOfMessage(s: seq<byte>, pending: seq<byte>, buf: seq<byte>, cut: Cuts, nMax: nat,
                                             h: nat)
    requires s == buf + pending && HeadLen(s) == h && |buf| < h <= |s| && nMax > 0 && HeadLen(buf) < 0
    requires nMax >= h - 1 + PeekSize(nMax) || nMax >= |s|
    ensures HeadRead(ReadHead(pending, cut, buf, nMax), s, h)
    decreases |pending|
  {
    var k := RecvLen(pending, cut, PeekSize(nMax));
    var all, next := buf + pending[..k], pending[k..];
    PeekedParts(s, buf, pending, k, h);
    HeadLenOfPrefix(s, |all|, h);
    ReadHeadOnce(pending, cut, buf, nMax, all);
    if |all| < h {
      ReadHeadOfMessage(s, next, all, cut, nMax, h);
    }
  }

  lemma {:induction false} PeekedParts(s: seq<byte>, buf: seq<byte>, pending: seq<byte>, k: nat, h: nat)
    requires s == buf + pending && k <= |pending| && |buf| <= h <= |s|
    ensures s == buf + pending[..k] + pending[k..] && buf + pending[..k] == s[..|buf| + k]
    ensures pending[h - |buf|..] == s[h..]
  {
  }

  /** One pass of the loop with room in the buffer. */
  lemma {:induction false} ReadHeadOnce(pending: seq<byte>, cut: Cuts, buf: seq<byte>, nMax: nat, all: seq<byte>)
    requires pending != [] && nMax > 0 && HeadLen(buf) < 0
    requires all == buf + pending[..RecvLen(pending, cut, PeekSize(nMax))]
    requires |all| <= nMax && (HeadLen(all) < 0 || |buf| < HeadLen(all) <= |all|)
    ensures ReadHead(pending, cut, buf, nMax)
         == if HeadLen(all) < 0 then
              ReadHead(pending[RecvLen(pending, cut, PeekSize(nMax))..], cut, all, nMax)
            else Received(HeadLen(all), all, pending[HeadLen(all) - |buf|..])
  {
  }

  /** The buffer slack that decides: room for a peek that starts in front of the last byte of the head. */
  predicate Slack(m: seq<byte>, rest: seq<byte>, nMax: nat) {
    nMax >= HeadLen(m) - 1 + (if nMax < 256 then nMax else 256) || nMax >= |m + rest|
  }

  lemma {:induction false} BodyOfMessage(m: seq<byte>, rest: seq<byte>, r: Received, nMax: nat)
    requires IsMessage(m) && |m| < nMax && r.ret == HeadLen(m) > 0
    requires r.ret <= |r.data| && r.data[..r.ret] == m[..r.ret] && r.rest == (m + rest)[r.ret..]
    ensures Finish(r, nMax) == Received(|m|, m, rest)
  {
  }

  /** One call returns exactly the first message and consumes exactly its bytes, however it is cut. */
  lemma {:induction false} RecvPackageExact(m: seq<byte>, rest: seq<byte>, cut: Cuts, nMax: nat)
    requires IsMessage(m) && |m| < nMax && Slack(m, rest, nMax)
    ensures RecvPackage(m + rest, cut, nMax) == Received(|m|, m, rest)
  {
    var s, h := m + rest, HeadLen(m);
    HeadLenExtends(m, rest);
    HeadLenOfPrefix(s, 0, h);
    assert [] + s == s;
    ReadHeadOfMessage(s, s, [], cut, nMax, h);
    var r := ReadHead(s, cut, [], nMax);
    assert r.data[..h] == m[..h];
    BodyOfMessage(m, rest, r, nMax);
  }

  function Concat(ms: seq<seq<byte>>): seq<byte> {
    if ms == [] then [] else ms[0] + Concat(ms[1..])
  }

  /** Framing does not depend on segmentation: the messages come out one by one, unchanged. */
  lemma {:induction false} StreamFraming(ms: seq<seq<byte>>, cut: Cuts, nMax: nat)
    requires forall i :: 0 <= i < |ms| ==> IsMessage(ms[i]) && Fits(ms[i], nMax)
    requires nMax > 0
    ensures RecvAll(Concat(ms), cut, nMax) == ms
    decreases |ms|
  {
    if ms != [] {
      var m, rest := ms[0], Concat(ms[1..]);
      HeadLenOfPrefix(m, 0, HeadLen(m));
      RecvPackageExact(m, rest, cut, nMax);
      StreamFraming(ms[1..], cut, nMax);
    }
  }

  /** One byte at a time up to the last byte of the head, then as much as asked for. */
  function Unlucky(total: nat, h: nat): Cuts {
    (left: nat) => if total - left + 1 < h then 1 else 256
  }

  lemma {:induction false} UnluckyOverruns(s: seq<byte>, b: nat, nMax: nat, h: nat)
    requires HeadLen(s) == h && b < h && b <= nMax && HeadLen(s[..b]) < 0
    requires 0 < nMax < h - 1 + PeekSize(nMax) && nMax < |s|
    ensures ReadHead(s[b..], Unlucky(|s|, h), s[..b], nMax).ret == -2
    decreases h - b
  {
    var pending := s[b..];
    var k := RecvLen(pending, Unlucky(|s|, h), PeekSize(nMax));
    assert s[..b] + pending[..k] == s[..b + k];
    assert pending[k..] == s[b + k..];
    if b + 1 < h && b < nMax {
      assert k == 1;
      HeadLenOfPrefix(s, b + 1, h);
      UnluckyOverruns(s, b + 1, nMax, h);
    }
  }

  /** With slack, a message with a body that does not fit: its head is taken, and nothing is delivered. */
  lemma {:induction false} TooLong(m: seq<byte>, rest: seq<byte>, cut: Cuts, nMax: nat)
    requires IsMessage(m) && nMax > 0 && nMax <= |m| && HeadLen(m) < |m| && Slack(m, rest, nMax)
    ensures RecvPackage(m + rest, cut, nMax) == Received(-2, m[..HeadLen(m)], (m + rest)[HeadLen(m)..])
  {
    var s, h := m + rest, HeadLen(m);
    HeadLenExtends(m, rest);
    HeadLenOfPrefix(s, 0, h);
    assert [] + s == s;
    ReadHeadOfMessage(s, s, [], cut, nMax, h);
    assert ReadHead(s, cut, [], nMax).data[..h] == m[..h];
  }

  /** With slack, a message without a body is its head. */
  lemma {:induction false} HeadOnly(m: seq<byte>, rest: seq<byte>, cut: Cuts, nMax: nat)
    requires IsMessage(m) && nMax > 0 && HeadLen(m) == |m| && Slack(m, rest, nMax)
    ensures RecvPackage(m + rest, cut, nMax) == Received(|m|, m, rest)
  {
    var s, h := m + rest, HeadLen(m);
    HeadLenExtends(m, rest);
    HeadLenOfPrefix(s, 0, h);
    assert [] + s == s;
    ReadHeadOfMessage(s, s, [], cut, nMax, h);
    assert ReadHead(s, cut, [], nMax).data[..h] == m[..h] && m[..h] == m;
  }

  lemma {:induction false} NoSlack(m: seq<byte>, rest: seq<byte>, nMax: nat)
    requires IsMessage(m) && nMax > 0 && !Slack(m, rest, nMax)
    ensures RecvPackage(m + rest, Unlucky(|m + rest|, HeadLen(m)), nMax).ret == -2
  {
    var s, h := m + rest, HeadLen(m);
    HeadLenExtends(m, rest);
    HeadLenOfPrefix(s, 0, h);
    UnluckyOverruns(s, 0, nMax, h);
    assert s[0..] == s && s[..0] == [];
  }

  /** A message is received under every segmentation exactly if there is that slack and, unless the message has no body,
      the buffer is longer than it: with less, some segmentation loses it. */
  lemma {:induction false} SlackIsNecessary(m: seq<byte>, rest: seq<byte>, nMax: nat)
    requires IsMessage(m) && nMax > 0
    ensures Slack(m, rest, nMax) && (|m| < nMax || HeadLen(m) == |m|) <==>
            forall cut: Cuts :: RecvPackage(m + rest, cut, nMax).ret == |m|
  {
    if !Slack(m, rest, nMax) {
      NoSlack(m, rest, nMax);
    } else if HeadLen(m) == |m| {
      forall cut: Cuts ensures RecvPackage(m + rest, cut, nMax).ret == |m| {
        HeadOnly(m, rest, cut, nMax);
      }
    } else if |m| < nMax {
      forall cut: Cuts ensures RecvPackage(m + rest, cut, nMax).ret == |m| {
        RecvPackageExact(m, rest, cut, nMax);
      }
    } else {
      TooLong(m, rest, Unlucky(0, 0), nMax);
    }
  }

  // ---- a stream that breaks off ---------------------------------------------------------------

  /** No part of s from its start holds a whole head. */
  ghost predicate Headless(s: seq<byte>) { forall k: nat :: k <= |s| ==> HeadLen(s[..k]) < 0 }

  lemma {:induction false} NotYet(s: seq<byte>, buf: seq<byte>, pending: seq<byte>, k: nat)
    requires s == buf + pending && k <= |pending| && Headless(s)
    ensures HeadLen(buf + pending[..k]) < 0 && s == buf + pending[..k] + pending[k..]
  {
    assert s[..|buf| + k] == buf + pending[..k];
  }

  /** A head that does not come to its end: everything is read, and nothing is reported. */
  lemma {:induction false} ReadHeadInVain(s: seq<byte>, pending: seq<byte>, buf: seq<byte>, cut: Cuts, nMax: nat)
    requires s == buf + pending && |s| <= nMax && nMax > 0 && Headless(s) && HeadLen(buf) < 0
    ensures ReadHead(pending, cut, buf, nMax) == Received(0, s, [])
    decreases |pending|
  {
    if pending == [] {
      assert s == buf;
    } else {
      var k := RecvLen(pending, cut, PeekSize(nMax));
      var all := buf + pending[..k];
      NotYet(s, buf, pending, k);
      ReadHeadOnce(pending, cut, buf, nMax, all);
      ReadHeadInVain(s, pending[k..], all, cut, nMax);
    }
  }

  /** A proper part of a message from its start gives nothing, and leaves nothing. */
  lemma {:induction false} BrokenOff(m: seq<byte>, n: nat, cut: Cuts, nMax: nat)
    requires IsMessage(m) && Fits(m, nMax) && n < |m|
    ensures var r := RecvPackage(m[..n], cut, nMax); r.ret == 0 && r.rest == []
  {
    var s, h := m[..n], HeadLen(m);
    HeadLenOfPrefix(m, 0, h);
    assert [] + s == s && m[..0] == [];
    if n < h {
      NoHeadYet(m, n);
      ReadHeadInVain(s, s, [], cut, nMax);
    } else {
      HeadLenOfPrefix(m, n, h);
      ReadHeadOfMessage(s, s, [], cut, nMax, h);
      BodyMissing(m, s, ReadHead(s, cut, [], nMax), nMax);
    }
  }

  lemma {:induction false} NoHeadYet(m: seq<byte>, n: nat)
    requires IsMessage(m) && n < HeadLen(m)
    ensures Headless(m[..n])
  {
    forall k: nat | k <= n ensures HeadLen(m[..n][..k]) < 0 {
      HeadLenOfPrefix(m, k, HeadLen(m));
      assert m[..n][..k] == m[..k];
    }
  }

  lemma {:induction false} BodyMissing(m: seq<byte>, s: seq<byte>, r: Received, nMax: nat)
    requires IsMessage(m) && |m| < nMax && 0 < HeadLen(m) <= |s| < |m| && s == m[..|s|]
    requires HeadRead(r, s, HeadLen(m))
    ensures Finish(r, nMax).ret == 0 && Finish(r, nMax).rest == []
  {
    assert r.data[..HeadLen(m)] == m[..HeadLen(m)];
  }

  /** A stream that ends inside a message gives the messages in front of it, and nothing of that one. */
  lemma {:induction false} StreamBreaksOff(ms: seq<seq<byte>>, m: seq<byte>, n: nat, cut: Cuts, nMax: nat)
    requires forall i :: 0 <= i < |ms| ==> IsMessage(ms[i]) && Fits(ms[i], nMax)
    requires IsMessage(m) && Fits(m, nMax) && n < |m|
    ensures RecvAll(Concat(ms) + m[..n], cut, nMax) == ms
    decreases |ms|
  {
    if ms == [] {
      BrokenOff(m, n, cut, nMax);
      assert [] + m[..n] == m[..n];
    } else {
      var rest := Concat(ms[1..]) + m[..n];
      HeadLenOfPrefix(ms[0], 0, HeadLen(ms[0]));
      Associative(ms[0], Concat(ms[1..]), m[..n]);
      RecvPackageExact(ms[0], rest, cut, nMax);
      StreamBreaksOff(ms[1..], m, n, cut, nMax);
    }
  }
}
