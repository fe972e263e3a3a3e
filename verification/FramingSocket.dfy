/** The framer's loops over a socket and a caller's buffer. */
module FramingSocket {
  import opened CString
  import opened StreamFramingSpec

  /** The receiving end of a TCP connection; cut is the network's choice of how much each call gets. */
  class Socket {
    var pending: seq<byte>
    const cut: Cuts

    constructor (pending: seq<byte>, cut: Cuts)
      ensures this.pending == pending && this.cut == cut
    {
      this.pending, this.cut := pending, cut;
    }

    /** recv(fd, buf + off, n, MSG_PEEK): what is received has to fit */
    method Peek(buf: array<byte>, off: nat, n: nat) returns (k: nat)
      requires pending != [] && n > 0 && off + RecvLen(pending, cut, n) <= buf.Length
      modifies buf
      ensures k == RecvLen(pending, cut, n)
      ensures buf[..off + k] == old(buf[..off]) + pending[..k]
    {
      k := RecvLen(pending, cut, n);
      forall i | 0 <= i < k {
        buf[off + i] := pending[i];
      }
      assert buf[..off + k] == old(buf[..off]) + pending[..k];
    }

    /** recv of n bytes that were peeked before */
    method Discard(n: nat)
      requires n <= |pending|
      modifies this
      ensures pending == old(pending)[n..]
    {
      pending := pending[n..];
    }

    /** recv(fd, buf + off, n, 0) */
    method Recv(buf: array<byte>, off: nat, n: nat) returns (k: nat)
      requires pending != [] && n > 0 && off + n <= buf.Length
      modifies this, buf
      ensures k == RecvLen(old(pending), cut, n)
      ensures buf[..off + k] == old(buf[..off]) + old(pending)[..k]
      ensures pending == old(pending)[k..]
    {
      k := Peek(buf, off, n);
      Discard(k);
    }
  }

  /** A peek never writes behind a buffer of this size: it has room for a whole peek beyond nMax; or all that is to
      come fits; or the next head leaves room for a peek, as the head of a message that `Fits` does. */
  predicate Room(pending: seq<byte>, nMax: nat, size: nat) {
    nMax < size
    && (nMax + 256 < size || |pending| <= nMax
        || (HeadLen(pending) >= 0 && HeadLen(pending) - 1 + PeekSize(nMax) <= nMax))
  }

  lemma {:induction false} PeekHasRoom(start: seq<byte>, seen: seq<byte>, rest: seq<byte>, k: nat, nMax: nat, size: nat)
    requires start == seen + rest && Room(start, nMax, size) && HeadLen(seen) < 0 && |seen| <= nMax
    requires k <= PeekSize(nMax) && k <= |rest|
    ensures |seen| + k < size
  {
    if nMax + 256 >= size && |start| > nMax {
      HeadLenOfPrefix(start, |seen|, HeadLen(start));
      assert start[..|seen|] == seen;
    }
  }

  /** One peek of readHeadFlag behind the nRecvAll bytes seen so far, and the NUL behind it. */
  method PeekNext(fd: Socket, buf: array<byte>, nRecvAll: nat, nMax: nat, ghost start: seq<byte>, ghost seen: seq<byte>)
    returns (nRecv: nat)
    requires fd.pending != [] && 0 < nMax && nRecvAll <= nMax && Room(start, nMax, buf.Length)
    requires seen == buf[..nRecvAll] && start == seen + fd.pending && HeadLen(seen) < 0
    modifies buf
    ensures nRecv == RecvLen(fd.pending, fd.cut, PeekSize(nMax)) && nRecvAll + nRecv < buf.Length
    ensures buf[..nRecvAll] == seen && buf[..nRecvAll + nRecv] == seen + fd.pending[..nRecv]
  {
    var nRecvOnce := 256;
    if nMax < 256 {
      nRecvOnce := nMax;
    }
    PeekHasRoom(start, seen, fd.pending, RecvLen(fd.pending, fd.cut, nRecvOnce), nMax, buf.Length);
    nRecv := fd.Peek(buf, nRecvAll, nRecvOnce);
    ghost var now := seen + fd.pending[..nRecv];
    assert buf[..nRecvAll + nRecv] == now;
    if nRecvAll + nRecv <= nMax {
      buf[nRecvAll + nRecv] := 0;
    }
    assert buf[..nRecvAll + nRecv] == now;
    assert buf[..nRecvAll] == now[..nRecvAll];
  }

  /** What is left of readHeadFlag when some bytes have been seen. */
  ghost predicate Reading(r: Received, cut: Cuts, seen: seq<byte>, pending: seq<byte>, start: seq<byte>, nMax: nat)
    requires 0 < nMax
  {
    |seen| <= nMax && start == seen + pending && HeadLen(seen) < 0 && r == ReadHead(pending, cut, seen, nMax)
  }

  /** The rest of a turn of readHeadFlag: too much for the buffer, a head, or no head yet. */
  method TakePeeked(fd: Socket, buf: array<byte>, nRecvLastAll: nat, nRecv: nat, nMax: nat, ghost r: Received,
                    ghost start: seq<byte>)
    returns (ret: int, nRecvAll: nat, done: bool)
    requires fd.pending != [] && 0 < nMax && nRecvLastAll + nRecv < buf.Length
    requires nRecv == RecvLen(fd.pending, fd.cut, PeekSize(nMax))
    requires Reading(r, fd.cut, buf[..nRecvLastAll], fd.pending, start, nMax)
    requires buf[..nRecvLastAll + nRecv] == buf[..nRecvLastAll] + fd.pending[..nRecv]
    modifies fd
    ensures nRecvAll == nRecvLastAll + nRecv
    ensures done ==> Received(ret, buf[..nRecvAll], fd.pending) == r
    ensures !done ==> ret == 0 && |fd.pending| < old(|fd.pending|)
                      && Reading(r, fd.cut, buf[..nRecvAll], fd.pending, start, nMax)
  {
    ghost var before, pending, seen := buf[..nRecvLastAll], fd.pending, buf[..nRecvLastAll + nRecv];
    ret, nRecvAll, done := 0, nRecvLastAll + nRecv, false;
    if nMax < nRecvAll {
      fd.Discard(nRecv);
      return -2, nRecvAll, true;
    }
    assert buf[..nRecvAll] == seen;
    HeadLenGrows(before, pending[..nRecv]);
    ReadHeadOnce(pending, fd.cut, before, nMax, seen);
    var pStr := StrStr(CStr(buf[..nRecvAll]), HEAD_END);
    if pStr < 0 {
      PeekedOn(start, before, pending, nRecv);
      fd.Discard(nRecv);
      assert Reading(r, fd.cut, seen, fd.pending, start, nMax);
    } else {
      var nHeadLen := pStr + 4;
      fd.Discard(nHeadLen - nRecvLastAll);
      ret, done := nHeadLen, true;
    }
  }

  /** readHeadFlag */
  method ReadHeadFlag(fd: Socket, buf: array<byte>, nMax: nat) returns (ret: int, nRecvAll: nat)
    requires 0 < nMax && Room(fd.pending, nMax, buf.Length)
    modifies fd, buf
    ensures nRecvAll < buf.Length
    ensures Received(ret, buf[..nRecvAll], fd.pending) == ReadHead(old(fd.pending), fd.cut, [], nMax)
  {
    ghost var start, r := fd.pending, ReadHead(fd.pending, fd.cut, [], nMax);
    assert start == [] + start && buf[..0] == [];
    ret, nRecvAll := 0, 0;
    while fd.pending != []
      invariant nRecvAll < buf.Length && ret == 0
      invariant Reading(r, fd.cut, buf[..nRecvAll], fd.pending, start, nMax)
      decreases |fd.pending|
    {
      var nRecv := PeekNext(fd, buf, nRecvAll, nMax, start, buf[..nRecvAll]);
      var done;
      ret, nRecvAll, done := TakePeeked(fd, buf, nRecvAll, nRecv, nMax, r, start);
      if done {
        return;
      }
    }
  }

  lemma {:induction false} PeekedOn(start: seq<byte>, seen: seq<byte>, rest: seq<byte>, k: nat)
    requires start == seen + rest && k <= |rest|
    ensures start == seen + rest[..k] + rest[k..]
  {
  }

  /** my_readn: n bytes into buf at offset off. */
  method MyReadn(fd: Socket, buf: array<byte>, off: nat, n: nat) returns (ret: nat, ghost got: nat)
    requires off + n <= buf.Length
    modifies fd, buf
    ensures got <= n && buf[..off] == old(buf[..off])
    ensures Received(ret, buf[off..off + got], fd.pending) == ReadN(old(fd.pending), n)
  {
    ghost var all, before := fd.pending, buf[..off];
    var nLeft: nat, pos: nat := n, 0;
    assert all[0..] == all && before + all[..0] == before;
    while nLeft > 0
      invariant nLeft + pos == n && pos <= |all|
      invariant fd.pending == all[pos..] && buf[..off + pos] == before + all[..pos]
      decreases nLeft
    {
      if fd.pending == [] {
        ret, got := 0, pos;
        Landed(buf[..off + pos], before, all[..pos]);
        return;
      }
      var nRecv := fd.Recv(buf, off + pos, nLeft);
      SliceOn(all, pos, nRecv);
      Associative(before, all[..pos], all[pos..][..nRecv]);
      nLeft := nLeft - nRecv;
      pos := pos + nRecv;
    }
    ret, got := n, n;
    Landed(buf[..off + n], before, all[..n]);
  }

  lemma {:induction false} SliceOn(all: seq<byte>, pos: nat, k: nat)
    requires pos + k <= |all|
    ensures all[..pos] + all[pos..][..k] == all[..pos + k]
    ensures all[pos..][k..] == all[pos + k..]
  {
  }

  lemma {:induction false} Landed(b: seq<byte>, before: seq<byte>, data: seq<byte>)
    requires b == before + data
    ensures b[..|before|] == before && b[|before|..] == data
  {
  }

  /** recvPackage once readHeadFlag has left a head of nHeadLen bytes in buf. */
  method ReceiveBody(fd: Socket, buf: array<byte>, nMax: nat, nHeadLen: nat, ghost r: Received)
    returns (ret: int, ghost got: nat)
    requires 0 < nHeadLen == r.ret <= |r.data| && nMax < buf.Length && nHeadLen < buf.Length
    requires buf[..nHeadLen] == r.data[..nHeadLen] && fd.pending == r.rest
    modifies fd, buf
    ensures got <= buf.Length
    ensures Received(ret, buf[..got], fd.pending) == Finish(r, nMax)
  {
    ghost var head := r.data[..nHeadLen];
    buf[nHeadLen] := 0;
    assert buf[..nHeadLen] == head;
    ret, got := nHeadLen, nHeadLen;
    var pStr := StrStr(buf[..nHeadLen], LENGTH_FLAG);
    if pStr < 0 {
      return;
    }
    assert buf[pStr + |LENGTH_FLAG|..nHeadLen] == head[pStr + |LENGTH_FLAG|..];
    var nBodyLen := Atoi(buf[pStr + |LENGTH_FLAG|..nHeadLen]);
    if nBodyLen <= 0 {
      return;
    }
    assert BodyLen(head) == nBodyLen;
    if nMax <= nHeadLen + nBodyLen {
      ret := -2;
      return;
    }
    ghost var body;
    var nRecv;
    nRecv, body := MyReadn(fd, buf, nHeadLen, nBodyLen);
    got := nHeadLen + body;
    assert buf[..got] == head + buf[nHeadLen..got];
    if nRecv == nBodyLen {
      ret := nHeadLen + nBodyLen;
    } else {
      ret := nRecv;
    }
  }

  /** recvPackage */
  method ReceivePackage(fd: Socket, buf: array<byte>, nMax: nat) returns (ret: int, ghost got: nat)
    requires 0 < nMax && Room(fd.pending, nMax, buf.Length)
    modifies fd, buf
    ensures got <= buf.Length
    ensures Received(ret, buf[..got], fd.pending) == RecvPackage(old(fd.pending), fd.cut, nMax)
  {
    ghost var c := fd.pending;
    var nHeadLen, nRecvAll := ReadHeadFlag(fd, buf, nMax);
    ghost var r := Received(nHeadLen, buf[..nRecvAll], fd.pending);
    if nHeadLen <= 0 {
      return nHeadLen, nRecvAll;
    }
    ReadHeadRet(c, fd.cut, [], nMax);
    assert r.data[..nHeadLen] == buf[..nHeadLen];
    ret, got := ReceiveBody(fd, buf, nMax, nHeadLen, r);
  }

  /** One turn of Thread_Client_Recv: the buffer is cleared and takes one package; the message, if there is one. */
  method ReceiveMessage(fd: Socket, buf: array<byte>, nMax: nat) returns (m: seq<seq<byte>>)
    requires 0 < nMax && fd.pending != [] && Room(fd.pending, nMax, buf.Length)
    modifies fd, buf
    ensures var r := RecvPackage(old(fd.pending), fd.cut, nMax);
            m == (if r.ret > 0 then [r.data] else []) && fd.pending == r.rest
  {
    Progress(fd.pending, fd.cut, nMax);
    forall i | 0 <= i < buf.Length {
      buf[i] := 0;
    }
    ghost var got;
    var nRecv;
    nRecv, got := ReceivePackage(fd, buf, nMax);
    if nRecv > 0 {
      m := [buf[..nRecv]];
    } else {
      m := [];
    }
  }

  /** The stream consists of messages that fit. */
  predicate Fitting(pending: seq<byte>, ms: seq<seq<byte>>, nMax: nat) {
    pending == Concat(ms) && forall i :: 0 <= i < |ms| ==> IsMessage(ms[i]) && Fits(ms[i], nMax)
  }

  lemma {:induction false} FittingHasRoom(pending: seq<byte>, ms: seq<seq<byte>>, cut: Cuts, nMax: nat, size: nat)
    requires pending != [] && Fitting(pending, ms, nMax) && 0 < nMax < size
    ensures Room(pending, nMax, size) && Fitting(RecvPackage(pending, cut, nMax).rest, ms[1..], nMax)
  {
    var m, rest := ms[0], Concat(ms[1..]);
    HeadLenExtends(m, rest);
    RecvPackageExact(m, rest, cut, nMax);
  }

  /** Thread_Client_Recv: package after package while the stream lasts. The buffer of nMax + 1 bytes that the source
      has is enough for messages that fit; then these are what is received. */
  method ReceiveMessages(fd: Socket, nMax: nat, size: nat, ghost fitting: bool, ghost ms: seq<seq<byte>>)
    returns (received: seq<seq<byte>>)
    requires 0 < nMax < size && (if fitting then Fitting(fd.pending, ms, nMax) else nMax + 256 < size)
    modifies fd
    ensures received == RecvAll(old(fd.pending), fd.cut, nMax)
    ensures fitting ==> received == ms
  {
    received := [];
    if fitting {
      StreamFraming(ms, fd.cut, nMax);
    }
    ghost var all, left := RecvAll(fd.pending, fd.cut, nMax), ms;
    var buf := new byte[size](_ => 0);
    while fd.pending != []
      invariant received + RecvAll(fd.pending, fd.cut, nMax) == all
      invariant fitting ==> Fitting(fd.pending, left, nMax)
      decreases |fd.pending|
    {
      Progress(fd.pending, fd.cut, nMax);
      if fitting {
        FittingHasRoom(fd.pending, left, fd.cut, nMax, size);
        left := left[1..];
      }
      var m := ReceiveMessage(fd, buf, nMax);
      Associative(received, m, RecvAll(fd.pending, fd.cut, nMax));
      received := received + m;
    }
  }
}
