/** Packetising a frame and gluing the packets back together:
    the sender of jni/AudioInstance.c and the receive loop of jni/VideoInstance.c. */

/** Bytes and the sizes both ends share. */
module Media {
  import opened CString

  const MTU_LEN: nat := 1400
  const FRAME_MAX_SIZE: nat := 512 * 1024
  const FRAME_HEAD_LEN: nat := 32
  const RTP_HEAD_LEN: nat := 16

  const I_FRAME: byte := 1
  const P_FRAME: byte := 2
  const A_FRAME: byte := 3

  /** frame_head_t.frame_size: a little-endian word at offset 4. */
  function FrameSize(f: seq<byte>): uint32
    requires |f| >= FRAME_HEAD_LEN
  {
    var b0: int, b1: int, b2: int, b3: int := f[4], f[5], f[6], f[7];
    b0 + 0x100 * b1 + 0x1_0000 * b2 + 0x100_0000 * b3
  }

  /** frame_head_t.frame_type: the byte at offset 13. */
  function FrameType(f: seq<byte>): byte
    requires |f| >= FRAME_HEAD_LEN
  {
    f[13]
  }

  /** frame_head_t; pts in its two words. */
  datatype FrameHead = FrameHead(
    device_type: uint32, frame_size: uint32, frame_no: uint32, video_resolution: byte, frame_type: byte,
    frame_rate: byte, video_standard: byte, sec: uint32, usec: uint32, ptsLow: uint32, ptsHigh: uint32)

  /** A word in memory, lowest byte first. */
  function Word(n: uint32): seq<byte> {
    [n % 0x100, n / 0x100 % 0x100, n / 0x1_0000 % 0x100, n / 0x100_0000]
  }

  /** The structure in memory, field after field. */
  function HeadBytes(h: FrameHead): (b: seq<byte>)
    ensures |b| == 32
  {
    Word(h.device_type) + Word(h.frame_size) + Word(h.frame_no)
    + [h.video_resolution, h.frame_type, h.frame_rate, h.video_standard]
    + Word(h.sec) + Word(h.usec) + Word(h.ptsLow) + Word(h.ptsHigh)
  }

  lemma {:induction false} WordIsRead(n: uint32)
    ensures var b0: int, b1: int, b2: int, b3: int := Word(n)[0], Word(n)[1], Word(n)[2], Word(n)[3];
            b0 + 0x100 * b1 + 0x1_0000 * b2 + 0x100_0000 * b3 == n
  {
    Quarters(n);
  }

  lemma {:induction false} Quarters(n: nat)
    ensures n / 0x1_0000 == n / 0x100 / 0x100 && n / 0x100_0000 == n / 0x1_0000 / 0x100
    ensures n == n % 0x100 + 0x100 * (n / 0x100) && n / 0x100 == n / 0x100 % 0x100 + 0x100 * (n / 0x1_0000)
    ensures n / 0x1_0000 == n / 0x1_0000 % 0x100 + 0x100 * (n / 0x100_0000)
  {
  }

  /** Size and type of a frame are those of the structure it starts with. */
  lemma {:induction false} HeadIsRead(h: FrameHead, payload: seq<byte>)
    ensures FrameSize(HeadBytes(h) + payload) == h.frame_size && FrameType(HeadBytes(h) + payload) == h.frame_type
  {
    var f := HeadBytes(h) + payload;
    WordIsRead(h.frame_size);
    assert f[4..8] == Word(h.frame_size) && f[4] == f[4..8][0] && f[7] == f[4..8][3];
  }

  /** A frame whose header announces its own length and which leaves room for a packet in the receiver's buffer of
      512 KiB. */
  predicate WellFormed(f: seq<byte>) {
    && FRAME_HEAD_LEN <= |f| <= 522888
    && |f| == FrameSize(f) + FRAME_HEAD_LEN
  }

  predicate AllWellFormed(fs: seq<seq<byte>>) { forall i :: 0 <= i < |fs| ==> WellFormed(fs[i]) }

  /** The frame types the receiver hands to the decoder. */
  predicate Playable(f: seq<byte>)
    requires |f| >= FRAME_HEAD_LEN
  {
    FrameType(f) == I_FRAME || FrameType(f) == P_FRAME || FrameType(f) == A_FRAME
  }

  /** One RTP packet: the header fields that vary, and the payload behind the 16-byte header. */
  datatype Packet = Packet(seqNo: uint16, ts: uint32, payload: seq<byte>)

  /** ++ on an unsigned short. */
  function NextSeq(s: uint16): uint16 { if s == 0xFFFF then 0 else s + 1 }

  /** ++ on an unsigned int. */
  function NextTs(t: uint32): uint32 { if t == 0xFFFF_FFFF then 0 else t + 1 }

  /** The packet, header included, fits the receiver's net_Pack of MTU_LEN bytes. */
  predicate PacketFits(p: Packet) { |p.payload| + RTP_HEAD_LEN <= MTU_LEN }

  function Payloads(ps: seq<Packet>): seq<byte>
    decreases |ps|
  {
    if ps == [] then [] else ps[0].payload + Payloads(ps[1..])
  }

  lemma {:induction false} PayloadsAppend(a: seq<Packet>, b: seq<Packet>)
    ensures Payloads(a + b) == Payloads(a) + Payloads(b)
    decreases |a|
  {
    if a == [] {
      assert a + b == b;
    } else {
      assert (a + b)[0] == a[0] && (a + b)[1..] == a[1..] + b;
      PayloadsAppend(a[1..], b);
    }
  }

  /** Consecutive sequence numbers, without a wrap, under one timestamp. */
  predicate Chain(ps: seq<Packet>) {
    forall i :: 0 <= i < |ps| ==> ps[i].seqNo == ps[0].seqNo + i && ps[i].ts == ps[0].ts
  }
}

/** audioi_RtpSendData. */
module Packetiser {
  import opened CString
  import opened Media

  /** len / MTU_LEN + 1 */
  function Count(len: nat): (n: nat)
    ensures n >= 1
  {
    len / MTU_LEN + 1
  }

  /** Integer division, by repeated subtraction. */
  function Quotient(a: nat, b: nat): nat
    requires b >= 1
  {
    if a < b then 0 else 1 + Quotient(a - b, b)
  }

  /** Every fragment but the last has this length: len / Count(len). */
  function FixSize(len: nat): nat { Quotient(len, Count(len)) }

  /** n * fix, by repeated addition: the fragments' offsets. */
  function Times(fix: nat, n: nat): nat {
    if n == 0 then 0 else fix + Times(fix, n - 1)
  }

  lemma {:induction false} TimesIsProduct(fix: nat, n: nat)
    ensures Times(fix, n) == n * fix
  {
    if n > 0 {
      TimesIsProduct(fix, n - 1);
    }
  }

  lemma {:induction false} TimesMonotone(fix: nat, i: nat, n: nat)
    requires i <= n
    ensures Times(fix, i) <= Times(fix, n)
    decreases n - i
  {
    if i < n {
      TimesMonotone(fix, i + 1, n);
    }
  }

  lemma {:induction false} QuotientBounds(a: nat, b: nat)
    requires b >= 1
    ensures Times(b, Quotient(a, b)) <= a < Times(b, Quotient(a, b) + 1)
  {
    if a >= b {
      QuotientBounds(a - b, b);
    }
  }

  lemma {:induction false} QuotientIsUnique(a: nat, b: nat, q: nat)
    requires b >= 1 && Times(b, q) <= a < Times(b, q + 1)
    ensures Quotient(a, b) == q
  {
    QuotientBounds(a, b);
    if Quotient(a, b) < q {
      TimesMonotone(b, Quotient(a, b) + 1, q);
    } else if q < Quotient(a, b) {
      TimesMonotone(b, q + 1, Quotient(a, b));
    }
  }

  lemma {:induction false} DivMod(a: nat, b: nat)
    requires b >= 1
    ensures b * (a / b) == a - a % b && 0 <= a % b < b
  {
  }

  lemma {:induction false} QuotientIsDivision(a: nat, b: nat)
    requires b >= 1
    ensures Quotient(a, b) == a / b
  {
    var q := a / b;
    DivMod(a, b);
    TimesIsProduct(b, q);
    assert Times(b, q + 1) == b + Times(b, q);
    QuotientIsUnique(a, b, q);
  }

  lemma {:induction false} FixFits(len: nat)
    ensures Times(FixSize(len), Count(len)) == len - len % Count(len)
    ensures len >= 1 ==> FixSize(len) >= 1
  {
    var n := Count(len);
    QuotientIsDivision(len, n);
    TimesIsProduct(len / n, n);
    DivMod(len, n);
  }

  /** n fragments of `rest`: n - 1 of length `fix`, then all that is left. */
  function Fragments(s: uint16, ts: uint32, rest: seq<byte>, fix: nat, n: nat): (ps: seq<Packet>)
    requires n >= 1 && Times(fix, n) <= |rest|
    ensures |ps| == n
    decreases n
  {
    if n == 1 then [Packet(NextSeq(s), ts, rest)]
    else [Packet(NextSeq(s), ts, rest[..fix])] + Fragments(NextSeq(s), ts, rest[fix..], fix, n - 1)
  }

  /** The packets of one frame, sent after sequence number s under timestamp ts. */
  function FrameFragments(s: uint16, ts: uint32, f: seq<byte>): (ps: seq<Packet>)
    ensures |ps| == Count(|f|)
  {
    FixFits(|f|);
    Fragments(s, ts, f, FixSize(|f|), Count(|f|))
  }

  /** The counter after n increments. */
  function SeqAfter(s: uint16, n: nat): uint16 {
    if n == 0 then s else NextSeq(SeqAfter(s, n - 1))
  }

  lemma {:induction false} SeqAfterNext(s: uint16, n: nat)
    ensures SeqAfter(NextSeq(s), n) == SeqAfter(s, n + 1)
  {
    if n > 0 {
      SeqAfterNext(s, n - 1);
    }
  }

  /** Fewer than 2^16 increments wrap at most once. */
  lemma {:induction false} SeqAfterWraps(s: uint16, n: nat)
    requires n <= 0x1_0000
    ensures SeqAfter(s, n) == if s + n <= 0xFFFF then s + n else s + n - 0x1_0000
  {
    if n > 0 {
      SeqAfterWraps(s, n - 1);
    }
  }

  /** The packets of a list of frames, the counters starting at (s, ts). */
  function SendAll(s: uint16, ts: uint32, fs: seq<seq<byte>>): seq<Packet>
    decreases |fs|
  {
    if fs == [] then []
    else
      FrameFragments(s, NextTs(ts), fs[0])
      + SendAll(SeqAfter(s, Count(|fs[0]|)), NextTs(ts), fs[1..])
  }

  /** Nothing is lost or repeated by fragmenting. */
  lemma {:induction false} FragmentsCoverFrame(s: uint16, ts: uint32, rest: seq<byte>, fix: nat, n: nat)
    requires n >= 1 && Times(fix, n) <= |rest|
    ensures Payloads(Fragments(s, ts, rest, fix, n)) == rest
    decreases n
  {
    if n > 1 {
      FragmentsCoverFrame(NextSeq(s), ts, rest[fix..], fix, n - 1);
      assert Fragments(s, ts, rest, fix, n)[1..] == Fragments(NextSeq(s), ts, rest[fix..], fix, n - 1);
    }
  }

  /** Fragment i carries sequence number s + 1 + i (modulo 2^16) and starts at byte i * fix. */
  lemma {:induction false} FragmentAt(s: uint16, ts: uint32, rest: seq<byte>, fix: nat, n: nat, i: nat)
    requires n >= 1 && Times(fix, n) <= |rest| && i < n
    ensures Times(fix, i) + fix <= |rest|
    ensures Fragments(s, ts, rest, fix, n)[i]
         == Packet(SeqAfter(s, i + 1), ts,
                   if i == n - 1 then rest[Times(fix, i)..] else rest[Times(fix, i)..][..fix])
    decreases n
  {
    SeqAfterNext(s, i);
    if i > 0 {
      var tail := rest[fix..];
      FragmentAt(NextSeq(s), ts, tail, fix, n - 1, i - 1);
      assert tail[Times(fix, i - 1)..] == rest[Times(fix, i)..];
      SeqAfterNext(s, i - 1);
    } else {
      assert rest[0..] == rest;
    }
  }

  /** Exactly when every packet of a frame fits the receiver's packet buffer. */
  predicate PacketsFit(f: seq<byte>) {
    FixSize(|f|) + |f| % Count(|f|) + RTP_HEAD_LEN <= MTU_LEN
  }

  predicate AllFit(fs: seq<seq<byte>>) { forall i :: 0 <= i < |fs| ==> PacketsFit(fs[i]) }

  lemma {:induction false} PacketsFitExactly(s: uint16, ts: uint32, f: seq<byte>)
    ensures PacketsFit(f) <==> forall p <- FrameFragments(s, ts, f) :: |p.payload| + 16 <= 1400
    ensures PacketsFit(f) <==> forall p <- FrameFragments(s, ts, f) :: PacketFits(p)
  {
    FixFits(|f|);
    LastIsLongest(s, ts, f, FixSize(|f|), Count(|f|), MTU_LEN - RTP_HEAD_LEN);
    FitsByLength(FrameFragments(s, ts, f));
  }

  lemma {:induction false} FitsByLength(ps: seq<Packet>)
    ensures (forall p <- ps :: PacketFits(p)) <==> forall p <- ps :: |p.payload| <= MTU_LEN - RTP_HEAD_LEN
  {
  }

  lemma {:induction false} FragmentLength(s: uint16, ts: uint32, rest: seq<byte>, fix: nat, n: nat, i: nat)
    requires n >= 1 && Times(fix, n) <= |rest| && i < n
    ensures |Fragments(s, ts, rest, fix, n)[i].payload|
         == if i == n - 1 then fix + (|rest| - Times(fix, n)) else fix
  {
    FragmentAt(s, ts, rest, fix, n, i);
  }

  /** A frame goes out as one packet more than its length holds whole MTUs; all but the last are of one size, which is
      below an MTU. */
  lemma {:induction false} PacketCount(s: uint16, ts: uint32, f: seq<byte>)
    ensures var ps := FrameFragments(s, ts, f);
            && ps != [] && (|ps| - 1) * 1400 <= |f| < |ps| * 1400
            && (|f| < 1400 ==> ps == [Packet(NextSeq(s), ts, f)])
            && forall i :: 0 <= i < |ps| - 1 ==> |ps[i].payload| == |f| / |ps| < 1400
  {
    var ps, n := FrameFragments(s, ts, f), |FrameFragments(s, ts, f)|;
    FixFits(|f|);
    QuotientIsDivision(|f|, n);
    FixIsSmall(|f|, n);
    forall i | 0 <= i < n - 1 ensures |ps[i].payload| == |f| / n {
      FragmentLength(s, ts, f, FixSize(|f|), n, i);
    }
  }

  lemma {:induction false} FixIsSmall(len: nat, n: nat)
    requires n >= 1 && len < n * 1400
    ensures len / n < 1400
  {
    DivMod(len, n);
    var q := len / n;
    assert n * (q - 1400) == n * q - n * 1400 < 0;
  }

  /** Exactly then every packet sent for a list of frames fits. */
  lemma {:induction false} SentPacketsFit(s: uint16, ts: uint32, fs: seq<seq<byte>>)
    ensures AllFit(fs) <==> forall p <- SendAll(s, ts, fs) :: PacketFits(p)
    decreases |fs|
  {
    if fs != [] {
      PacketsFitExactly(s, NextTs(ts), fs[0]);
      SentPacketsFit(SeqAfter(s, Count(|fs[0]|)), NextTs(ts), fs[1..]);
      assert AllFit(fs) <==> PacketsFit(fs[0]) && AllFit(fs[1..]) by {
        assert fs == [fs[0]] + fs[1..];
      }
    }
  }

  /** The last fragment also carries the remainder of the division, so it decides. */
  lemma {:induction false} LastIsLongest(s: uint16, ts: uint32, f: seq<byte>, fix: nat, n: nat, m: nat)
    requires n >= 1 && Times(fix, n) <= |f|
    ensures fix + (|f| - Times(fix, n)) <= m <==>
            forall p <- Fragments(s, ts, f, fix, n) :: |p.payload| <= m
  {
    var ps := Fragments(s, ts, f, fix, n);
    forall i | 0 <= i < n
      ensures |ps[i].payload| == if i == n - 1 then fix + (|f| - Times(fix, n)) else fix
    {
      FragmentLength(s, ts, f, fix, n, i);
    }
    assert ps[n - 1] in ps;
  }

  /** What is left to send of f when i of its n fragments are out and the counter stands at s. */
  ghost function Remaining(s: uint16, ts: uint32, f: seq<byte>, fix: nat, n: nat, i: nat): seq<Packet>
    requires i <= n && Times(fix, i) + Times(fix, n - i) <= |f|
  {
    if i == n then [] else Fragments(s, ts, f[Times(fix, i)..], fix, n - i)
  }

  lemma {:induction false} RemainingStep(s: uint16, ts: uint32, f: seq<byte>, fix: nat, n: nat, i: nat)
    requires i < n && Times(fix, i) + Times(fix, n - i) <= |f|
    ensures Times(fix, i + 1) + Times(fix, n - i - 1) == Times(fix, i) + Times(fix, n - i)
    ensures var actual := if i == n - 1 then |f| - Times(fix, i) else fix;
            Remaining(s, ts, f, fix, n, i)
            == [Packet(NextSeq(s), ts, f[Times(fix, i)..Times(fix, i) + actual])]
               + Remaining(NextSeq(s), ts, f, fix, n, i + 1)
  {
    var rest := f[Times(fix, i)..];
    if i == n - 1 {
      assert rest == f[Times(fix, i)..Times(fix, i) + (|f| - Times(fix, i))];
    } else {
      assert rest[..fix] == f[Times(fix, i)..Times(fix, i) + fix];
      assert rest[fix..] == f[Times(fix, i + 1)..];
    }
  }

  /** RTP_FIXED_HEADER.seq and .ts of an audio instance, and the send routine that advances them. */
  class Sender {
    var seqNo: uint16
    var ts: uint32

    /** Returns the packets written to the socket and their total number of bytes. */
    method SendFrame(f: seq<byte>) returns (packets: seq<Packet>, sent: nat)
      modifies this
      ensures packets == FrameFragments(old(seqNo), NextTs(old(ts)), f)
      ensures sent == |f| + RTP_HEAD_LEN * Count(|f|)
      ensures seqNo == SeqAfter(old(seqNo), Count(|f|)) && ts == NextTs(old(ts))
    {
      ts := NextTs(ts);
      var count := |f| / MTU_LEN + 1;
      FixFits(|f|);
      QuotientIsDivision(|f|, count);
      packets, sent := SendFragments(f, count, |f| / count);
    }

    /** One call after another, for a list of frames. */
    method SendFrames(fs: seq<seq<byte>>) returns (packets: seq<Packet>)
      modifies this
      ensures packets == SendAll(old(seqNo), old(ts), fs)
    {
      packets := [];
      ghost var all := SendAll(seqNo, ts, fs);
      assert fs[0..] == fs;
      var i := 0;
      while i < |fs|
        invariant 0 <= i <= |fs| && packets + SendAll(seqNo, ts, fs[i..]) == all
      {
        assert fs[i..][0] == fs[i] && fs[i..][1..] == fs[i + 1..];
        ghost var rest := SendAll(SeqAfter(seqNo, Count(|fs[i]|)), NextTs(ts), fs[i + 1..]);
        var frame, sent := SendFrame(fs[i]);
        assert packets + (frame + rest) == packets + frame + rest;
        packets := packets + frame;
        i := i + 1;
      }
    }

    /** The loop of the send routine. */
    method SendFragments(f: seq<byte>, count: nat, fix: nat) returns (packets: seq<Packet>, sent: nat)
      requires count >= 1 && Times(fix, count) <= |f|
      modifies this`seqNo
      ensures packets == Fragments(old(seqNo), ts, f, fix, count)
      ensures sent == |f| + RTP_HEAD_LEN * count
      ensures seqNo == SeqAfter(old(seqNo), count)
    {
      packets, sent := [], 0;
      ghost var all := Fragments(seqNo, ts, f, fix, count);
      var i := 0;
      while i < count
        invariant 0 <= i <= count
        invariant seqNo == SeqAfter(old(seqNo), i)
        invariant Times(fix, i) + Times(fix, count - i) <= |f|
        invariant packets + Remaining(seqNo, ts, f, fix, count, i) == all
        invariant sent == (if i < count then Times(fix, i) else |f|) + RTP_HEAD_LEN * i
      {
        TimesIsProduct(fix, i);
        RemainingStep(seqNo, ts, f, fix, count, i);
        var actual := fix;
        if i == count - 1 {
          actual := |f| - i * fix;
        }
        seqNo := NextSeq(seqNo);
        var packet := Packet(seqNo, ts, f[i * fix..i * fix + actual]);
        packets := packets + [packet];
        sent := sent + actual + RTP_HEAD_LEN;
        i := i + 1;
      }
    }
  }
}
