/** The receive loop of Thread_MduRealVideo as a state machine over arriving packets. */
module Reassembly {
  import opened CString
  import opened Media

  /** nLastSeq, nLastTs and the first nBufSize bytes of full_frame_data. */
  datatype State = State(lastSeq: uint32, lastTs: uint32, buf: seq<byte>)

  const INIT := State(0, 0, [])

  /** LinkLost: nothing received for ten seconds, the partial frame is dropped. */
  datatype Event = Arrive(p: Packet) | LinkLost

  /** The length announced by the header (32-bit arithmetic) is the number of bytes gathered. */
  predicate Complete(b: seq<byte>) {
    |b| >= FRAME_HEAD_LEN && Wrap32(FrameSize(b) + FRAME_HEAD_LEN) == |b|
  }

  function Wrap32(n: nat): nat { if n < 0x1_0000_0000 then n else n - 0x1_0000_0000 }

  /** The closed buffers that reach the callback: complete, and of a type the decoder takes. */
  function Accepted(bs: seq<seq<byte>>): seq<seq<byte>>
    decreases |bs|
  {
    if bs == [] then []
    else (if Complete(bs[0]) && Playable(bs[0]) then [bs[0]] else []) + Accepted(bs[1..])
  }

  lemma {:induction false} AcceptedAppend(a: seq<seq<byte>>, b: seq<seq<byte>>)
    ensures Accepted(a + b) == Accepted(a) + Accepted(b)
    decreases |a|
  {
    if a == [] {
      assert a + b == b;
    } else {
      assert (a + b)[0] == a[0] && (a + b)[1..] == a[1..] + b;
      AcceptedAppend(a[1..], b);
      Associative(if Complete(a[0]) && Playable(a[0]) then [a[0]] else [], Accepted(a[1..]), Accepted(b));
    }
  }

  predicate Continues(s: State, p: Packet) {
    s.lastSeq + 1 == p.seqNo && s.lastTs == p.ts
  }

  /** A continuing packet extends the buffer, which is emptied when it could no longer take a packet;
      any other packet starts a new one. */
  function Step(s: State, e: Event): State {
    match e
    case LinkLost => s.(buf := [])
    case Arrive(p) =>
      if Continues(s, p) then
        var b := s.buf + p.payload;
        State(p.seqNo, s.lastTs, if |b| > FRAME_MAX_SIZE - MTU_LEN then [] else b)
      else State(p.seqNo, p.ts, p.payload)
  }

  /** The buffer that is closed, and then checked, when e arrives. */
  function Closed(s: State, e: Event): seq<seq<byte>> {
    if e.Arrive? && !Continues(s, e.p) then [s.buf] else []
  }

  /** The state after a run of events, and the buffers closed during it. */
  function Final(s: State, es: seq<Event>): State
    decreases |es|
  {
    if es == [] then s else Final(Step(s, es[0]), es[1..])
  }

  function Closes(s: State, es: seq<Event>): seq<seq<byte>>
    decreases |es|
  {
    if es == [] then [] else Closed(s, es[0]) + Closes(Step(s, es[0]), es[1..])
  }

  /** Everything the callback is given during a run. */
  function Delivers(s: State, es: seq<Event>): seq<seq<byte>> {
    Accepted(Closes(s, es))
  }

  lemma {:induction false} DeliversUnfold(s: State, es: seq<Event>, i: nat)
    requires i < |es|
    ensures Final(s, es[i..]) == Final(Step(s, es[i]), es[i + 1..])
    ensures Delivers(s, es[i..]) == Accepted(Closed(s, es[i])) + Delivers(Step(s, es[i]), es[i + 1..])
  {
    assert es[i..][0] == es[i] && es[i..][1..] == es[i + 1..];
    AcceptedAppend(Closed(s, es[i]), Closes(Step(s, es[i]), es[i + 1..]));
  }

  function Arrivals(ps: seq<Packet>): seq<Event>
    decreases |ps|
  {
    if ps == [] then [] else [Arrive(ps[0])] + Arrivals(ps[1..])
  }

  lemma {:induction false} ArrivalsAre(ps: seq<Packet>)
    ensures forall e <- Arrivals(ps) :: e.Arrive? && e.p in ps
  {
    if ps != [] {
      ArrivalsAre(ps[1..]);
    }
  }

  lemma {:induction false} ArrivalsAppend(a: seq<Packet>, b: seq<Packet>)
    ensures Arrivals(a + b) == Arrivals(a) + Arrivals(b)
    decreases |a|
  {
    if a == [] {
      assert a + b == b;
    } else {
      assert (a + b)[0] == a[0] && (a + b)[1..] == a[1..] + b;
      ArrivalsAppend(a[1..], b);
    }
  }

  lemma {:induction false} RunAppend(s: State, a: seq<Event>, b: seq<Event>)
    ensures Final(s, a + b) == Final(Final(s, a), b)
    ensures Closes(s, a + b) == Closes(s, a) + Closes(Final(s, a), b)
    decreases |a|
  {
    if a == [] {
      assert a + b == b;
    } else {
      assert (a + b)[0] == a[0] && (a + b)[1..] == a[1..] + b;
      RunAppend(Step(s, a[0]), a[1..], b);
    }
  }

  lemma {:induction false} RunArrive(s: State, p: Packet, ps: seq<Packet>)
    ensures Final(s, Arrivals([p] + ps)) == Final(Step(s, Arrive(p)), Arrivals(ps))
    ensures Closes(s, Arrivals([p] + ps)) == Closed(s, Arrive(p)) + Closes(Step(s, Arrive(p)), Arrivals(ps))
  {
  }
}

/** Lossless delivery: what comes out when every fragment arrives in order. */
module LosslessDelivery {
  import opened CString
  import opened Media
  import opened Packetiser
  import opened Reassembly

  /** Packets that all continue the state are appended to its buffer. */
  lemma {:induction false} FeedContinuing(st: State, ps: seq<Packet>)
    requires forall i :: 0 <= i < |ps| ==> ps[i].seqNo == st.lastSeq + 1 + i && ps[i].ts == st.lastTs
    requires |st.buf| + |Payloads(ps)| <= FRAME_MAX_SIZE - MTU_LEN
    ensures Final(st, Arrivals(ps))
         == State(if ps == [] then st.lastSeq else ps[|ps| - 1].seqNo, st.lastTs, st.buf + Payloads(ps))
    ensures Closes(st, Arrivals(ps)) == []
    decreases |ps|
  {
    if ps == [] {
      assert st.buf + Payloads(ps) == st.buf;
    } else {
      var p, rest := ps[0], ps[1..];
      var t := State(p.seqNo, st.lastTs, st.buf + p.payload);
      assert Payloads(ps) == p.payload + Payloads(rest);
      StepExtends(st, p);
      assert ps == [p] + rest;
      RunArrive(st, p, rest);
      FeedContinuing(t, rest);
      assert t.buf + Payloads(rest) == st.buf + Payloads(ps);
    }
  }

  lemma {:induction false} StepExtends(st: State, p: Packet)
    requires Continues(st, p) && |st.buf| + |p.payload| <= FRAME_MAX_SIZE - MTU_LEN
    ensures Step(st, Arrive(p)) == State(p.seqNo, st.lastTs, st.buf + p.payload)
    ensures Closed(st, Arrive(p)) == []
  {
  }

  /** A chain whose first packet does not continue the state (or finds it empty) replaces the buffer. */
  lemma {:induction false} FeedChain(st: State, ps: seq<Packet>)
    requires ps != [] && Chain(ps) && |Payloads(ps)| <= FRAME_MAX_SIZE - MTU_LEN
    requires st.buf == [] || !Continues(st, ps[0])
    ensures Final(st, Arrivals(ps)) == State(ps[|ps| - 1].seqNo, ps[0].ts, Payloads(ps))
    ensures Closes(st, Arrivals(ps)) == Closed(st, Arrive(ps[0]))
  {
    var p, rest := ps[0], ps[1..];
    assert ps == [p] + rest;
    RunArrive(st, p, rest);
    assert Payloads(ps) == p.payload + Payloads(rest);
    if st.buf == [] {
      assert st.buf + p.payload == p.payload;
    }
    FeedContinuing(State(p.seqNo, p.ts, p.payload), rest);
  }

  /** Two chains, the second not continuing the first: the first one is closed by the second. */
  lemma {:induction false} FeedTwoChains(st: State, a: seq<Packet>, b: seq<Packet>)
    requires a != [] && Chain(a) && |Payloads(a)| <= FRAME_MAX_SIZE - MTU_LEN
    requires b != [] && Chain(b) && |Payloads(b)| <= FRAME_MAX_SIZE - MTU_LEN
    requires st.buf == [] || !Continues(st, a[0])
    requires a[|a| - 1].seqNo + 1 != b[0].seqNo
    ensures Final(st, Arrivals(a) + Arrivals(b)) == State(b[|b| - 1].seqNo, b[0].ts, Payloads(b))
    ensures Closes(st, Arrivals(a) + Arrivals(b)) == Closed(st, Arrive(a[0])) + [Payloads(a)]
  {
    var m := State(a[|a| - 1].seqNo, a[0].ts, Payloads(a));
    assert Final(st, Arrivals(a)) == m && Closes(st, Arrivals(a)) == Closed(st, Arrive(a[0])) by {
      FeedChain(st, a);
    }
    assert Closed(m, Arrive(b[0])) == [Payloads(a)];
    FeedChain(m, b);
    RunAppend(st, Arrivals(a), Arrivals(b));
  }

  /** The 16-bit counter wraps between two fragments of the same frame. */
  predicate Straddles(s: uint16, f: seq<byte>) {
    s < 0xFFFF && s + Count(|f|) > 0xFFFF
  }

  /** What is left of f in the buffer when all its fragments, sent after s, are in:
      the whole frame, or the payloads behind the wrap. */
  function Kept(s: uint16, f: seq<byte>): seq<byte> {
    if Straddles(s, f) then Payloads(FrameFragments(s, 0, f)[0xFFFF - s..]) else f
  }

  lemma {:induction false} FragmentCountSmall(f: seq<byte>)
    requires |f| <= FRAME_MAX_SIZE
    ensures Count(|f|) <= 375
  {
  }

  lemma {:induction false} FrameFragmentAt(s: uint16, ts: uint32, f: seq<byte>, i: nat)
    requires i < Count(|f|)
    ensures FrameFragments(s, ts, f)[i] == Packet(SeqAfter(s, i + 1), ts, FrameFragments(s, 0, f)[i].payload)
  {
    FixFits(|f|);
    FragmentAt(s, ts, f, FixSize(|f|), Count(|f|), i);
    FragmentAt(s, 0, f, FixSize(|f|), Count(|f|), i);
  }

  /** Fragments i up to j of a frame are a chain when the counter does not wrap between them. */
  lemma {:induction false} FragmentsChain(s: uint16, ts: uint32, f: seq<byte>, i: nat, j: nat)
    requires i < j <= Count(|f|) <= 375
    requires s + j <= 0xFFFF || 0xFFFF < s + 1 + i
    ensures var a := FrameFragments(s, ts, f)[i..j];
            var shift := if s + j <= 0xFFFF then 0 else 0x1_0000;
            && Chain(a) && a[0].ts == ts
            && a[0].seqNo == s + 1 + i - shift && a[j - i - 1].seqNo == s + j - shift
  {
    var ps := FrameFragments(s, ts, f);
    var shift := if s + j <= 0xFFFF then 0 else 0x1_0000;
    forall k | 0 <= k < j - i
      ensures ps[i..j][k].seqNo == s + 1 + i + k - shift && ps[i..j][k].ts == ts
    {
      FrameFragmentAt(s, ts, f, i + k);
      SeqAfterWraps(s, i + k + 1);
    }
  }

  lemma {:induction false} LastFragment(s: uint16, ts: uint32, f: seq<byte>)
    ensures FrameFragments(s, ts, f)[Count(|f|) - 1].seqNo == SeqAfter(s, Count(|f|))
  {
    FixFits(|f|);
    FragmentAt(s, ts, f, FixSize(|f|), Count(|f|), Count(|f|) - 1);
  }

  lemma {:induction false} FramePayloads(s: uint16, ts: uint32, f: seq<byte>)
    ensures Payloads(FrameFragments(s, ts, f)) == f
  {
    FixFits(|f|);
    FragmentsCoverFrame(s, ts, f, FixSize(|f|), Count(|f|));
  }

  lemma {:induction false} SamePayloads(a: seq<Packet>, b: seq<Packet>)
    requires |a| == |b| && forall i :: 0 <= i < |a| ==> a[i].payload == b[i].payload
    ensures Payloads(a) == Payloads(b)
    decreases |a|
  {
    if a != [] {
      SamePayloads(a[1..], b[1..]);
    }
  }

  /** The bytes in front of a wrap are a proper prefix of the frame, so its header announces more. */
  lemma {:induction false} PrefixRejected(f: seq<byte>, a: seq<byte>, b: seq<byte>)
    requires WellFormed(f) && f == a + b && b != []
    ensures !Complete(a)
  {
  }

  lemma {:induction false} TailNonEmpty(s: uint16, ts: uint32, f: seq<byte>, k: nat)
    requires 1 <= k < Count(|f|) && |f| >= 1
    ensures Payloads(FrameFragments(s, ts, f)[k..]) != []
  {
    var ps, n := FrameFragments(s, ts, f), Count(|f|);
    FixFits(|f|);
    FragmentLength(s, ts, f, FixSize(|f|), n, n - 1);
    assert ps[k..] == ps[k..n - 1] + [ps[n - 1]];
    PayloadsAppend(ps[k..n - 1], [ps[n - 1]]);
    assert Payloads([ps[n - 1]]) == ps[n - 1].payload;
  }

  /** Feeding one frame flushes what was pending and leaves the frame (or its tail) in the buffer. */
  lemma {:induction false} FeedFrame(st: State, s: uint16, ts: uint32, f: seq<byte>)
    requires WellFormed(f) && (st.buf == [] || st.lastTs != ts)
    ensures var es := Arrivals(FrameFragments(s, ts, f));
            && Final(st, es) == State(SeqAfter(s, Count(|f|)), ts, Kept(s, f))
            && Delivers(st, es) == Accepted([st.buf])
  {
    var ps, n := FrameFragments(s, ts, f), Count(|f|);
    FragmentCountSmall(f);
    LastFragment(s, ts, f);
    FramePayloads(s, ts, f);
    if Straddles(s, f) {
      FeedStraddling(st, s, ts, f);
    } else {
      FragmentsChain(s, ts, f, 0, n);
      assert ps[0..n] == ps;
      FeedChain(st, ps);
    }
  }

  /** The fragments in front of the wrap and those behind it. */
  lemma {:induction false} SplitAtWrap(s: uint16, ts: uint32, f: seq<byte>)
    requires WellFormed(f) && Straddles(s, f)
    ensures var a, b := FrameFragments(s, ts, f)[0..0xFFFF - s], FrameFragments(s, ts, f)[0xFFFF - s..];
            && FrameFragments(s, ts, f) == a + b
            && !Complete(Payloads(a)) && Payloads(b) == Kept(s, f)
            && |Payloads(a)| < |f| && |Kept(s, f)| <= |f|
  {
    var ps, n, k := FrameFragments(s, ts, f), Count(|f|), 0xFFFF - s;
    var a, b := ps[0..k], ps[k..];
    FramePayloads(s, ts, f);
    assert ps == a + b;
    PayloadsAppend(a, b);
    TailNonEmpty(s, ts, f, k);
    PrefixRejected(f, Payloads(a), Payloads(b));
    var c := FrameFragments(s, 0, f)[k..];
    forall i | 0 <= i < |b| ensures b[i].payload == c[i].payload {
      FrameFragmentAt(s, ts, f, k + i);
    }
    SamePayloads(b, c);
  }

  lemma {:induction false} FeedStraddling(st: State, s: uint16, ts: uint32, f: seq<byte>)
    requires WellFormed(f) && (st.buf == [] || st.lastTs != ts)
    requires Straddles(s, f) && Count(|f|) <= 375
    ensures var es := Arrivals(FrameFragments(s, ts, f));
            && Final(st, es) == State(SeqAfter(s, Count(|f|)), ts, Kept(s, f))
            && Delivers(st, es) == Accepted([st.buf])
  {
    var n, k := Count(|f|), 0xFFFF - s;
    var a, b := FrameFragments(s, ts, f)[0..k], FrameFragments(s, ts, f)[k..];
    assert b == FrameFragments(s, ts, f)[k..n];
    SplitAtWrap(s, ts, f);
    FragmentsChain(s, ts, f, 0, k);
    FragmentsChain(s, ts, f, k, n);
    SeqAfterWraps(s, n);
    FeedTwoChains(st, a, b);
    ArrivalsAppend(a, b);
    AcceptedAppend(Closed(st, Arrive(a[0])), [Payloads(a)]);
  }

  /** What comes out for one frame sent after s: the frame, what its tail is taken for, or nothing. */
  function Yield(s: uint16, f: seq<byte>): seq<seq<byte>> { Accepted([Kept(s, f)]) }

  /** The frames handed over while fs is received: the last one is still in the buffer. */
  function Delivered(s: uint16, fs: seq<seq<byte>>): seq<seq<byte>>
    decreases |fs|
  {
    if |fs| <= 1 then []
    else Yield(s, fs[0]) + Delivered(SeqAfter(s, Count(|fs[0]|)), fs[1..])
  }

  /** Main result, from any state whose buffer is empty or belongs to the previous timestamp. */
  lemma {:induction false} SendThenReceiveFrom(st: State, s: uint16, ts: uint32, fs: seq<seq<byte>>)
    requires AllWellFormed(fs)
    requires st.buf == [] || st.lastTs == ts
    ensures fs != [] ==>
            Delivers(st, Arrivals(SendAll(s, ts, fs))) == Accepted([st.buf]) + Delivered(s, fs)
    decreases |fs|
  {
    if fs != [] {
      var f, s', ts' := fs[0], SeqAfter(s, Count(|fs[0]|)), NextTs(ts);
      var a, b := FrameFragments(s, ts', f), SendAll(s', ts', fs[1..]);
      FeedFrame(st, s, ts', f);
      SendThenReceiveFrom(State(s', ts', Kept(s, f)), s', ts', fs[1..]);
      RunAppend(st, Arrivals(a), Arrivals(b));
      AcceptedAppend(Closes(st, Arrivals(a)), Closes(Final(st, Arrivals(a)), Arrivals(b)));
      ArrivalsAppend(a, b);
    }
  }

  /** Sending every fragment in order delivers all frames but the last, in order and unchanged, except
      that a frame inside which the counter wraps is replaced by what its tail is accepted as. */
  lemma {:induction false} SendThenReceive(s: uint16, ts: uint32, fs: seq<seq<byte>>)
    requires AllFit(fs) && AllWellFormed(fs)
    ensures forall p <- SendAll(s, ts, fs) :: PacketFits(p)
    ensures Delivers(INIT, Arrivals(SendAll(s, ts, fs))) == Delivered(s, fs)
  {
    SentPacketsFit(s, ts, fs);
    SendThenReceiveFrom(INIT, s, ts, fs);
    NothingPending(Delivered(s, fs));
  }

  lemma {:induction false} NothingPending(bs: seq<seq<byte>>)
    ensures Accepted([[]]) + bs == bs
  {
    assert Accepted([[]]) == [];
  }

  /** SeqAt: the counter after the first k frames. */
  function SeqAt(s: uint16, fs: seq<seq<byte>>, k: nat): uint16
    requires k <= |fs|
    decreases k
  {
    if k == 0 then s else SeqAt(SeqAfter(s, Count(|fs[0]|)), fs[1..], k - 1)
  }

  /** f is an I-frame, a P-frame or an audio frame, and the counter, standing at s, does not wrap inside it. */
  predicate Whole(s: uint16, f: seq<byte>) { |f| >= 32 && 1 <= FrameType(f) <= 3 && !Straddles(s, f) }

  /** That holds of every frame but the last, each at its own value of the counter. */
  predicate Intact(s: uint16, fs: seq<seq<byte>>) {
    forall k :: 0 <= k < |fs| - 1 ==> Whole(SeqAt(s, fs, k), fs[k])
  }

  lemma {:induction false} IntactUnfold(s: uint16, fs: seq<seq<byte>>)
    requires |fs| > 1
    ensures Intact(s, fs) <==> Whole(s, fs[0]) && Intact(SeqAfter(s, Count(|fs[0]|)), fs[1..])
  {
    var s', rest := SeqAfter(s, Count(|fs[0]|)), fs[1..];
    assert SeqAt(s, fs, 0) == s;
    forall k | 0 <= k < |rest| - 1 ensures rest[k] == fs[k + 1] && SeqAt(s', rest, k) == SeqAt(s, fs, k + 1) {
    }
    if Whole(s, fs[0]) && Intact(s', rest) {
      forall k | 0 <= k < |fs| - 1 ensures Whole(SeqAt(s, fs, k), fs[k]) {
        if k > 0 {
          assert rest[k - 1] == fs[k];
        }
      }
    }
  }

  function Total(bs: seq<seq<byte>>): nat
    decreases |bs|
  {
    if bs == [] then 0 else |bs[0]| + Total(bs[1..])
  }

  lemma {:induction false} TotalAppend(a: seq<seq<byte>>, b: seq<seq<byte>>)
    ensures Total(a + b) == Total(a) + Total(b)
    decreases |a|
  {
    if a == [] {
      assert a + b == b;
    } else {
      assert (a + b)[0] == a[0] && (a + b)[1..] == a[1..] + b;
      TotalAppend(a[1..], b);
    }
  }

  /** The frame the wrap falls into leaves a proper suffix of itself in the buffer. */
  lemma {:induction false} StraddlingKeepsSuffix(s: uint16, f: seq<byte>)
    requires WellFormed(f) && Straddles(s, f)
    ensures 0 < |Kept(s, f)| < |f| && Kept(s, f) == f[|f| - |Kept(s, f)|..]
  {
    SplitAtWrap(s, 0, f);
    var ps, k := FrameFragments(s, 0, f), 0xFFFF - s;
    FramePayloads(s, 0, f);
    PayloadsAppend(ps[0..k], ps[k..]);
    TailNonEmpty(s, 0, f, k);
    FixFits(|f|);
    FragmentAt(s, 0, f, FixSize(|f|), Count(|f|), 0);
    assert Payloads(ps[0..k]) == ps[0].payload + Payloads(ps[0..k][1..]);
  }

  lemma {:induction false} AcceptedOne(b: seq<byte>)
    ensures Accepted([b]) == if Complete(b) && Playable(b) then [b] else []
  {
    var one := if Complete(b) && Playable(b) then [b] else [];
    assert one + Accepted([]) == one;
  }

  /** A frame that is not whole loses bytes. */
  lemma {:induction false} YieldExactly(s: uint16, f: seq<byte>)
    requires WellFormed(f)
    ensures Whole(s, f) ==> Yield(s, f) == [f]
    ensures !Whole(s, f) ==> Total(Yield(s, f)) < |f| && Yield(s, f) != [f]
    ensures Total(Yield(s, f)) <= |f|
  {
    assert Total([f]) == |f| + Total([]);
    AcceptedOne(Kept(s, f));
    if Straddles(s, f) {
      StraddlingKeepsSuffix(s, f);
      assert Total([Kept(s, f)]) == |Kept(s, f)| + Total([]);
    }
  }

  lemma {:induction false} DeliveredSplits(s: uint16, fs: seq<seq<byte>>, k: nat)
    requires k < |fs| - 1
    ensures Delivered(s, fs)
         == Delivered(s, fs[..k + 1]) + Yield(SeqAt(s, fs, k), fs[k]) + Delivered(SeqAt(s, fs, k + 1), fs[k + 1..])
    decreases |fs|
  {
    var f, s', rest := fs[0], SeqAfter(s, Count(|fs[0]|)), fs[1..];
    if k == 0 {
      assert SeqAt(s, fs, 1) == s' && fs[0 + 1..] == rest && |fs[..0 + 1]| == 1;
      assert [] + Yield(s, f) == Yield(s, f);
    } else {
      DeliveredSplits(s', rest, k - 1);
      assert rest[k - 1] == fs[k] && rest[k..] == fs[k + 1..];
      assert fs[..k + 1][0] == f && fs[..k + 1][1..] == rest[..k];
      assert SeqAt(s, fs, k) == SeqAt(s', rest, k - 1) && SeqAt(s, fs, k + 1) == SeqAt(s', rest, k);
      InFront(Yield(s, f), Delivered(s', rest[..k]), Yield(SeqAt(s, fs, k), fs[k]),
              Delivered(SeqAt(s, fs, k + 1), rest[k..]));
    }
  }

  lemma {:induction false} InFront(w: seq<seq<byte>>, x: seq<seq<byte>>, y: seq<seq<byte>>, z: seq<seq<byte>>)
    ensures w + (x + y + z) == (w + x) + y + z
  {
  }

  /** What comes out for frame k stands between what comes out for the frames in front of it and what comes out for
      those behind it; it is the frame itself exactly when that is whole. */
  lemma {:induction false} WholeFrameDelivered(s: uint16, fs: seq<seq<byte>>, k: nat)
    requires k < |fs| - 1 && WellFormed(fs[k])
    ensures Delivered(s, fs)
         == Delivered(s, fs[..k + 1]) + Yield(SeqAt(s, fs, k), fs[k]) + Delivered(SeqAt(s, fs, k + 1), fs[k + 1..])
    ensures Yield(SeqAt(s, fs, k), fs[k]) == [fs[k]] <==> Whole(SeqAt(s, fs, k), fs[k])
  {
    DeliveredSplits(s, fs, k);
    YieldExactly(SeqAt(s, fs, k), fs[k]);
  }

  lemma {:induction false} BytesAdd(s: uint16, f: seq<byte>, more: seq<seq<byte>>, sent: seq<seq<byte>>)
    requires WellFormed(f) && Total(more) <= Total(sent)
    ensures Total(Yield(s, f) + more) <= Total([f] + sent)
    ensures Total(Yield(s, f) + more) == Total([f] + sent) ==> Whole(s, f) && Total(more) == Total(sent)
  {
    YieldExactly(s, f);
    TotalAppend(Yield(s, f), more);
    assert ([f] + sent)[0] == f && ([f] + sent)[1..] == sent;
  }

  lemma {:induction false} DeliveredUnfold(s: uint16, fs: seq<seq<byte>>)
    requires |fs| > 1
    ensures Delivered(s, fs) == Yield(s, fs[0]) + Delivered(SeqAfter(s, Count(|fs[0]|)), fs[1..])
    ensures fs[..|fs| - 1] == [fs[0]] + fs[1..][..|fs| - 2]
  {
  }

  /** No more bytes come out than were sent, and fewer as soon as one frame is not whole. */
  lemma {:induction false} BytesDelivered(s: uint16, fs: seq<seq<byte>>)
    requires fs != [] && AllWellFormed(fs)
    ensures Total(Delivered(s, fs)) <= Total(fs[..|fs| - 1])
    ensures Total(Delivered(s, fs)) == Total(fs[..|fs| - 1]) ==> Intact(s, fs)
    decreases |fs|
  {
    if |fs| > 1 {
      var s', rest := SeqAfter(s, Count(|fs[0]|)), fs[1..];
      BytesDelivered(s', rest);
      BytesAdd(s, fs[0], Delivered(s', rest), rest[..|rest| - 1]);
      DeliveredUnfold(s, fs);
      IntactUnfold(s, fs);
    }
  }

  lemma {:induction false} IntactDelivered(s: uint16, fs: seq<seq<byte>>)
    requires fs != [] && Intact(s, fs) && AllWellFormed(fs)
    ensures Delivered(s, fs) == fs[..|fs| - 1]
    decreases |fs|
  {
    if |fs| > 1 {
      IntactUnfold(s, fs);
      IntactDelivered(SeqAfter(s, Count(|fs[0]|)), fs[1..]);
      YieldExactly(s, fs[0]);
      DeliveredUnfold(s, fs);
    }
  }

  lemma {:induction false} DeliveredExactly(s: uint16, fs: seq<seq<byte>>)
    requires fs != [] && AllWellFormed(fs)
    ensures Delivered(s, fs) == fs[..|fs| - 1] <==> Intact(s, fs)
  {
    BytesDelivered(s, fs);
    if Intact(s, fs) {
      IntactDelivered(s, fs);
    }
  }

  /** The receiver returns exactly the frames sent, the last excepted, if and only if each of these is of a type the
      decoder takes and has no wrap of the counter inside. */
  lemma {:induction false} FragmentThenReassemble(s: uint16, ts: uint32, fs: seq<seq<byte>>)
    requires fs != [] && AllFit(fs) && AllWellFormed(fs)
    ensures Delivers(INIT, Arrivals(SendAll(s, ts, fs))) == fs[..|fs| - 1] <==> Intact(s, fs)
  {
    SendThenReceive(s, ts, fs);
    DeliveredExactly(s, fs);
  }

  function Zeros(n: nat): (z: seq<byte>)
    ensures |z| == n && forall i :: 0 <= i < n ==> z[i] == 0
  {
    if n == 0 then [] else [0] + Zeros(n - 1)
  }

  /** An I-frame of 1400 bytes: the header announces 1368 of payload, all of it zero. */
  function BlankFrame(): (f: seq<byte>)
    ensures |f| == 1400 && WellFormed(f) && Playable(f) && forall i :: 14 <= i < 1400 ==> f[i] == 0
  {
    [0, 0, 0, 0, 0x58, 5, 0, 0, 0, 0, 0, 0, 0, I_FRAME] + Zeros(1386)
  }

  /** A wrap that loses a frame: behind counter value 65534 the two packets of this one get the numbers 65535 and 0. */
  lemma {:induction false} WrapLosesFrame(ts: uint32)
    ensures var f := BlankFrame();
            && PacketsFit(f) && Straddles(0xFFFE, f)
            && Delivers(INIT, Arrivals(SendAll(0xFFFE, ts, [f, f]))) == []
  {
    var f := BlankFrame();
    QuotientIsDivision(1400, 2);
    assert Times(700, 1) == 700 + Times(700, 0) == 700;
    FixFits(1400);
    FragmentAt(0xFFFE, 0, f, 700, 2, 1);
    var tail := FrameFragments(0xFFFE, 0, f)[1..];
    assert tail == [FrameFragments(0xFFFE, 0, f)[1]];
    assert Payloads(tail) == f[700..] + Payloads([]) == f[700..];
    AcceptedOne(f[700..]);
    assert Delivered(0xFFFE, [f, f]) == Yield(0xFFFE, f) + Delivered(SeqAfter(0xFFFE, Count(1400)), [f, f][1..]);
    SendThenReceive(0xFFFE, ts, [f, f]);
  }
}

/** Safety under loss, duplication and reordering of packets. */
module LossyDelivery {
  import opened CString
  import opened Media
  import opened Packetiser
  import opened Reassembly
  import opened LosslessDelivery

  /** es[i..j] is a run of arrivals with consecutive sequence numbers and one timestamp. */
  predicate IsRun(es: seq<Event>, i: nat, j: nat) {
    && i < j <= |es|
    && (forall k :: i <= k < j ==> es[k].Arrive?)
    && (forall k :: i <= k < j ==> es[k].p.seqNo == es[i].p.seqNo + (k - i) && es[k].p.ts == es[i].p.ts)
  }

  function RunPackets(es: seq<Event>, i: nat, j: nat): (ps: seq<Packet>)
    requires i <= j <= |es| && forall k :: i <= k < j ==> es[k].Arrive?
    ensures |ps| == j - i && forall k :: 0 <= k < j - i ==> ps[k] == es[i + k].p
    decreases j - i
  {
    if i == j then [] else RunPackets(es, i, j - 1) + [es[j - 1].p]
  }

  /** b is what the packets of the run es[i..j] carry. */
  ghost predicate CarriedBy(b: seq<byte>, es: seq<Event>, i: nat, j: nat) {
    IsRun(es, i, j) && b == Payloads(RunPackets(es, i, j))
  }

  /** What holds of the state after es: the buffer is empty or carried by the run ending there. */
  ghost predicate Invariant(es: seq<Event>, s: State) {
    s.buf == [] ||
    exists i :: CarriedBy(s.buf, es, i, |es|)
             && s.lastSeq == es[|es| - 1].p.seqNo && s.lastTs == es[|es| - 1].p.ts
  }

  lemma {:induction false} RunPacketsPrefix(es: seq<Event>, e: Event, i: nat, j: nat)
    requires IsRun(es, i, j)
    ensures IsRun(es + [e], i, j) && RunPackets(es + [e], i, j) == RunPackets(es, i, j)
  {
  }

  lemma {:induction false} InvariantStep(es: seq<Event>, s: State, e: Event)
    requires Invariant(es, s)
    ensures Invariant(es + [e], Step(s, e))
  {
    if e.Arrive? {
      if Continues(s, e.p) && s.buf != [] {
        var i := RunGrows(es, s, e);
      } else {
        assert s.buf == [] ==> s.buf + e.p.payload == e.p.payload;
        RunStarts(es, e);
      }
    }
  }

  /** A packet alone is a run. */
  lemma {:induction false} RunStarts(es: seq<Event>, e: Event)
    requires e.Arrive?
    ensures CarriedBy(e.p.payload, es + [e], |es|, |es| + 1)
  {
    var t, n := es + [e], |es|;
    assert t[n] == e;
    assert RunPackets(t, n, n + 1) == [] + [e.p] == [e.p];
    assert Payloads([e.p]) == e.p.payload + Payloads([]) == e.p.payload;
  }

  /** A packet that continues the state makes the run longer. */
  lemma {:induction false} RunGrows(es: seq<Event>, s: State, e: Event) returns (i: nat)
    requires Invariant(es, s) && s.buf != [] && e.Arrive? && Continues(s, e.p)
    ensures CarriedBy(s.buf + e.p.payload, es + [e], i, |es| + 1)
  {
    var t, n := es + [e], |es|;
    i :| CarriedBy(s.buf, es, i, n) && s.lastSeq == es[n - 1].p.seqNo && s.lastTs == es[n - 1].p.ts;
    RunPacketsPrefix(es, e, i, n);
    assert RunPackets(t, i, n + 1) == RunPackets(es, i, n) + [e.p];
    PayloadsAppend(RunPackets(es, i, n), [e.p]);
    assert Payloads([e.p]) == e.p.payload + Payloads([]) == e.p.payload;
  }

  lemma {:induction false} RunSnoc(s: State, es: seq<Event>, e: Event)
    ensures Final(s, es + [e]) == Step(Final(s, es), e)
    ensures Closes(s, es + [e]) == Closes(s, es) + Closed(Final(s, es), e)
  {
    RunAppend(s, es, [e]);
    var t := Final(s, es);
    assert [e][1..] == [];
    assert Closes(t, [e]) == Closed(t, e) + [];
  }

  lemma {:induction false} InvariantHolds(es: seq<Event>)
    ensures Invariant(es, Final(INIT, es))
  {
    if es != [] {
      var n := |es| - 1;
      InvariantHolds(es[..n]);
      RunSnoc(INIT, es[..n], es[n]);
      InvariantStep(es[..n], Final(INIT, es[..n]), es[n]);
      assert es[..n] + [es[n]] == es;
    }
  }

  /** Every non-empty buffer ever closed is carried by a run of the events seen. */
  lemma {:induction false} ClosedIsCarried(es: seq<Event>, b: seq<byte>)
    requires b in Closes(INIT, es) && b != []
    ensures exists i, j :: CarriedBy(b, es, i, j)
  {
    if es != [] {
      var n := |es| - 1;
      var front := es[..n];
      RunSnoc(INIT, front, es[n]);
      assert front + [es[n]] == es;
      if b in Closes(INIT, front) {
        ClosedIsCarried(front, b);
        var i, j :| CarriedBy(b, front, i, j);
        RunPacketsPrefix(front, es[n], i, j);
        assert CarriedBy(b, es, i, j);
      } else {
        InvariantHolds(front);
        var i :| CarriedBy(b, front, i, n);
        RunPacketsPrefix(front, es[n], i, n);
        assert CarriedBy(b, es, i, n);
      }
    }
  }

  lemma {:induction false} AcceptedMembers(bs: seq<seq<byte>>, b: seq<byte>)
    ensures b in Accepted(bs) <==> b in bs && Complete(b) && Playable(b)
    decreases |bs|
  {
    if bs != [] {
      AcceptedMembers(bs[1..], b);
      assert bs == [bs[0]] + bs[1..];
    }
  }

  /** Whatever arrives, each delivered buffer is the payload of a run of packets with consecutive sequence
      numbers and one timestamp, and its length is the one its own header announces. */
  lemma {:induction false} DeliveredIsCarried(es: seq<Event>, b: seq<byte>)
    requires b in Delivers(INIT, es)
    ensures Complete(b) && Playable(b)
    ensures exists i, j :: CarriedBy(b, es, i, j)
  {
    AcceptedMembers(Closes(INIT, es), b);
    ClosedIsCarried(es, b);
  }

  /** The buffer leaves room for one more packet whenever a packet is awaited. */
  lemma {:induction false} BufferBounded(s: State, es: seq<Event>)
    requires |s.buf| <= 522888
    requires forall e <- es :: e.Arrive? ==> PacketFits(e.p)
    ensures |Final(s, es).buf| <= 522888
    decreases |es|
  {
    if es != [] {
      assert es[0] in es;
      BufferBounded(Step(s, es[0]), es[1..]);
    }
  }

  function TsAfter(ts: uint32, n: nat): uint32 {
    if n == 0 then ts else NextTs(TsAfter(ts, n - 1))
  }

  lemma {:induction false} TsAfterNext(ts: uint32, n: nat)
    ensures TsAfter(NextTs(ts), n) == TsAfter(ts, n + 1)
  {
    if n > 0 {
      TsAfterNext(ts, n - 1);
    }
  }

  lemma {:induction false} TsAfterWraps(ts: uint32, n: nat)
    requires n <= 0x1_0000_0000
    ensures TsAfter(ts, n) == if ts + n <= 0xFFFF_FFFF then ts + n else ts + n - 0x1_0000_0000
  {
    if n > 0 {
      TsAfterWraps(ts, n - 1);
    }
  }

  /** The packets of frame k of fs. */
  function Sent(s: uint16, ts: uint32, fs: seq<seq<byte>>, k: nat): seq<Packet>
    requires k < |fs|
  {
    FrameFragments(SeqAt(s, fs, k), TsAfter(ts, k + 1), fs[k])
  }

  lemma {:induction false} SentBySomeFrame(s: uint16, ts: uint32, fs: seq<seq<byte>>, p: Packet) returns (k: nat)
    requires p in SendAll(s, ts, fs)
    ensures k < |fs| && p in Sent(s, ts, fs, k)
    decreases |fs|
  {
    if p in FrameFragments(s, NextTs(ts), fs[0]) {
      k := 0;
      assert TsAfter(ts, 0) == ts && SeqAt(s, fs, 0) == s;
    } else {
      var j := SentBySomeFrame(SeqAfter(s, Count(|fs[0]|)), NextTs(ts), fs[1..], p);
      k := j + 1;
      TsAfterNext(ts, j + 1);
      assert fs[1..][j] == fs[k] && SeqAt(s, fs, k) == SeqAt(SeqAfter(s, Count(|fs[0]|)), fs[1..], j);
    }
  }

  /** A packet stamped like frame k belongs to it: stamps repeat only after 2^32 frames. */
  lemma {:induction false} StampIdentifiesFrame(s: uint16, ts: uint32, fs: seq<seq<byte>>, k: nat, p: Packet)
    requires k < |fs| < 0x1_0000_0000
    requires p in SendAll(s, ts, fs) && p.ts == TsAfter(ts, k + 1)
    ensures p in Sent(s, ts, fs, k)
  {
    var j := SentBySomeFrame(s, ts, fs, p);
    var i :| 0 <= i < Count(|fs[j]|) && p == Sent(s, ts, fs, j)[i];
    FrameFragmentAt(SeqAt(s, fs, j), TsAfter(ts, j + 1), fs[j], i);
    TsAfterWraps(ts, j + 1);
    TsAfterWraps(ts, k + 1);
  }

  /** In a frame of at most 375 packets the sequence number identifies the packet. */
  lemma {:induction false} SeqIdentifiesFragment(s: uint16, ts: uint32, f: seq<byte>, p: Packet, m: nat)
    requires Count(|f|) <= 375 && p in FrameFragments(s, ts, f)
    requires p.seqNo == SeqAfter(s, 1) + m
    ensures m < Count(|f|) && p == FrameFragments(s, ts, f)[m]
  {
    var i :| 0 <= i < Count(|f|) && p == FrameFragments(s, ts, f)[i];
    FrameFragmentAt(s, ts, f, i);
    SeqAfterWraps(s, i + 1);
    SeqAfterWraps(s, 1);
  }

  /** The run starts at the first packet of frame k and all its packets were sent for fs. */
  ghost predicate StartsAtFrame(es: seq<Event>, i: nat, j: nat, s: uint16, ts: uint32, fs: seq<seq<byte>>, k: nat)
    requires IsRun(es, i, j) && k < |fs|
  {
    && es[i].p == Sent(s, ts, fs, k)[0]
    && forall m :: i <= m < j ==> es[m].p in SendAll(s, ts, fs)
  }

  lemma {:induction false} RunIsPrefixOfFrame(es: seq<Event>, i: nat, j: nat, s: uint16, ts: uint32,
                                              fs: seq<seq<byte>>, k: nat)
    requires IsRun(es, i, j) && k < |fs| < 0x1_0000_0000
    requires StartsAtFrame(es, i, j, s, ts, fs, k) && |fs[k]| <= FRAME_MAX_SIZE
    ensures RunPackets(es, i, j) <= Sent(s, ts, fs, k)
  {
    var ps, rs := Sent(s, ts, fs, k), RunPackets(es, i, j);
    FragmentCountSmall(fs[k]);
    FrameFragmentAt(SeqAt(s, fs, k), TsAfter(ts, k + 1), fs[k], 0);
    forall m | 0 <= m < |rs| ensures m < |ps| && rs[m] == ps[m] {
      StampIdentifiesFrame(s, ts, fs, k, rs[m]);
      SeqIdentifiesFragment(SeqAt(s, fs, k), TsAfter(ts, k + 1), fs[k], rs[m], m);
    }
    var last := rs[|rs| - 1];
    assert rs == ps[..|rs|];
  }

  /** A prefix of a well-formed frame that is complete is the frame. */
  lemma {:induction false} CompletePrefixIsFrame(b: seq<byte>, f: seq<byte>)
    requires WellFormed(f) && b <= f && Complete(b)
    ensures b == f
  {
  }

  /** Under any loss, duplication or reordering of the packets sent for fs: if the run that carries a
      delivered buffer starts at the first packet of a frame, the buffer is that whole frame. */
  lemma {:induction false} DeliveredFromFirstPacketIsFrame(
      es: seq<Event>, b: seq<byte>, i: nat, j: nat, s: uint16, ts: uint32, fs: seq<seq<byte>>, k: nat)
    requires b in Delivers(INIT, es) && CarriedBy(b, es, i, j)
    requires k < |fs| < 0x1_0000_0000 && WellFormed(fs[k]) && StartsAtFrame(es, i, j, s, ts, fs, k)
    ensures b == fs[k]
  {
    DeliveredIsCarried(es, b);
    RunIsPrefixOfFrame(es, i, j, s, ts, fs, k);
    var ps, rs := Sent(s, ts, fs, k), RunPackets(es, i, j);
    assert ps == rs + ps[|rs|..];
    PayloadsAppend(rs, ps[|rs|..]);
    FramePayloads(SeqAt(s, fs, k), TsAfter(ts, k + 1), fs[k]);
    CompletePrefixIsFrame(b, fs[k]);
  }
}

/** The receiving thread's own variables. */
module Receiver {
  import opened CString
  import opened Media
  import opened Reassembly

  class VideoReceiver {
    var nLastSeq: uint32
    var nLastTs: uint32
    var nBufSize: nat
    const fullFrame: array<byte>

    ghost predicate Valid()
      reads this
    {
      fullFrame.Length == FRAME_MAX_SIZE && nBufSize <= FRAME_MAX_SIZE - MTU_LEN
    }

    ghost function Abs(): State
      reads this, fullFrame
      requires Valid()
    {
      State(nLastSeq, nLastTs, fullFrame[..nBufSize])
    }

    constructor ()
      ensures Valid() && fresh(fullFrame) && Abs() == INIT
    {
      fullFrame := new byte[FRAME_MAX_SIZE](_ => 0);
      nLastSeq, nLastTs, nBufSize := 0, 0, 0;
    }

    /** memcpy(full_frame_data + nBufSize, payload) and the length update. */
    method Append(payload: seq<byte>)
      requires Valid() && |payload| <= MTU_LEN - RTP_HEAD_LEN
      modifies this`nBufSize, fullFrame
      ensures nBufSize == old(nBufSize) + |payload| <= FRAME_MAX_SIZE
      ensures fullFrame[..nBufSize] == old(fullFrame[..nBufSize]) + payload
    {
      forall i | 0 <= i < |payload| {
        fullFrame[nBufSize + i] := payload[i];
      }
      nBufSize := nBufSize + |payload|;
      assert fullFrame[..nBufSize] == old(fullFrame[..nBufSize]) + payload;
    }

    /** One pass of the receive loop: a packet that fits net_Pack arrives. `frame` holds the frame given to
        the callback, if any. */
    method OnPacket(p: Packet) returns (frame: seq<seq<byte>>)
      requires Valid() && PacketFits(p)
      modifies this, fullFrame
      ensures Valid()
      ensures Abs() == Step(old(Abs()), Arrive(p))
      ensures frame == Accepted(Closed(old(Abs()), Arrive(p)))
    {
      frame := [];
      if nLastSeq + 1 == p.seqNo && nLastTs == p.ts {
        nLastSeq := p.seqNo;
        Append(p.payload);
        if nBufSize > FRAME_MAX_SIZE - MTU_LEN {
          nBufSize := 0;
        }
      } else {
        ghost var closed := fullFrame[..nBufSize];
        if nBufSize >= FRAME_HEAD_LEN {
          var recvFrameSize := Wrap32(FrameSize(fullFrame[..nBufSize]) + FRAME_HEAD_LEN);
          if nBufSize == recvFrameSize {
            if Playable(fullFrame[..nBufSize]) {
              frame := [fullFrame[..recvFrameSize]];
            }
            nBufSize := 0;
          }
        }
        assert frame == Accepted([closed]);
        nLastSeq := p.seqNo;
        nLastTs := p.ts;
        nBufSize := 0;
        Append(p.payload);
      }
    }

    /** Ten seconds without a packet. */
    method OnLinkLost()
      requires Valid()
      modifies this`nBufSize
      ensures Valid() && Abs() == Step(old(Abs()), LinkLost)
    {
      nBufSize := 0;
    }

    method OnEvent(e: Event) returns (frame: seq<seq<byte>>)
      requires Valid() && (e.Arrive? ==> PacketFits(e.p))
      modifies this, fullFrame
      ensures Valid()
      ensures Abs() == Step(old(Abs()), e)
      ensures frame == Accepted(Closed(old(Abs()), e))
    {
      match e
      case Arrive(p) =>
        frame := OnPacket(p);
      case LinkLost =>
        frame := [];
        OnLinkLost();
    }

    /** The receive loop over everything that happens to the socket. */
    method Receive(es: seq<Event>) returns (frames: seq<seq<byte>>)
      requires Valid()
      requires forall e <- es :: e.Arrive? ==> PacketFits(e.p)
      modifies this, fullFrame
      ensures Valid()
      ensures Abs() == Final(old(Abs()), es)
      ensures frames == Delivers(old(Abs()), es)
    {
      frames := [];
      ghost var end, all := Final(Abs(), es), Delivers(Abs(), es);
      assert es[0..] == es;
      var i := 0;
      while i < |es|
        invariant 0 <= i <= |es| && Valid()
        invariant Final(Abs(), es[i..]) == end
        invariant frames + Delivers(Abs(), es[i..]) == all
      {
        DeliversUnfold(Abs(), es, i);
        var frame := OnEvent(es[i]);
        ghost var rest := Delivers(Abs(), es[i + 1..]);
        Associative(frames, frame, rest);
        frames := frames + frame;
        i := i + 1;
      }
    }
  }
}

/** The two ends together: what the sender's calls send is what the receiver's loop is given. */
module Transmission {
  import opened CString
  import opened Media
  import opened Packetiser
  import opened Reassembly
  import opened LosslessDelivery
  import opened Receiver

  /** Frames whose packets fit the packet buffer, sent one after the other and received without loss by a receiver
      that is between two timestamps: what comes out for each frame but the last, and all of these frames, unchanged,
      exactly when they are whole. */
  method SendAndReceive(sender: Sender, receiver: VideoReceiver, fs: seq<seq<byte>>) returns (frames: seq<seq<byte>>)
    requires receiver.Valid() && AllFit(fs) && AllWellFormed(fs)
    requires receiver.nBufSize == 0
    modifies sender, receiver, receiver.fullFrame
    ensures receiver.Valid()
    ensures frames == Delivered(old(sender.seqNo), fs)
    ensures fs != [] ==> (frames == fs[..|fs| - 1] <==> Intact(old(sender.seqNo), fs))
  {
    ghost var s, ts, st := sender.seqNo, sender.ts, receiver.Abs();
    var packets := sender.SendFrames(fs);
    SentPacketsFit(s, ts, fs);
    ArrivalsAre(packets);
    frames := receiver.Receive(Arrivals(packets));
    SendThenReceiveFrom(st, s, ts, fs);
    if fs != [] {
      DeliveredExactly(s, fs);
    }
  }
}
