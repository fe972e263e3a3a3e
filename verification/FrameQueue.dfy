/** jni/playList.c: the two bounded frame lists between the receiver and the players. */
module FrameQueueSpec {
  import opened CString
  import opened Media

  const MAX_FRAME_LIST_NUM: nat := 200
  const LOST_FRAME_NUM: nat := 25

  /** A stored frame: header and payload. */
  type Frame = f: seq<byte> | |f| >= FRAME_HEAD_LEN witness seq(32, _ => 0)

  /** frame_head_t.frame_no: a little-endian word at offset 8. */
  function FrameNo(f: Frame): uint32 {
    var b0: int, b1: int, b2: int, b3: int := f[8], f[9], f[10], f[11];
    b0 + 0x100 * b1 + 0x1_0000 * b2 + 0x100_0000 * b3
  }

  lemma {:induction false} NumberIsRead(h: FrameHead, payload: seq<byte>)
    ensures FrameNo(HeadBytes(h) + payload) == h.frame_no
  {
    var f := HeadBytes(h) + payload;
    WordIsRead(h.frame_no);
    assert f[8..12] == Word(h.frame_no) && f[8] == f[8..12][0] && f[11] == f[8..12][3];
  }

  /** Addition on unsigned int. */
  function Plus32(a: uint32, b: uint32): uint32 {
    if a + b < 0x1_0000_0000 then a + b else a + b - 0x1_0000_0000
  }

  /** More than LOST_FRAME_NUM frames are missing in front of f. */
  predicate Gap(prev: uint32, f: Frame) {
    FrameNo(f) > Plus32(prev, LOST_FRAME_NUM)
  }

  /** The queued video frames, the queued audio frames and prev_Vframe_no. */
  datatype Queue = Queue(video: seq<Frame>, audio: seq<Frame>, prev: uint32)

  const INIT := Queue([], [], 2147483647)

  datatype Op = Input(data: seq<byte>) | GetVideo | GetAudio | RemoveVideo | RemoveAudio

  /** The frame read from the zero-filled staging buffer: header plus frame_size bytes. */
  function Staged(data: seq<byte>): Frame
    requires FRAME_HEAD_LEN < |data| <= FRAME_MAX_SIZE
    requires FrameSize(data) + FRAME_HEAD_LEN <= FRAME_MAX_SIZE
  {
    var n := FrameSize(data) + FRAME_HEAD_LEN;
    if n <= |data| then data[..n] else data + Zeros(n - |data|)
  }

  function Zeros(n: nat): (z: seq<byte>)
    ensures |z| == n
  {
    if n == 0 then [] else [0] + Zeros(n - 1)
  }

  /** A list that already holds more than MAX_FRAME_LIST_NUM frames drops the newcomer. */
  function Append(fs: seq<Frame>, f: Frame): seq<Frame> {
    if |fs| > MAX_FRAME_LIST_NUM then fs else fs + [f]
  }

  /** Drop frames until an I-frame leads. */
  function SkipToKey(fs: seq<Frame>): seq<Frame>
    decreases |fs|
  {
    if fs == [] || FrameType(fs[0]) == I_FRAME then fs else SkipToKey(fs[1..])
  }

  /** What the caller of Input must guarantee for a frame longer than its header. */
  predicate Acceptable(op: Op) {
    op.Input? && |op.data| > FRAME_HEAD_LEN ==>
      |op.data| <= FRAME_MAX_SIZE && FrameSize(op.data) + FRAME_HEAD_LEN <= FRAME_MAX_SIZE
  }

  function Apply(q: Queue, op: Op): Queue
    requires Acceptable(op)
  {
    match op
    case Input(data) =>
      if |data| <= FRAME_HEAD_LEN then q
      else if FrameType(data) == A_FRAME then q.(audio := Append(q.audio, Staged(data)))
      else q.(video := Append(q.video, Staged(data)))
    case GetVideo =>
      if q.video == [] then q
      else
        var v := if Gap(q.prev, q.video[0]) then SkipToKey(q.video) else q.video;
        q.(video := v, prev := if v == [] then q.prev else FrameNo(v[0]))
    case GetAudio => q
    case RemoveVideo => if q.video == [] then q else q.(video := q.video[1..])
    case RemoveAudio => if q.audio == [] then q else q.(audio := q.audio[1..])
  }

  /** The frame the caller sees: the head of the list after the operation. */
  function Returned(q: Queue, op: Op): Option<Frame>
    requires Acceptable(op)
  {
    var t := Apply(q, op);
    if op.GetVideo? && t.video != [] then Some(t.video[0])
    else if op.GetAudio? && t.audio != [] then Some(t.audio[0])
    else None
  }

  function Run(q: Queue, ops: seq<Op>): Queue
    requires AllAcceptable(ops)
  {
    if ops == [] then q else Apply(Run(q, ops[..|ops| - 1]), ops[|ops| - 1])
  }

  datatype Kind = Video | Audio

  function ListOf(k: Kind, q: Queue): seq<Frame> { if k == Video then q.video else q.audio }

  function KindOf(data: seq<byte>): Kind
    requires |data| >= FRAME_HEAD_LEN
  {
    if FrameType(data) == A_FRAME then Audio else Video
  }

  /** The frame of kind k that an operation offers: an input longer than a header. */
  function Offer(k: Kind, op: Op): seq<Frame>
    requires Acceptable(op)
  {
    if op.Input? && |op.data| > FRAME_HEAD_LEN && KindOf(op.data) == k then [Staged(op.data)] else []
  }

  /** A list of kind k takes another frame. */
  predicate HasRoom(k: Kind, q: Queue) { |ListOf(k, q)| <= MAX_FRAME_LIST_NUM }

  predicate AllAcceptable(ops: seq<Op>) { forall i :: 0 <= i < |ops| ==> Acceptable(ops[i]) }

  /** All frames of a kind that a run offers, and those of them that arrive while there is room. */
  function Offered(k: Kind, ops: seq<Op>): seq<Frame>
    requires AllAcceptable(ops)
  {
    if ops == [] then [] else Offered(k, ops[..|ops| - 1]) + Offer(k, ops[|ops| - 1])
  }

  function Accepted(k: Kind, ops: seq<Op>): seq<Frame>
    requires AllAcceptable(ops)
  {
    if ops == [] then []
    else
      var front := ops[..|ops| - 1];
      Accepted(k, front) + if HasRoom(k, Run(INIT, front)) then Offer(k, ops[|ops| - 1]) else []
  }

  /** The frames taken off the front of `before`, and all that are taken off during a run. */
  function TakenOff(before: seq<Frame>, after: seq<Frame>): seq<Frame> {
    if |after| < |before| then before[..|before| - |after|] else []
  }

  function Taken(k: Kind, ops: seq<Op>): seq<Frame>
    requires AllAcceptable(ops)
  {
    if ops == [] then []
    else
      var front := ops[..|ops| - 1];
      Taken(k, front) + TakenOff(ListOf(k, Run(INIT, front)), ListOf(k, Run(INIT, ops)))
  }

  /** a is b with some elements left out. */
  ghost predicate Subsequence(a: seq<Frame>, b: seq<Frame>)
    decreases |b|
  {
    a == []
    || (b != [] && ((a[|a| - 1] == b[|b| - 1] && Subsequence(a[..|a| - 1], b[..|b| - 1]))
                    || Subsequence(a, b[..|b| - 1])))
  }

  lemma {:induction false} SubsequenceSnoc(a: seq<Frame>, b: seq<Frame>, f: Frame)
    requires Subsequence(a, b)
    ensures Subsequence(a + [f], b + [f]) && Subsequence(a, b + [f])
  {
    assert (a + [f])[..|a|] == a && (b + [f])[..|b|] == b;
  }

  /** An offer more, taken or not. */
  lemma {:induction false} SubsequenceOffer(a: seq<Frame>, b: seq<Frame>, more: seq<Frame>, taken: bool)
    requires Subsequence(a, b) && |more| <= 1
    ensures Subsequence(a + (if taken then more else []), b + more)
  {
    assert a + [] == a && b + [] == b;
    if more != [] {
      assert more == [more[0]];
      SubsequenceSnoc(a, b, more[0]);
    }
  }

  /** Every accepted frame was offered, in that order. */
  lemma {:induction false} AcceptedWasOffered(k: Kind, ops: seq<Op>)
    requires AllAcceptable(ops)
    ensures Subsequence(Accepted(k, ops), Offered(k, ops))
    decreases |ops|
  {
    if ops != [] {
      var n := |ops| - 1;
      var front := ops[..n];
      AcceptedWasOffered(k, front);
      SubsequenceOffer(Accepted(k, front), Offered(k, front), Offer(k, ops[n]), HasRoom(k, Run(INIT, front)));
    }
  }

  /** Every frame of kind k arrives while there is room. */
  predicate NeverFull(k: Kind, ops: seq<Op>)
    requires AllAcceptable(ops)
  {
    forall i :: 0 <= i < |ops| && Offer(k, ops[i]) != [] ==> HasRoom(k, Run(INIT, ops[..i]))
  }

  lemma {:induction false} NeverFullSnoc(k: Kind, front: seq<Op>, op: Op)
    requires AllAcceptable(front) && Acceptable(op)
    ensures AllAcceptable(front + [op])
    ensures NeverFull(k, front + [op]) <==>
            NeverFull(k, front) && (Offer(k, op) != [] ==> HasRoom(k, Run(INIT, front)))
  {
    var ops := front + [op];
    assert ops[|front|] == op && ops[..|front|] == front;
    assert forall i :: 0 <= i < |front| ==> front[i] == ops[i] && front[..i] == ops[..i];
  }

  /** Exactly then nothing is dropped. */
  lemma {:induction false} AllOfferedAccepted(k: Kind, ops: seq<Op>)
    requires AllAcceptable(ops)
    ensures |Accepted(k, ops)| <= |Offered(k, ops)|
    ensures Accepted(k, ops) == Offered(k, ops) <==> NeverFull(k, ops)
    decreases |ops|
  {
    if ops != [] {
      var front, op := ops[..|ops| - 1], ops[|ops| - 1];
      assert ops == front + [op];
      NeverFullSnoc(k, front, op);
      AllOfferedAccepted(k, front);
      var more := if HasRoom(k, Run(INIT, front)) then Offer(k, op) else [];
      SameParts(Accepted(k, front), Offered(k, front), more, Offer(k, op));
    }
  }

  lemma {:induction false} SameParts(a: seq<Frame>, b: seq<Frame>, c: seq<Frame>, d: seq<Frame>)
    requires |a| <= |b| && |c| <= |d|
    ensures a + c == b + d <==> a == b && c == d
  {
    if a + c == b + d {
      assert a == (a + c)[..|a|] && b == (b + d)[..|b|] && c == (a + c)[|a|..] && d == (b + d)[|b|..];
    }
  }

  lemma {:induction false} SkipToKeySuffix(fs: seq<Frame>)
    ensures var v := SkipToKey(fs);
            && |v| <= |fs| && fs == fs[..|fs| - |v|] + v
            && (v != [] ==> FrameType(v[0]) == I_FRAME)
            && forall i :: 0 <= i < |fs| - |v| ==> FrameType(fs[i]) != I_FRAME
    decreases |fs|
  {
    if !(fs == [] || FrameType(fs[0]) == I_FRAME) {
      SkipToKeySuffix(fs[1..]);
      var v := SkipToKey(fs);
      assert fs[..|fs| - |v|] == [fs[0]] + fs[1..][..|fs| - 1 - |v|];
      forall i | 0 <= i < |fs| - |v| ensures FrameType(fs[i]) != I_FRAME {
        if i > 0 {
          assert fs[i] == fs[1..][i - 1];
        }
      }
    }
  }

  /** One operation puts the frame it offers behind the list if there is room, or takes frames off its front. */
  lemma {:induction false} ApplyMoves(k: Kind, q: Queue, op: Op)
    requires Acceptable(op)
    ensures var a, b := ListOf(k, q), ListOf(k, Apply(q, op));
            a + (if HasRoom(k, q) then Offer(k, op) else []) == TakenOff(a, b) + b
  {
    match op
    case Input(_) => InputMoves(k, q, op);
    case GetVideo => GetMoves(k, q);
    case GetAudio => NothingMoves(ListOf(k, q));
    case _ => RemoveMoves(k, q, op);
  }

  lemma {:induction false} NothingMoves(a: seq<Frame>)
    ensures a + [] == a && TakenOff(a, a) + a == a
  {
  }

  lemma {:induction false} RemoveMoves(k: Kind, q: Queue, op: Op)
    requires op.RemoveVideo? || op.RemoveAudio?
    ensures var a, b := ListOf(k, q), ListOf(k, Apply(q, op)); a + [] == TakenOff(a, b) + b
  {
    var a := ListOf(k, q);
    NothingMoves(a);
    if a != [] {
      assert TakenOff(a, a[1..]) == [a[0]] && a == [a[0]] + a[1..];
    }
  }

  lemma {:induction false} InputMoves(k: Kind, q: Queue, op: Op)
    requires op.Input? && Acceptable(op)
    ensures var a := ListOf(k, q);
            ListOf(k, Apply(q, op)) == a + (if HasRoom(k, q) then Offer(k, op) else [])
            && TakenOff(a, ListOf(k, Apply(q, op))) + ListOf(k, Apply(q, op)) == ListOf(k, Apply(q, op))
  {
    var a := ListOf(k, q);
    assert a + [] == a && [] + a == a;
  }

  lemma {:induction false} GetMoves(k: Kind, q: Queue)
    ensures var a, b := ListOf(k, q), ListOf(k, Apply(q, GetVideo)); a + [] == TakenOff(a, b) + b
  {
    SkipToKeySuffix(q.video);
    NothingMoves(ListOf(k, q));
  }

  lemma {:induction false} Regroup(taken: seq<Frame>, a: seq<Frame>, more: seq<Frame>, off: seq<Frame>, b: seq<Frame>)
    requires a + more == off + b
    ensures (taken + a) + more == (taken + off) + b
  {
    assert (taken + a) + more == taken + (a + more);
    assert taken + (off + b) == (taken + off) + b;
  }

  /** Conservation and order, for both lists: the frames accepted so far, which are frames that were put in, in the
      order of arrival, are those taken off followed by those still queued. */
  lemma {:induction false} QueueIsFifo(k: Kind, ops: seq<Op>)
    requires AllAcceptable(ops)
    ensures Accepted(k, ops) == Taken(k, ops) + ListOf(k, Run(INIT, ops))
    ensures Subsequence(Accepted(k, ops), Offered(k, ops))
    ensures Accepted(k, ops) == Offered(k, ops) <==> NeverFull(k, ops)
  {
    AcceptedIsTakenAndQueued(k, ops);
    AcceptedWasOffered(k, ops);
    AllOfferedAccepted(k, ops);
  }

  lemma {:induction false} AcceptedIsTakenAndQueued(k: Kind, ops: seq<Op>)
    requires AllAcceptable(ops)
    ensures Accepted(k, ops) == Taken(k, ops) + ListOf(k, Run(INIT, ops))
    decreases |ops|
  {
    if ops != [] {
      var n := |ops| - 1;
      var front, q := ops[..n], Run(INIT, ops[..n]);
      AcceptedIsTakenAndQueued(k, front);
      ApplyMoves(k, q, ops[n]);
      var a, b := ListOf(k, q), ListOf(k, Run(INIT, ops));
      Regroup(Taken(k, front), a, if HasRoom(k, q) then Offer(k, ops[n]) else [], TakenOff(a, b), b);
    }
  }

  lemma {:induction false} ApplyBounded(q: Queue, op: Op)
    requires Acceptable(op)
    ensures |Apply(q, op).video| <= if |q.video| > MAX_FRAME_LIST_NUM then |q.video| else MAX_FRAME_LIST_NUM + 1
    ensures |Apply(q, op).audio| <= if |q.audio| > MAX_FRAME_LIST_NUM then |q.audio| else MAX_FRAME_LIST_NUM + 1
  {
    SkipToKeySuffix(q.video);
  }

  /** A frame longer than its header goes to the end of its own list, audio or video, exactly if that holds at most 200
      frames; otherwise it is dropped. The other list stays. */
  lemma {:induction false} InputTakes(ops: seq<Op>, data: seq<byte>)
    requires AllAcceptable(ops + [Input(data)]) && AllAcceptable(ops) && |data| > 32
    ensures var q, t := Run(INIT, ops), Run(INIT, ops + [Input(data)]);
            var own, other := KindOf(data), if FrameType(data) == 3 then Video else Audio;
            && (own == Audio <==> FrameType(data) == 3)
            && ListOf(own, t) == (if |ListOf(own, q)| <= 200 then ListOf(own, q) + [Staged(data)] else ListOf(own, q))
            && ListOf(other, t) == ListOf(other, q)
  {
    assert (ops + [Input(data)])[..|ops|] == ops && (ops + [Input(data)])[|ops|] == Input(data);
  }

  /** Neither list ever holds more than 201 frames. */
  lemma {:induction false} QueueBounded(ops: seq<Op>)
    requires AllAcceptable(ops)
    ensures |Run(INIT, ops).video| <= 201
    ensures |Run(INIT, ops).audio| <= 201
    decreases |ops|
  {
    if ops != [] {
      var n := |ops| - 1;
      QueueBounded(ops[..n]);
      ApplyBounded(Run(INIT, ops[..n]), ops[n]);
    }
  }

  /** Asking for a video frame adds none. */
  lemma {:induction false} GetAcceptsNothing(ops: seq<Op>)
    requires AllAcceptable(ops)
    ensures var all := ops + [GetVideo];
            AllAcceptable(all) && Run(INIT, all) == Apply(Run(INIT, ops), GetVideo)
            && Accepted(Video, all) == Accepted(Video, ops)
  {
    var all := ops + [GetVideo];
    assert all[..|ops|] == ops && all[|ops|] == GetVideo;
    assert Accepted(Video, ops) + [] == Accepted(Video, ops);
  }

  /** A returned video frame follows its predecessor within LOST_FRAME_NUM (32-bit arithmetic) or is an
      I-frame, its number is remembered, and it is the first accepted frame not yet taken off. */
  lemma {:induction false} ReturnedVideoFrame(ops: seq<Op>)
    requires AllAcceptable(ops)
    ensures var q := Run(INIT, ops);
            var r := Returned(q, GetVideo);
            r.Some? ==>
              && (!Gap(q.prev, r.value) || FrameType(r.value) == I_FRAME)
              && Apply(q, GetVideo).prev == FrameNo(r.value)
              && |Taken(Video, ops + [GetVideo])| < |Accepted(Video, ops)|
              && r.value == Accepted(Video, ops)[|Taken(Video, ops + [GetVideo])|]
  {
    var q := Run(INIT, ops);
    SkipToKeySuffix(q.video);
    GetAcceptsNothing(ops);
    AcceptedIsTakenAndQueued(Video, ops + [GetVideo]);
  }

  /** The number of the video frame that was returned last. */
  function LastNumber(ops: seq<Op>): uint32
    requires AllAcceptable(ops)
  {
    if ops == [] then 2147483647
    else
      var front, op := ops[..|ops| - 1], ops[|ops| - 1];
      var r := Returned(Run(INIT, front), op);
      if op.GetVideo? && r.Some? then FrameNo(r.value) else LastNumber(front)
  }

  /** prev_Vframe_no: no other operation changes it. */
  lemma {:induction false} PrevIsLastNumber(ops: seq<Op>)
    requires AllAcceptable(ops)
    ensures Run(INIT, ops).prev == LastNumber(ops)
    decreases |ops|
  {
    if ops != [] {
      PrevIsLastNumber(ops[..|ops| - 1]);
    }
  }

  /** The accepted frames that have not been taken off. */
  function Waiting(k: Kind, ops: seq<Op>): seq<Frame>
    requires AllAcceptable(ops)
  {
    var n := |Taken(k, ops)|;
    if n <= |Accepted(k, ops)| then Accepted(k, ops)[n..] else []
  }

  lemma {:induction false} WaitingIsQueued(k: Kind, ops: seq<Op>)
    requires AllAcceptable(ops)
    ensures Waiting(k, ops) == ListOf(k, Run(INIT, ops))
  {
    AcceptedIsTakenAndQueued(k, ops);
  }

  lemma {:induction false} TakenByOne(k: Kind, ops: seq<Op>, op: Op)
    requires AllAcceptable(ops) && Acceptable(op)
    ensures AllAcceptable(ops + [op]) && Run(INIT, ops + [op]) == Apply(Run(INIT, ops), op)
    ensures Taken(k, ops + [op])
         == Taken(k, ops) + TakenOff(ListOf(k, Run(INIT, ops)), ListOf(k, Run(INIT, ops + [op])))
  {
    var all := ops + [op];
    assert all[..|ops|] == ops && all[|ops|] == op;
  }

  predicate HasKey(fs: seq<Frame>) { exists i :: 0 <= i < |fs| && FrameType(fs[i]) == I_FRAME }

  lemma {:induction false} SkippedHasNoKey(fs: seq<Frame>)
    ensures var v := SkipToKey(fs);
            |v| <= |fs| && !HasKey(fs[..|fs| - |v|]) && (v == [] <==> !HasKey(fs))
  {
    SkipToKeySuffix(fs);
    var v := SkipToKey(fs);
    var n := |fs| - |v|;
    if v != [] {
      assert fs[n] == v[0];
    } else {
      assert fs[..n] == fs;
    }
  }

  /** The first frame waiting is behind a gap: its number exceeds the last one returned by more than 25. */
  predicate BehindGap(ops: seq<Op>)
    requires AllAcceptable(ops)
  {
    var waiting, due := Waiting(Video, ops), LastNumber(ops) + 25;
    waiting != [] && FrameNo(waiting[0]) > if due <= 0xFFFF_FFFF then due else due - 0x1_0000_0000
  }

  lemma {:induction false} TakenOffFront(v: seq<Frame>, n: nat)
    requires n <= |v|
    ensures TakenOff(v, v[n..]) == v[..n]
  {
  }

  /** One call on the queue; n is the number of frames it takes off. */
  lemma {:induction false} GetSkips(q: Queue) returns (n: nat)
    ensures var v, r := q.video, Returned(q, GetVideo);
            && n <= |v| && Apply(q, GetVideo).video == v[n..] && Apply(q, GetVideo).audio == q.audio
            && (v == [] || !Gap(q.prev, v[0]) ==> n == 0)
            && (v != [] && Gap(q.prev, v[0]) ==>
                !HasKey(v[..n]) && (n == |v| <==> !HasKey(v)) && (n < |v| ==> FrameType(v[n]) == I_FRAME))
            && r == if n == |v| then None else Some(v[n])
  {
    n := 0;
    if q.video != [] && Gap(q.prev, q.video[0]) {
      SkipToKeySuffix(q.video);
      SkippedHasNoKey(q.video);
      n := |q.video| - |SkipToKey(q.video)|;
    }
  }

  /** What a call for a video frame takes off and returns, in terms of the accepted frames; n is the number taken off.
      Without a gap the first one waiting is returned and nothing is taken off; behind one, the frames in front of the
      first I-frame waiting are, and that I-frame is returned. Nothing is returned exactly if nothing is waiting, or
      there is a gap and no I-frame is waiting. */
  lemma {:induction false} GetVideoTakes(ops: seq<Op>) returns (n: nat)
    requires AllAcceptable(ops)
    ensures AllAcceptable(ops + [GetVideo])
    ensures var all, waiting, r := ops + [GetVideo], Waiting(Video, ops), Returned(Run(INIT, ops), GetVideo);
            && n <= |waiting| && Taken(Video, all) == Taken(Video, ops) + waiting[..n]
            && Taken(Audio, all) == Taken(Audio, ops)
            && (!BehindGap(ops) ==> n == 0)
            && (BehindGap(ops) ==> !HasKey(waiting[..n]) && (n < |waiting| ==> FrameType(waiting[n]) == I_FRAME))
            && (r.None? <==> waiting == [] || (BehindGap(ops) && !HasKey(waiting)))
            && (r.Some? ==> n < |waiting| && r.value == waiting[n])
  {
    var q := Run(INIT, ops);
    PrevIsLastNumber(ops);
    WaitingIsQueued(Video, ops);
    n := GetSkips(q);
    TakenByOne(Video, ops, GetVideo);
    TakenByOne(Audio, ops, GetVideo);
    TakenOffFront(q.video, n);
    TakenOffFront(q.audio, 0);
    assert q.audio[0..] == q.audio;
  }

  /** A call that removes the head takes off exactly that, from its own list. */
  lemma {:induction false} RemoveTakes(k: Kind, ops: seq<Op>)
    requires AllAcceptable(ops)
    ensures var op, other := if k == Video then RemoveVideo else RemoveAudio, if k == Video then Audio else Video;
            var all, waiting := ops + [op], Waiting(k, ops);
            && AllAcceptable(all)
            && Taken(k, all) == Taken(k, ops) + (if waiting == [] then [] else [waiting[0]])
            && Taken(other, all) == Taken(other, ops)
  {
    var op, other := if k == Video then RemoveVideo else RemoveAudio, if k == Video then Audio else Video;
    WaitingIsQueued(k, ops);
    TakenByOne(k, ops, op);
    TakenByOne(other, ops, op);
    var a := ListOf(k, Run(INIT, ops));
    if a != [] {
      assert a[..1] == [a[0]];
    }
  }

  /** What is stored of an input has the length its header announces: a prefix of the input, filled up with zeros. */
  lemma {:induction false} StagedIs(data: seq<byte>)
    requires FRAME_HEAD_LEN < |data| <= FRAME_MAX_SIZE && FrameSize(data) + FRAME_HEAD_LEN <= FRAME_MAX_SIZE
    ensures |Staged(data)| == FrameSize(data) + FRAME_HEAD_LEN
    ensures forall i :: 0 <= i < |Staged(data)| ==> Staged(data)[i] == if i < |data| then data[i] else 0
  {
    var n := FrameSize(data) + FRAME_HEAD_LEN;
    if n > |data| {
      ZerosAre(n - |data|);
    }
  }

  lemma {:induction false} ZerosAre(n: nat)
    ensures forall i :: 0 <= i < n ==> Zeros(n)[i] == 0
  {
    if n > 0 {
      ZerosAre(n - 1);
    }
  }

  /** A returned audio frame is the first accepted one not yet taken off. */
  lemma {:induction false} ReturnedAudioFrame(ops: seq<Op>)
    requires AllAcceptable(ops)
    ensures var r := Returned(Run(INIT, ops), GetAudio);
            if r.None? then Accepted(Audio, ops) == Taken(Audio, ops)
            else
              |Taken(Audio, ops)| < |Accepted(Audio, ops)|
              && r.value == Accepted(Audio, ops)[|Taken(Audio, ops)|]
  {
    AcceptedIsTakenAndQueued(Audio, ops);
  }
}

module FrameQueue {
  import opened CString
  import opened Media
  import opened FrameQueueSpec

  /** Hi3510_frame_t. */
  class FrameNode {
    const frame: Frame
    var next: FrameNode?

    constructor (frame: Frame)
      ensures this.frame == frame && next == null
    {
      this.frame := frame;
      next := null;
    }
  }

  /** The node at position i, or null behind the last one. */
  ghost function At(nodes: seq<FrameNode>, i: nat): FrameNode? {
    if i < |nodes| then nodes[i] else null
  }

  /** head leads a null-terminated chain of exactly these nodes, which hold these frames. */
  ghost predicate Chained(head: FrameNode?, nodes: seq<FrameNode>, frames: seq<Frame>)
    reads nodes
  {
    && |nodes| == |frames| && head == At(nodes, 0)
    && (forall i :: 0 <= i < |nodes| ==> nodes[i].next == At(nodes, i + 1) && nodes[i].frame == frames[i])
    && forall i, j :: 0 <= i < j < |nodes| ==> nodes[i] != nodes[j]
  }

  /** tp_add_node: walk to the last node, counting, and append unless the count is too high. */
  method AddNode(head: FrameNode, frame: Frame, ghost nodes: seq<FrameNode>, ghost frames: seq<Frame>)
    returns (ghost nodes': seq<FrameNode>)
    requires Chained(head, nodes, frames)
    modifies nodes
    ensures Chained(head, nodes', Append(frames, frame))
    ensures nodes' == nodes || exists x :: fresh(x) && nodes' == nodes + [x]
  {
    var i, last := 0, head;
    while last.next != null
      invariant Chained(head, nodes, frames) && i < |nodes| && last == nodes[i]
      decreases |nodes| - i
    {
      last := last.next;
      i := i + 1;
    }
    assert i == |nodes| - 1;
    if i >= MAX_FRAME_LIST_NUM {
      nodes' := nodes;
      return;
    }
    var node := new FrameNode(frame);
    last.next := node;
    nodes' := nodes + [node];
  }

  ghost predicate Apart(a: seq<FrameNode>, b: seq<FrameNode>) {
    forall i, j :: 0 <= i < |a| && 0 <= j < |b| ==> a[i] != b[j]
  }

  lemma {:induction false} ApartSwaps(a: seq<FrameNode>, b: seq<FrameNode>)
    requires Apart(a, b)
    ensures Apart(b, a)
  {
  }

  /** What st_inputFrameListTail does to one of its two lists: tp_new_node or tp_add_node. The other one is apart. */
  method Enqueue(head: FrameNode?, frame: Frame, ghost nodes: seq<FrameNode>, ghost frames: seq<Frame>,
                 ghost other: seq<FrameNode>, ghost otherHead: FrameNode?, ghost otherFrames: seq<Frame>)
    returns (head': FrameNode?, ghost nodes': seq<FrameNode>)
    requires Chained(head, nodes, frames) && Apart(nodes, other) && Chained(otherHead, other, otherFrames)
    modifies nodes
    ensures Chained(head', nodes', Append(frames, frame)) && Apart(nodes', other)
    ensures Chained(otherHead, other, otherFrames)
    ensures nodes' == nodes || exists x :: fresh(x) && nodes' == nodes + [x]
  {
    if head == null {
      head' := new FrameNode(frame);
      nodes' := [head'];
      assert nodes' == nodes + [head'];
    } else {
      head' := head;
      nodes' := AddNode(head, frame, nodes, frames);
    }
  }

  /** getFrameNum */
  method Count(head: FrameNode?, ghost nodes: seq<FrameNode>, ghost frames: seq<Frame>) returns (n: nat)
    requires Chained(head, nodes, frames)
    ensures n == |frames|
  {
    n := 0;
    var tmp := head;
    while tmp != null
      invariant n <= |nodes| && tmp == At(nodes, n)
      decreases |nodes| - n
    {
      tmp := tmp.next;
      n := n + 1;
    }
  }

  /** tp_playlistinst_t */
  class PlayList {
    var prevVframeNo: uint32
    var vframeList: FrameNode?
    var aframeList: FrameNode?
    ghost var videoNodes: seq<FrameNode>
    ghost var audioNodes: seq<FrameNode>
    ghost var video: seq<Frame>
    ghost var audio: seq<Frame>

    ghost predicate Valid()
      reads this, videoNodes, audioNodes
    {
      && Chained(vframeList, videoNodes, video)
      && Chained(aframeList, audioNodes, audio)
      && Apart(videoNodes, audioNodes)
    }

    ghost function Abs(): Queue
      reads this
    {
      Queue(video, audio, prevVframeNo)
    }

    constructor ()
      ensures Valid() && Abs() == INIT
    {
      prevVframeNo := 2147483647;
      vframeList, aframeList := null, null;
      videoNodes, audioNodes, video, audio := [], [], [], [];
    }

    /** st_inputFrameListTail */
    method InputTail(data: seq<byte>) returns (ok: int)
      requires Valid() && Acceptable(Input(data))
      modifies this, videoNodes, audioNodes
      ensures Valid() && Abs() == Apply(old(Abs()), Input(data))
      ensures ok == if |data| <= FRAME_HEAD_LEN then -1 else 0
      ensures forall j :: 0 <= j < |videoNodes| ==> videoNodes[j] in old(videoNodes) || fresh(videoNodes[j])
      ensures forall j :: 0 <= j < |audioNodes| ==> audioNodes[j] in old(audioNodes) || fresh(audioNodes[j])
    {
      if |data| <= FRAME_HEAD_LEN {
        return -1;
      }
      var frame := Staged(data);
      ok := 0;
      if FrameType(data) == A_FRAME {
        InputAudio(frame);
      } else {
        InputVideo(frame);
      }
    }

    method InputVideo(frame: Frame)
      requires Valid()
      modifies this`vframeList, this`videoNodes, this`video, videoNodes
      ensures Valid() && video == Append(old(video), frame)
      ensures forall j :: 0 <= j < |videoNodes| ==> videoNodes[j] in old(videoNodes) || fresh(videoNodes[j])
    {
      var head;
      ghost var nodes;
      head, nodes := Enqueue(vframeList, frame, videoNodes, video, audioNodes, aframeList, audio);
      SetVideo(head, nodes, Append(video, frame));
    }

    method SetVideo(head: FrameNode?, ghost nodes: seq<FrameNode>, ghost frames: seq<Frame>)
      requires Chained(head, nodes, frames) && Chained(aframeList, audioNodes, audio) && Apart(nodes, audioNodes)
      modifies this`vframeList, this`videoNodes, this`video
      ensures Valid() && videoNodes == nodes && video == frames
    {
      vframeList, videoNodes, video := head, nodes, frames;
    }

    method InputAudio(frame: Frame)
      requires Valid()
      modifies this`aframeList, this`audioNodes, this`audio, audioNodes
      ensures Valid() && audio == Append(old(audio), frame)
      ensures forall j :: 0 <= j < |audioNodes| ==> audioNodes[j] in old(audioNodes) || fresh(audioNodes[j])
    {
      var head;
      ghost var nodes;
      ApartSwaps(videoNodes, audioNodes);
      head, nodes := Enqueue(aframeList, frame, audioNodes, audio, videoNodes, vframeList, video);
      SetAudio(head, nodes, Append(audio, frame));
    }

    method SetAudio(head: FrameNode?, ghost nodes: seq<FrameNode>, ghost frames: seq<Frame>)
      requires Chained(head, nodes, frames) && Chained(vframeList, videoNodes, video) && Apart(nodes, videoNodes)
      modifies this`aframeList, this`audioNodes, this`audio
      ensures Valid() && audioNodes == nodes && audio == frames
    {
      aframeList, audioNodes, audio := head, nodes, frames;
      ApartSwaps(nodes, videoNodes);
    }

    /** st_removeFrameListHead for the video list */
    method RemoveVideoHead()
      requires Valid()
      modifies this`vframeList, this`videoNodes, this`video
      ensures Valid() && Abs() == Apply(old(Abs()), RemoveVideo)
      ensures forall j :: 0 <= j < |videoNodes| ==> videoNodes[j] in old(videoNodes) || fresh(videoNodes[j])
    {
      if vframeList != null {
        vframeList := vframeList.next;
        videoNodes, video := videoNodes[1..], video[1..];
      }
    }

    /** st_removeFrameListHead for the audio list */
    method RemoveAudioHead()
      requires Valid()
      modifies this`aframeList, this`audioNodes, this`audio
      ensures Valid() && Abs() == Apply(old(Abs()), RemoveAudio)
      ensures forall j :: 0 <= j < |audioNodes| ==> audioNodes[j] in old(audioNodes) || fresh(audioNodes[j])
    {
      if aframeList != null {
        aframeList := aframeList.next;
        audioNodes, audio := audioNodes[1..], audio[1..];
      }
    }

    /** The skipping loop of st_getFrameListHead. */
    method SkipVideoToKey()
      requires Valid()
      modifies this`vframeList, this`videoNodes, this`video
      ensures Valid() && video == SkipToKey(old(video))
      ensures forall j :: 0 <= j < |videoNodes| ==> videoNodes[j] in old(videoNodes) || fresh(videoNodes[j])
    {
      ghost var target := SkipToKey(video);
      while vframeList != null && FrameType(vframeList.frame) != I_FRAME
        invariant Valid() && SkipToKey(video) == target
        invariant forall j :: 0 <= j < |videoNodes| ==> videoNodes[j] in old(videoNodes) || fresh(videoNodes[j])
        decreases |video|
      {
        RemoveVideoHead();
      }
    }

    /** st_getFrameListHead for the video list */
    method GetVideoHead() returns (r: FrameNode?)
      requires Valid()
      modifies this`vframeList, this`videoNodes, this`video, this`prevVframeNo
      ensures Valid() && Abs() == Apply(old(Abs()), GetVideo)
      ensures forall j :: 0 <= j < |videoNodes| ==> videoNodes[j] in old(videoNodes) || fresh(videoNodes[j])
      ensures r == vframeList
      ensures (if r == null then None else Some(r.frame)) == Returned(old(Abs()), GetVideo)
    {
      if vframeList == null {
        return null;
      }
      if FrameNo(vframeList.frame) > Plus32(prevVframeNo, LOST_FRAME_NUM) {
        SkipVideoToKey();
      }
      if vframeList != null {
        prevVframeNo := FrameNo(vframeList.frame);
      }
      r := vframeList;
    }

    /** st_getFrameListHead for the audio list */
    method GetAudioHead() returns (r: FrameNode?)
      requires Valid()
      ensures r == aframeList
      ensures (if r == null then None else Some(r.frame)) == Returned(Abs(), GetAudio)
    {
      r := aframeList;
    }

    /** One call from outside, and the frame it returns. */
    method Do(op: Op) returns (r: Option<Frame>)
      requires Valid() && Acceptable(op)
      modifies this, videoNodes, audioNodes
      ensures Valid() && Abs() == Apply(old(Abs()), op) && r == Returned(old(Abs()), op)
      ensures forall j :: 0 <= j < |videoNodes| ==> videoNodes[j] in old(videoNodes) || fresh(videoNodes[j])
      ensures forall j :: 0 <= j < |audioNodes| ==> audioNodes[j] in old(audioNodes) || fresh(audioNodes[j])
    {
      r := None;
      match op
      case Input(data) =>
        var _ := InputTail(data);
      case GetVideo =>
        var n := GetVideoHead();
        r := if n == null then None else Some(n.frame);
      case GetAudio =>
        var n := GetAudioHead();
        r := if n == null then None else Some(n.frame);
      case RemoveVideo =>
        RemoveVideoHead();
      case RemoveAudio =>
        RemoveAudioHead();
    }

    /** Any calls in any order. */
    method DoAll(ops: seq<Op>)
      requires Valid() && AllAcceptable(ops)
      modifies this, videoNodes, audioNodes
      ensures Valid() && Abs() == Run(old(Abs()), ops)
      ensures forall j :: 0 <= j < |videoNodes| ==> videoNodes[j] in old(videoNodes) || fresh(videoNodes[j])
      ensures forall j :: 0 <= j < |audioNodes| ==> audioNodes[j] in old(audioNodes) || fresh(audioNodes[j])
      decreases |ops|
    {
      if ops != [] {
        DoAll(ops[..|ops| - 1]);
        var _ := Do(ops[|ops| - 1]);
      }
    }
  }
}
