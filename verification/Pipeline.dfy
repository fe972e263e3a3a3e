/** From the sender's frames to the player's list: what the receiver delivers goes into the frame queue. */
module Pipeline {
  import opened CString
  import opened Media
  import opened Packetiser
  import opened Reassembly
  import opened LosslessDelivery
  import opened LossyDelivery
  import opened FrameQueueSpec

  /** Every packet fits the receiver's packet buffer. */
  ghost predicate ArrivalsFit(es: seq<Event>) {
    forall i :: 0 <= i < |es| && es[i].Arrive? ==> PacketFits(es[i].p)
  }

  lemma {:induction false} ClosedIsBounded(s: Reassembly.State, es: seq<Event>, b: seq<byte>)
    requires |s.buf| <= FRAME_MAX_SIZE - MTU_LEN && ArrivalsFit(es) && b in Closes(s, es)
    ensures |b| <= FRAME_MAX_SIZE - MTU_LEN
    decreases |es|
  {
    if b !in Closed(s, es[0]) {
      assert es[0].Arrive? ==> PacketFits(es[0].p);
      ClosedIsBounded(Step(s, es[0]), es[1..], b);
    }
  }

  /** A complete buffer announces its own length. */
  lemma {:induction false} CompleteIsExact(b: seq<byte>)
    requires Complete(b) && |b| <= FRAME_MAX_SIZE
    ensures FrameSize(b) + FRAME_HEAD_LEN == |b|
  {
  }

  /** Whatever happens to the packets, what the receiver delivers is what the queue takes, unchanged. */
  lemma {:induction false} DeliveredIsAcceptable(es: seq<Event>, b: seq<byte>)
    requires ArrivalsFit(es) && b in Delivers(Reassembly.INIT, es)
    ensures Acceptable(Input(b))
    ensures |b| > FRAME_HEAD_LEN ==> Staged(b) == b
  {
    AcceptedMembers(Closes(Reassembly.INIT, es), b);
    ClosedIsBounded(Reassembly.INIT, es, b);
    CompleteIsExact(b);
    assert b[..|b|] == b;
  }

  /** What the receiver delivers is put into the queue; the player's calls come anywhere in between. */
  function Deliveries(ops: seq<Op>): seq<seq<byte>> {
    if ops == [] then []
    else
      var last := ops[|ops| - 1];
      Deliveries(ops[..|ops| - 1]) + if last.Input? then [last.data] else []
  }

  /** The frames with a payload of one kind. */
  function FramesOf(k: Kind, bs: seq<seq<byte>>): seq<Frame> {
    if bs == [] then []
    else
      var last := bs[|bs| - 1];
      FramesOf(k, bs[..|bs| - 1]) + if |last| > FRAME_HEAD_LEN && KindOf(last) == k then [last] else []
  }

  /** One delivery more. */
  lemma {:induction false} OfferIsDelivery(k: Kind, b: seq<byte>)
    requires WellFormed(b)
    ensures Acceptable(Input(b))
    ensures Offer(k, Input(b)) == if |b| > FRAME_HEAD_LEN && KindOf(b) == k then [b] else []
  {
    assert b[..|b|] == b;
  }

  /** What is offered to a list is what was delivered for it. */
  lemma {:induction false} OfferedIsDelivered(k: Kind, ops: seq<Op>)
    requires AllWellFormed(Deliveries(ops))
    ensures AllAcceptable(ops) && Offered(k, ops) == FramesOf(k, Deliveries(ops))
    decreases |ops|
  {
    if ops != [] {
      var n := |ops| - 1;
      var front, last, bs := ops[..n], ops[n], Deliveries(ops[..n]);
      if last.Input? {
        assert Deliveries(ops)[..|bs|] == bs && Deliveries(ops)[|bs|] == last.data;
        OfferIsDelivery(k, last.data);
      } else {
        assert bs + [] == bs;
      }
      assert forall i :: 0 <= i < |bs| ==> bs[i] == Deliveries(ops)[i];
      OfferedIsDelivered(k, front);
      assert forall i :: 0 <= i < n ==> ops[i] == front[i];
      assert Offered(k, front) + [] == Offered(k, front);
    }
  }

  lemma {:induction false} DeliveredWellFormed(es: seq<Event>)
    requires ArrivalsFit(es)
    ensures AllWellFormed(Delivers(Reassembly.INIT, es))
  {
    var bs := Delivers(Reassembly.INIT, es);
    forall i | 0 <= i < |bs| ensures WellFormed(bs[i]) {
      assert bs[i] in bs;
      AcceptedMembers(Closes(Reassembly.INIT, es), bs[i]);
      ClosedIsBounded(Reassembly.INIT, es, bs[i]);
      CompleteIsExact(bs[i]);
    }
  }

  /** Whatever happens to the packets and whatever the player does meanwhile: what it has taken off a list, followed by
      what it still has, are the buffers delivered for that list, in order, with those left out that arrived when the
      list was full. */
  lemma {:induction false} ReceiverToPlayer(es: seq<Event>, k: Kind, ops: seq<Op>)
    requires ArrivalsFit(es) && Deliveries(ops) == Delivers(Reassembly.INIT, es)
    ensures AllAcceptable(ops)
    ensures var delivered, got := FramesOf(k, Delivers(Reassembly.INIT, es)),
                                  Taken(k, ops) + ListOf(k, Run(FrameQueueSpec.INIT, ops));
            && Subsequence(got, delivered)
            && (got == delivered <==> NeverFull(k, ops))
  {
    DeliveredWellFormed(es);
    OfferedIsDelivered(k, ops);
    QueueIsFifo(k, ops);
  }

  lemma {:induction false} SentArrivalsFit(s: uint16, ts: uint32, fs: seq<seq<byte>>)
    requires AllFit(fs)
    ensures ArrivalsFit(Arrivals(SendAll(s, ts, fs)))
  {
    var ps := SendAll(s, ts, fs);
    SentPacketsFit(s, ts, fs);
    ArrivalsAre(ps);
    forall i | 0 <= i < |Arrivals(ps)| ensures PacketFits(Arrivals(ps)[i].p) {
      assert Arrivals(ps)[i] in Arrivals(ps);
    }
  }

  /** Frames sent without loss reach the player in order, whatever the player does meanwhile: what it has taken off a
      list, followed by what it still has, are the frames that come out for that list, with those left out that arrived
      when the list was full. All frames but the last come out unchanged exactly when they are whole. */
  lemma {:induction false} SenderToPlayer(s: uint16, ts: uint32, fs: seq<seq<byte>>, k: Kind, ops: seq<Op>)
    requires fs != [] && AllFit(fs) && AllWellFormed(fs)
    requires Deliveries(ops) == Delivers(Reassembly.INIT, Arrivals(SendAll(s, ts, fs)))
    ensures AllAcceptable(ops)
    ensures var out, got := Delivered(s, fs), Taken(k, ops) + ListOf(k, Run(FrameQueueSpec.INIT, ops));
            && Subsequence(got, FramesOf(k, out))
            && (got == FramesOf(k, out) <==> NeverFull(k, ops))
            && (out == fs[..|fs| - 1] <==> Intact(s, fs))
  {
    SendThenReceive(s, ts, fs);
    DeliveredExactly(s, fs);
    SentArrivalsFit(s, ts, fs);
    ReceiverToPlayer(Arrivals(SendAll(s, ts, fs)), k, ops);
  }
}
