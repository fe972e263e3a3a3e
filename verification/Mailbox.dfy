/** What the response mailbox of jni/netglobal.c does, as steps: the receiver adds replies, waiters evict old ones
    and look for theirs. Every step runs under the lock of the list. */
module MailboxSpec {
  import opened CString

  const RESP_TYPE := 2
  const MAX_AGE := 3000

  /** A reply (PACK_ELEMENT); `content` stands for the fields nobody compares. */
  datatype Reply = Reply(kind: int, cmd: seq<byte>, seqNo: int, content: seq<byte>, time: int)

  /** The list head is an entry too: all zero. */
  const HEAD := Reply(0, [], 0, [], 0)

  /** What WaitForResponse compares: answers by command and number, other messages by command only. */
  predicate Answers(r: Reply, cmd: seq<byte>, n: int) {
    r.cmd == cmd && (r.kind == RESP_TYPE ==> r.seqNo == n)
  }

  /** Position of the first reply that answers; |q| if there is none. */
  function Scan(q: seq<Reply>, cmd: seq<byte>, n: int): (i: nat)
    ensures i <= |q| && (i < |q| ==> Answers(q[i], cmd, n))
    ensures forall k :: 0 <= k < i ==> !Answers(q[k], cmd, n)
  {
    if q == [] then 0
    else if Answers(q[0], cmd, n) then 0
    else 1 + Scan(q[1..], cmd, n)
  }

  function Drop<T>(s: seq<T>, i: nat): seq<T>
    requires i < |s|
  {
    s[..i] + s[i + 1..]
  }

  /** A look through a list that is not empty. It goes on to the head itself after the last entry: `Broken` is the
      case in which the head is taken for a reply, unlinked and freed. */
  datatype Look = Delivered(reply: Reply) | Nothing | Broken

  function Find(q: seq<Reply>, cmd: seq<byte>, n: int): Look {
    var i := Scan(q, cmd, n);
    if i < |q| then Delivered(q[i])
    else if q != [] && Answers(HEAD, cmd, n) then Broken
    else Nothing
  }

  function After(q: seq<Reply>, cmd: seq<byte>, n: int): seq<Reply> {
    var i := Scan(q, cmd, n);
    if i < |q| then Drop(q, i) else q
  }

  /** A look can go wrong only for the empty command: the head is taken exactly if the command is empty, the list
      is not, and no reply answers. */
  lemma {:induction false} BrokenOnlyForEmptyCommand(q: seq<Reply>, cmd: seq<byte>, n: int)
    ensures Find(q, cmd, n) == Broken <==> cmd == [] && q != [] && forall k :: 0 <= k < |q| ==> !Answers(q[k], cmd, n)
  {
  }

  /** The newest entry is looked at first. It is taken if it has the command and, in the case of an answer, the number;
      other messages are taken whatever their number is. If it is not taken it stays, and the look goes on behind it. */
  lemma {:induction false} LookStep(r: Reply, q: seq<Reply>, cmd: seq<byte>, n: int)
    ensures r.cmd == cmd && (r.kind == 2 ==> r.seqNo == n) ==>
              Find([r] + q, cmd, n) == Delivered(r) && After([r] + q, cmd, n) == q
    ensures r.cmd != cmd || (r.kind == 2 && r.seqNo != n) ==>
              && (q != [] ==> Find([r] + q, cmd, n) == Find(q, cmd, n))
              && After([r] + q, cmd, n) == [r] + After(q, cmd, n)
  {
    var i := Scan(q, cmd, n);
    assert ([r] + q)[1..] == q;
    if i < |q| {
      assert Drop([r] + q, i + 1) == [r] + Drop(q, i);
    }
  }

  predicate TimedOut(r: Reply, now: int) { now - r.time >= MAX_AGE }

  /** The replies left by an eviction that reads the clock once per entry. */
  function Kept(q: seq<Reply>, now: seq<int>): seq<Reply>
    requires |now| >= |q|
  {
    if q == [] then []
    else (if TimedOut(q[0], now[0]) then [] else [q[0]]) + Kept(q[1..], now[1..])
  }

  function Expired(q: seq<Reply>, now: seq<int>): seq<Reply>
    requires |now| >= |q|
  {
    if q == [] then []
    else (if TimedOut(q[0], now[0]) then [q[0]] else []) + Expired(q[1..], now[1..])
  }

  /** What a waiter ends with: its reply, nothing before the time was up, or a look that went wrong; and the list. */
  datatype Waited = Waited(look: Look, queue: seq<Reply>)

  function AddAll(q: seq<Reply>, rs: seq<Reply>): seq<Reply>
    decreases |rs|
  {
    if rs == [] then q else AddAll([rs[0]] + q, rs[1..])
  }

  /** The polls of a waiter: in front of each look, some replies have arrived. */
  function Poll(q: seq<Reply>, cmd: seq<byte>, n: int, arrivals: seq<seq<Reply>>): Waited
    decreases |arrivals|
  {
    if arrivals == [] then Waited(Nothing, q)
    else
      var q1 := AddAll(q, arrivals[0]);
      var look := Find(q1, cmd, n);
      if look == Nothing then Poll(q1, cmd, n, arrivals[1..]) else Waited(look, After(q1, cmd, n))
  }

  // ---- runs -----------------------------------------------------------------------------------

  datatype Step =
    | Add(reply: Reply)
    | Evict(now: seq<int>)
    | Wait(cmd: seq<byte>, n: int)

  datatype Delivery = Delivery(cmd: seq<byte>, n: int, reply: Reply)

  /** The list, newest first; and what has happened. */
  datatype State = State(queue: seq<Reply>, added: seq<Reply>, delivered: seq<Delivery>, evicted: seq<Reply>,
                         count: int, broken: bool)

  const INIT := State([], [], [], [], 0, false)

  /** The clock is read once per entry. */
  predicate Enabled(st: State, step: Step) { step.Evict? ==> |step.now| >= |st.queue| }

  function Apply(st: State, step: Step): State
    requires Enabled(st, step)
  {
    if st.broken then st
    else
      match step
      case Add(r) => st.(queue := [r] + st.queue, added := st.added + [r], count := st.count + 1)
      case Evict(now) =>
        st.(queue := Kept(st.queue, now), evicted := st.evicted + Expired(st.queue, now),
            count := st.count - |Expired(st.queue, now)|)
      case Wait(cmd, n) =>
        match Find(st.queue, cmd, n)
        case Delivered(r) =>
          st.(queue := After(st.queue, cmd, n),
              delivered := st.delivered + [Delivery(cmd, n, r)], count := st.count - 1)
        case Nothing => st
        case Broken => st.(broken := true)
  }

  ghost predicate IsRun(st: State, steps: seq<Step>, end: State)
    decreases |steps|
  {
    if steps == [] then end == st
    else Enabled(st, steps[0]) && IsRun(Apply(st, steps[0]), steps[1..], end)
  }

  function Replies(ds: seq<Delivery>): seq<Reply> { if ds == [] then [] else [ds[0].reply] + Replies(ds[1..]) }

  predicate Subsequence(a: seq<Reply>, b: seq<Reply>)
    decreases |b|
  {
    a == [] || (b != [] && ((a[0] == b[0] && Subsequence(a[1..], b[1..])) || Subsequence(a, b[1..])))
  }

  function Reversed(s: seq<Reply>): seq<Reply>
    decreases |s|
  {
    if s == [] then [] else [s[|s| - 1]] + Reversed(s[..|s| - 1])
  }

  /** Nothing is lost, invented or delivered twice. */
  ghost predicate Conserved(added: seq<Reply>, ds: seq<Delivery>, evicted: seq<Reply>, q: seq<Reply>) {
    multiset(added) == multiset(Replies(ds)) + multiset(evicted) + multiset(q)
  }

  /** Every delivered reply answers its request. */
  predicate AllAnswer(ds: seq<Delivery>) {
    forall i :: 0 <= i < |ds| ==>
      ds[i].reply.cmd == ds[i].cmd && (ds[i].reply.kind == 2 ==> ds[i].reply.seqNo == ds[i].n)
  }

  /** What every run keeps: nothing is lost, invented or delivered twice; the counter is the length of the list; a
      delivered reply answers its request; the list is the newest-first order of arrival with gaps. */
  ghost predicate Sound(st: State) {
    && Conserved(st.added, st.delivered, st.evicted, st.queue)
    && st.count == |st.queue|
    && AllAnswer(st.delivered)
    && Subsequence(st.queue, Reversed(st.added))
  }

  lemma {:induction false} SubsequenceReflexive(a: seq<Reply>)
    ensures Subsequence(a, a)
    decreases |a|
  {
    if a != [] {
      SubsequenceReflexive(a[1..]);
    }
  }

  lemma {:induction false} SubsequenceTransitive(a: seq<Reply>, b: seq<Reply>, c: seq<Reply>)
    requires Subsequence(a, b) && Subsequence(b, c)
    ensures Subsequence(a, c)
    decreases |c|, |b|
  {
    if a != [] {
      if b[0] == c[0] && Subsequence(b[1..], c[1..]) {
        if a[0] == b[0] && Subsequence(a[1..], b[1..]) {
          SubsequenceTransitive(a[1..], b[1..], c[1..]);
        } else {
          SubsequenceTransitive(a, b[1..], c[1..]);
        }
      } else {
        SubsequenceTransitive(a, b, c[1..]);
      }
    }
  }

  lemma {:induction false} SubsequenceCons(x: Reply, a: seq<Reply>, b: seq<Reply>)
    requires Subsequence(a, b)
    ensures Subsequence([x] + a, [x] + b) && Subsequence(a, [x] + b)
  {
  }

  lemma {:induction false} DropIsSubsequence(q: seq<Reply>, i: nat)
    requires i < |q|
    ensures Subsequence(Drop(q, i), q)
    decreases |q|
  {
    assert q == [q[0]] + q[1..];
    if i == 0 {
      assert Drop(q, 0) == q[1..];
      SubsequenceReflexive(q[1..]);
      SubsequenceCons(q[0], q[1..], q[1..]);
    } else {
      DropIsSubsequence(q[1..], i - 1);
      SubsequenceCons(q[0], Drop(q[1..], i - 1), q[1..]);
      assert Drop(q, i) == [q[0]] + Drop(q[1..], i - 1);
    }
  }

  lemma {:induction false} DropTakesOne(q: seq<Reply>, i: nat)
    requires i < |q|
    ensures multiset(q) == multiset(Drop(q, i)) + multiset{q[i]}
  {
    assert q == q[..i] + [q[i]] + q[i + 1..];
  }

  lemma {:induction false} KeptIsSubsequence(q: seq<Reply>, now: seq<int>)
    requires |now| >= |q|
    ensures Subsequence(Kept(q, now), q)
    decreases |q|
  {
    if q != [] {
      KeptIsSubsequence(q[1..], now[1..]);
      SubsequenceCons(q[0], Kept(q[1..], now[1..]), q[1..]);
      assert q == [q[0]] + q[1..];
      assert [] + Kept(q[1..], now[1..]) == Kept(q[1..], now[1..]);
    }
  }

  lemma {:induction false} KeptAndExpired(q: seq<Reply>, now: seq<int>)
    requires |now| >= |q|
    ensures multiset(q) == multiset(Kept(q, now)) + multiset(Expired(q, now))
    ensures |q| == |Kept(q, now)| + |Expired(q, now)|
    decreases |q|
  {
    if q != [] {
      var k, e := Kept(q[1..], now[1..]), Expired(q[1..], now[1..]);
      KeptAndExpired(q[1..], now[1..]);
      OneMore(q, k, e);
      assert [] + k == k && [] + e == e;
    }
  }

  lemma {:induction false} OneMore(q: seq<Reply>, k: seq<Reply>, e: seq<Reply>)
    requires q != [] && multiset(q[1..]) == multiset(k) + multiset(e)
    ensures multiset(q) == multiset([q[0]] + k) + multiset(e)
    ensures multiset(q) == multiset(k) + multiset([q[0]] + e)
  {
    Bag(q[0], q[1..]);
    Bag(q[0], k);
    Bag(q[0], e);
    assert q == [q[0]] + q[1..];
  }

  lemma {:induction false} Bag(x: Reply, a: seq<Reply>)
    ensures multiset([x] + a) == multiset{x} + multiset(a)
  {
  }

  lemma {:induction false} RepliesAppend(ds: seq<Delivery>, d: Delivery)
    ensures Replies(ds + [d]) == Replies(ds) + [d.reply]
    decreases |ds|
  {
    if ds == [] {
      assert ds + [d] == [d] && [d][1..] == [];
    } else {
      assert (ds + [d])[0] == ds[0] && (ds + [d])[1..] == ds[1..] + [d];
      RepliesAppend(ds[1..], d);
    }
  }

  lemma {:induction false} ApplySound(st: State, step: Step)
    requires Sound(st) && Enabled(st, step)
    ensures Sound(Apply(st, step))
  {
    if !st.broken {
      match step
      case Add(r) => AddSound(st, r);
      case Evict(now) => EvictSound(st, now);
      case Wait(cmd, n) => WaitSound(st, cmd, n);
    }
  }

  lemma {:induction false} AddSound(st: State, r: Reply)
    requires Sound(st) && !st.broken
    ensures Sound(Apply(st, Add(r)))
  {
  }

  lemma {:induction false} EvictSound(st: State, now: seq<int>)
    requires Sound(st) && !st.broken && |now| >= |st.queue|
    ensures Sound(Apply(st, Evict(now)))
  {
    KeptAndExpired(st.queue, now);
    KeptIsSubsequence(st.queue, now);
    SubsequenceTransitive(Kept(st.queue, now), st.queue, Reversed(st.added));
  }

  lemma {:induction false} WaitSound(st: State, cmd: seq<byte>, n: int)
    requires Sound(st) && !st.broken
    ensures Sound(Apply(st, Wait(cmd, n)))
  {
    var i := Scan(st.queue, cmd, n);
    if i < |st.queue| {
      TakenSound(st, cmd, n, i);
    }
  }

  /** A reply that answers goes from the list to the waiter. */
  lemma {:induction false} TakenSound(st: State, cmd: seq<byte>, n: int, i: nat)
    requires Sound(st) && i < |st.queue| && Answers(st.queue[i], cmd, n)
    ensures Sound(st.(queue := Drop(st.queue, i), delivered := st.delivered + [Delivery(cmd, n, st.queue[i])],
                      count := st.count - 1))
  {
    var q, ds := Drop(st.queue, i), st.delivered + [Delivery(cmd, n, st.queue[i])];
    DropKeepsOrder(st.queue, i, Reversed(st.added));
    DropKeepsBag(st.added, st.delivered, st.evicted, st.queue, i, Delivery(cmd, n, st.queue[i]));
    OneMoreAnswers(st.delivered, Delivery(cmd, n, st.queue[i]));
    SoundParts(st.added, ds, st.evicted, q, st.count - 1, st.broken);
  }

  lemma {:induction false} OneMoreAnswers(ds: seq<Delivery>, d: Delivery)
    requires AllAnswer(ds) && Answers(d.reply, d.cmd, d.n)
    ensures AllAnswer(ds + [d])
  {
  }

  lemma {:induction false} SoundParts(added: seq<Reply>, ds: seq<Delivery>, evicted: seq<Reply>, q: seq<Reply>,
                                      count: int, broken: bool)
    requires Conserved(added, ds, evicted, q) && AllAnswer(ds) && Subsequence(q, Reversed(added)) && count == |q|
    ensures Sound(State(q, added, ds, evicted, count, broken))
  {
  }

  lemma {:induction false} DropKeepsOrder(q: seq<Reply>, i: nat, all: seq<Reply>)
    requires i < |q| && Subsequence(q, all)
    ensures Subsequence(Drop(q, i), all)
  {
    DropIsSubsequence(q, i);
    SubsequenceTransitive(Drop(q, i), q, all);
  }

  lemma {:induction false} DropKeepsBag(added: seq<Reply>, ds: seq<Delivery>, evicted: seq<Reply>, q: seq<Reply>,
                                        i: nat, d: Delivery)
    requires i < |q| && d.reply == q[i] && Conserved(added, ds, evicted, q)
    ensures Conserved(added, ds + [d], evicted, Drop(q, i))
  {
    DropTakesOne(q, i);
    OneMoreReply(ds, d);
  }

  lemma {:induction false} OneMoreReply(ds: seq<Delivery>, d: Delivery)
    ensures multiset(Replies(ds + [d])) == multiset(Replies(ds)) + multiset{d.reply}
  {
    RepliesAppend(ds, d);
  }

  /** Over every interleaving of additions, evictions and waits. */
  lemma {:induction false} MailboxSafety(st: State, steps: seq<Step>, end: State)
    requires Sound(st) && IsRun(st, steps, end)
    ensures Sound(end)
    decreases |steps|
  {
    if steps != [] {
      ApplySound(st, steps[0]);
      MailboxSafety(Apply(st, steps[0]), steps[1..], end);
    }
  }

  /** No reply goes to two waiters, and a waiter gets what it asked for. */
  lemma {:induction false} EachReplyOnce(steps: seq<Step>, end: State)
    requires IsRun(INIT, steps, end)
    ensures multiset(Replies(end.delivered)) <= multiset(end.added)
    ensures forall i :: 0 <= i < |end.delivered| ==>
              Answers(end.delivered[i].reply, end.delivered[i].cmd, end.delivered[i].n)
    ensures end.count == |end.added| - |end.delivered| - |end.evicted|
  {
    MailboxSafety(INIT, steps, end);
    RepliesLength(end.delivered);
    assert |multiset(end.added)|
           == |multiset(Replies(end.delivered))| + |multiset(end.evicted)| + |multiset(end.queue)|;
  }

  lemma {:induction false} RepliesLength(ds: seq<Delivery>)
    ensures |Replies(ds)| == |ds|
    decreases |ds|
  {
    if ds != [] {
      RepliesLength(ds[1..]);
    }
  }

  predicate NeverEmptyCommand(steps: seq<Step>) {
    forall i :: 0 <= i < |steps| && steps[i].Wait? ==> steps[i].cmd != []
  }

  /** A run in which nobody waits for the empty command never touches the list head. */
  lemma {:induction false} NeverBroken(st: State, steps: seq<Step>, end: State)
    requires IsRun(st, steps, end) && NeverEmptyCommand(steps) && !st.broken
    ensures !end.broken
    decreases |steps|
  {
    if steps != [] {
      if steps[0].Wait? {
        BrokenOnlyForEmptyCommand(st.queue, steps[0].cmd, steps[0].n);
      }
      forall i | 0 <= i < |steps[1..]| && steps[1..][i].Wait? ensures steps[1..][i].cmd != [] {
        assert steps[1..][i] == steps[i + 1];
      }
      NeverBroken(Apply(st, steps[0]), steps[1..], end);
    }
  }

  /** The entries of q at the positions ps. */
  function Pick(q: seq<Reply>, ps: seq<nat>): (r: seq<Reply>)
    requires forall i :: 0 <= i < |ps| ==> ps[i] < |q|
    ensures |r| == |ps| && forall i :: 0 <= i < |ps| ==> r[i] == q[ps[i]]
  {
    if ps == [] then [] else [q[ps[0]]] + Pick(q, ps[1..])
  }

  /** The entry is three seconds old, or not, when the clock is read for it. */
  predicate IsLate(r: Reply, now: int, late: bool) { (now - r.time >= 3000) == late }

  /** ps are, in order, exactly the positions whose entry is late (or is not) at its own reading of the clock. */
  ghost predicate ArePositions(ps: seq<nat>, q: seq<Reply>, now: seq<int>, late: bool)
    requires |now| >= |q|
  {
    && (forall i :: 0 <= i < |ps| ==> ps[i] < |q|)
    && (forall i, j :: 0 <= i < j < |ps| ==> ps[i] < ps[j])
    && forall k: nat :: k in ps <==> k < |q| && IsLate(q[k], now[k], late)
  }

  /** The positions in [x] + q, given those in q. */
  function Behind(ps: seq<nat>, first: bool): (r: seq<nat>) {
    (if first then [0] else []) + Moved(ps)
  }

  function Moved(ps: seq<nat>): (r: seq<nat>)
    ensures |r| == |ps| && forall i :: 0 <= i < |ps| ==> r[i] == ps[i] + 1
  {
    if ps == [] then [] else [ps[0] + 1] + Moved(ps[1..])
  }

  lemma {:induction false} PositionsBehind(ps: seq<nat>, q: seq<Reply>, now: seq<int>, late: bool)
    requires q != [] && |now| >= |q| && ArePositions(ps, q[1..], now[1..], late)
    ensures ArePositions(Behind(ps, IsLate(q[0], now[0], late)), q, now, late)
  {
    var first := IsLate(q[0], now[0], late);
    forall k: nat ensures k in Behind(ps, first) <==> k < |q| && IsLate(q[k], now[k], late) {
      BehindHas(ps, first, k);
      if k > 0 {
        assert k - 1 in ps <==> k - 1 < |q[1..]| && IsLate(q[1..][k - 1], now[1..][k - 1], late);
      }
    }
    BehindAscends(ps, first);
  }

  lemma {:induction false} BehindHas(ps: seq<nat>, first: bool, k: nat)
    ensures k in Behind(ps, first) <==> if k == 0 then first else k - 1 in ps
  {
    MovedHas(ps, k);
  }

  lemma {:induction false} BehindAscends(ps: seq<nat>, first: bool)
    requires forall i, j :: 0 <= i < j < |ps| ==> ps[i] < ps[j]
    ensures var r := Behind(ps, first); forall i, j :: 0 <= i < j < |r| ==> r[i] < r[j]
  {
  }

  lemma {:induction false} MovedHas(ps: seq<nat>, k: nat)
    ensures k in Moved(ps) <==> k > 0 && k - 1 in ps
  {
    if k > 0 && k - 1 in ps {
      var i :| 0 <= i < |ps| && ps[i] == k - 1;
      assert Moved(ps)[i] == k;
    }
  }

  lemma {:induction false} PickBehind(q: seq<Reply>, ps: seq<nat>, first: bool)
    requires q != [] && forall i :: 0 <= i < |ps| ==> ps[i] < |q[1..]|
    ensures forall i :: 0 <= i < |Behind(ps, first)| ==> Behind(ps, first)[i] < |q|
    ensures Pick(q, Behind(ps, first)) == (if first then [q[0]] else []) + Pick(q[1..], ps)
  {
    var rest := Moved(ps);
    PickMoved(q, ps);
    if first {
      PickFirst(q, rest);
    } else {
      assert [] + rest == rest && [] + Pick(q, rest) == Pick(q, rest);
    }
  }

  lemma {:induction false} PickFirst(q: seq<Reply>, ps: seq<nat>)
    requires q != [] && forall i :: 0 <= i < |ps| ==> ps[i] < |q|
    ensures forall i :: 0 <= i <= |ps| ==> ([0] + ps)[i] < |q|
    ensures Pick(q, [0] + ps) == [q[0]] + Pick(q, ps)
  {
    assert ([0] + ps)[1..] == ps;
  }

  lemma {:induction false} PickMoved(q: seq<Reply>, ps: seq<nat>)
    requires q != [] && forall i :: 0 <= i < |ps| ==> ps[i] < |q[1..]|
    ensures Pick(q, Moved(ps)) == Pick(q[1..], ps)
  {
  }

  /** An eviction removes exactly the entries that are three seconds old when the clock is read for them, in their
      order. */
  lemma {:induction false} ExpiredExactly(q: seq<Reply>, now: seq<int>) returns (gone: seq<nat>)
    requires |now| >= |q|
    ensures ArePositions(gone, q, now, true) && Expired(q, now) == Pick(q, gone)
    decreases |q|
  {
    gone := [];
    if q != [] {
      var ps := ExpiredExactly(q[1..], now[1..]);
      var first := IsLate(q[0], now[0], true);
      gone := Behind(ps, first);
      PositionsBehind(ps, q, now, true);
      PickBehind(q, ps, first);
    }
  }

  /** And it keeps exactly the others, in their order. */
  lemma {:induction false} KeptExactly(q: seq<Reply>, now: seq<int>) returns (stay: seq<nat>)
    requires |now| >= |q|
    ensures ArePositions(stay, q, now, false) && Kept(q, now) == Pick(q, stay)
    decreases |q|
  {
    stay := [];
    if q != [] {
      var ps := KeptExactly(q[1..], now[1..]);
      var first := IsLate(q[0], now[0], false);
      stay := Behind(ps, first);
      PositionsBehind(ps, q, now, false);
      PickBehind(q, ps, first);
    }
  }

  // ---- a whole wait as a run ------------------------------------------------------------------

  lemma {:induction false} RunAppend(st: State, a: seq<Step>, mid: State, b: seq<Step>, end: State)
    requires IsRun(st, a, mid) && IsRun(mid, b, end)
    ensures IsRun(st, a + b, end)
    decreases |a|
  {
    if a == [] {
      assert a + b == b;
    } else {
      assert (a + b)[0] == a[0] && (a + b)[1..] == a[1..] + b;
      RunAppend(Apply(st, a[0]), a[1..], mid, b, end);
    }
  }

  lemma {:induction false} RunOne(st: State, step: Step)
    requires Enabled(st, step)
    ensures IsRun(st, [step], Apply(st, step))
  {
  }

  lemma {:induction false} AddsAreRun(st: State, rs: seq<Reply>) returns (steps: seq<Step>, end: State)
    requires !st.broken
    ensures IsRun(st, steps, end)
    ensures end == st.(queue := AddAll(st.queue, rs), added := st.added + rs, count := st.count + |rs|)
    decreases |rs|
  {
    if rs == [] {
      steps, end := [], st;
      assert st.added + rs == st.added;
    } else {
      var more;
      more, end := AddsAreRun(Apply(st, Add(rs[0])), rs[1..]);
      steps := [Add(rs[0])] + more;
      assert steps[1..] == more;
      assert st.added + [rs[0]] + rs[1..] == st.added + rs;
    }
  }

  /** The looks of a waiter and the arrivals between them are a run that delivers what the waiter gets, to it and
      to nobody else. */
  lemma {:induction false} PollIsRun(st: State, cmd: seq<byte>, n: int, arrivals: seq<seq<Reply>>)
    returns (steps: seq<Step>, end: State)
    requires !st.broken
    ensures IsRun(st, steps, end)
    ensures var w := Poll(st.queue, cmd, n, arrivals);
            && (end.broken <==> w.look == Broken)
            && (w.look != Broken ==> end.queue == w.queue)
            && end.delivered == st.delivered + (if w.look.Delivered? then [Delivery(cmd, n, w.look.reply)] else [])
            && end.evicted == st.evicted
    decreases |arrivals|
  {
    if arrivals == [] {
      steps, end := [], st;
    } else {
      var adds, mid := AddsAreRun(st, arrivals[0]);
      var next := Apply(mid, Wait(cmd, n));
      RunOne(mid, Wait(cmd, n));
      RunAppend(st, adds, mid, [Wait(cmd, n)], next);
      steps, end := adds + [Wait(cmd, n)], next;
      if Find(mid.queue, cmd, n) == Nothing {
        var more;
        more, end := PollIsRun(next, cmd, n, arrivals[1..]);
        RunAppend(st, steps, next, more, end);
        steps := steps + more;
      }
    }
  }

  /** All of WaitForResponse, the eviction in front included. */
  lemma {:induction false} WaitIsRun(st: State, cmd: seq<byte>, n: int, now: seq<int>, arrivals: seq<seq<Reply>>)
    returns (steps: seq<Step>, end: State)
    requires !st.broken && |now| >= |st.queue|
    ensures IsRun(st, steps, end)
    ensures var w := Poll(Kept(st.queue, now), cmd, n, arrivals);
            && (end.broken <==> w.look == Broken)
            && (w.look != Broken ==> end.queue == w.queue)
            && end.delivered == st.delivered + (if w.look.Delivered? then [Delivery(cmd, n, w.look.reply)] else [])
            && end.evicted == st.evicted + Expired(st.queue, now)
  {
    var mid := Apply(st, Evict(now));
    RunOne(st, Evict(now));
    var looks;
    looks, end := PollIsRun(mid, cmd, n, arrivals);
    RunAppend(st, [Evict(now)], mid, looks, end);
    steps := [Evict(now)] + looks;
  }
}

/** The circular list of jni/list.h and WaitForResponse on it. */
module Mailbox {
  import opened CString
  import opened MailboxSpec

  /** An entry: what it holds, and its pointers (null once it has been deleted). */
  class Entry {
    const reply: Reply
    var next: Entry?
    var prev: Entry?

    constructor (r: Reply)
      ensures reply == r && next == null && prev == null
    {
      reply := r;
      next, prev := null, null;
    }
  }

  function RepliesOf(es: seq<Entry>): (q: seq<Reply>)
    ensures |q| == |es|
  {
    if es == [] then [] else [es[0].reply] + RepliesOf(es[1..])
  }

  lemma {:induction false} ReplyAt(es: seq<Entry>, i: nat)
    requires i < |es|
    ensures RepliesOf(es)[i] == es[i].reply
  {
    if i > 0 {
      ReplyAt(es[1..], i - 1);
    }
  }

  lemma {:induction false} RepliesOfAppend(a: seq<Entry>, b: seq<Entry>)
    ensures RepliesOf(a + b) == RepliesOf(a) + RepliesOf(b)
    decreases |a|
  {
    if a == [] {
      assert a + b == b;
    } else {
      assert (a + b)[0] == a[0] && (a + b)[1..] == a[1..] + b;
      RepliesOfAppend(a[1..], b);
    }
  }

  lemma {:induction false} RepliesOfDrop(es: seq<Entry>, i: nat)
    requires i < |es|
    ensures RepliesOf(Drop(es, i)) == Drop(RepliesOf(es), i)
  {
    assert es == es[..i] + ([es[i]] + es[i + 1..]);
    RepliesOfAppend(es[..i], [es[i]] + es[i + 1..]);
    RepliesOfAppend([es[i]], es[i + 1..]);
    RepliesOfAppend(es[..i], es[i + 1..]);
  }

  /** One turn of the eviction, which stands at the k-th entry: q[i..] are the replies not yet looked at. */
  lemma {:induction false} KeptStep(es: seq<Entry>, k: nat, q: seq<Reply>, now: seq<int>, i: nat, total: seq<Reply>)
    requires k < |es| && i < |q| <= |now| && RepliesOf(es[k..]) == q[i..]
    requires RepliesOf(es[..k]) + Kept(q[i..], now[i..]) == total
    ensures q[i] == es[k].reply && RepliesOf(es[k + 1..]) == q[i + 1..]
    ensures RepliesOf(es[..if TimedOut(q[i], now[i]) then k else k + 1]) + Kept(q[i + 1..], now[i + 1..]) == total
  {
    assert es[k..][0] == es[k] && es[k..][1..] == es[k + 1..];
    assert q[i..][0] == q[i] && q[i..][1..] == q[i + 1..] && now[i..][1..] == now[i + 1..];
    if TimedOut(q[i], now[i]) {
      assert [] + Kept(q[i + 1..], now[i + 1..]) == Kept(q[i + 1..], now[i + 1..]);
    } else {
      RepliesOfAppend(es[..k], [es[k]]);
      assert es[..k + 1] == es[..k] + [es[k]];
      Associative(RepliesOf(es[..k]), [q[i]], Kept(q[i + 1..], now[i + 1..]));
    }
  }

  class ResponseList {
    const head: Entry
    var count: int
    ghost var entries: seq<Entry>

    /** The i-th entry; the head in front of the first and behind the last. */
    ghost function Ring(i: int): Entry
      reads this
    {
      if 0 <= i < |entries| then entries[i] else head
    }

    /** The head and the entries. */
    ghost function Cells(): set<Entry>
      reads this
    {
      {head} + set e | e in entries
    }

    ghost predicate Distinct()
      reads this
    {
      head !in entries && forall i, j :: 0 <= i < j < |entries| ==> entries[i] != entries[j]
    }

    ghost predicate Joined(i: int)
      reads this, Cells()
    {
      Ring(i).next == Ring(i + 1) && Ring(i + 1).prev == Ring(i)
    }

    ghost predicate Valid()
      reads this, Cells()
    {
      && Distinct() && head.reply == HEAD && count == |entries|
      && forall i :: -1 <= i < |entries| ==> Joined(i)
    }

    ghost function Queue(): (q: seq<Reply>)
      reads this
      ensures |q| == |entries|
    {
      RepliesOf(entries)
    }

    /** INIT_LIST_HEAD */
    constructor ()
      ensures Valid() && Queue() == [] && fresh(this) && fresh(Cells())
    {
      head := new Entry(HEAD);
      count, entries := 0, [];
      new;
      head.next, head.prev := head, head;
    }

    /** list_add: a new entry right behind the head. */
    method ListAdd(e: Entry)
      requires Valid() && e !in Cells()
      modifies this`count, this`entries, e, Cells()
      ensures Valid() && entries == [e] + old(entries) && Queue() == [e.reply] + old(Queue())
    {
      assert Joined(-1);
      var first := head.next;
      first.prev := e;
      e.next := first;
      e.prev := head;
      head.next := e;
      count := count + 1;
      entries := [e] + entries;
      assert entries[1..] == old(entries);
      forall i | -1 <= i < |entries| ensures Joined(i) {
        if i > 0 {
          assert old(Joined(i - 1));
        }
      }
    }

    /** __list_del: the neighbours of the k-th entry are joined. */
    method Unhook(e: Entry, ghost k: nat)
      requires Valid() && k < |entries| && entries[k] == e
      modifies Cells()
      ensures Ring(k - 1).next == Ring(k + 1) && Ring(k + 1).prev == Ring(k - 1)
      ensures forall i :: -1 <= i < |entries| && i != k - 1 && i != k ==> Joined(i)
    {
      assert Joined(k - 1) && Joined(k);
      e.next.prev := e.prev;
      e.prev.next := e.next;
      e.next, e.prev := null, null;
      forall i | -1 <= i < |entries| && i != k - 1 && i != k ensures Joined(i) {
        assert old(Joined(i));
      }
    }

    /** list_del of the k-th entry */
    method ListDel(e: Entry, ghost k: nat)
      requires Valid() && k < |entries| && entries[k] == e
      modifies this`count, this`entries, Cells()
      ensures Valid() && entries == Drop(old(entries), k) && Queue() == Drop(old(Queue()), k)
    {
      RepliesOfDrop(entries, k);
      Unhook(e, k);
      label hooked:
      count := count - 1;
      ghost var es := entries;
      entries := Drop(es, k);
      assert forall i :: -1 <= i <= |entries| ==> Ring(i) == old@hooked(Ring(if i < k then i else i + 1));
      forall i | -1 <= i < |entries| ensures Joined(i) {
        if i != k - 1 {
          assert old@hooked(Joined(if i < k then i else i + 1));
        }
      }
    }

    /** The first part of WaitForResponse: entries that are too old are deleted; `now` are the times read. */
    method EvictOld(now: seq<int>)
      requires Valid() && |now| >= |entries|
      modifies this`count, this`entries, Cells()
      ensures Valid() && Cells() <= old(Cells()) && Queue() == Kept(old(Queue()), now)
    {
      assert Joined(-1);
      ghost var q, k := Queue(), 0;
      var i := 0;
      var cur := head.next;
      while cur != head
        invariant Valid() && Cells() <= old(Cells()) && |q| == old(|entries|)
        invariant 0 <= k <= |entries| && i + |entries| - k == |q| && cur == Ring(k)
        invariant RepliesOf(entries[k..]) == q[i..]
        invariant RepliesOf(entries[..k]) + Kept(q[i..], now[i..]) == Kept(q, now)
        decreases |q| - i
      {
        assert Joined(k);
        var next := cur.next;
        ghost var es := entries;
        KeptStep(es, k, q, now, i, Kept(q, now));
        if TimedOut(cur.reply, now[i]) {
          ListDel(cur, k);
          assert entries[k..] == es[k + 1..] && entries[..k] == es[..k];
        } else {
          k := k + 1;
        }
        cur := next;
        i := i + 1;
      }
      assert entries[..k] == entries;
    }

    /** One look of WaitForResponse through the list, under the lock. */
    method TryTake(cmd: seq<byte>, n: int) returns (look: Look)
      requires Valid()
      modifies this`count, this`entries, Cells()
      ensures look == Find(old(Queue()), cmd, n)
      ensures look != Broken ==> Valid() && Cells() <= old(Cells()) && Queue() == After(old(Queue()), cmd, n)
    {
      assert Joined(-1);
      if head.next == head {
        return Nothing;
      }
      ghost var k, q := 0, Queue();
      var cur := head.next;
      while true
        invariant Valid() && entries == old(entries) && 0 <= k <= |entries| && cur == Ring(k)
        invariant forall j :: 0 <= j < k ==> !Answers(q[j], cmd, n)
        decreases |entries| - k
      {
        assert k < |entries| ==> q[k] == cur.reply by {
          if k < |entries| {
            ReplyAt(entries, k);
          }
        }
        if cur.reply.cmd == cmd && (cur.reply.kind != RESP_TYPE || cur.reply.seqNo == n) {
          if cur == head {
            DeleteHead();
            return Broken;
          }
          look := Delivered(cur.reply);
          ListDel(cur, k);
          return;
        }
        if cur == head {
          return Nothing;
        }
        assert Joined(k);
        cur := cur.next;
        k := k + 1;
      }
    }

    /** list_del of the head, which leaves a list nobody can use. */
    method DeleteHead()
      requires Valid()
      modifies this`count, Cells()
    {
      assert Joined(-1) && Joined(|entries| - 1);
      head.next.prev := head.prev;
      head.prev.next := head.next;
      head.next, head.prev := null, null;
      count := count - 1;
    }

    method AddReplies(replies: seq<Reply>)
      requires Valid()
      modifies this`count, this`entries, Cells()
      ensures Valid() && fresh(Cells() - old(Cells())) && Queue() == AddAll(old(Queue()), replies)
    {
      var i := 0;
      while i < |replies|
        invariant 0 <= i <= |replies| && Valid() && fresh(Cells() - old(Cells()))
        invariant AddAll(Queue(), replies[i..]) == AddAll(old(Queue()), replies)
      {
        var e := new Entry(replies[i]);
        assert replies[i..][1..] == replies[i + 1..];
        ListAdd(e);
        i := i + 1;
      }
    }

    /** WaitForResponse: `now` are the times read while old entries are deleted; arrivals[i] are the replies that the
        receiver adds in front of the i-th look, of which there are as many as the time to wait allows. */
    method WaitForResponse(cmd: seq<byte>, n: int, now: seq<int>, arrivals: seq<seq<Reply>>) returns (look: Look)
      requires Valid() && |now| >= |entries|
      modifies this`count, this`entries, Cells()
      ensures var w := Poll(Kept(old(Queue()), now), cmd, n, arrivals);
              look == w.look && (look != Broken ==> Valid() && Queue() == w.queue)
    {
      EvictOld(now);
      ghost var q := Queue();
      var i := 0;
      while i < |arrivals|
        invariant 0 <= i <= |arrivals| && Valid() && fresh(Cells() - old(Cells()))
        invariant Poll(Queue(), cmd, n, arrivals[i..]) == Poll(q, cmd, n, arrivals)
      {
        assert arrivals[i..][0] == arrivals[i] && arrivals[i..][1..] == arrivals[i + 1..];
        AddReplies(arrivals[i]);
        look := TryTake(cmd, n);
        if look != Nothing {
          return;
        }
        i := i + 1;
      }
      look := Nothing;
    }
  }
}
