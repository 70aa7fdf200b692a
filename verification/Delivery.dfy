/** From the schedule to the wire: the threads of the device send their messages packet by packet, under the output
    lock, and a host reads the packets. */
module Delivery {
  import opened Bytes
  import opened Framing
  import opened Channels
  import opened HidSystem
  import Assembler
  import Host
  import Isolation
  import Wire = OutputLock

  /** The device and its output. A thread that sends stays where it is until its call of `sendResponse` is over. */
  datatype Joint = Joint(sys: System, out: Wire.Output)

  const START := Joint(INITIAL, Wire.INITIAL)

  /** A step of the device other than sending, or a step of a `sendResponse` call. */
  datatype JointEvent = Internal(e: Event) | Output(w: Wire.Event)

  predicate IsSend(e: Event) {
    e.LoopSend? || (e.Transact? && e.act.Send?)
  }

  predicate Leaves(w: Wire.Event) {
    w.Unlock? || w.InjectFails?
  }

  /** Caller 0 is the event loop, caller t + 1 transaction t. */
  function CallerOf(origin: Origin): nat {
    match origin
    case Loop => 0
    case Transaction(t) => t + 1
  }

  function SendOf(caller: nat): Event {
    if caller == 0 then LoopSend else Transact(caller - 1, Send)
  }

  predicate AtSend(s: System, caller: nat) {
    Enabled(s, SendOf(caller))
  }

  function Outgoing(s: System, caller: nat): Message
    requires AtSend(s, caller)
  {
    if caller == 0 then s.loop.message else Pending(s.txns[caller - 1])
  }

  /** Only a thread about to send calls, and with the message it is about to send. */
  predicate JointEnabled(j: Joint, e: JointEvent) {
    match e
    case Internal(e) => Enabled(j.sys, e) && !IsSend(e)
    case Output(w) =>
      && Wire.Enabled(j.out, w)
      && (w.Call? ==> AtSend(j.sys, w.caller) && w.message == Outgoing(j.sys, w.caller))
  }

  function JointStep(j: Joint, e: JointEvent): Joint
    requires JointEnabled(j, e)
  {
    match e
    case Internal(e) => j.(sys := Step(j.sys, e))
    case Output(w) =>
      Joint(if Leaves(w) && AtSend(j.sys, w.caller) then Step(j.sys, SendOf(w.caller)) else j.sys, Wire.Step(j.out, w))
  }

  predicate JointFeasible(j: Joint, es: seq<JointEvent>)
    decreases |es|
  {
    es == [] || (JointEnabled(j, es[0]) && JointFeasible(JointStep(j, es[0]), es[1..]))
  }

  function JointRun(j: Joint, es: seq<JointEvent>): Joint
    requires JointFeasible(j, es)
    decreases |es|
  {
    if es == [] then j else JointRun(JointStep(j, es[0]), es[1..])
  }

  /** The schedule of the device: a send happens when its call is over. */
  function Scheduled(es: seq<JointEvent>): seq<Event> {
    if es == [] then []
    else
      (match es[0]
       case Internal(e) => [e]
       case Output(w) => if Leaves(w) then [SendOf(w.caller)] else [])
      + Scheduled(es[1..])
  }

  function OutputEvents(es: seq<JointEvent>): (ws: seq<Wire.Event>)
    ensures forall w <- ws :: Output(w) in es
  {
    if es == [] then []
    else
      var ws := OutputEvents(es[1..]);
      assert forall w <- ws :: Output(w) in es[1..];
      (if es[0].Output? then [es[0].w] else []) + ws
  }

  // ---------------------------------------------------------------- calls belong to sends

  ghost predicate CallsAreSends(s: System, writers: map<nat, Wire.Writer>) {
    forall c <- writers :: AtSend(s, c) && writers[c].message == Outgoing(s, c)
  }

  ghost predicate FinishedAreSent(sent: seq<Sent>, finished: seq<Wire.Finished>) {
    && |finished| == |sent|
    && forall i :: 0 <= i < |sent| ==>
         finished[i].message == sent[i].message && finished[i].caller == CallerOf(sent[i].origin)
  }

  ghost predicate Linked(j: Joint) {
    CallsAreSends(j.sys, j.out.writers) && FinishedAreSent(j.sys.sent, j.out.finished)
  }

  /** Nothing that another thread does takes a thread away from its send. */
  lemma StaysAtSend(s: System, e: Event, c: nat)
    requires AtSend(s, c) && Enabled(s, e) && e != SendOf(c)
    ensures AtSend(Step(s, e), c) && Outgoing(Step(s, e), c) == Outgoing(s, c)
  {
    if c == 0 {
      LoopStays(s, e);
    } else {
      TxnStays(s, e, c - 1);
    }
    hide Step, Enabled;
  }

  lemma LoopStays(s: System, e: Event)
    requires s.loop.Replying? && Enabled(s, e) && !e.LoopSend?
    ensures Step(s, e).loop == s.loop
  {
    hide Receives, Touch, Advance;
  }

  lemma TxnStays(s: System, e: Event, t: nat)
    requires t < |s.txns| && Ready(s.txns[t], Send) && Enabled(s, e) && e != Transact(t, Send)
    ensures t < |Step(s, e).txns| && Ready(Step(s, e).txns[t], Send)
    ensures Pending(Step(s, e).txns[t]) == Pending(s.txns[t])
  {
    var txn := s.txns[t];
    if e.Transact? && e.txn == t {
      AdvanceStays(txn, e.act);
      hide Touch, Ready, Pending;
    } else {
      TxnUntouched(s, e, t);
      hide Step, Enabled;
    }
  }

  lemma AdvanceStays(txn: Txn, act: Act)
    requires Ready(txn, Send) && Ready(txn, act) && act != Send
    ensures Ready(Advance(txn, act), Send) && Pending(Advance(txn, act)) == Pending(txn)
  {
  }

  lemma SendsOutgoing(s: System, c: nat)
    requires AtSend(s, c)
    ensures exists origin :: CallerOf(origin) == c && Step(s, SendOf(c)).sent == s.sent + [Sent(origin, Outgoing(s, c))]
  {
    var origin := if c == 0 then Loop else Transaction(c - 1);
    assert CallerOf(origin) == c && Step(s, SendOf(c)).sent == s.sent + [Sent(origin, Outgoing(s, c))];
  }

  lemma InternalSendsNothing(s: System, e: Event)
    requires Enabled(s, e) && !IsSend(e)
    ensures Step(s, e).sent == s.sent
  {
    hide Receive, Touch;
  }

  lemma LinkedInternal(j: Joint, e: Event)
    requires Linked(j) && Enabled(j.sys, e) && !IsSend(e)
    ensures Linked(j.(sys := Step(j.sys, e)))
  {
    InternalSendsNothing(j.sys, e);
    forall c | c in j.out.writers
      ensures AtSend(Step(j.sys, e), c) && Outgoing(Step(j.sys, e), c) == Outgoing(j.sys, c)
    {
      StaysAtSend(j.sys, e, c);
    }
    hide Step, Enabled, Outgoing, AtSend;
  }

  lemma LinkedOutput(j: Joint, w: Wire.Event)
    requires Linked(j) && JointEnabled(j, Output(w)) && !Leaves(w)
    ensures Linked(JointStep(j, Output(w)))
  {
    hide Step, Enabled, Outgoing, AtSend, Wire.HasMore;
  }

  lemma LinkedLeave(j: Joint, w: Wire.Event)
    requires Linked(j) && JointEnabled(j, Output(w)) && Leaves(w)
    ensures AtSend(j.sys, w.caller) && Linked(JointStep(j, Output(w)))
  {
    var c := w.caller;
    assert c in j.out.writers;
    SendsOutgoing(j.sys, c);
    forall k | k in j.out.writers && k != c
      ensures AtSend(Step(j.sys, SendOf(c)), k) && Outgoing(Step(j.sys, SendOf(c)), k) == Outgoing(j.sys, k)
    {
      StaysAtSend(j.sys, SendOf(c), k);
    }
    hide Step, Enabled, Outgoing, AtSend, Wire.HasMore, SendOf;
  }

  lemma LinkedStep(j: Joint, e: JointEvent)
    requires Linked(j) && JointEnabled(j, e)
    ensures Linked(JointStep(j, e))
    ensures e.Output? && Leaves(e.w) ==> AtSend(j.sys, e.w.caller)
  {
    hide Linked, Step, Enabled, Outgoing, AtSend, Wire.Enabled;
    match e
    case Internal(e) => LinkedInternal(j, e);
    case Output(w) =>
      if Leaves(w) {
        LinkedLeave(j, w);
      } else {
        LinkedOutput(j, w);
      }
  }

  /** A joint run is a schedule of the device and a run of the output at once. */
  lemma {:induction false} JointIsBoth(j: Joint, es: seq<JointEvent>)
    requires Linked(j) && JointFeasible(j, es)
    ensures Linked(JointRun(j, es))
    ensures Feasible(j.sys, Scheduled(es)) && JointRun(j, es).sys == Run(j.sys, Scheduled(es))
    ensures Wire.Feasible(j.out, OutputEvents(es)) && JointRun(j, es).out == Wire.Run(j.out, OutputEvents(es))
    decreases |es|
  {
    if es != [] {
      hide Linked, Step, Enabled, AtSend, Outgoing, Wire.Enabled, Wire.Step, SendOf;
      LinkedStep(j, es[0]);
      JointIsBoth(JointStep(j, es[0]), es[1..]);
      var rest, outs := Scheduled(es[1..]), OutputEvents(es[1..]);
      match es[0] {
        case Internal(e) =>
          assert Scheduled(es) == [e] + rest && ([e] + rest)[1..] == rest && OutputEvents(es) == outs;
        case Output(w) =>
          assert OutputEvents(es) == [w] + outs && ([w] + outs)[1..] == outs;
          if Leaves(w) {
            assert AtSend(j.sys, w.caller) == Enabled(j.sys, SendOf(w.caller)) by {
              AtSendIs(j.sys, w.caller);
            }
            assert Scheduled(es) == [SendOf(w.caller)] + rest && ([SendOf(w.caller)] + rest)[1..] == rest;
          } else {
            assert Scheduled(es) == rest;
          }
      }
    }
  }

  lemma AtSendIs(s: System, c: nat)
    ensures AtSend(s, c) == Enabled(s, SendOf(c))
  {
  }

  // ---------------------------------------------------------------- nobody is stuck

  /** In every reachable state whoever is about to send can call, or waits for a lock that is free or whose holder can go
      on with its packets until it leaves. */
  lemma SendersGoOn(es: seq<JointEvent>, c: nat)
    requires JointFeasible(START, es) && AtSend(JointRun(START, es).sys, c)
    ensures var j := JointRun(START, es);
            && (c !in j.out.writers ==> JointEnabled(j, Output(Wire.Call(c, Outgoing(j.sys, c)))))
            && (c in j.out.writers && j.out.holder.None? ==> JointEnabled(j, Output(Wire.Lock(c))))
            && (j.out.holder.Some? ==>
                  var d := j.out.holder.value;
                  JointEnabled(j, Output(Wire.InjectNext(d))) || JointEnabled(j, Output(Wire.Unlock(d))))
  {
    NothingIsLinked();
    hide *;
    JointIsBoth(START, es);
    OutputInvariant(OutputEvents(es));
    SenderGoesOn(JointRun(START, es), c);
  }

  lemma NothingIsLinked()
    ensures Linked(START) && START.out == Wire.INITIAL
  {
  }

  lemma SenderGoesOn(j: Joint, c: nat)
    requires Linked(j) && Wire.Inv(j.out) && AtSend(j.sys, c)
    ensures c !in j.out.writers ==> JointEnabled(j, Output(Wire.Call(c, Outgoing(j.sys, c))))
    ensures c in j.out.writers && j.out.holder.None? ==> JointEnabled(j, Output(Wire.Lock(c)))
    ensures j.out.holder.Some? ==>
              var d := j.out.holder.value;
              JointEnabled(j, Output(Wire.InjectNext(d))) || JointEnabled(j, Output(Wire.Unlock(d)))
  {
    hide AtSend, Outgoing, CallsAreSends, FinishedAreSent, Wire.Progress, Wire.HasMore, Wire.Pieces, Wire.Current;
    if j.out.holder.Some? {
      HolderIsWriting(j.out);
    }
  }

  lemma HolderIsWriting(out: Wire.Output)
    requires Wire.Inv(out) && out.holder.Some?
    ensures out.holder.value in out.writers && out.writers[out.holder.value].Writing?
  {
  }

  lemma OutputInvariant(ws: seq<Wire.Event>)
    requires Wire.Feasible(Wire.INITIAL, ws)
    ensures Wire.Inv(Wire.Run(Wire.INITIAL, ws))
  {
    Wire.InvAlways(Wire.INITIAL, ws);
  }

  /** And whoever is about to do something else can: the loop takes any report, and stores what it has to; a transaction
      that waits can send a keepalive, take the result of its handler, notice that its context is over, and is then
      about to clear its slot without an answer. */
  lemma ThreadsGoOn(j: Joint, t: nat, p: Incoming, draw: Option<Draw>, status: byte, response: seq<byte>, now: int)
    requires t < |j.sys.txns| && j.sys.txns[t].body != [] && p.Full()
    requires if Allocates(p) then draw.Some? && draw.value.Accepted(j.sys.table.Keys) else draw.None?
    ensures j.sys.loop.Listening? ==> JointEnabled(j, Internal(Report(p, draw, now)))
    ensures j.sys.loop.Inserting? ==> JointEnabled(j, Internal(Insertion(now)))
    ensures j.sys.loop.Replying? ==> AtSend(j.sys, 0)
    ensures var txn := j.sys.txns[t];
            txn.phase.Waiting? ==>
              && JointEnabled(j, Internal(Transact(t, KeepaliveTick)))
              && JointEnabled(j, Internal(Transact(t, ContextExpires)))
              && (txn.result.None? ==> JointEnabled(j, Internal(Transact(t, HandlerReturns(status, response)))))
              && (txn.result.Some? ==> JointEnabled(j, Internal(Transact(t, TakeResult))))
              && (txn.ctxDone ==>
                    && JointEnabled(j, Internal(Transact(t, NoticeDone)))
                    && var s' := Step(j.sys, Transact(t, NoticeDone));
                       s'.txns[t].phase.Clearing? && s'.sent == j.sys.sent)
    ensures JointEnabled(j, Internal(Cleanup(now))) && JointEnabled(j, Internal(CloseDevice))
  {
    if j.sys.txns[t].phase.Waiting? && j.sys.txns[t].ctxDone {
      OwnStep(j.sys, t, NoticeDone);
      SentStep(j.sys, Transact(t, NoticeDone));
    }
    hide Step;
  }

  // ---------------------------------------------------------------- sizes

  /** Handlers that return a response of at most 7608 bytes, which the status byte precedes. */
  predicate Moderate(e: Event) {
    e.Transact? && e.act.HandlerReturns? ==> 1 + |e.act.response| <= MAX_FRAMED_LEN
  }

  predicate TxnBounded(txn: Txn) {
    && (txn.phase.Answering? ==> |txn.phase.answer| <= MAX_FRAMED_LEN)
    && (txn.result.Some? ==> |txn.result.value| <= MAX_FRAMED_LEN)
  }

  predicate LoopBounded(loop: LoopPc) {
    match loop
    case Listening => true
    case Inserting(_, _, nonce) => |nonce| == 8
    case Replying(m) => |m.data| <= MAX_FRAMED_LEN
  }

  ghost predicate Bounded(s: System) {
    && LoopBounded(s.loop)
    && (forall t :: 0 <= t < |s.txns| ==> TxnBounded(s.txns[t]))
    && (forall i :: 0 <= i < |s.sent| ==> |s.sent[i].message.data| <= MAX_FRAMED_LEN)
  }

  /** Messages and nonces that a report produces are short. */
  lemma ReceiveIsBounded(t: Table, p: Incoming, alloc: Option<uint32>, now: int)
    requires WellFormed(t)
    ensures var next := Receive(t, p, alloc, now).next;
            && (next.Insert? ==> |next.nonce| == 8)
            && (next.Reply? ==> |next.reply.data| == 1)
            && (next.Deliver? ==> |next.message.data| <= MAX_MESSAGE_LEN)
  {
  }

  lemma BoundedReport(s: System, p: Incoming, draw: Option<Draw>, now: int)
    requires Inv(s) && Bounded(s) && s.loop.Listening?
    ensures Bounded(Receives(s, p, draw, now))
  {
    ReceiveIsBounded(s.table, p, Drawn(draw), now);
    ReportTxnsBounded(s, p, draw, now);
    hide TxnBounded, Receive, Inv, CancelAll;
  }

  lemma ReportTxnsBounded(s: System, p: Incoming, draw: Option<Draw>, now: int)
    requires forall t :: 0 <= t < |s.txns| ==> TxnBounded(s.txns[t])
    ensures var txns := Receives(s, p, draw, now).txns;
            forall t :: 0 <= t < |txns| ==> TxnBounded(txns[t])
    ensures Receives(s, p, draw, now).sent == s.sent
  {
    hide Receive, DispatchReply, TxnBounded;
    var eff := Receive(s.table, p, Drawn(draw), now);
    var txns := CancelAll(s.txns, eff.cancelled);
    forall t | 0 <= t < |txns|
      ensures TxnBounded(txns[t])
    {
      StaysBounded(s.txns[t]);
    }
    hide CancelAll;
    if eff.next.Deliver? {
      NewIsBounded(eff.next.message);
    }
  }

  lemma StaysBounded(txn: Txn)
    ensures TxnBounded(txn.(ctxDone := true)) == TxnBounded(txn)
  {
  }

  lemma NewIsBounded(m: Message)
    ensures TxnBounded(Txn(m.cid, m.data, Spawned, false, None))
  {
  }

  lemma OutgoingIsBounded(s: System, c: nat)
    requires Bounded(s) && AtSend(s, c)
    ensures |Outgoing(s, c).data| <= MAX_FRAMED_LEN
  {
  }

  lemma BoundedTransact(s: System, t: nat, act: Act)
    requires Bounded(s) && Enabled(s, Transact(t, act)) && Moderate(Transact(t, act))
    ensures Bounded(Step(s, Transact(t, act)))
  {
    assert TxnBounded(s.txns[t]);
    assert TxnBounded(Advance(s.txns[t], act));
    if act.Send? {
      OutgoingIsBounded(s, t + 1);
    }
    hide Touch, Advance, TxnBounded, Pending;
  }

  lemma BoundedStep(s: System, e: Event)
    requires Inv(s) && Bounded(s) && Enabled(s, e) && Moderate(e)
    ensures Bounded(Step(s, e))
  {
    match e
    case Report(p, draw, now) => BoundedReport(s, p, draw, now);
    case Transact(t, act) => BoundedTransact(s, t, act);
    case LoopSend => OutgoingIsBounded(s, 0);
    case _ =>
  }

  lemma {:induction false} BoundedRun(s: System, es: seq<Event>)
    requires Inv(s) && Bounded(s) && Feasible(s, es) && forall e <- es :: Moderate(e)
    ensures Bounded(Run(s, es))
    decreases |es|
  {
    hide Inv, Bounded, Moderate, Step, Enabled;
    if es != [] {
      assert es[0] in es && forall e <- es[1..] :: e in es;
      BoundedStep(s, es[0]);
      InvStep(s, es[0]);
      BoundedRun(Step(s, es[0]), es[1..]);
    }
  }

  // ---------------------------------------------------------------- what the host reads

  ghost predicate Undisturbed(es: seq<JointEvent>) {
    && (forall e <- es :: e.Output? ==> !e.w.InjectFails?)
    && (forall e <- Scheduled(es) :: Moderate(e))
  }

  /** Whatever the interleaving of threads and of packets: as long as injections succeed and handlers return at most
      7608 bytes, a host that reads the wire has exactly the messages that the schedule sent, in that order, and
      perhaps the one whose call is just ending. */
  lemma HostReadsTheSchedule(es: seq<JointEvent>)
    requires JointFeasible(START, es) && Undisturbed(es)
    ensures Feasible(INITIAL, Scheduled(es))
    ensures var sent := SentMessages(Run(INITIAL, Scheduled(es)).sent);
            var read := Host.Run(Host.Ready, JointRun(START, es).out.packets).messages;
            sent <= read && |read| <= |sent| + 1
  {
    JointIsBoth(START, es);
    var j := JointRun(START, es);
    BoundedRun(INITIAL, Scheduled(es));
    CallsAreBounded(j);
    forall w | w in OutputEvents(es)
      ensures !w.InjectFails?
    {
      assert Output(w) in es;
    }
    hide Bounded, Linked, Wire.Run, Wire.Feasible, Host.Run, JointRun, JointFeasible, Run, Feasible, Scheduled;
    Wire.HostReadsWhatWasSent(OutputEvents(es));
    DeliveredIsSent(j);
  }

  lemma CallsAreBounded(j: Joint)
    requires Linked(j) && Bounded(j.sys)
    ensures forall f <- j.out.finished :: |f.message.data| <= MAX_FRAMED_LEN
    ensures forall c <- j.out.writers :: |j.out.writers[c].message.data| <= MAX_FRAMED_LEN
  {
    forall c | c in j.out.writers
      ensures |j.out.writers[c].message.data| <= MAX_FRAMED_LEN
    {
      OutgoingIsBounded(j.sys, c);
    }
  }

  lemma DeliveredIsSent(j: Joint)
    requires Linked(j)
    ensures SentMessages(j.sys.sent) <= Wire.Delivered(j.out)
    ensures |Wire.Delivered(j.out)| <= |SentMessages(j.sys.sent)| + 1
  {
    hide Fragment;
    assert Wire.Messages(j.out.finished) == SentMessages(j.sys.sent);
  }

  // ---------------------------------------------------------------- pings

  /** What the loop is about to send is sent when the loop sends next. */
  lemma {:induction false} ReplyIsSent(s: System, es: seq<Event>, m: Message)
    requires s.loop == Replying(m) && Feasible(s, es) && LoopSend in es
    ensures s.sent <= Run(s, es).sent && Sent(Loop, m) in Run(s, es).sent[|s.sent|..]
    decreases |es|
  {
    hide Step, Enabled;
    var s1 := Step(s, es[0]);
    SentGrows(s1, es[1..]);
    SentGrowsBy(s, es[0]);
    if es[0] == LoopSend {
      LoopSends(s, m);
      assert s1.sent[|s.sent|..] == [Sent(Loop, m)];
    } else {
      LoopStays(s, es[0]);
      assert LoopSend in es[1..];
      ReplyIsSent(s1, es[1..], m);
    }
    StillSent(s.sent, s1.sent, Run(s1, es[1..]).sent, Sent(Loop, m));
    hide Run, Feasible;
  }

  lemma StillSent(a: seq<Sent>, b: seq<Sent>, c: seq<Sent>, x: Sent)
    requires a <= b <= c && (x in b[|a|..] || x in c[|b|..])
    ensures a <= c && x in c[|a|..]
  {
    assert c[|a|..] == b[|a|..] + c[|b|..];
  }

  lemma LoopSends(s: System, m: Message)
    requires s.loop == Replying(m)
    ensures Step(s, LoopSend).sent == s.sent + [Sent(Loop, m)]
  {
  }

  lemma SentGrowsBy(s: System, e: Event)
    requires Enabled(s, e)
    ensures s.sent <= Step(s, e).sent
  {
    hide Receive, Touch;
  }

  lemma {:induction false} SentGrows(s: System, es: seq<Event>)
    requires Feasible(s, es)
    ensures s.sent <= Run(s, es).sent
    decreases |es|
  {
    if es != [] {
      SentGrowsBy(s, es[0]);
      hide Step, Enabled;
      SentGrows(Step(s, es[0]), es[1..]);
    }
  }

  /** End to end: when a ping was transferred amid any noise and the event loop has sent since, the host reads the
      very message it had sent, among the messages after those of the time before the transfer. */
  lemma PingComesBack(es: seq<JointEvent>, before: seq<Event>, transfer: seq<Event>, after: seq<Event>, m: Message)
    requires JointFeasible(START, es) && Undisturbed(es) && Scheduled(es) == before + transfer + after
    requires |m.data| <= MAX_MESSAGE_LEN && m.cmd == PING && m.cid != BROADCAST_CID
    requires Assembler.Transfers(Isolation.Inputs(transfer, m.cid), m) && LoopSend in after
    ensures Feasible(INITIAL, before)
    ensures var read := Host.Run(Host.Ready, JointRun(START, es).out.packets).messages;
            exists i :: |Run(INITIAL, before).sent| <= i < |read| && read[i] == m
  {
    HostReadsTheSchedule(es);
    hide Assembler.Transfers, Isolation.Inputs, Host.Run, JointRun, JointFeasible, Undisturbed, Scheduled,
         Step, Enabled;
    RunConcat(INITIAL, before + transfer, after);
    RunConcat(INITIAL, before, transfer);
    var s1 := Run(INITIAL, before);
    var s2 := Run(s1, transfer);
    Isolation.PingEchoes(before, transfer, m);
    SentGrows(s1, transfer);
    ReplyIsSent(s2, after, m);
    var sent := Run(INITIAL, Scheduled(es)).sent;
    var k :| 0 <= k < |sent[|s2.sent|..]| && sent[|s2.sent|..][k] == Sent(Loop, m);
    assert SentMessages(sent)[|s2.sent| + k] == m;
  }
}
