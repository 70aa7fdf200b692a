/** The device object and the schedule: what the object does with a report is what the event loop does step by step. */
module Serial {
  import opened Bytes
  import opened Framing
  import opened Channels
  import opened HidSystem
  import Isolation

  /** The steps by which the event loop works off one report when nothing else happens in between. */
  function StepsFor(s: System, e: Event): seq<Event>
    requires e.Report? && Enabled(s, e)
  {
    var s1 := Step(s, e);
    if s1.loop.Inserting? then [e, Insertion(e.now), LoopSend]
    else if s1.loop.Replying? then [e, LoopSend]
    else [e]
  }

  /** What the critical section for a report does to the table. */
  function EffectOf(t: Table, e: Event): Effect
    requires e.Report?
  {
    Receive(t, e.packet, Drawn(e.draw), e.now)
  }

  lemma WorksOff(s: System, e: Event)
    requires e.Report? && Enabled(s, e)
    ensures Feasible(s, StepsFor(s, e))
    ensures var s' := Run(s, StepsFor(s, e));
            var eff := EffectOf(s.table, e);
            && s'.loop.Listening? && s'.table == Settled(eff, e.now)
            && s'.dispatched == s.dispatched + (if eff.next.Deliver? then [eff.next.message] else [])
            && s'.sent == s.sent + (if ReplyTo(eff.next).Some? then [Sent(Loop, ReplyTo(eff.next).value)] else [])
            && |s'.txns| >= |s.txns|
            && (forall t :: 0 <= t < |s.txns| ==>
                  (s'.txns[t].ctxDone <==> s.txns[t].ctxDone || t in eff.cancelled))
  {
    hide Receive, InitReply, InsertFresh;
    assert s.loop.Listening? by {
      ReportNeedsListening(s, e);
    }
    TakesIn(s, e);
    var s1 := Step(s, e);
    hide Receives, Enabled, EffectOf;
    if s1.loop.Inserting? {
      RunOfThree(s, e, Insertion(e.now), LoopSend);
    } else if s1.loop.Replying? {
      RunOfTwo(s, e, LoopSend);
    } else {
      RunOfOne(s, e);
    }
  }

  /** What the first of those steps does. */
  lemma TakesIn(s: System, e: Event)
    requires e.Report? && Enabled(s, e)
    ensures var s1 := Step(s, e);
            var eff := EffectOf(s.table, e);
            && s1.table == eff.table && s1.sent == s.sent && |s1.txns| >= |s.txns|
            && s1.dispatched == s.dispatched + (if eff.next.Deliver? then [eff.next.message] else [])
            && s1.loop == (if eff.next.Insert? then Inserting(eff.next.newCid, eff.next.replyTo, eff.next.nonce)
                           else if ReplyTo(eff.next).Some? then Replying(ReplyTo(eff.next).value) else Listening)
            && (forall t :: 0 <= t < |s.txns| ==>
                  (s1.txns[t].ctxDone <==> s.txns[t].ctxDone || t in eff.cancelled))
  {
    ReportNeedsListening(s, e);
    hide Receive, Enabled;
    assert s.dispatched + [] == s.dispatched;
  }

  /** The device object taking in one report after the other, every packet of its answers being accepted. */
  function Handles(d: DeviceState, es: seq<Event>): DeviceState
    requires forall e <- es :: e.Report?
    decreases |es|
  {
    if es == [] then d
    else
      assert es[0] in es && forall e <- es[1..] :: e in es;
      var eff := EffectOf(d.table, es[0]);
      Handles(After(d, eff, es[0].now, |Answer(eff.next)|), es[1..])
  }

  /** The schedule that works off the reports one after the other, if they can come. */
  predicate Serves(s: System, es: seq<Event>)
    decreases |es|
  {
    es == [] || (&& es[0].Report? && Enabled(s, es[0]) && Feasible(s, StepsFor(s, es[0]))
                 && Serves(Run(s, StepsFor(s, es[0])), es[1..]))
  }

  function Serial(s: System, es: seq<Event>): seq<Event>
    requires Serves(s, es)
    decreases |es|
  {
    if es == [] then [] else StepsFor(s, es[0]) + Serial(Run(s, StepsFor(s, es[0])), es[1..])
  }

  /** Object and schedule in step: same table, same dispatches, and what the object cancelled is cancelled. */
  ghost predicate InStep(s: System, d: DeviceState) {
    && Inv(s) && s.loop.Listening? && s.table == d.table && s.dispatched == d.dispatched
    && forall t <- d.cancelled :: t < |s.txns| && s.txns[t].ctxDone
  }

  /** The packets that were added are the fragments of the messages that were sent. */
  ghost predicate SamePackets(sent: seq<Sent>, packets: seq<Packet>, sent': seq<Sent>, packets': seq<Packet>) {
    sent <= sent' && packets' == packets + FragmentAll(SentMessages(sent'[|sent|..]))
  }

  /** The transactions that ended are those that were cancelled. */
  ghost predicate SameCancels(txns: seq<Txn>, cancelled: set<nat>, txns': seq<Txn>, cancelled': set<nat>) {
    && |txns| <= |txns'| && cancelled <= cancelled'
    && forall t :: 0 <= t < |txns| ==> (txns'[t].ctxDone <==> txns[t].ctxDone || t in cancelled')
  }

  /** From `s` to `s'` the schedule did what the object did from `d` to `d'`. */
  ghost predicate Tracks(s: System, d: DeviceState, s': System, d': DeviceState) {
    InStep(s', d') && SamePackets(s.sent, d.packets, s'.sent, d'.packets)
    && SameCancels(s.txns, d.cancelled, s'.txns, d'.cancelled)
  }

  lemma CancelsOwn(s: System, e: Event)
    requires Inv(s) && e.Report?
    ensures forall t <- EffectOf(s.table, e).cancelled :: t < |s.txns|
  {
    Isolation.InterruptHooks(s.table, e.packet, Drawn(e.draw), e.now);
    hide Receive;
  }

  lemma OneReportTracks(s: System, d: DeviceState, e: Event)
    requires e.Report? && Enabled(s, e) && InStep(s, d)
    ensures Feasible(s, StepsFor(s, e))
    ensures var eff := EffectOf(s.table, e);
            Tracks(s, d, Run(s, StepsFor(s, e)), After(d, eff, e.now, |Answer(eff.next)|))
  {
    hide Inv, Enabled, Step, StepsFor, EffectOf, Feasible, Run, Settled, Answer, Inject, ReplyTo, SamePackets;
    var eff := EffectOf(s.table, e);
    WorksOff(s, e);
    CancelsOwn(s, e);
    Reachable(s, StepsFor(s, e));
    var s' := Run(s, StepsFor(s, e));
    OneReportCancels(s.txns, d.cancelled, s'.txns, eff.cancelled);
    OneReportPackets(s.sent, d.packets, s'.sent, eff.next);
    assert s.dispatched + [] == s.dispatched;
  }

  lemma OneReportPackets(sent: seq<Sent>, packets: seq<Packet>, sent': seq<Sent>, next: Next)
    requires sent' == sent + (if ReplyTo(next).Some? then [Sent(Loop, ReplyTo(next).value)] else [])
    ensures SamePackets(sent, packets, sent', Inject(packets, Answer(next), |Answer(next)|))
  {
    PacketsOfAnswer(packets, next);
    hide FragmentAll, Answer, Inject, ReplyTo, SentMessages;
    assert sent'[|sent|..] == if ReplyTo(next).Some? then [Sent(Loop, ReplyTo(next).value)] else [];
  }

  lemma OneReportCancels(txns: seq<Txn>, cancelled: set<nat>, txns': seq<Txn>, more: set<nat>)
    requires |txns| <= |txns'| && forall t <- cancelled :: t < |txns| && txns[t].ctxDone
    requires forall t :: 0 <= t < |txns| ==> (txns'[t].ctxDone <==> txns[t].ctxDone || t in more)
    ensures SameCancels(txns, cancelled, txns', cancelled + more)
  {
  }

  lemma SamePacketsCompose(sent: seq<Sent>, ps: seq<Packet>, sent1: seq<Sent>, ps1: seq<Packet>, sent2: seq<Sent>,
                           ps2: seq<Packet>)
    requires SamePackets(sent, ps, sent1, ps1) && SamePackets(sent1, ps1, sent2, ps2)
    ensures SamePackets(sent, ps, sent2, ps2)
  {
    hide SentMessages, FragmentAll;
    var mine, later := sent1[|sent|..], sent2[|sent1|..];
    FragmentAllSent(mine, later);
    assert sent2[|sent|..] == mine + later;
    assert ps + FragmentAll(SentMessages(mine)) + FragmentAll(SentMessages(later)) == ps2;
  }

  lemma TracksCompose(s: System, d: DeviceState, s1: System, d1: DeviceState, s2: System, d2: DeviceState)
    requires Tracks(s, d, s1, d1) && Tracks(s1, d1, s2, d2)
    ensures Tracks(s, d, s2, d2)
  {
    SamePacketsCompose(s.sent, d.packets, s1.sent, d1.packets, s2.sent, d2.packets);
    hide SamePackets;
  }

  /** The device object taking in any reports does what the event loop does in its many steps, when no other thread
      comes in between: same table, same dispatches, same cancelled transactions, and its packets are the fragments of
      the messages that the loop sends. */
  lemma {:induction false} ObjectIsSerialSchedule(s: System, d: DeviceState, es: seq<Event>)
    requires Serves(s, es) && InStep(s, d) && forall e <- es :: e.Report?
    ensures Feasible(s, Serial(s, es)) && Tracks(s, d, Run(s, Serial(s, es)), Handles(d, es))
    decreases |es|
  {
    if es == [] {
      NothingTracks(s, d);
    } else {
      var e := es[0];
      var eff := EffectOf(s.table, e);
      var s1, d1 := Run(s, StepsFor(s, e)), After(d, eff, e.now, |Answer(eff.next)|);
      OneReportTracks(s, d, e);
      assert InStep(s1, d1);
      assert forall f <- es[1..] :: f in es;
      assert d.table == s.table;
      ObjectIsSerialSchedule(s1, d1, es[1..]);
      RunConcat(s, StepsFor(s, e), Serial(s1, es[1..]));
      TracksCompose(s, d, s1, d1, Run(s1, Serial(s1, es[1..])), Handles(d1, es[1..]));
      hide Tracks, Enabled, Step, StepsFor, EffectOf, Answer, After, Feasible, Run;
    }
  }

  lemma NothingTracks(s: System, d: DeviceState)
    requires InStep(s, d)
    ensures Tracks(s, d, s, d)
  {
    assert s.sent[|s.sent|..] == [] && d.packets + [] == d.packets;
  }

  lemma PacketsOfAnswer(log: seq<Packet>, next: Next)
    ensures var sent := if ReplyTo(next).Some? then [Sent(Loop, ReplyTo(next).value)] else [];
            Inject(log, Answer(next), |Answer(next)|) == log + FragmentAll(SentMessages(sent))
  {
    hide Fragment;
    if ReplyTo(next).Some? {
      var m := ReplyTo(next).value;
      assert SentMessages([Sent(Loop, m)]) == [m] && [m][1..] == [];
      assert Fragment(m) + [] == Fragment(m);
    }
  }

  lemma {:induction false} FragmentAllConcat(left: seq<Message>, right: seq<Message>)
    ensures FragmentAll(left + right) == FragmentAll(left) + FragmentAll(right)
  {
    hide Fragment;
    if left == [] {
      assert left + right == right;
    } else {
      hide FragmentAll;
      FragmentAllConcat(left[1..], right);
      UnfoldFragmentAll(left);
      UnfoldFragmentAll(left + right);
      ConcatTail(left, right);
      Associative(Fragment(left[0]), FragmentAll(left[1..]), FragmentAll(right));
    }
  }

  lemma ConcatTail(left: seq<Message>, right: seq<Message>)
    requires left != []
    ensures (left + right)[0] == left[0] && (left + right)[1..] == left[1..] + right
  {
  }

  lemma Associative(a: seq<Packet>, b: seq<Packet>, c: seq<Packet>)
    ensures a + (b + c) == (a + b) + c
  {
  }

  lemma UnfoldFragmentAll(ms: seq<Message>)
    requires ms != []
    ensures FragmentAll(ms) == Fragment(ms[0]) + FragmentAll(ms[1..])
  {
    hide Fragment;
  }

  lemma FragmentAllSent(left: seq<Sent>, right: seq<Sent>)
    ensures FragmentAll(SentMessages(left + right)) == FragmentAll(SentMessages(left)) + FragmentAll(SentMessages(right))
  {
    FragmentAllConcat(SentMessages(left), SentMessages(right));
    hide FragmentAll;
    assert SentMessages(left + right) == SentMessages(left) + SentMessages(right);
  }

  lemma ReportNeedsListening(s: System, e: Event)
    requires e.Report? && Enabled(s, e)
    ensures s.loop.Listening?
  {
  }
}
