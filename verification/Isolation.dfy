/** Channels do not interfere: what a channel dispatches and what its packets cancel depends on its own inputs only. */
module Isolation {
  import opened Bytes
  import opened Framing
  import opened Channels
  import opened HidSystem
  import Assembler
  import Host
  import Provenance

  // ---------------------------------------------------------------- the view of one channel

  function View(ch: Chan): Assembler.State {
    if ch.totalLen == 0 then Assembler.Idle
    else Assembler.Collecting(ch.cmd, ch.totalLen, ch.data, ch.seqNum, ch.lastSeen)
  }

  /** What the device knows of channel `c`; an absent channel is an idle one, and so is one about to be stored afresh. */
  function ViewOf(s: System, c: uint32): Assembler.State {
    if (s.loop.Inserting? && s.loop.newCid == c) || c !in s.table then Assembler.Idle else View(s.table[c])
  }

  /** What an event means to channel `c`. Only a clock-drawn identifier can be that of a channel in use. */
  function Own(e: Event, c: uint32): Assembler.Input {
    match e
    case Report(p, draw, now) =>
      if p.Ignored? then Assembler.Other
      else if p.cid == c then Assembler.Packet(p, now)
      else if Allocates(p) && draw.Some? && draw.value.Clock? && draw.value.Cid() == c then Assembler.Gone
      else Assembler.Other
    case Cleanup(now) => Assembler.Tick(now)
    case CloseDevice => Assembler.Gone
    case _ => Assembler.Other
  }

  function Inputs(es: seq<Event>, c: uint32): (inputs: seq<Assembler.Input>)
    ensures |inputs| == |es|
    ensures forall i :: 0 <= i < |es| ==> inputs[i] == Own(es[i], c)
  {
    seq(|es|, i requires 0 <= i < |es| => Own(es[i], c))
  }

  /** The messages of a log that belong to channel `c`. */
  function OnCid(ms: seq<Message>, c: uint32): seq<Message> {
    if ms == [] then []
    else OnCid(ms[..|ms| - 1], c) + (if ms[|ms| - 1].cid == c then [ms[|ms| - 1]] else [])
  }

  // ---------------------------------------------------------------- one step

  /** A critical section acts on the packet's own channel like the assembler, and on no other channel at all. */
  lemma ReceiveMatches(t: Table, p: Incoming, alloc: Option<uint32>, now: int, c: uint32)
    requires WellFormed(t) && p.Full() && !p.Ignored? && c != BROADCAST_CID
    requires BROADCAST_CID !in t
    ensures var eff := Receive(t, p, alloc, now);
            var a := if c in t then View(t[c]) else Assembler.Idle;
            var out := Assembler.Step(a, Assembler.Packet(p, now));
            if p.cid == c then
              && (if eff.next.Insert? then eff.next.newCid == c && out.state.Idle?
                  else out.state == if c in eff.table then View(eff.table[c]) else Assembler.Idle)
              && out.messages == if eff.next.Deliver? then [eff.next.message] else []
            else
              && (c in eff.table <==> c in t) && (c in t ==> eff.table[c] == t[c])
              && (eff.next.Deliver? ==> eff.next.message.cid != c)
              && (eff.next.Insert? ==> eff.next.newCid == if Allocates(p) && alloc.Some? then alloc.value else p.cid)
  {
    if p.cid == c {
      if p.InitIn? {
        MatchInit(t, p, alloc, now, c);
      } else {
        MatchCont(t, p, alloc, now, c);
      }
    }
  }

  lemma MatchInit(t: Table, p: Incoming, alloc: Option<uint32>, now: int, c: uint32)
    requires p.Full() && p.InitIn? && p.cid == c != BROADCAST_CID
    ensures var eff := Receive(t, p, alloc, now);
            var a := if c in t then View(t[c]) else Assembler.Idle;
            var out := Assembler.Step(a, Assembler.Packet(p, now));
            && (if eff.next.Insert? then eff.next.newCid == c && out.state.Idle?
                else out.state == if c in eff.table then View(eff.table[c]) else Assembler.Idle)
            && out.messages == if eff.next.Deliver? then [eff.next.message] else []
  {
    assert Take(Take(p.payload, INIT_DATA_LEN), p.bcnt) == Take(p.payload, Min(p.bcnt, INIT_DATA_LEN));
    var data := Take(p.payload, Min(p.bcnt, INIT_DATA_LEN));
    assert |data| >= p.bcnt ==> data[..p.bcnt] == data;
  }

  lemma MatchCont(t: Table, p: Incoming, alloc: Option<uint32>, now: int, c: uint32)
    requires WellFormed(t) && p.Full() && p.ContIn? && p.cid == c
    ensures var eff := Receive(t, p, alloc, now);
            var a := if c in t then View(t[c]) else Assembler.Idle;
            var out := Assembler.Step(a, Assembler.Packet(p, now));
            && !eff.next.Insert?
            && out.state == (if c in eff.table then View(eff.table[c]) else Assembler.Idle)
            && out.messages == if eff.next.Deliver? then [eff.next.message] else []
  {
    if c in t && t[c].totalLen != 0 && p.seqByte == t[c].seqNum {
      var ch := t[c];
      ContinuedIsAssembling(ch, p.payload, now);
      assert Take(ch.data + Take(p.payload, CONT_DATA_LEN), ch.totalLen) == Collected(ch, p.payload);
      var data := Collected(ch, p.payload);
      assert |data| == ch.totalLen ==> data[..ch.totalLen] == data;
    }
  }

  /** Every step moves the view of a channel exactly as the assembler moves on the channel's own input. */
  lemma StepMatches(s: System, e: Event, c: uint32)
    requires Inv(s) && Enabled(s, e) && c != BROADCAST_CID
    ensures var out := Assembler.Step(ViewOf(s, c), Own(e, c));
            && ViewOf(Step(s, e), c) == out.state
            && OnCid(Step(s, e).dispatched, c) == OnCid(s.dispatched, c) + out.messages
  {
    if e.Report? {
      var p := e.packet;
      if !p.Ignored? {
        ReceiveMatches(s.table, p, Drawn(e.draw), e.now, c);
        ReportMatches(s, p, e.draw, e.now, c);
      }
    } else {
      QuietStepMatches(s, e, c);
    }
  }

  lemma DispatchMatches(s: System, m: Message, c: uint32)
    requires s.loop.Listening?
    ensures ViewOf(Dispatch(s, m), c) == if c in s.table then View(s.table[c]) else Assembler.Idle
    ensures OnCid(Dispatch(s, m).dispatched, c) == OnCid(s.dispatched, c) + if m.cid == c then [m] else []
  {
    var ms := s.dispatched + [m];
    assert ms[..|ms| - 1] == s.dispatched;
  }

  /** What a report leaves behind, in terms of its critical section. */
  lemma AfterReport(s: System, p: Incoming, draw: Option<Draw>, now: int, c: uint32)
    requires s.loop.Listening?
    ensures var eff := Receive(s.table, p, Drawn(draw), now);
            var s' := Receives(s, p, draw, now);
            && ViewOf(s', c) == (if (eff.next.Insert? && eff.next.newCid == c) || c !in eff.table then Assembler.Idle
                                 else View(eff.table[c]))
            && OnCid(s'.dispatched, c) ==
               OnCid(s.dispatched, c) + if eff.next.Deliver? && eff.next.message.cid == c then [eff.next.message] else []
  {
    hide Receive, View, Drawn;
    var eff := Receive(s.table, p, Drawn(draw), now);
    if eff.next.Deliver? {
      DispatchMatches(s.(table := eff.table, txns := CancelAll(s.txns, eff.cancelled)), eff.next.message, c);
    }
  }

  /** The identifier drawn for a broadcast INIT is that of an absent channel, unless the clock was asked. */
  lemma DrawnIsAbsent(t: Table, draw: Draw, c: uint32)
    requires draw.Accepted(t.Keys) && draw.Random? && draw.Cid() == c
    ensures c !in t
  {
  }

  lemma ReportMatches(s: System, p: Incoming, draw: Option<Draw>, now: int, c: uint32)
    requires Inv(s) && s.loop.Listening? && p.Full() && !p.Ignored? && c != BROADCAST_CID
    requires if Allocates(p) then draw.Some? && draw.value.Accepted(s.table.Keys) else draw.None?
    ensures var i := if p.cid == c then Assembler.Packet(p, now)
                     else if Allocates(p) && draw.Some? && draw.value.Clock? && draw.value.Cid() == c then Assembler.Gone
                     else Assembler.Other;
            var out := Assembler.Step(ViewOf(s, c), i);
            var s' := Receives(s, p, draw, now);
            && ViewOf(s', c) == out.state
            && OnCid(s'.dispatched, c) == OnCid(s.dispatched, c) + out.messages
  {
    AfterReport(s, p, draw, now, c);
    ReceiveMatches(s.table, p, Drawn(draw), now, c);
    hide Receive, Receives, View, OnCid, Assembler.Step;
    if p.cid != c {
      ForeignInput(ViewOf(s, c));
      if Allocates(p) && draw.value.Random? && draw.value.Cid() == c {
        DrawnIsAbsent(s.table, draw.value, c);
      }
      hide Draw.Accepted, Draw.Cid, Allocates;
    }
  }

  lemma ForeignInput(a: Assembler.State)
    ensures Assembler.Step(a, Assembler.Other) == Assembler.Output(a, [])
    ensures Assembler.Step(a, Assembler.Gone) == Assembler.Output(Assembler.Idle, [])
  {
  }

  lemma QuietStepMatches(s: System, e: Event, c: uint32)
    requires Enabled(s, e) && !e.Report? && c != BROADCAST_CID
    ensures var out := Assembler.Step(ViewOf(s, c), Own(e, c));
            && ViewOf(Step(s, e), c) == out.state && out.messages == []
            && Step(s, e).dispatched == s.dispatched
  {
  }

  // ---------------------------------------------------------------- whole schedules

  /** Over any schedule, a channel is the isolated assembler fed with the channel's own inputs. */
  lemma {:induction false} ScheduleMatches(s: System, es: seq<Event>, c: uint32)
    requires Inv(s) && Feasible(s, es) && c != BROADCAST_CID
    ensures var out := Assembler.Run(ViewOf(s, c), Inputs(es, c));
            && ViewOf(Run(s, es), c) == out.state
            && OnCid(Run(s, es).dispatched, c) == OnCid(s.dispatched, c) + out.messages
    decreases |es|
  {
    hide Step, Enabled, Assembler.Step, ViewOf, Own, OnCid, Inv;
    var inputs := Inputs(es, c);
    if es != [] {
      StepMatches(s, es[0], c);
      InvStep(s, es[0]);
      ScheduleMatches(Step(s, es[0]), es[1..], c);
      assert inputs[1..] == Inputs(es[1..], c);
    }
  }

  /** Two schedules that agree on what concerns channel `c`, in order, dispatch the same messages on `c`,
      whatever else they do. */
  lemma NonInterference(es: seq<Event>, fs: seq<Event>, c: uint32)
    requires Feasible(INITIAL, es) && Feasible(INITIAL, fs) && c != BROADCAST_CID
    requires Assembler.Significant(Inputs(es, c)) == Assembler.Significant(Inputs(fs, c))
    ensures OnCid(Run(INITIAL, es).dispatched, c) == OnCid(Run(INITIAL, fs).dispatched, c)
  {
    hide Step, Enabled, Assembler.Step, Own;
    ScheduleMatches(INITIAL, es, c);
    ScheduleMatches(INITIAL, fs, c);
    Assembler.OthersDoNotMatter(Assembler.Idle, Inputs(es, c));
    Assembler.OthersDoNotMatter(Assembler.Idle, Inputs(fs, c));
  }

  /** Nothing is ever dispatched on the broadcast channel. */
  lemma {:induction false} BroadcastIsSilent(s: System, es: seq<Event>)
    requires Inv(s) && Feasible(s, es)
    ensures OnCid(Run(s, es).dispatched, BROADCAST_CID) == OnCid(s.dispatched, BROADCAST_CID)
    decreases |es|
  {
    hide OnCid, Inv, Receives;
    if es != [] {
      var s' := Step(s, es[0]);
      InvStep(s, es[0]);
      BroadcastIsSilent(s', es[1..]);
      if es[0].Report? {
        BroadcastReport(s, es[0].packet, es[0].draw, es[0].now);
      }
    }
  }

  lemma BroadcastReport(s: System, p: Incoming, draw: Option<Draw>, now: int)
    requires Inv(s) && s.loop.Listening?
    ensures OnCid(Receives(s, p, draw, now).dispatched, BROADCAST_CID) == OnCid(s.dispatched, BROADCAST_CID)
  {
    AfterReport(s, p, draw, now, BROADCAST_CID);
    ReceiveKeepsHooks(s.table, p, Drawn(draw), now);
  }

  /** From any reachable state, a schedule that carries the fragments of a message amid noise dispatches exactly
      that message on its channel, and does so with the last fragment. */
  lemma TransferIsDispatched(before: seq<Event>, es: seq<Event>, m: Message)
    requires Feasible(INITIAL, before) && Feasible(Run(INITIAL, before), es)
    requires |m.data| <= MAX_MESSAGE_LEN && m.cmd != INIT && m.cmd != CANCEL && m.cid != BROADCAST_CID
    requires Assembler.Transfers(Inputs(es, m.cid), m)
    ensures var s := Run(INITIAL, before);
            var last := |es| - 1;
            && Feasible(s, es[..last])
            && OnCid(Run(s, es[..last]).dispatched, m.cid) == OnCid(s.dispatched, m.cid)
            && OnCid(Run(s, es).dispatched, m.cid) == OnCid(s.dispatched, m.cid) + [m]
  {
    TransferIsNotEmpty(es, m);
    ReachableFromStart(before);
    hide *;
    var s, last := Run(INITIAL, before), |es| - 1;
    Assembler.TransferDelivers(ViewOf(s, m.cid), m, Inputs(es, m.cid));
    SplitRun(s, es, last);
    ScheduleMatches(s, es, m.cid);
    ScheduleMatches(s, es[..last], m.cid);
    InputsPrefix(es, last, m.cid);
    assert OnCid(s.dispatched, m.cid) + [] == OnCid(s.dispatched, m.cid);
  }

  lemma TransferIsNotEmpty(es: seq<Event>, m: Message)
    requires Assembler.Transfers(Inputs(es, m.cid), m)
    ensures es != []
  {
  }

  lemma ReachableFromStart(before: seq<Event>)
    requires Feasible(INITIAL, before)
    ensures Inv(Run(INITIAL, before))
  {
    Reachable(INITIAL, before);
  }

  lemma InputsPrefix(es: seq<Event>, n: nat, c: uint32)
    requires n <= |es|
    ensures Inputs(es[..n], c) == Inputs(es, c)[..n]
  {
  }

  /** A ping comes back: its transfer leaves the event loop about to send the very message that came in. */
  lemma PingEchoes(before: seq<Event>, es: seq<Event>, m: Message)
    requires Feasible(INITIAL, before) && Feasible(Run(INITIAL, before), es)
    requires |m.data| <= MAX_MESSAGE_LEN && m.cmd == PING && m.cid != BROADCAST_CID
    requires Assembler.Transfers(Inputs(es, m.cid), m)
    ensures Run(Run(INITIAL, before), es).loop == Replying(m)
    ensures Host.Run(Host.Ready, Fragment(m)) == Host.Outcome(Host.Ready, [m])
  {
    TransferIsNotEmpty(es, m);
    hide *;
    var s, last := Run(INITIAL, before), |es| - 1;
    TransferIsDispatched(before, es, m);
    SplitRun(s, es, last);
    assert es[last..] == [es[last]];
    var s1 := Run(s, es[..last]);
    OneStep(s1, es[last]);
    LastDispatch(s1, es[last], m);
    assert Fragment(m)[..|Fragment(m)|] == Fragment(m);
    Host.ReassembleFragment(m, |Fragment(m)|);
  }

  lemma LastDispatch(s: System, e: Event, m: Message)
    requires Enabled(s, e) && m.cmd == PING
    requires OnCid(Step(s, e).dispatched, m.cid) == OnCid(s.dispatched, m.cid) + [m]
    ensures Step(s, e).loop == Replying(m)
  {
    var s' := Step(s, e);
    DispatchesOne(s, e);
    var prior := OnCid(s.dispatched, m.cid);
    assert |prior + [m]| == |prior| + 1;
    if s'.dispatched != s.dispatched {
      var d := s'.dispatched[|s.dispatched|];
      assert s'.dispatched[..|s'.dispatched| - 1] == s.dispatched;
      hide Step;
      assert (prior + [m])[|prior|] == m;
      assert d == m;
    }
  }

  lemma DispatchesOne(s: System, e: Event)
    requires Enabled(s, e)
    ensures var s' := Step(s, e);
            s'.dispatched == s.dispatched
            || (&& |s'.dispatched| == |s.dispatched| + 1 && s'.dispatched[..|s.dispatched|] == s.dispatched
                && var d := s'.dispatched[|s.dispatched|];
                   d.cmd == PING ==> s'.loop == Replying(d))
  {
    if e.Report? {
      ReportDispatchesOne(s, e.packet, e.draw, e.now);
      hide Receives;
    } else {
      QuietDispatchesNothing(s, e);
      hide Step;
    }
  }

  lemma QuietDispatchesNothing(s: System, e: Event)
    requires Enabled(s, e) && !e.Report?
    ensures Step(s, e).dispatched == s.dispatched
  {
  }

  lemma ReportDispatchesOne(s: System, p: Incoming, draw: Option<Draw>, now: int)
    ensures var s' := Receives(s, p, draw, now);
            s'.dispatched == s.dispatched
            || (&& |s'.dispatched| == |s.dispatched| + 1 && s'.dispatched[..|s.dispatched|] == s.dispatched
                && var d := s'.dispatched[|s.dispatched|];
                   d.cmd == PING ==> s'.loop == Replying(d))
  {
    hide Receive, CancelAll;
  }

  /** Every message ever dispatched on a channel has the provenance of its own inputs: one initialization packet and
      the continuations that followed it in order, cut to the announced length. */
  lemma DispatchedHasProvenance(before: seq<Event>, e: Event, c: uint32, m: Message)
    requires Feasible(INITIAL, before) && Enabled(Run(INITIAL, before), e) && c != BROADCAST_CID
    requires var s := Run(INITIAL, before);
             OnCid(Step(s, e).dispatched, c) == OnCid(s.dispatched, c) + [m]
    ensures Provenance.Explains(Inputs(before + [e], c), |before|, m)
  {
    hide Step, Enabled, Feasible, Run, ViewOf, Own, OnCid, Inv, Assembler.Run, Assembler.Step, Provenance.Explains;
    var s, n := Run(INITIAL, before), |before|;
    var inputs := Inputs(before + [e], c);
    ReachableFromStart(before);
    InitialView(c);
    ScheduleMatches(INITIAL, before, c);
    StepMatches(s, e, c);
    assert Inputs(before, c) == inputs[..n] && inputs[n] == Own(e, c);
    var prior := OnCid(s.dispatched, c);
    var news := Assembler.Step(Provenance.Before(inputs, n), inputs[n]).messages;
    assert (prior + news)[|prior|] == (prior + [m])[|prior|];
    Provenance.DispatchProvenance(inputs, n, m);
  }

  lemma InitialView(c: uint32)
    ensures ViewOf(INITIAL, c) == Assembler.Idle && Inv(INITIAL)
  {
  }

  /** From any reachable state, between an initialization packet and the next one on its channel: a message of 58
      bytes or more is dispatched at most once, an empty one exactly once, and one of 1 to 57 bytes twice if a
      continuation numbered 0 comes before the channel is reset or times out, and otherwise once. */
  lemma DispatchesPerMessage(before: seq<Event>, e: Event, es: seq<Event>, c: uint32)
    requires Feasible(INITIAL, before) && Feasible(Run(INITIAL, before), [e] + es)
    requires c != BROADCAST_CID && Assembler.Starts(Own(e, c)) && Provenance.NoStart(Inputs(es, c))
    ensures var s := Run(INITIAL, before);
            var first := Own(e, c);
            var n := |OnCid(Run(s, [e] + es).dispatched, c)| - |OnCid(s.dispatched, c)|;
            if first.p.bcnt == 0 then n == 1
            else if first.p.bcnt > INIT_DATA_LEN then 0 <= n <= 1
            else n == if Provenance.ZeroContinuationFirst(Inputs(es, c), first.now) then 2 else 1
  {
    hide Step, Enabled, Feasible, Run, ViewOf, OnCid, Inv, Assembler.Run, Assembler.Step, Own, Provenance.NoStart;
    var s := Run(INITIAL, before);
    ReachableFromStart(before);
    OwnPackets(es, c);
    OwnStart(s, e, es, c);
    ScheduleMatches(s, [e] + es, c);
    assert Inputs([e] + es, c) == [Own(e, c)] + Inputs(es, c);
    Provenance.DispatchCount(ViewOf(s, c), Own(e, c), Inputs(es, c));
  }

  /** It does happen: a ping of one byte, its answer, and a stray continuation numbered 0 dispatch the ping twice. */
  lemma ShortMessageTwice()
    ensures var ping, stray := InitIn(1, PING, 1, Zeros(INIT_DATA_LEN)), ContIn(1, 0, Zeros(CONT_DATA_LEN));
            var es := [Report(ping, None, 0), LoopSend, Report(stray, None, 0)];
            Feasible(INITIAL, es) && Run(INITIAL, es).dispatched == [Message(1, PING, [0]), Message(1, PING, [0])]
  {
    var e := Report(InitIn(1, PING, 1, Zeros(INIT_DATA_LEN)), None, 0);
    var f := Report(ContIn(1, 0, Zeros(CONT_DATA_LEN)), None, 0);
    var m := Message(1, PING, [0]);
    var table := map[1 := Chan(PING, 1, [0], 0, 0, None)];
    ShortPing();
    var s1 := Receives(INITIAL, e.packet, None, 0);
    hide Receive;
    assert s1 == System(table, Replying(m), [], [], [m]);
    var s2 := Step(s1, LoopSend);
    assert s2 == System(table, Listening, [], [Sent(Loop, m)], [m]);
    assert Step(s2, f).dispatched == [m, m];
    RunOfThree(INITIAL, e, LoopSend, f);
  }

  /** The two critical sections of that run. */
  lemma ShortPing()
    ensures var m, table := Message(1, PING, [0]), map[1 := Chan(PING, 1, [0], 0, 0, None)];
            && Receive(map[], InitIn(1, PING, 1, Zeros(INIT_DATA_LEN)), None, 0) == Effect(table, {}, Deliver(m))
            && Receive(table, ContIn(1, 0, Zeros(CONT_DATA_LEN)), None, 0).next == Deliver(m)
  {
    assert Take(Zeros(INIT_DATA_LEN), 1) == [0];
    assert [0] + Take(Zeros(CONT_DATA_LEN), 0) == [0];
    assert Hooks(map[], {1}) == {};
  }

  lemma OwnStart(s: System, e: Event, es: seq<Event>, c: uint32)
    requires Feasible(s, [e] + es) && Assembler.Starts(Own(e, c))
    ensures Own(e, c).p.Full() && Own(e, c).p.cid == c
  {
  }

  lemma OwnPackets(es: seq<Event>, c: uint32)
    ensures forall i <- Inputs(es, c) :: i.Packet? && !i.p.Ignored? ==> i.p.cid == c
  {
    forall i | i in Inputs(es, c) && i.Packet? && !i.p.Ignored?
      ensures i.p.cid == c
    {
      var k :| 0 <= k < |es| && Inputs(es, c)[k] == i;
      assert Own(es[k], c) == i;
    }
  }

  // ---------------------------------------------------------------- cancellation

  /** The packets that end what is running on their channel: a re-synchronizing INIT, a CANCEL, and any packet that
      starts a message. */
  predicate Interrupts(p: Incoming) {
    && p.InitIn? && p.cid != BROADCAST_CID
    && if p.cmd == INIT then p.bcnt == 8 && |p.payload| >= 8 else p.bcnt <= MAX_MESSAGE_LEN
  }

  /** The cancel slot of the transaction's channel names the transaction. */
  predicate Holds(s: System, t: nat)
    requires t < |s.txns|
  {
    s.txns[t].cid in s.table && s.table[s.txns[t].cid].cancel == Some(t)
  }

  /** What ends the context of transaction `t`: its time-out, its own end, or, while it holds the slot of its channel,
      an interrupting packet or staleness of that very channel, or the device closing. */
  predicate Ends(s: System, e: Event, t: nat)
    requires t < |s.txns|
  {
    var cid := s.txns[t].cid;
    || e == Transact(t, ContextExpires) || e == Transact(t, Clear)
    || (Holds(s, t) &&
        match e
        case Report(p, _, _) => Interrupts(p) && p.cid == cid
        case Cleanup(now) => now - s.table[cid].lastSeen > CHANNEL_TIMEOUT
        case CloseDevice => true
        case _ => false)
  }

  /** In every reachable state a step ends the context of a transaction exactly then: never through another channel,
      and never without holding the slot. */
  lemma WhoCancels(before: seq<Event>, e: Event, t: nat)
    requires Feasible(INITIAL, before)
    requires Enabled(Run(INITIAL, before), e) && t < |Run(INITIAL, before).txns|
    ensures var s := Run(INITIAL, before);
            Step(s, e).txns[t].ctxDone <==> s.txns[t].ctxDone || Ends(s, e, t)
  {
    Reachable(INITIAL, before);
    hide Run, Feasible, Step, Enabled, Ends;
    CancelledByStep(Run(INITIAL, before), e, t);
  }

  lemma CancelledByStep(s: System, e: Event, t: nat)
    requires Inv(s) && Enabled(s, e) && t < |s.txns|
    ensures Step(s, e).txns[t].ctxDone <==> s.txns[t].ctxDone || Ends(s, e, t)
  {
    match e
    case Report(p, draw, now) =>
      ReportTouches(s, p, draw, now, t);
      InterruptHooks(s.table, p, Drawn(draw), now);
      if !p.Ignored? {
        HookedExactly(s, {p.cid}, t);
      }
    case Cleanup(now) =>
      HookedExactly(s, Expired(s.table, now), t);
    case CloseDevice =>
      HookedExactly(s, s.table.Keys, t);
    case Insertion(_) =>
    case LoopSend =>
    case Transact(u, act) =>
      hide Touch;
  }

  lemma InterruptHooks(t: Table, p: Incoming, alloc: Option<uint32>, now: int)
    ensures Receive(t, p, alloc, now).cancelled == if Interrupts(p) then Hooks(t, {p.cid}) else {}
  {
  }

  lemma HookedExactly(s: System, cids: set<uint32>, t: nat)
    requires HooksAreOwn(s.table, s.txns) && t < |s.txns|
    ensures t in Hooks(s.table, cids) <==> Holds(s, t) && s.txns[t].cid in cids
  {
  }

  // ---------------------------------------------------------------- allocation

  /** The client reads its nonce and its identifier out of the answer to INIT. */
  lemma InitReplyReads(newCid: uint32, replyTo: uint32, nonce: seq<byte>)
    requires |nonce| == 8
    ensures var data := InitReply(newCid, replyTo, nonce).data;
            |data| == 17 && data[..8] == nonce && FromBe(data[8..12]) == newCid && data[12..] == [2, 1, 0, 0, 0x0C]
  {
    hide ToBe, FromBe;
    FromBeToBe(newCid, 4);
    PowersOf256();
    var data := InitReply(newCid, replyTo, nonce).data;
    assert data[..8] == nonce && data[8..12] == ToBe(newCid, 4) && data[12..] == [2, 1, 0, 0, 0x0C];
  }

  /** The answer to INIT, as the client reads it: its nonce, an identifier, version 2 of the protocol, version 1.0.0 of the
      device, and CBOR without U2F. */
  ghost predicate AnswersInit(loop: LoopPc, replyTo: uint32, nonce: seq<byte>, newCid: uint32) {
    && loop.Replying? && loop.message.cid == replyTo && loop.message.cmd == 0x06
    && var data := loop.message.data;
    && |data| == 17 && data[..8] == nonce && FromBe(data[8..12]) == newCid && data[12..] == [2, 1, 0, 0, 0x0C]
  }

  /** A channel that was just stored: idle, without a transaction to cancel. */
  ghost predicate StoredAfresh(table: Table, table': Table, cid: uint32, now: int)
    requires cid in table'
  {
    && table' == table[cid := table'[cid]]
    && table'[cid].totalLen == 0 && table'[cid].cancel == None && table'[cid].lastSeen == now
  }

  lemma InsertionAnswers(s: System, later: int)
    requires s.loop.Inserting? && |s.loop.nonce| == 8
    ensures var s' := Step(s, Insertion(later));
            && AnswersInit(s'.loop, s.loop.replyTo, s.loop.nonce, s.loop.newCid)
            && s.loop.newCid in s'.table && StoredAfresh(s.table, s'.table, s.loop.newCid, later)
  {
    InitReplyReads(s.loop.newCid, s.loop.replyTo, s.loop.nonce);
    hide FromBe, ToBe;
  }

  lemma AllocationInserts(s: System, p: Incoming, draw: Draw, now: int)
    requires Allocates(p)
    ensures Receives(s, p, Some(draw), now).loop == Inserting(draw.Cid(), BROADCAST_CID, p.payload[..8])
    ensures Receives(s, p, Some(draw), now).table == s.table
  {
    hide Draw.Cid;
  }

  /** Until the new channel is stored, the event loop waits to store it, whatever the other threads do. */
  lemma {:induction false} WaitsToInsert(s: System, es: seq<Event>)
    requires s.loop.Inserting? && Feasible(s, es) && forall e <- es :: !e.Insertion?
    ensures Run(s, es).loop == s.loop
    decreases |es|
  {
    if es != [] {
      assert es[0] in es && forall e <- es[1..] :: e in es;
      LoopKeepsInserting(s, es[0]);
      hide Step, Enabled;
      WaitsToInsert(Step(s, es[0]), es[1..]);
    }
  }

  lemma LoopKeepsInserting(s: System, e: Event)
    requires s.loop.Inserting? && Enabled(s, e) && !e.Insertion?
    ensures Step(s, e).loop == s.loop
  {
    hide Receive;
  }

  /** An INIT on the broadcast channel, with any steps of other threads between its two critical sections: the client
      reads its nonce and its identifier out of the answer, the identifier is a valid one and names an idle channel, it
      was that of no channel when it was drawn at random, and no other channel is touched. */
  lemma InitHandshake(s: System, p: Incoming, draw: Draw, now: int, between: seq<Event>, later: int)
    requires Allocates(p) && Enabled(s, Report(p, Some(draw), now))
    requires Feasible(Step(s, Report(p, Some(draw), now)), between) && forall e <- between :: !e.Insertion?
    ensures var s0 := Step(s, Report(p, Some(draw), now));
            var s1 := Run(s0, between);
            && s0.table == s.table && Enabled(s1, Insertion(later))
            && var s2 := Step(s1, Insertion(later));
               var cid := draw.Cid();
            && cid != 0xFFFF_FFFF && cid != 0 && (draw.Random? ==> cid !in s.table)
            && cid in s2.table && StoredAfresh(s1.table, s2.table, cid, later)
            && AnswersInit(s2.loop, 0xFFFF_FFFF, p.payload[..8], cid)
  {
    AllocationInserts(s, p, draw, now);
    hide Receives, FromBe, ToBe, Draw.Cid, AnswersInit, StoredAfresh;
    WaitsToInsert(Step(s, Report(p, Some(draw), now)), between);
    hide Feasible, Run;
    InsertionAnswers(Run(Step(s, Report(p, Some(draw), now)), between), later);
  }

  /** The same for an INIT on any other channel: that channel is stored afresh, and the answer comes on it. */
  lemma ResyncHandshake(s: System, p: Incoming, now: int, between: seq<Event>, later: int)
    requires p.InitIn? && p.cmd == INIT && p.bcnt == 8 && p.cid != BROADCAST_CID && Enabled(s, Report(p, None, now))
    requires Feasible(Step(s, Report(p, None, now)), between) && forall e <- between :: !e.Insertion?
    ensures var s1 := Run(Step(s, Report(p, None, now)), between);
            && Enabled(s1, Insertion(later))
            && var s2 := Step(s1, Insertion(later));
            && p.cid in s2.table && StoredAfresh(s1.table, s2.table, p.cid, later)
            && AnswersInit(s2.loop, p.cid, p.payload[..8], p.cid)
  {
    ResyncInserts(s, p, now);
    hide Receives, FromBe, ToBe, AnswersInit, StoredAfresh;
    WaitsToInsert(Step(s, Report(p, None, now)), between);
    hide Feasible, Run;
    InsertionAnswers(Run(Step(s, Report(p, None, now)), between), later);
  }

  lemma ResyncInserts(s: System, p: Incoming, now: int)
    requires p.InitIn? && p.cmd == INIT && p.bcnt == 8 && p.cid != BROADCAST_CID && p.Full()
    ensures Receives(s, p, None, now).loop == Inserting(p.cid, p.cid, p.payload[..8])
  {
    hide CancelAll, Hooks;
  }
}
