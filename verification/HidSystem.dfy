/** The device with all its threads: the event loop, one goroutine per CBOR transaction with its command handler,
    the cleanup loop and `Close`. Every critical section and every send is one step. */
module HidSystem {
  import opened Bytes
  import opened Framing
  import opened Channels

  /** Who sent a message: the event loop, or the transaction with the given number. */
  datatype Origin = Loop | Transaction(txn: nat)

  datatype Sent = Sent(origin: Origin, message: Message)

  /** Where a transaction stands. */
  datatype Phase =
    | Spawned
    | Refusing
    | Waiting
    | Pinging
    | Answering(answer: seq<byte>)
    | Clearing
    | Finished

  datatype Txn = Txn(cid: uint32, body: seq<byte>, phase: Phase, ctxDone: bool, result: Option<seq<byte>>)

  /** Where the event loop stands: waiting for a report, about to store a channel, or about to answer. */
  datatype LoopPc = Listening | Inserting(newCid: uint32, replyTo: uint32, nonce: seq<byte>) | Replying(message: Message)

  datatype System = System(table: Table, loop: LoopPc, txns: seq<Txn>, sent: seq<Sent>, dispatched: seq<Message>)

  const INITIAL := System(map[], Listening, [], [], [])

  /** A report arrives as `ReadReport` takes it apart. */
  datatype Event =
    | Report(packet: Incoming, draw: Option<Draw>, now: int)
    | Insertion(now: int)
    | LoopSend
    | Transact(txn: nat, act: Act)
    | Cleanup(now: int)
    | CloseDevice

  /** What can happen to one transaction. */
  datatype Act =
    | Begin(now: int)
    | HandlerReturns(status: byte, response: seq<byte>)
    | ContextExpires
    | TakeResult
    | KeepaliveTick
    | NoticeDone
    | Send
    | Clear

  /** The report is an INIT on the broadcast channel that asks for an identifier. */
  predicate Allocates(p: Incoming) {
    p.InitIn? && p.cmd == INIT && p.cid == BROADCAST_CID && p.bcnt == 8 && |p.payload| >= 8
  }

  function Drawn(draw: Option<Draw>): Option<uint32> {
    if draw.Some? then Some(draw.value.Cid()) else None
  }

  predicate Enabled(s: System, e: Event) {
    match e
    case Report(p, draw, _) =>
      && s.loop.Listening? && p.Full()
      && (if Allocates(p) then draw.Some? && draw.value.Accepted(s.table.Keys) else draw.None?)
    case Insertion(_) => s.loop.Inserting?
    case LoopSend => s.loop.Replying?
    case Transact(t, act) => t < |s.txns| && Ready(s.txns[t], act)
    case Cleanup(_) => true
    case CloseDevice => true
  }

  predicate Ready(txn: Txn, act: Act) {
    match act
    case Begin(_) => txn.phase.Spawned?
    case HandlerReturns(_, _) => txn.body != [] && !txn.phase.Spawned? && txn.result.None?
    case ContextExpires => txn.body != [] && !txn.phase.Spawned?
    case TakeResult => txn.phase.Waiting? && txn.result.Some?
    case KeepaliveTick => txn.phase.Waiting?
    case NoticeDone => txn.phase.Waiting? && txn.ctxDone
    case Send => txn.phase.Refusing? || txn.phase.Pinging? || txn.phase.Answering?
    case Clear => txn.phase.Clearing?
  }

  // ---------------------------------------------------------------- steps

  function CancelAll(txns: seq<Txn>, ids: set<nat>): (r: seq<Txn>)
    ensures |r| == |txns|
    ensures forall t :: 0 <= t < |txns| ==> r[t] == if t in ids then txns[t].(ctxDone := true) else txns[t]
  {
    seq(|txns|, t requires 0 <= t < |txns| => if t in ids then txns[t].(ctxDone := true) else txns[t])
  }

  function Receives(s: System, p: Incoming, draw: Option<Draw>, now: int): (s': System)
    ensures |s'.txns| >= |s.txns|
  {
    var eff := Receive(s.table, p, Drawn(draw), now);
    var s' := s.(table := eff.table, txns := CancelAll(s.txns, eff.cancelled));
    match eff.next
    case Done => s'
    case Reply(m) => s'.(loop := Replying(m))
    case Insert(newCid, replyTo, nonce) => s'.(loop := Inserting(newCid, replyTo, nonce))
    case Deliver(m) => Dispatch(s', m)
  }

  function Dispatch(s: System, m: Message): System {
    var s' := s.(dispatched := s.dispatched + [m]);
    if DispatchReply(m).Some? then s'.(loop := Replying(DispatchReply(m).value))
    else s'.(txns := s.txns + [Txn(m.cid, m.data, Spawned, false, None)])
  }

  /** What the transaction is about to send. */
  function Pending(txn: Txn): Message {
    match txn.phase
    case Pinging => Message(txn.cid, KEEPALIVE, [KEEPALIVE_PROCESSING])
    case Answering(answer) => Message(txn.cid, CBOR, answer)
    case _ => ErrorReply(txn.cid, ERR_INVALID_LEN)
  }

  function AfterSend(phase: Phase): Phase {
    match phase
    case Pinging => Waiting
    case Answering(_) => Clearing
    case _ => Finished
  }

  function Advance(txn: Txn, act: Act): Txn
    requires Ready(txn, act)
  {
    match act
    case Begin(_) => txn.(phase := if txn.body == [] then Refusing else Waiting)
    case HandlerReturns(status, response) => txn.(result := Some([status] + response))
    case ContextExpires => txn.(ctxDone := true)
    case TakeResult => txn.(phase := Answering(txn.result.value))
    case KeepaliveTick => txn.(phase := Pinging)
    case NoticeDone => txn.(phase := Clearing)
    case Send => txn.(phase := AfterSend(txn.phase))
    case Clear => txn.(phase := Finished, ctxDone := true)
  }

  /** The critical sections of a transaction: it stores its cancel function at the start and clears the slot at the end. */
  function Touch(table: Table, t: nat, txn: Txn, act: Act): Table {
    match act
    case Begin(now) => if txn.body == [] then table else RegisterCancel(table, txn.cid, t, now)
    case Clear => ClearCancel(table, txn.cid)
    case _ => table
  }

  function Transacts(s: System, t: nat, act: Act): (s': System)
    requires t < |s.txns| && Ready(s.txns[t], act)
    ensures |s'.txns| == |s.txns|
  {
    var txn := s.txns[t];
    s.(table := Touch(s.table, t, txn, act),
       txns := s.txns[t := Advance(txn, act)],
       sent := if act.Send? then s.sent + [Sent(Transaction(t), Pending(txn))] else s.sent)
  }

  function Step(s: System, e: Event): (s': System)
    requires Enabled(s, e)
    ensures |s'.txns| >= |s.txns|
  {
    match e
    case Report(p, draw, now) => Receives(s, p, draw, now)
    case Insertion(now) =>
      s.(table := InsertFresh(s.table, s.loop.newCid, now),
         loop := Replying(InitReply(s.loop.newCid, s.loop.replyTo, s.loop.nonce)))
    case LoopSend => s.(sent := s.sent + [Sent(Loop, s.loop.message)], loop := Listening)
    case Transact(t, act) => Transacts(s, t, act)
    case Cleanup(now) =>
      var gone := Expired(s.table, now);
      s.(table := s.table - gone, txns := CancelAll(s.txns, Hooks(s.table, gone)))
    case CloseDevice =>
      s.(table := map[], txns := CancelAll(s.txns, Hooks(s.table, s.table.Keys)))
  }

  /** Every event of the schedule is possible when its turn comes. */
  predicate Feasible(s: System, es: seq<Event>)
    decreases |es|
  {
    es == [] || (Enabled(s, es[0]) && Feasible(Step(s, es[0]), es[1..]))
  }

  function Run(s: System, es: seq<Event>): System
    requires Feasible(s, es)
    decreases |es|
  {
    if es == [] then s else Run(Step(s, es[0]), es[1..])
  }

  /** A schedule is feasible when its first part is, and its second part is after the first. */
  lemma {:induction false} RunConcat(s: System, es: seq<Event>, fs: seq<Event>)
    ensures Feasible(s, es + fs) <==> Feasible(s, es) && Feasible(Run(s, es), fs)
    ensures Feasible(s, es + fs) ==> Run(s, es + fs) == Run(Run(s, es), fs)
    decreases |es|
  {
    if es == [] {
      assert es + fs == fs;
    } else {
      assert (es + fs)[0] == es[0] && (es + fs)[1..] == es[1..] + fs;
      if Enabled(s, es[0]) {
        RunConcat(Step(s, es[0]), es[1..], fs);
      }
    }
  }

  lemma SplitRun(s: System, es: seq<Event>, n: nat)
    requires Feasible(s, es) && n <= |es|
    ensures Feasible(s, es[..n]) && Feasible(Run(s, es[..n]), es[n..])
    ensures Run(s, es) == Run(Run(s, es[..n]), es[n..])
  {
    RunConcat(s, es[..n], es[n..]);
    assert es[..n] + es[n..] == es;
  }

  /** The first `n + 1` events of a schedule are the first `n` and one step more. */
  lemma StepOfRun(s: System, es: seq<Event>, n: nat)
    requires Feasible(s, es) && n < |es|
    ensures Feasible(s, es[..n]) && Enabled(Run(s, es[..n]), es[n])
    ensures Feasible(s, es[..n + 1]) && Run(s, es[..n + 1]) == Step(Run(s, es[..n]), es[n])
  {
    hide Step, Enabled;
    SplitRun(s, es, n);
    assert es[n..][0] == es[n];
    SplitRun(s, es, n + 1);
    assert es[..n + 1][..n] == es[..n] && es[..n + 1][n..] == [es[n]];
    SplitRun(s, es[..n + 1], n);
    OneStep(Run(s, es[..n]), es[n]);
  }

  lemma OneStep(s: System, e: Event)
    requires Feasible(s, [e])
    ensures Enabled(s, e) && Run(s, [e]) == Step(s, e)
  {
    assert [e][1..] == [];
    hide Enabled, Step;
  }

  lemma RunOfOne(s: System, e: Event)
    requires Enabled(s, e)
    ensures Feasible(s, [e]) && Run(s, [e]) == Step(s, e)
  {
    assert [e][1..] == [];
    hide Enabled, Step;
  }

  lemma RunOfTwo(s: System, e: Event, f: Event)
    requires Enabled(s, e) && Enabled(Step(s, e), f)
    ensures Feasible(s, [e, f]) && Run(s, [e, f]) == Step(Step(s, e), f)
  {
    RunOfOne(Step(s, e), f);
    assert [e, f][1..] == [f];
    hide Enabled, Step;
  }

  lemma RunOfThree(s: System, e: Event, f: Event, g: Event)
    requires Enabled(s, e) && Enabled(Step(s, e), f) && Enabled(Step(Step(s, e), f), g)
    ensures Feasible(s, [e, f, g]) && Run(s, [e, f, g]) == Step(Step(Step(s, e), f), g)
  {
    RunOfTwo(Step(s, e), f, g);
    assert [e, f, g][1..] == [f, g];
    hide Enabled, Step;
  }

  /** What was sent, in order, whoever sent it. */
  function SentMessages(sent: seq<Sent>): (ms: seq<Message>)
    ensures |ms| == |sent|
  {
    seq(|sent|, i requires 0 <= i < |sent| => sent[i].message)
  }

  // ---------------------------------------------------------------- one transaction

  lemma ReportTouches(s: System, p: Incoming, draw: Option<Draw>, now: int, t: nat)
    requires t < |s.txns|
    ensures Receives(s, p, draw, now).txns[t] == CancelAll(s.txns, Receive(s.table, p, Drawn(draw), now).cancelled)[t]
  {
    hide Receive;
  }

  /** What other threads do to a transaction: nothing, or they end its context. */
  lemma TxnUntouched(s: System, e: Event, t: nat)
    requires t < |s.txns| && Enabled(s, e) && !(e.Transact? && e.txn == t)
    ensures t < |Step(s, e).txns|
    ensures Step(s, e).txns[t] == s.txns[t] || Step(s, e).txns[t] == s.txns[t].(ctxDone := true)
  {
    match e
    case Report(p, draw, now) =>
      hide Receives;
      ReportTouches(s, p, draw, now, t);
    case Transact(_, _) => hide Touch, Advance, Ready, Pending;
    case _ =>
  }

  lemma OwnStep(s: System, t: nat, act: Act)
    requires Enabled(s, Transact(t, act))
    ensures t < |Step(s, Transact(t, act)).txns| && Step(s, Transact(t, act)).txns[t] == Advance(s.txns[t], act)
  {
    hide Touch, Advance, Pending, Ready;
  }

  /** Sending is the only step that extends the log. */
  lemma SentStep(s: System, e: Event)
    requires Enabled(s, e)
    ensures Step(s, e).sent ==
            s.sent + (if e.LoopSend? then [Sent(Loop, s.loop.message)]
                      else if e.Transact? && e.act.Send? then [Sent(Transaction(e.txn), Pending(s.txns[e.txn]))]
                      else [])
  {
    assert s.sent + [] == s.sent;
    hide Receive, CancelAll, Touch, Advance, Pending;
  }

  // ---------------------------------------------------------------- what holds in every reachable state

  /** The transaction has stored its cancel function and has not cleared the slot yet. */
  predicate Running(txn: Txn) {
    txn.body != [] && !txn.phase.Spawned? && !txn.phase.Refusing? && !txn.phase.Finished?
  }

  /** A stored cancel function belongs to a running transaction of its own channel. */
  ghost predicate HooksAreOwn(table: Table, txns: seq<Txn>) {
    forall cid <- table :: table[cid].cancel.Some? ==>
      var t := table[cid].cancel.value;
      t < |txns| && txns[t].cid == cid && Running(txns[t])
  }

  ghost predicate Inv(s: System) {
    && WellFormed(s.table)
    && BROADCAST_CID !in s.table
    && HooksAreOwn(s.table, s.txns)
    && (s.loop.Inserting? ==> s.loop.newCid != BROADCAST_CID)
    && (forall txn <- s.txns :: txn.cid != BROADCAST_CID)
  }

  lemma InvReceives(s: System, p: Incoming, draw: Option<Draw>, now: int)
    requires Inv(s) && p.Full()
    requires draw.Some? ==> draw.value.Cid() != BROADCAST_CID
    ensures Inv(Receives(s, p, draw, now))
  {
    hide Receive, WellFormed, HooksAreOwn, Draw.Cid;
    var eff := Receive(s.table, p, Drawn(draw), now);
    ReceiveKeepsWellFormed(s.table, p, Drawn(draw), now);
    ReceiveKeepsHooks(s.table, p, Drawn(draw), now);
    ReceivesTxns(s, p, draw, now);
    HooksSurvive(s.table, s.txns, eff.table, Receives(s, p, draw, now).txns);
    hide ReplyTo, Dispatch, CancelAll, Unhooked;
    ReceivesLoop(s, p, draw, now);
    hide Receives;
  }

  /** A report spawns at most one transaction, on the channel of the message it completes, and ends some others. */
  lemma ReceivesTxns(s: System, p: Incoming, draw: Option<Draw>, now: int)
    requires forall txn <- s.txns :: txn.cid != BROADCAST_CID
    requires var next := Receive(s.table, p, Drawn(draw), now).next;
             next.Deliver? ==> next.message.cid != BROADCAST_CID
    ensures var txns := Receives(s, p, draw, now).txns;
            && |txns| >= |s.txns|
            && (forall k :: 0 <= k < |s.txns| ==>
                  txns[k].cid == s.txns[k].cid && (Running(s.txns[k]) ==> Running(txns[k])))
            && (forall txn <- txns :: txn.cid != BROADCAST_CID)
  {
    hide Receives, Running;
    var eff := Receive(s.table, p, Drawn(draw), now);
    var kept := CancelAll(s.txns, eff.cancelled);
    hide Receive;
    var spawned := ReceivesSpawns(s, p, draw, now);
    forall k | 0 <= k < |s.txns|
      ensures kept[k].cid == s.txns[k].cid && Running(kept[k]) == Running(s.txns[k]) && s.txns[k] in s.txns
    {
      RunningDespiteCancel(s.txns[k]);
    }
    hide CancelAll;
  }

  /** A report may spawn a transaction on the channel of the message it completes. */
  lemma ReceivesSpawns(s: System, p: Incoming, draw: Option<Draw>, now: int) returns (spawned: seq<Txn>)
    ensures var eff := Receive(s.table, p, Drawn(draw), now);
            && Receives(s, p, draw, now).txns == CancelAll(s.txns, eff.cancelled) + spawned
            && (spawned == []
                || (eff.next.Deliver?
                    && spawned == [Txn(eff.next.message.cid, eff.next.message.data, Spawned, false, None)]))
  {
    hide Receive, CancelAll;
    var eff := Receive(s.table, p, Drawn(draw), now);
    var kept := CancelAll(s.txns, eff.cancelled);
    spawned := Receives(s, p, draw, now).txns[|kept|..];
    assert kept + [] == kept;
  }

  lemma RunningDespiteCancel(txn: Txn)
    ensures Running(txn.(ctxDone := true)) == Running(txn)
  {
  }

  lemma ReceivesLoop(s: System, p: Incoming, draw: Option<Draw>, now: int)
    ensures var eff, s' := Receive(s.table, p, Drawn(draw), now), Receives(s, p, draw, now);
            && s'.table == eff.table
            && (s'.loop.Inserting? ==>
                  s'.loop == s.loop || (eff.next.Insert? && s'.loop.newCid == eff.next.newCid))
  {
    hide Receive;
  }

  /** A report stores nothing under the broadcast identifier, and no cancel function that was not there. */
  lemma ReceiveKeepsHooks(t: Table, p: Incoming, alloc: Option<uint32>, now: int)
    requires BROADCAST_CID !in t
    ensures var eff := Receive(t, p, alloc, now);
            && BROADCAST_CID !in eff.table
            && (forall cid <- eff.table :: eff.table[cid].cancel.Some? ==> cid in t && eff.table[cid].cancel == t[cid].cancel)
            && (eff.next.Insert? ==> eff.next.newCid == BROADCAST_CID ==> alloc == Some(BROADCAST_CID))
            && (eff.next.Deliver? ==> eff.next.message.cid != BROADCAST_CID)
  {
  }

  ghost predicate Unhooked(table: Table, t: nat) {
    forall cid <- table :: table[cid].cancel != Some(t)
  }

  lemma HooksSurvive(t: Table, txns: seq<Txn>, t': Table, txns': seq<Txn>)
    requires HooksAreOwn(t, txns) && |txns| <= |txns'|
    requires forall cid <- t' :: t'[cid].cancel.Some? ==> cid in t && t'[cid].cancel == t[cid].cancel
    requires forall k :: 0 <= k < |txns| ==>
               && txns'[k].cid == txns[k].cid
               && (Running(txns[k]) ==> Running(txns'[k]) || Unhooked(t', k))
    ensures HooksAreOwn(t', txns')
  {
  }

  lemma InvStep(s: System, e: Event)
    requires Inv(s) && Enabled(s, e)
    ensures Inv(Step(s, e))
  {
    match e
    case Report(p, draw, now) =>
      InvReceives(s, p, draw, now);
    case Insertion(now) =>
      HooksSurvive(s.table, s.txns, Step(s, e).table, s.txns);
    case LoopSend =>
    case Cleanup(now) =>
      HooksSurvive(s.table, s.txns, Step(s, e).table, Step(s, e).txns);
    case CloseDevice =>
      assert forall txn <- Step(s, e).txns :: txn.cid != BROADCAST_CID;
    case Transact(t, act) =>
      InvTransact(s, t, act);
  }

  /** Beginning stores the transaction's own cancel function under its own channel. */
  lemma HooksBegin(table: Table, txns: seq<Txn>, t: nat, now: int)
    requires HooksAreOwn(table, txns) && t < |txns| && txns[t].phase.Spawned? && txns[t].body != []
    ensures HooksAreOwn(RegisterCancel(table, txns[t].cid, t, now), txns[t := Advance(txns[t], Begin(now))])
  {
    var txns' := txns[t := Advance(txns[t], Begin(now))];
    assert txns'[t].cid == txns[t].cid && Running(txns'[t]);
    assert forall k :: 0 <= k < |txns| && k != t ==> txns'[k] == txns[k];
    hide Running, Advance;
  }

  /** Every other step of a transaction keeps it running or comes after its slot was cleared. */
  lemma HooksAdvance(table: Table, txns: seq<Txn>, t: nat, act: Act)
    requires HooksAreOwn(table, txns) && t < |txns| && Ready(txns[t], act) && (act.Begin? ==> txns[t].body == [])
    ensures HooksAreOwn(Touch(table, t, txns[t], act), txns[t := Advance(txns[t], act)])
  {
    var table', txns' := Touch(table, t, txns[t], act), txns[t := Advance(txns[t], act)];
    AdvanceRuns(txns[t], act);
    hide Running, Advance;
    if Running(txns[t]) && !Running(txns'[t]) {
      assert Unhooked(table', t);
    }
    HooksSurvive(table, txns, table', txns');
  }

  lemma AdvanceRuns(txn: Txn, act: Act)
    requires Ready(txn, act)
    ensures Advance(txn, act).cid == txn.cid
    ensures Running(txn) ==> Running(Advance(txn, act)) || act.Clear?
  {
  }

  lemma TouchKeepsWellFormed(table: Table, t: nat, txn: Txn, act: Act)
    requires WellFormed(table) && BROADCAST_CID !in table && txn.cid != BROADCAST_CID
    ensures WellFormed(Touch(table, t, txn, act)) && BROADCAST_CID !in Touch(table, t, txn, act)
  {
  }

  lemma InvTransact(s: System, t: nat, act: Act)
    requires Inv(s) && Enabled(s, Transact(t, act))
    ensures Inv(Step(s, Transact(t, act)))
  {
    assert s.txns[t] in s.txns;
    TouchKeepsWellFormed(s.table, t, s.txns[t], act);
    AdvanceRuns(s.txns[t], act);
    if act.Begin? && s.txns[t].body != [] {
      HooksBegin(s.table, s.txns, t, act.now);
    } else {
      HooksAdvance(s.table, s.txns, t, act);
    }
    hide WellFormed, HooksAreOwn, Touch, Advance, Running;
  }

  /** Every reachable state satisfies the invariant: framing stays within its bounds, no channel is stored under the
      broadcast identifier, and a stored cancel function is that of a transaction of its own channel that has begun and
      has not come to its end. */
  lemma {:induction false} Reachable(s: System, es: seq<Event>)
    requires Inv(s) && Feasible(s, es)
    ensures Inv(Run(s, es))
    decreases |es|
  {
    if es != [] {
      InvStep(s, es[0]);
      Reachable(Step(s, es[0]), es[1..]);
    }
  }
}
