/** What each CBOR transaction sends over a whole run, and how transactions relate to dispatched commands. */
module Transactions {
  import opened Bytes
  import opened Framing
  import opened Channels
  import opened HidSystem

  /** The messages a transaction has sent, in order. */
  function SentBy(sent: seq<Sent>, t: nat): seq<Message> {
    if sent == [] then []
    else
      var last := sent[|sent| - 1];
      SentBy(sent[..|sent| - 1], t) + (if last.origin == Transaction(t) then [last.message] else [])
  }

  ghost predicate AllKeepalives(ms: seq<Message>, cid: uint32) {
    forall m <- ms :: m == Message(cid, KEEPALIVE, [KEEPALIVE_PROCESSING])
  }

  /** Keepalives, and one answer at the end. */
  ghost predicate KeepalivesThen(ms: seq<Message>, cid: uint32, answer: Message) {
    ms != [] && AllKeepalives(ms[..|ms| - 1], cid) && ms[|ms| - 1] == answer
  }

  /** The transaction answered with what its handler returned. */
  ghost predicate Answered(txn: Txn, ms: seq<Message>) {
    txn.result.Some? && KeepalivesThen(ms, txn.cid, Message(txn.cid, CBOR, txn.result.value))
  }

  /** What a transaction in a given phase has sent so far. */
  ghost predicate Transcript(txn: Txn, ms: seq<Message>) {
    match txn.phase
    case Spawned => ms == [] && txn.result.None?
    case Refusing => txn.body == [] && ms == []
    case Waiting => txn.body != [] && AllKeepalives(ms, txn.cid)
    case Pinging => txn.body != [] && AllKeepalives(ms, txn.cid)
    case Answering(answer) => txn.body != [] && AllKeepalives(ms, txn.cid) && txn.result == Some(answer)
    case Clearing => txn.body != [] && (AllKeepalives(ms, txn.cid) || Answered(txn, ms))
    case Finished =>
      if txn.body == [] then ms == [ErrorReply(txn.cid, ERR_INVALID_LEN)]
      else AllKeepalives(ms, txn.cid) || Answered(txn, ms)
  }

  ghost predicate TranscriptsHold(txns: seq<Txn>, sent: seq<Sent>) {
    && (forall t :: 0 <= t < |txns| ==> Transcript(txns[t], SentBy(sent, t)))
    && (forall k :: 0 <= k < |sent| && sent[k].origin.Transaction? ==> sent[k].origin.txn < |txns|)
  }

  lemma SentByGrows(sent: seq<Sent>, last: Sent, t: nat)
    ensures SentBy(sent + [last], t) == SentBy(sent, t) + (if last.origin == Transaction(t) then [last.message] else [])
  {
    var all := sent + [last];
    assert all[..|all| - 1] == sent;
  }

  lemma {:induction false} SentByNobody(sent: seq<Sent>, t: nat)
    requires forall k :: 0 <= k < |sent| ==> sent[k].origin != Transaction(t)
    ensures SentBy(sent, t) == []
  {
    if sent != [] {
      SentByNobody(sent[..|sent| - 1], t);
    }
  }

  /** One event of a transaction extends its transcript as its phase demands. */
  lemma TranscriptAdvances(txn: Txn, act: Act, ms: seq<Message>)
    requires Ready(txn, act) && Transcript(txn, ms)
    ensures Transcript(Advance(txn, act), if act.Send? then ms + [Pending(txn)] else ms)
  {
    if act.Send? {
      assert (ms + [Pending(txn)])[..|ms|] == ms;
    }
  }

  /** Only the sender's transcript grows when a message is sent. */
  lemma TranscriptsSend(s: System, txns: seq<Txn>, last: Sent)
    requires TranscriptsHold(s.txns, s.sent) && |txns| == |s.txns|
    requires last.origin.Transaction? ==> last.origin.txn < |txns|
    requires forall t :: 0 <= t < |txns| ==>
               if last.origin == Transaction(t) then Transcript(txns[t], SentBy(s.sent, t) + [last.message])
               else txns[t] == s.txns[t]
    ensures TranscriptsHold(txns, s.sent + [last])
  {
    hide Transcript;
    forall t | 0 <= t < |txns|
      ensures Transcript(txns[t], SentBy(s.sent + [last], t))
    {
      SentByGrows(s.sent, last, t);
      assert SentBy(s.sent, t) + [] == SentBy(s.sent, t);
    }
  }

  lemma TranscriptsTransact(s: System, t: nat, act: Act)
    requires TranscriptsHold(s.txns, s.sent) && Enabled(s, Transact(t, act))
    ensures TranscriptsHold(Step(s, Transact(t, act)).txns, Step(s, Transact(t, act)).sent)
  {
    var txns := s.txns[t := Advance(s.txns[t], act)];
    TranscriptAdvances(s.txns[t], act, SentBy(s.sent, t));
    hide Transcript, Advance, Touch;
    if act.Send? {
      TranscriptsSend(s, txns, Sent(Transaction(t), Pending(s.txns[t])));
    }
  }

  lemma TranscriptsReport(s: System, txns: seq<Txn>, spawned: seq<Txn>)
    requires TranscriptsHold(s.txns, s.sent) && |txns| == |s.txns|
    requires forall t :: 0 <= t < |txns| ==>
               txns[t] == s.txns[t] || txns[t] == s.txns[t].(ctxDone := true)
    requires forall txn <- spawned :: txn.phase.Spawned? && txn.result.None?
    ensures TranscriptsHold(txns + spawned, s.sent)
  {
    forall t | |txns| <= t < |txns + spawned|
      ensures Transcript((txns + spawned)[t], SentBy(s.sent, t))
    {
      assert (txns + spawned)[t] in spawned;
      SentByNobody(s.sent, t);
    }
  }

  lemma TranscriptsCancel(s: System, ids: set<nat>)
    requires TranscriptsHold(s.txns, s.sent)
    ensures TranscriptsHold(CancelAll(s.txns, ids), s.sent)
  {
    hide TranscriptsHold;
    TranscriptsReport(s, CancelAll(s.txns, ids), []);
    assert CancelAll(s.txns, ids) + [] == CancelAll(s.txns, ids);
  }

  lemma TranscriptsReceive(s: System, p: Incoming, draw: Option<Draw>, now: int)
    requires TranscriptsHold(s.txns, s.sent)
    ensures TranscriptsHold(Receives(s, p, draw, now).txns, Receives(s, p, draw, now).sent)
  {
    hide TranscriptsHold, Receive, CancelAll;
    var eff := Receive(s.table, p, Drawn(draw), now);
    var txns := CancelAll(s.txns, eff.cancelled);
    var spawned := if eff.next.Deliver? && eff.next.message.cmd == CBOR
      then [Txn(eff.next.message.cid, eff.next.message.data, Spawned, false, None)] else [];
    TranscriptsReport(s, txns, spawned);
    assert txns + [] == txns;
    assert Receives(s, p, draw, now).txns == txns + spawned;
  }

  lemma TranscriptsStep(s: System, e: Event)
    requires TranscriptsHold(s.txns, s.sent) && Enabled(s, e)
    ensures TranscriptsHold(Step(s, e).txns, Step(s, e).sent)
  {
    hide TranscriptsHold, Receives, Transacts, CancelAll;
    match e
    case Transact(t, act) =>
      TranscriptsTransact(s, t, act);
    case LoopSend =>
      TranscriptsSend(s, s.txns, Sent(Loop, s.loop.message));
    case Report(p, draw, now) =>
      TranscriptsReceive(s, p, draw, now);
    case Insertion(_) =>
    case Cleanup(now) =>
      TranscriptsCancel(s, Hooks(s.table, Expired(s.table, now)));
    case CloseDevice =>
      TranscriptsCancel(s, Hooks(s.table, s.table.Keys));
  }

  // ---------------------------------------------------------------- transactions and dispatched commands

  function CborOnly(ms: seq<Message>): seq<Message> {
    if ms == [] then []
    else CborOnly(ms[..|ms| - 1]) + (if ms[|ms| - 1].cmd == CBOR then [ms[|ms| - 1]] else [])
  }

  /** There is one transaction for each dispatched CBOR message, in the same order, with its channel and its body. */
  ghost predicate OnePerCommand(txns: seq<Txn>, dispatched: seq<Message>) {
    && |txns| == |CborOnly(dispatched)|
    && forall t :: 0 <= t < |txns| ==>
         txns[t].cid == CborOnly(dispatched)[t].cid && txns[t].body == CborOnly(dispatched)[t].data
  }

  lemma OnePerCommandDispatch(txns: seq<Txn>, dispatched: seq<Message>, m: Message)
    requires OnePerCommand(txns, dispatched)
    ensures OnePerCommand(if m.cmd == CBOR then txns + [Txn(m.cid, m.data, Spawned, false, None)] else txns,
                          dispatched + [m])
  {
    var ms := dispatched + [m];
    assert ms[..|ms| - 1] == dispatched;
  }

  lemma OnePerCommandSame(txns: seq<Txn>, txns': seq<Txn>, dispatched: seq<Message>)
    requires OnePerCommand(txns, dispatched) && |txns'| == |txns|
    requires forall t :: 0 <= t < |txns| ==> txns'[t].cid == txns[t].cid && txns'[t].body == txns[t].body
    ensures OnePerCommand(txns', dispatched)
  {
  }

  lemma OnePerCommandStep(s: System, e: Event)
    requires OnePerCommand(s.txns, s.dispatched) && Enabled(s, e)
    ensures OnePerCommand(Step(s, e).txns, Step(s, e).dispatched)
  {
    hide OnePerCommand;
    match e
    case Report(p, draw, now) =>
      hide Receive;
      var eff := Receive(s.table, p, Drawn(draw), now);
      var txns := CancelAll(s.txns, eff.cancelled);
      OnePerCommandSame(s.txns, txns, s.dispatched);
      if eff.next.Deliver? {
        OnePerCommandDispatch(txns, s.dispatched, eff.next.message);
      }
    case Insertion(_) =>
    case LoopSend =>
    case _ =>
      OnePerCommandSame(s.txns, Step(s, e).txns, s.dispatched);
  }

  lemma {:induction false} RunKeepsTranscripts(s: System, es: seq<Event>)
    requires TranscriptsHold(s.txns, s.sent) && OnePerCommand(s.txns, s.dispatched) && Feasible(s, es)
    ensures TranscriptsHold(Run(s, es).txns, Run(s, es).sent) && OnePerCommand(Run(s, es).txns, Run(s, es).dispatched)
    decreases |es|
  {
    hide TranscriptsHold, OnePerCommand, Step, Enabled;
    if es != [] {
      TranscriptsStep(s, es[0]);
      OnePerCommandStep(s, es[0]);
      RunKeepsTranscripts(Step(s, es[0]), es[1..]);
    }
  }

  // ---------------------------------------------------------------- answers and handlers

  /** The handler of transaction `t` returned the status and the response that `data` consists of. */
  predicate Returned(es: seq<Event>, t: nat, data: seq<byte>) {
    data != [] && Transact(t, HandlerReturns(data[0], data[1..])) in es
  }

  /** A result is what the handler returned, status first; a step changes it only when the handler returns. */
  lemma ResultStep(s: System, e: Event, t: nat)
    requires Enabled(s, e) && t < |Step(s, e).txns|
    ensures t >= |s.txns| ==> Step(s, e).txns[t].result == None && !e.Transact?
    ensures t < |s.txns| ==>
              Step(s, e).txns[t].result ==
              if e.Transact? && e.txn == t && e.act.HandlerReturns? then Some([e.act.status] + e.act.response)
              else s.txns[t].result
    ensures t < |s.txns| && e.Transact? && e.txn == t && e.act.HandlerReturns? ==> s.txns[t].result == None
  {
    if e.Report? {
      ReportKeepsResults(s, e.packet, e.draw, e.now, t);
      hide Receives;
    } else {
      hide Receives, Touch;
    }
  }

  lemma ReportKeepsResults(s: System, p: Incoming, draw: Option<Draw>, now: int, t: nat)
    requires t < |Receives(s, p, draw, now).txns|
    ensures Receives(s, p, draw, now).txns[t].result == if t < |s.txns| then s.txns[t].result else None
  {
    hide Receive, DispatchReply;
  }

  /** The result of a transaction is `data` exactly when its handler returned `data`. */
  lemma {:induction false} ResultIsReturned(es: seq<Event>, t: nat, data: seq<byte>)
    requires Feasible(INITIAL, es)
    ensures Returned(es, t, data) ==> t < |Run(INITIAL, es).txns|
    ensures t < |Run(INITIAL, es).txns| ==> (Run(INITIAL, es).txns[t].result == Some(data) <==> Returned(es, t, data))
    decreases |es|
  {
    if es != [] {
      hide Run, Feasible, Step, Enabled, Returned;
      var k := |es| - 1;
      StepOfRun(INITIAL, es, k);
      assert es[..k + 1] == es;
      ResultIsReturned(es[..k], t, data);
      var s := Run(INITIAL, es[..k]);
      TxnCount(s, es[k]);
      LastReturned(es, t, data);
      if t < |Step(s, es[k]).txns| {
        ResultStep(s, es[k], t);
      }
    }
  }

  lemma LastReturned(es: seq<Event>, t: nat, data: seq<byte>)
    requires es != []
    ensures var e := es[|es| - 1];
            Returned(es, t, data) <==>
            || Returned(es[..|es| - 1], t, data)
            || (e.Transact? && e.txn == t && e.act.HandlerReturns? && [e.act.status] + e.act.response == data)
  {
    assert es == es[..|es| - 1] + [es[|es| - 1]];
    assert data != [] ==> data == [data[0]] + data[1..];
    var e := es[|es| - 1];
    if e.Transact? && e.act.HandlerReturns? {
      var d := [e.act.status] + e.act.response;
      assert d[0] == e.act.status && d[1..] == e.act.response;
    }
  }

  lemma ResultsAreReturned(es: seq<Event>, t: nat)
    requires Feasible(INITIAL, es) && t < |Run(INITIAL, es).txns|
    ensures forall data :: Run(INITIAL, es).txns[t].result == Some(data) <==> Returned(es, t, data)
  {
    forall data
      ensures Run(INITIAL, es).txns[t].result == Some(data) <==> Returned(es, t, data)
    {
      ResultIsReturned(es, t, data);
    }
  }

  lemma TxnCount(s: System, e: Event)
    requires Enabled(s, e)
    ensures |s.txns| <= |Step(s, e).txns|
    ensures e.Transact? ==> e.txn < |s.txns|
  {
  }

  lemma TranscriptsFromStart(es: seq<Event>)
    requires Feasible(INITIAL, es)
    ensures TranscriptsHold(Run(INITIAL, es).txns, Run(INITIAL, es).sent)
    ensures OnePerCommand(Run(INITIAL, es).txns, Run(INITIAL, es).dispatched)
  {
    RunKeepsTranscripts(INITIAL, es);
  }

  /** Over any schedule, every transaction stems from the dispatched CBOR message of its rank and sends, on that
      message's channel only, keepalives followed by at most one answer, after which it is silent. The answer to an
      empty command is an error; any other is the status and the response that the handler returned, in this order,
      and the handler returned once only. */
  lemma TransactionProtocol(es: seq<Event>, t: nat)
    requires Feasible(INITIAL, es) && t < |Run(INITIAL, es).txns|
    ensures var s := Run(INITIAL, es);
            var txn, ms := s.txns[t], SentBy(s.sent, t);
            && t < |CborOnly(s.dispatched)|
            && txn.cid == CborOnly(s.dispatched)[t].cid && txn.body == CborOnly(s.dispatched)[t].data
            && (forall m <- ms :: m.cid == txn.cid)
            && (forall k :: 0 <= k < |ms| - 1 ==> ms[k] == Message(txn.cid, 0x3B, [0x01]))
            && (ms != [] && ms[|ms| - 1] != Message(txn.cid, 0x3B, [0x01]) ==>
                  if txn.body == [] then ms[|ms| - 1] == Message(txn.cid, 0x3F, [0x03])
                  else ms[|ms| - 1].cmd == 0x10 && forall data :: Returned(es, t, data) <==> data == ms[|ms| - 1].data)
            && (txn.phase.Finished? && txn.body == [] ==> ms == [Message(txn.cid, 0x3F, [0x03])])
  {
    hide Run, Feasible, Returned, SentBy, CborOnly;
    TranscriptsFromStart(es);
    ResultsAreReturned(es, t);
    var s := Run(INITIAL, es);
    var txn, ms := s.txns[t], SentBy(s.sent, t);
    assert Transcript(txn, ms);
    TranscriptShape(txn, ms);
    EmptyIsRefused(txn, ms);
    hide Transcript;
  }

  lemma EmptyIsRefused(txn: Txn, ms: seq<Message>)
    requires Transcript(txn, ms)
    ensures txn.phase.Finished? && txn.body == [] ==> ms == [Message(txn.cid, 0x3F, [0x03])]
  {
  }

  lemma TranscriptShape(txn: Txn, ms: seq<Message>)
    requires Transcript(txn, ms)
    ensures forall m <- ms :: m.cid == txn.cid
    ensures forall k :: 0 <= k < |ms| - 1 ==> ms[k] == Message(txn.cid, 0x3B, [0x01])
    ensures ms != [] && ms[|ms| - 1] != Message(txn.cid, 0x3B, [0x01]) ==>
              if txn.body == [] then ms[|ms| - 1] == Message(txn.cid, 0x3F, [0x03])
              else txn.result.Some? && ms[|ms| - 1] == Message(txn.cid, 0x10, txn.result.value)
  {
    forall k | 0 <= k < |ms| - 1
      ensures ms[k] == Message(txn.cid, 0x3B, [0x01])
    {
      assert ms[k] in ms && ms[..|ms| - 1][k] in ms[..|ms| - 1];
    }
    if ms != [] {
      assert ms[|ms| - 1] in ms;
    }
  }

  /** Where a transaction stands that has taken its result: about to send it, or it has sent it. */
  ghost predicate AnswersWithResult(txn: Txn, ms: seq<Message>, sent: bool) {
    txn.result.Some?
    && if sent then (txn.phase.Clearing? || txn.phase.Finished?) && Answered(txn, ms)
       else txn.phase == Answering(txn.result.value)
  }

  /** From taking the result on, the transaction waits to send it, and sends it when it is scheduled to send. */
  lemma {:induction false} AnswerFollows(es: seq<Event>, i: nat, n: nat, t: nat)
    requires Feasible(INITIAL, es) && i < n <= |es| && es[i] == Transact(t, TakeResult)
    ensures Feasible(INITIAL, es[..n])
    ensures var s := Run(INITIAL, es[..n]);
            t < |s.txns| && AnswersWithResult(s.txns[t], SentBy(s.sent, t), Transact(t, Send) in es[i + 1..n])
    decreases n
  {
    hide Run, Feasible, TranscriptsHold, AnswersWithResult, SentBy, Step, Enabled;
    StepOfRun(INITIAL, es, n - 1);
    TranscriptsFromStart(es[..n - 1]);
    var s := Run(INITIAL, es[..n - 1]);
    if i == n - 1 {
      ResultIsTaken(s, t);
      assert es[i + 1..n] == [];
    } else {
      AnswerFollows(es, i, n - 1, t);
      AnswerStep(s, es[n - 1], t, Transact(t, Send) in es[i + 1..n - 1]);
      assert es[..n - 1][i] == es[i];
      assert es[i + 1..n] == es[i + 1..n - 1] + [es[n - 1]];
    }
  }

  lemma ResultIsTaken(s: System, t: nat)
    requires Enabled(s, Transact(t, TakeResult))
    ensures var s' := Step(s, Transact(t, TakeResult));
            t < |s'.txns| && AnswersWithResult(s'.txns[t], SentBy(s'.sent, t), false)
  {
    OwnStep(s, t, TakeResult);
    hide Step, SentBy;
  }

  lemma AnswerStep(s: System, e: Event, t: nat, sent: bool)
    requires Enabled(s, e) && t < |s.txns| && TranscriptsHold(s.txns, s.sent)
    requires AnswersWithResult(s.txns[t], SentBy(s.sent, t), sent)
    ensures t < |Step(s, e).txns|
    ensures AnswersWithResult(Step(s, e).txns[t], SentBy(Step(s, e).sent, t), sent || e == Transact(t, Send))
  {
    var ms := SentBy(s.sent, t);
    assert Transcript(s.txns[t], ms);
    assert ms + [] == ms;
    SentByStep(s, e, t);
    if e.Transact? && e.txn == t {
      OwnStep(s, t, e.act);
      AnswerAdvances(s.txns[t], e.act, ms, sent);
      hide Step, Enabled, AnswersWithResult, Transcript, Pending, Advance, SentBy;
    } else {
      TxnUntouched(s, e, t);
      hide Step, Enabled, Transcript, Pending, SentBy, KeepalivesThen;
    }
  }

  lemma SentByStep(s: System, e: Event, t: nat)
    requires Enabled(s, e) && t < |s.txns|
    ensures SentBy(Step(s, e).sent, t) ==
            SentBy(s.sent, t) + (if e == Transact(t, Send) then [Pending(s.txns[t])] else [])
  {
    hide Pending, SentBy;
    SentStep(s, e);
    hide Step;
    assert SentBy(s.sent, t) + [] == SentBy(s.sent, t) && s.sent + [] == s.sent;
    if e.LoopSend? {
      SentByGrows(s.sent, Sent(Loop, s.loop.message), t);
    } else if e.Transact? && e.act.Send? {
      SentByGrows(s.sent, Sent(Transaction(e.txn), Pending(s.txns[e.txn])), t);
    }
  }

  lemma AnswerAdvances(txn: Txn, act: Act, ms: seq<Message>, sent: bool)
    requires Ready(txn, act) && Transcript(txn, ms) && AnswersWithResult(txn, ms, sent)
    ensures AnswersWithResult(Advance(txn, act), if act.Send? then ms + [Pending(txn)] else ms, sent || act.Send?)
  {
    if act.Send? {
      assert (ms + [Pending(txn)])[..|ms|] == ms;
    }
  }

  /** A transaction that takes its result and is scheduled to send after that has answered with what its handler
      returned before it took it. */
  lemma TakenIsSent(es: seq<Event>, i: nat, j: nat, t: nat)
    requires Feasible(INITIAL, es) && i < j < |es|
    requires es[i] == Transact(t, TakeResult) && es[j] == Transact(t, Send)
    ensures var ms := SentBy(Run(INITIAL, es).sent, t);
            && ms != [] && ms[|ms| - 1].cmd == 0x10 && Returned(es, t, ms[|ms| - 1].data)
  {
    AnswerFollows(es, i, |es|, t);
    assert es[..|es|] == es;
    assert es[i + 1..][j - i - 1] == es[j];
    ResultsAreReturned(es, t);
    hide Run, Feasible, Returned;
  }

  // ---------------------------------------------------------------- transactions can finish

  /** What remains for a transaction to do, if its handler returns this when it has not returned yet. */
  function Remaining(txn: Txn, status: byte, response: seq<byte>, now: int): seq<Act> {
    var outcome := if txn.result.None? then [HandlerReturns(status, response)] else [];
    match txn.phase
    case Spawned =>
      if txn.body == [] then [Begin(now), Send] else [Begin(now), HandlerReturns(status, response), TakeResult, Send, Clear]
    case Refusing => [Send]
    case Waiting => outcome + [TakeResult, Send, Clear]
    case Pinging => [Send] + outcome + [TakeResult, Send, Clear]
    case Answering(_) => [Send, Clear]
    case Clearing => [Clear]
    case Finished => []
  }

  lemma RemainingStep(txn: Txn, ms: seq<Message>, status: byte, response: seq<byte>, now: int)
    requires Transcript(txn, ms) && !txn.phase.Finished?
    ensures var acts := Remaining(txn, status, response, now);
            && acts != [] && Ready(txn, acts[0])
            && acts[1..] == Remaining(Advance(txn, acts[0]), status, response, now)
  {
  }

  function EventsOf(t: nat, acts: seq<Act>): (es: seq<Event>)
    ensures |es| == |acts| && forall k :: 0 <= k < |acts| ==> es[k] == Transact(t, acts[k])
  {
    seq(|acts|, k requires 0 <= k < |acts| => Transact(t, acts[k]))
  }

  /** No transaction is ever stuck: from any reachable state its remaining steps can be taken one after the other, and
      then it is finished. */
  lemma {:induction false} EveryTransactionCanFinish(s: System, t: nat, status: byte, response: seq<byte>, now: int)
    requires TranscriptsHold(s.txns, s.sent) && t < |s.txns|
    ensures var es := EventsOf(t, Remaining(s.txns[t], status, response, now));
            && Feasible(s, es) && t < |Run(s, es).txns| && Run(s, es).txns[t].phase.Finished?
    decreases |Remaining(s.txns[t], status, response, now)|
  {
    var txn := s.txns[t];
    var acts := Remaining(txn, status, response, now);
    var es := EventsOf(t, acts);
    assert Transcript(txn, SentBy(s.sent, t));
    if !txn.phase.Finished? {
      RemainingStep(txn, SentBy(s.sent, t), status, response, now);
      hide Remaining, Ready, Advance, Transcript, TranscriptsHold, Step;
      assert es[0] == Transact(t, acts[0]) && Enabled(s, es[0]);
      OwnStep(s, t, acts[0]);
      TranscriptsStep(s, es[0]);
      assert es[1..] == EventsOf(t, acts[1..]);
      EveryTransactionCanFinish(Step(s, es[0]), t, status, response, now);
    }
  }

  /** Whatever a transaction sent before another of its messages was a keepalive. */
  lemma EarlierIsKeepalive(es: seq<Event>, p: nat, q: nat, t: nat)
    requires Feasible(INITIAL, es) && p < q < |Run(INITIAL, es).sent|
    requires Run(INITIAL, es).sent[p].origin == Run(INITIAL, es).sent[q].origin == Transaction(t)
    ensures Run(INITIAL, es).sent[p].message.cmd == KEEPALIVE
  {
    var sent := Run(INITIAL, es).sent;
    RunKeepsTranscripts(INITIAL, es);
    TransactionProtocol(es, t);
    SentBySplits(sent, p, t);
    SentBySplits(sent, q, t);
    assert sent[..q][..p + 1] == sent[..p + 1];
    SentByPrefix(sent[..q], p + 1, t);
  }

  /** No CBOR command is answered twice: two answers in the log stem from different dispatched commands. */
  lemma AnswersAreDistinct(es: seq<Event>, p: nat, q: nat)
    requires Feasible(INITIAL, es) && p < q < |Run(INITIAL, es).sent|
    requires var sent := Run(INITIAL, es).sent;
             sent[p].origin.Transaction? && sent[q].origin.Transaction? && sent[p].message.cmd != KEEPALIVE
    ensures Run(INITIAL, es).sent[p].origin != Run(INITIAL, es).sent[q].origin
  {
    var sent := Run(INITIAL, es).sent;
    if sent[p].origin == sent[q].origin {
      EarlierIsKeepalive(es, p, q, sent[p].origin.txn);
    }
  }

  lemma {:induction false} SentByPrefix(sent: seq<Sent>, n: nat, t: nat)
    requires n <= |sent|
    ensures SentBy(sent[..n], t) <= SentBy(sent, t)
  {
    if n == |sent| {
      assert sent[..n] == sent;
    } else {
      assert sent[..|sent| - 1][..n] == sent[..n];
      SentByPrefix(sent[..|sent| - 1], n, t);
    }
  }

  lemma SentBySplits(sent: seq<Sent>, p: nat, t: nat)
    requires p < |sent| && sent[p].origin == Transaction(t)
    ensures var i := |SentBy(sent[..p], t)|;
            && i < |SentBy(sent, t)| && SentBy(sent, t)[i] == sent[p].message
            && |SentBy(sent[..p + 1], t)| == i + 1
  {
    SentByPrefix(sent, p + 1, t);
    assert sent[..p + 1][..p] == sent[..p];
  }
}
