/** What the device keeps about a channel besides its message, and how it answers a report: references that look at the
    events only, with the numbers of the protocol written out. */
module Bookkeeping {
  import opened Bytes
  import opened Framing
  import opened Channels
  import opened HidSystem
  import Assembler
  import Isolation

  // ---------------------------------------------------------------- last use and cancel slot

  /** When a stored channel was last used, and which transaction it can cancel. */
  datatype Entry = Absent | Stored(lastSeen: int, cancel: Option<nat>)

  function EntryOf(s: System, c: uint32): Entry {
    if c in s.table then Stored(s.table[c].lastSeen, s.table[c].cancel) else Absent
  }

  /** A message that begins empties the slot, a continuation that is taken keeps it, and both count as use; so does the
      storing of a new channel. A transaction that begins takes the slot of its channel, which it stores if need be, and
      one that ends empties it. Thirty seconds without use, or closing the device, remove the channel. */
  function EntryAfter(s: System, e: Event, c: uint32): Entry
    requires Enabled(s, e)
  {
    var entry := EntryOf(s, c);
    match e
    case Report(p, _, now) =>
      if p.Ignored? || p.cid != c then entry
      else if Assembler.Starts(Assembler.Packet(p, now)) then Stored(now, None)
      else if entry.Stored? && Assembler.Continues(Isolation.ViewOf(s, c), Assembler.Packet(p, now))
      then Stored(now, entry.cancel)
      else entry
    case Insertion(now) => if s.loop.newCid == c then Stored(now, None) else entry
    case Transact(t, Begin(now)) =>
      if s.txns[t].cid != c || s.txns[t].body == [] then entry
      else if entry.Stored? then Stored(entry.lastSeen, Some(t))
      else Stored(now, Some(t))
    case Transact(t, Clear) => if s.txns[t].cid == c && entry.Stored? then Stored(entry.lastSeen, None) else entry
    case Cleanup(now) => if entry.Stored? && now - entry.lastSeen > 30_000_000_000 then Absent else entry
    case CloseDevice => Absent
    case _ => entry
  }

  /** In every reachable state, each step of any thread moves the entry of each channel in exactly this way. */
  lemma EntryMoves(before: seq<Event>, e: Event, c: uint32)
    requires Feasible(INITIAL, before) && Enabled(Run(INITIAL, before), e) && c != BROADCAST_CID
    ensures var s := Run(INITIAL, before);
            EntryOf(Step(s, e), c) == EntryAfter(s, e, c)
  {
    Isolation.ReachableFromStart(before);
    hide Run, Feasible;
    var s := Run(INITIAL, before);
    match e
    case Report(p, draw, now) => ReportMovesEntry(s, p, draw, now, c);
    case _ => QuietMovesEntry(s, e, c);
  }

  lemma ReportMovesEntry(s: System, p: Incoming, draw: Option<Draw>, now: int, c: uint32)
    requires Inv(s) && Enabled(s, Report(p, draw, now)) && c != BROADCAST_CID
    ensures EntryOf(Step(s, Report(p, draw, now)), c) == EntryAfter(s, Report(p, draw, now), c)
  {
    ReceivesLoop(s, p, draw, now);
    ReceiveMovesEntry(s.table, p, Drawn(draw), now, c);
    hide Receives, Receive;
  }

  lemma ReceiveMovesEntry(t: Table, p: Incoming, alloc: Option<uint32>, now: int, c: uint32)
    requires BROADCAST_CID !in t && c != BROADCAST_CID
    ensures var t' := Receive(t, p, alloc, now).table;
            if p.Ignored? || p.cid != c then (c in t' <==> c in t) && (c in t ==> t'[c] == t[c])
            else if Assembler.Starts(Assembler.Packet(p, now)) then c in t' && t'[c].lastSeen == now && t'[c].cancel == None
            else if c in t && Assembler.Continues(Isolation.View(t[c]), Assembler.Packet(p, now))
            then c in t' && t'[c].lastSeen == now && t'[c].cancel == t[c].cancel
            else (c in t' <==> c in t) && (c in t ==> t'[c] == t[c])
  {
  }

  lemma QuietMovesEntry(s: System, e: Event, c: uint32)
    requires Enabled(s, e) && !e.Report?
    ensures EntryOf(Step(s, e), c) == EntryAfter(s, e, c)
  {
  }

  // ---------------------------------------------------------------- answers to reports

  /** The error with which a report is refused, given what its channel is collecting. */
  function Refusal(a: Assembler.State, p: Incoming): Option<byte> {
    match p
    case Ignored => None
    case InitIn(cid, cmd, bcnt, _) =>
      if cmd == 0x06 then (if bcnt == 8 then None else Some(0x03))
      else if cid == 0xFFFF_FFFF then Some(0x0B)
      else if bcnt > 1200 then Some(0x03)
      else None
    case ContIn(_, seqByte, _) =>
      if a.Idle? then Some(0x0B) else if seqByte != a.number then Some(0x04) else None
  }

  /** What a completed message is answered with at once: a ping with itself, a CBOR command not yet, others by an error. */
  function AnswerAtOnce(m: Message): Option<Message> {
    if m.cmd == 0x01 then Some(m) else if m.cmd == 0x10 then None else Some(Message(m.cid, 0x3F, [0x01]))
  }

  /** What comes of a report, given what its channel is collecting. */
  datatype Outcome =
    | Unheeded
    | Refused(code: byte)
    | Allocating(newCid: uint32, nonce: seq<byte>)
    | Completing(message: Message)
    | Accepted

  function OutcomeOf(a: Assembler.State, p: Incoming, draw: Option<Draw>, now: int): Outcome
    requires p.Full()
  {
    var messages := Assembler.Step(a, Assembler.Packet(p, now)).messages;
    if p.Ignored? then Unheeded
    else if Refusal(a, p).Some? then Refused(Refusal(a, p).value)
    else if p.InitIn? && p.cmd == 0x06 then
      Allocating(if p.cid == 0xFFFF_FFFF && draw.Some? then draw.value.Cid() else p.cid, p.payload[..8])
    else if messages != [] then Completing(messages[0])
    else Accepted
  }

  /** In every reachable state: a report is refused for exactly these reasons, on the channel it came from, and then
      nothing else changes. Otherwise an INIT leads to the storing of its channel, with the nonce to be returned; a report
      that completes a message is answered at once or starts a transaction; and any other report is not answered. */
  lemma ReportsAreAnswered(before: seq<Event>, p: Incoming, draw: Option<Draw>, now: int)
    requires Feasible(INITIAL, before) && Enabled(Run(INITIAL, before), Report(p, draw, now))
    ensures var s := Run(INITIAL, before);
            var s' := Step(s, Report(p, draw, now));
            match OutcomeOf(Isolation.ViewOf(s, p.CidOr(0)), p, draw, now)
            case Unheeded => s' == s
            case Refused(code) => s' == s.(loop := Replying(Message(p.cid, 0x3F, [code])))
            case Allocating(newCid, nonce) => s'.loop == Inserting(newCid, p.cid, nonce) && |s'.txns| == |s.txns|
            case Completing(m) =>
              && s'.loop == (if AnswerAtOnce(m).Some? then Replying(AnswerAtOnce(m).value) else Listening)
              && |s'.txns| == |s.txns| + if m.cmd == 0x10 then 1 else 0
            case Accepted => s'.loop == Listening && |s'.txns| == |s.txns|
  {
    Isolation.ReachableFromStart(before);
    hide Run, Feasible, OutcomeOf, Receives;
    var s := Run(INITIAL, before);
    if p.Ignored? {
      IgnoredIsUnheeded(s, draw, now);
    } else {
      ReceiveOutcome(s.table, p, draw, now);
      AfterOutcome(s, p, draw, now);
    }
  }

  lemma IgnoredIsUnheeded(s: System, draw: Option<Draw>, now: int)
    ensures s.loop.Listening? ==> Receives(s, Ignored, draw, now) == s
    ensures OutcomeOf(Isolation.ViewOf(s, 0), Ignored, draw, now) == Unheeded
  {
    assert CancelAll(s.txns, {}) == s.txns;
  }

  /** The critical section of a report has that outcome. */
  lemma ReceiveOutcome(t: Table, p: Incoming, draw: Option<Draw>, now: int)
    requires WellFormed(t) && BROADCAST_CID !in t && p.Full() && !p.Ignored?
    requires Allocates(p) ==> draw.Some?
    ensures var eff := Receive(t, p, Drawn(draw), now);
            match OutcomeOf(if p.cid in t then Isolation.View(t[p.cid]) else Assembler.Idle, p, draw, now)
            case Unheeded => false
            case Refused(code) => eff == Effect(t, {}, Reply(Message(p.cid, 0x3F, [code])))
            case Allocating(newCid, nonce) => eff.next == Insert(newCid, p.cid, nonce)
            case Completing(m) => eff.next == Deliver(m)
            case Accepted => eff.next == Done
  {
    if p.cid != BROADCAST_CID {
      if p.InitIn? {
        Isolation.MatchInit(t, p, Drawn(draw), now, p.cid);
      } else {
        Isolation.MatchCont(t, p, Drawn(draw), now, p.cid);
      }
    }
    hide Draw.Cid, Take, Assembling;
  }

  /** What the event loop makes of the outcome of its critical section. */
  lemma AfterOutcome(s: System, p: Incoming, draw: Option<Draw>, now: int)
    requires s.loop.Listening?
    ensures var eff, s' := Receive(s.table, p, Drawn(draw), now), Receives(s, p, draw, now);
            match eff.next
            case Done => s'.loop == Listening && |s'.txns| == |s.txns|
            case Reply(m) => eff.cancelled == {} && eff.table == s.table ==> s' == s.(loop := Replying(m))
            case Insert(newCid, replyTo, nonce) => s'.loop == Inserting(newCid, replyTo, nonce) && |s'.txns| == |s.txns|
            case Deliver(m) =>
              && s'.loop == (if AnswerAtOnce(m).Some? then Replying(AnswerAtOnce(m).value) else Listening)
              && |s'.txns| == |s.txns| + if m.cmd == 0x10 then 1 else 0
  {
    hide Receive;
    assert CancelAll(s.txns, {}) == s.txns;
  }
}
