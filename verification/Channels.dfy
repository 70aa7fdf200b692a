/** The channel table of a CTAPHID device and what each critical section of the device does to it. */
module Channels {
  import opened Bytes
  import opened Framing

  /** Nanoseconds. */
  const CHANNEL_TIMEOUT: int := 30_000_000_000

  /** One channel. `cancel` names the transaction whose context the stored cancel function ends. */
  datatype Chan = Chan(cmd: Command, totalLen: uint16, data: seq<byte>, seqNum: byte, lastSeen: int, cancel: Option<nat>)

  type Table = map<uint32, Chan>

  function Fresh(now: int, cancel: Option<nat>): Chan {
    Chan(0, 0, [], 0, now, cancel)
  }

  /** What remains to be done by the thread that received a report, once it has left the lock. */
  datatype Next =
    | Done
    | Reply(reply: Message)
    | Insert(newCid: uint32, replyTo: uint32, nonce: seq<byte>)
    | Deliver(message: Message)

  /** The outcome of a critical section: the new table, the transactions it cancelled, and what comes next. */
  datatype Effect = Effect(table: Table, cancelled: set<nat>, next: Next)

  function ErrorReply(cid: uint32, code: byte): Message {
    Message(cid, ERROR, [code])
  }

  function Hooks(t: Table, cids: set<uint32>): set<nat> {
    set cid <- cids | cid in t && t[cid].cancel.Some? :: t[cid].cancel.value
  }

  lemma HooksUnion(t: Table, a: set<uint32>, b: set<uint32>)
    ensures Hooks(t, a + b) == Hooks(t, a) + Hooks(t, b)
  {
  }

  // ---------------------------------------------------------------- critical sections

  /** `alloc` is the identifier that `allocateCID` came up with, if it has. */
  function Receive(t: Table, p: Incoming, alloc: Option<uint32>, now: int): Effect {
    match p
    case Ignored => Effect(t, {}, Done)
    case InitIn(cid, cmd, bcnt, payload) =>
      if cmd == INIT then ReceiveInit(t, cid, bcnt, payload, alloc)
      else if cid == BROADCAST_CID then Effect(t, {}, Reply(ErrorReply(cid, ERR_INVALID_CHANNEL)))
      else if bcnt > MAX_MESSAGE_LEN then Effect(t, {}, Reply(ErrorReply(cid, ERR_INVALID_LEN)))
      else if cmd == CANCEL then Effect(t, Hooks(t, {cid}), Done)
      else BeginMessage(t, cid, cmd, bcnt, payload, now)
    case ContIn(cid, seqByte, payload) =>
      if cid !in t || t[cid].totalLen == 0 then Effect(t, {}, Reply(ErrorReply(cid, ERR_INVALID_CHANNEL)))
      else if seqByte != t[cid].seqNum then Effect(t, {}, Reply(ErrorReply(cid, ERR_INVALID_SEQ)))
      else ContinueMessage(t, cid, payload, now)
  }

  function ReceiveInit(t: Table, cid: uint32, bcnt: uint16, payload: seq<byte>, alloc: Option<uint32>): Effect {
    if bcnt != 8 || |payload| < 8 then Effect(t, {}, Reply(ErrorReply(cid, ERR_INVALID_LEN)))
    else if cid != BROADCAST_CID then Effect(t, Hooks(t, {cid}), Insert(cid, cid, payload[..8]))
    else if alloc.Some? then Effect(t, {}, Insert(alloc.value, cid, payload[..8]))
    else Effect(t, {}, Done)
  }

  function BeginMessage(t: Table, cid: uint32, cmd: Command, bcnt: uint16, payload: seq<byte>, now: int): Effect {
    var data := Take(payload, Min(bcnt, INIT_DATA_LEN));
    Effect(t[cid := Chan(cmd, bcnt, data, 0, now, None)], Hooks(t, {cid}),
           if |data| >= bcnt then Deliver(Message(cid, cmd, data[..bcnt])) else Done)
  }

  function ContinueMessage(t: Table, cid: uint32, payload: seq<byte>, now: int): Effect
    requires cid in t
  {
    var ch := t[cid];
    var data := Collected(ch, payload);
    Effect(t[cid := Continued(ch, payload, now)], {},
           if Complete(ch, payload) then Deliver(Message(cid, ch.cmd, data[..ch.totalLen])) else Done)
  }

  /** The bytes held by a channel after it took what it still needs from `payload`. */
  function Collected(ch: Chan, payload: seq<byte>): seq<byte> {
    var room := if |ch.data| < ch.totalLen then ch.totalLen - |ch.data| else 0;
    ch.data + Take(payload, Min(room, CONT_DATA_LEN))
  }

  predicate Complete(ch: Chan, payload: seq<byte>) {
    |Collected(ch, payload)| % 0x1_0000 >= ch.totalLen
  }

  function Continued(ch: Chan, payload: seq<byte>, now: int): Chan {
    var seqNum := (ch.seqNum + 1) % 0x100;
    if Complete(ch, payload)
    then Chan(ch.cmd, 0, [], seqNum, now, ch.cancel)
    else Chan(ch.cmd, ch.totalLen, Collected(ch, payload), seqNum, now, ch.cancel)
  }

  function InsertFresh(t: Table, cid: uint32, now: int): Table {
    t[cid := Fresh(now, None)]
  }

  function InitReply(newCid: uint32, replyTo: uint32, nonce: seq<byte>): Message {
    Message(replyTo, INIT, nonce + ToBe(newCid, 4) + [2, 1, 0, 0, 0x04 + 0x08])
  }

  /** The answer given at once to a complete message; a CBOR command is answered by a transaction of its own. */
  function DispatchReply(m: Message): Option<Message> {
    if m.cmd == CBOR then None
    else if m.cmd == PING then Some(m)
    else Some(ErrorReply(m.cid, ERR_INVALID_CMD))
  }

  /** The table once the thread that received a report is done, and what it answers with. */
  function Settled(e: Effect, now: int): Table {
    if e.next.Insert? then InsertFresh(e.table, e.next.newCid, now) else e.table
  }

  function ReplyTo(next: Next): Option<Message> {
    match next
    case Done => None
    case Reply(m) => Some(m)
    case Insert(newCid, replyTo, nonce) => Some(InitReply(newCid, replyTo, nonce))
    case Deliver(m) => DispatchReply(m)
  }

  function Answer(next: Next): seq<Packet> {
    if ReplyTo(next).Some? then Fragment(ReplyTo(next).value) else []
  }

  /** What can be seen of a device: its table, the transactions cancelled so far, the messages dispatched so far
      and the packets injected so far. */
  datatype DeviceState = DeviceState(table: Table, cancelled: set<nat>, dispatched: seq<Message>, packets: seq<Packet>)

  /** A packet log after an attempt to inject `ps` of which `accepts` succeed. */
  function Inject(log: seq<Packet>, ps: seq<Packet>, accepts: nat): seq<Packet> {
    if ps == [] then log else log + Take(ps, accepts)
  }

  /** The device after the thread with effect `e` has finished, when `accepts` of its packets could be injected. */
  function After(s: DeviceState, e: Effect, now: int, accepts: nat): DeviceState {
    DeviceState(Settled(e, now),
                s.cancelled + e.cancelled,
                if e.next.Deliver? then s.dispatched + [e.next.message] else s.dispatched,
                Inject(s.packets, Answer(e.next), accepts))
  }

  function RegisterCancel(t: Table, cid: uint32, txn: nat, now: int): Table {
    if cid in t then t[cid := t[cid].(cancel := Some(txn))] else t[cid := Fresh(now, Some(txn))]
  }

  function ClearCancel(t: Table, cid: uint32): Table {
    if cid in t then t[cid := t[cid].(cancel := None)] else t
  }

  function Expired(t: Table, now: int): set<uint32> {
    set cid <- t | now - t[cid].lastSeen > CHANNEL_TIMEOUT
  }

  // ---------------------------------------------------------------- allocation of identifiers

  /** A candidate identifier: four random bytes, or the clock when there is no randomness. */
  datatype Draw = Random(cid: uint32) | Clock(nanos: nat)
  {
    function Cid(): uint32 {
      match this
      case Random(cid) => cid
      case Clock(nanos) => nanos % 0x8000_0000
    }

    /** Only a random candidate is compared with the identifiers in use. */
    predicate Accepted(used: set<uint32>) {
      Cid() != 0 && Cid() != BROADCAST_CID && (Random? ==> Cid() !in used)
    }
  }

  function FirstAccepted(draws: seq<Draw>, used: set<uint32>): Option<uint32> {
    if draws == [] then None
    else if draws[0].Accepted(used) then Some(draws[0].Cid())
    else FirstAccepted(draws[1..], used)
  }

  /** As long as there is randomness, an allocated identifier is that of no channel; it is never zero or broadcast,
      and candidates are tried in order: everything before the accepted one was refused. */
  lemma {:induction false} AllocatedIsFresh(draws: seq<Draw>, used: set<uint32>)
    ensures match FirstAccepted(draws, used)
            case None => forall d <- draws :: !d.Accepted(used)
            case Some(cid) =>
              && cid != 0 && cid != 0xFFFF_FFFF
              && ((forall d <- draws :: d.Random?) ==> cid !in used)
              && exists i :: 0 <= i < |draws| && draws[i].Accepted(used) && draws[i].Cid() == cid
                             && (draws[i].Clock? ==> cid == draws[i].nanos % 0x8000_0000)
                             && forall j :: 0 <= j < i ==> !draws[j].Accepted(used)
  {
    if draws != [] && !draws[0].Accepted(used) {
      var rest := draws[1..];
      AllocatedIsFresh(rest, used);
      assert draws == [draws[0]] + rest;
      if FirstAccepted(rest, used).Some? {
        var i :| 0 <= i < |rest| && rest[i].Accepted(used) && rest[i].Cid() == FirstAccepted(rest, used).value
                 && forall j :: 0 <= j < i ==> !rest[j].Accepted(used);
        assert draws[i + 1] == rest[i];
        assert forall j :: 1 <= j < i + 1 ==> draws[j] == rest[j - 1];
      }
    } else if draws != [] {
      assert draws[0] in draws;
    }
  }

  // ---------------------------------------------------------------- what every channel satisfies

  /** A channel is idle, or holds 57 + 59 * seqNum bytes of a longer message, or still holds a one-packet message. */
  ghost predicate Assembling(ch: Chan) {
    || ch.totalLen == 0
    || (|ch.data| == 57 + 59 * ch.seqNum < ch.totalLen <= 1200)
    || (ch.seqNum == 0 && |ch.data| == ch.totalLen <= 57)
  }

  ghost predicate WellFormed(t: Table) {
    forall cid <- t :: Assembling(t[cid])
  }

  lemma ContinuedIsAssembling(ch: Chan, payload: seq<byte>, now: int)
    requires Assembling(ch) && ch.totalLen != 0 && |payload| >= CONT_DATA_LEN
    ensures Assembling(Continued(ch, payload, now))
    ensures ch.seqNum <= 19 && Continued(ch, payload, now).seqNum == ch.seqNum + 1
    ensures Complete(ch, payload) <==> |Collected(ch, payload)| == ch.totalLen
  {
  }

  /** Reports keep the table well formed; on the way no byte or 16-bit counter wraps. */
  lemma ReceiveKeepsWellFormed(t: Table, p: Incoming, alloc: Option<uint32>, now: int)
    requires WellFormed(t) && p.Full()
    ensures WellFormed(Receive(t, p, alloc, now).table)
  {
    var t' := Receive(t, p, alloc, now).table;
    if p.ContIn? && t' != t {
      ContinuedIsAssembling(t[p.cid], p.payload, now);
    }
    forall cid <- t' | t' != t
      ensures Assembling(t'[cid])
    {
      assert cid != p.cid ==> Assembling(t[cid]);
    }
  }
}
