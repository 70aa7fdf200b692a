/** The device object: its channels are updated in place under one lock, its packets leave through uhid. */
module HidDevice {
  import opened Bytes
  import opened Framing
  import opened Channels

  /** The uhid device as a log of the packets it took. */
  class Uhid {
    var packets: seq<Packet>

    constructor ()
      ensures packets == []
    {
      packets := [];
    }

    method InjectEvent(pkt: Packet, accepted: bool) returns (ok: bool)
      modifies this
      ensures ok == accepted
      ensures packets == if accepted then old(packets) + [pkt] else old(packets)
    {
      ok := accepted;
      if accepted {
        packets := packets + [pkt];
      }
    }
  }

  class Channel {
    var cmd: Command
    var totalLen: uint16
    var data: seq<byte>
    var seqNum: byte
    var lastSeen: int
    var cancelFunc: Option<nat>

    constructor (cmd: Command, totalLen: uint16, data: seq<byte>, now: int, cancelFunc: Option<nat>)
      ensures Value() == Chan(cmd, totalLen, data, 0, now, cancelFunc)
    {
      this.cmd, this.totalLen, this.data, this.seqNum := cmd, totalLen, data, 0;
      this.lastSeen, this.cancelFunc := now, cancelFunc;
    }

    function Value(): Chan
      reads this
    {
      Chan(cmd, totalLen, data, seqNum, lastSeen, cancelFunc)
    }

    /** Takes what is still missing from `payload`; hands out the message and goes idle when nothing is missing then. */
    method Extend(payload: seq<byte>, now: int) returns (complete: bool, message: seq<byte>)
      requires Assembling(Value()) && totalLen != 0 && |payload| >= CONT_DATA_LEN
      modifies this
      ensures Value() == Continued(old(Value()), payload, now) && Assembling(Value())
      ensures complete == Complete(old(Value()), payload)
      ensures complete ==> message == Collected(old(Value()), payload)[..old(totalLen)]
    {
      ContinuedIsAssembling(Value(), payload, now);
      ghost var before := Value();
      var remaining := totalLen - |data|;
      var dataLen := Min(Min(remaining, CONT_DATA_LEN), |payload|);
      data := data + payload[..dataLen];
      assert data == Collected(before, payload);
      seqNum := (seqNum + 1) % 0x100;
      lastSeen := now;
      complete := |data| % 0x1_0000 >= totalLen;
      message := [];
      if complete {
        message := data[..totalLen];
        totalLen := 0;
        data := [];
      }
    }
  }

  class Device {
    const dev: Uhid
    var channels: map<uint32, Channel>
    /** The transactions whose cancel function was called. */
    var cancelled: set<nat>
    /** Every message handed to `DispatchCommand`, in order. */
    var dispatched: seq<Message>
    /** The channel objects that belong to this device. */
    ghost var repr: set<Channel>

    /** Channels are not shared between identifiers, and each is in a state the framing allows. */
    ghost predicate Valid()
      reads `channels, `repr, repr
    {
      && (forall cid <- channels :: channels[cid] in repr)
      && (forall a, b | a in channels && b in channels && a != b :: channels[a] != channels[b])
      && (forall cid <- channels :: Assembling(channels[cid].Value()))
    }

    function State(): DeviceState
      reads this, repr, dev
      requires Valid()
    {
      DeviceState(Table(), cancelled, dispatched, dev.packets)
    }

    function Table(): Table
      requires Valid()
      reads `channels, `repr, repr
    {
      map cid | cid in channels :: channels[cid].Value()
    }

    lemma TableAt(cid: uint32)
      requires Valid()
      ensures cid in Table() <==> cid in channels
      ensures cid in channels ==> channels[cid] in repr && Table()[cid] == channels[cid].Value()
    {
    }

    constructor ()
      ensures Valid() && fresh(dev)
      ensures Table() == map[] && cancelled == {} && dispatched == [] && dev.packets == []
    {
      dev := new Uhid();
      channels, cancelled, dispatched, repr := map[], {}, [], {};
    }

    // -------------------------------------------------------------- sending

    method BuildInitPacket(m: Message) returns (p: Packet, n: nat)
      ensures n == |Take(m.data, INIT_DATA_LEN)|
      ensures p == InitPacket(m.cid, m.cmd, |m.data|, Take(m.data, INIT_DATA_LEN))
    {
      hide ToBe;
      var pkt := new byte[REPORT_LEN](_ => 0);
      n := CopyAt(pkt, 0, ToBe(m.cid, 4));
      assert pkt[..] == ToBe(m.cid, 4) + Zeros(60);
      pkt[4] := m.cmd + 0x80;
      assert pkt[..] == ToBe(m.cid, 4) + [m.cmd + 0x80] + Zeros(59);
      n := CopyAt(pkt, 5, ToBe(|m.data|, 2));
      assert pkt[..] == ToBe(m.cid, 4) + [m.cmd + 0x80] + ToBe(|m.data|, 2) + Zeros(INIT_DATA_LEN);
      n := CopyAt(pkt, 7, m.data);
      p := pkt[..];
    }

    method BuildContPacket(cid: uint32, seqByte: byte, data: seq<byte>) returns (p: Packet, n: nat)
      ensures n == |Take(data, CONT_DATA_LEN)|
      ensures p == ContPacket(cid, seqByte, Take(data, CONT_DATA_LEN))
    {
      hide ToBe;
      var pkt := new byte[REPORT_LEN](_ => 0);
      n := CopyAt(pkt, 0, ToBe(cid, 4));
      assert pkt[..] == ToBe(cid, 4) + Zeros(60);
      pkt[4] := seqByte;
      assert pkt[..] == ToBe(cid, 4) + [seqByte] + Zeros(CONT_DATA_LEN);
      n := CopyAt(pkt, 5, data);
      p := pkt[..];
    }

    /** Sends one message; the first `accepts` injections succeed, and the first failing one ends the call. */
    method SendResponse(m: Message, accepts: nat)
      modifies dev
      ensures dev.packets == Inject(old(dev.packets), Fragment(m), accepts)
    {
      hide InitPacket, ContPacket, Continuations, Fragment, Take, Inject, HaveSent;
      SentNothing(dev.packets, m, accepts);
      var pkt, n := BuildInitPacket(m);
      var ok := dev.InjectEvent(pkt, accepts > 0);
      if !ok {
        return;
      }
      SentFirst(m);
      var data := m.data[n..];
      var seqByte: byte := 0;
      var number: nat := 0;
      ghost var sent := [pkt];
      while |data| > 0
        invariant seqByte == number % 0x100 && number < accepts
        invariant HaveSent(m, sent, number, data) && dev.packets == old(dev.packets) + sent
        decreases |data|
      {
        pkt, n := BuildContPacket(m.cid, seqByte, data);
        ok := dev.InjectEvent(pkt, accepts > number + 1);
        if !ok {
          SentSome(old(dev.packets), m, sent, number, data, accepts);
          return;
        }
        SentNext(m, sent, number, data);
        data := data[n..];
        seqByte := (seqByte + 1) % 0x100;
        number := number + 1;
        sent := sent + [pkt];
      }
      SentSome(old(dev.packets), m, sent, number, data, accepts);
    }

    /** The packets `sent` are the first ones of the message, and `data` is what the others carry. */
    ghost predicate HaveSent(m: Message, sent: seq<Packet>, number: nat, data: seq<byte>) {
      |sent| == number + 1 && Fragment(m) == sent + Continuations(m.cid, number, data)
    }

    lemma SentNothing(log: seq<Packet>, m: Message, accepts: nat)
      ensures accepts == 0 ==> Inject(log, Fragment(m), accepts) == log
    {
      hide Fragment;
      assert log + [] == log;
    }

    lemma SentFirst(m: Message)
      ensures var n := |Take(m.data, INIT_DATA_LEN)|;
              n <= |m.data|
              && HaveSent(m, [InitPacket(m.cid, m.cmd, |m.data|, Take(m.data, INIT_DATA_LEN))], 0, m.data[n..])
    {
      hide InitPacket;
    }

    lemma SentNext(m: Message, sent: seq<Packet>, number: nat, data: seq<byte>)
      requires HaveSent(m, sent, number, data) && data != []
      ensures var n := |Take(data, CONT_DATA_LEN)|;
              0 < n <= |data|
              && HaveSent(m, sent + [ContPacket(m.cid, number % 0x100, Take(data, CONT_DATA_LEN))], number + 1, data[n..])
    {
      var n := |Take(data, CONT_DATA_LEN)|;
      var pkt := ContPacket(m.cid, number % 0x100, Take(data, CONT_DATA_LEN));
      assert Continuations(m.cid, number, data) == [pkt] + Continuations(m.cid, number + 1, data[n..]);
      hide ContPacket, Continuations, Fragment;
      assert sent + ([pkt] + Continuations(m.cid, number + 1, data[n..])) ==
             sent + [pkt] + Continuations(m.cid, number + 1, data[n..]);
    }

    /** The next injection fails, or there is nothing left to send. */
    lemma SentSome(log: seq<Packet>, m: Message, sent: seq<Packet>, number: nat, data: seq<byte>, accepts: nat)
      requires HaveSent(m, sent, number, data)
      requires accepts == number + 1 || (data == [] && number < accepts)
      ensures Inject(log, Fragment(m), accepts) == log + sent
    {
      var rest := Continuations(m.cid, number, data);
      assert data == [] ==> rest == [];
      hide Continuations, Fragment;
      assert Take(sent + rest, accepts) == sent;
    }

    method SendError(cid: uint32, code: byte, accepts: nat)
      modifies dev
      ensures dev.packets == Inject(old(dev.packets), Fragment(ErrorReply(cid, code)), accepts)
    {
      SendResponse(ErrorReply(cid, code), accepts);
    }

    method DispatchCommand(m: Message, accepts: nat)
      modifies `dispatched, dev
      ensures dispatched == old(dispatched) + [m]
      ensures dev.packets == Inject(old(dev.packets), Answer(Deliver(m)), accepts)
    {
      hide Fragment;
      dispatched := dispatched + [m];
      if m.cmd == PING {
        SendResponse(m, accepts);
      } else if m.cmd != CBOR {
        SendError(m.cid, ERR_INVALID_CMD, accepts);
      }
    }

    // -------------------------------------------------------------- receiving

    method CancelTransaction(cid: uint32)
      requires Valid()
      modifies `cancelled
      ensures cancelled == old(cancelled) + Hooks(Table(), {cid})
    {
      assert Hooks(Table(), {cid}) ==
             if cid in channels && channels[cid].cancelFunc.Some? then {channels[cid].cancelFunc.value} else {};
      if cid in channels && channels[cid].cancelFunc.Some? {
        cancelled := cancelled + {channels[cid].cancelFunc.value};
      }
    }

    method HandleOutput(report: seq<byte>, draws: seq<Draw>, now: int, accepts: nat)
      requires Valid()
      modifies this, repr, dev
      ensures Valid() && fresh(repr - old(repr))
      ensures State() == After(old(State()),
                               Receive(old(Table()), ReadReport(report), FirstAccepted(draws, old(channels.Keys)), now),
                               now, accepts)
    {
      var p := ReadOutput(report);
      if p.Ignored? {
        NothingToDo(State(), FirstAccepted(draws, channels.Keys), now, accepts);
        return;
      }
      HandlePacket(p, draws, now, accepts);
    }

    /** Strips the report-ID prefix, pads a short report to 64 bytes, and takes the header apart. */
    method ReadOutput(report: seq<byte>) returns (p: Incoming)
      ensures p == ReadReport(report)
    {
      hide ReadPacket;
      var data := report;
      if |data| > 0 && data[0] == 0 {
        data := data[1..];
      }
      if |data| < 7 {
        return Ignored;
      }
      if |data| < REPORT_LEN {
        var padded := new byte[REPORT_LEN](_ => 0);
        var n := CopyAt(padded, 0, data);
        assert padded[..] == Pad(data, REPORT_LEN);
        data := padded[..];
      }
      p := ReadPacket(data);
    }

    lemma NothingToDo(s: DeviceState, alloc: Option<uint32>, now: int, accepts: nat)
      ensures After(s, Receive(s.table, Ignored, alloc, now), now, accepts) == s
    {
    }

    method HandlePacket(p: Incoming, draws: seq<Draw>, now: int, accepts: nat)
      requires Valid() && p.Full() && !p.Ignored?
      modifies this, repr, dev
      ensures Valid() && fresh(repr - old(repr))
      ensures State() == After(old(State()),
                               Receive(old(Table()), p, FirstAccepted(draws, old(channels.Keys)), now),
                               now, accepts)
    {
      hide Fragment;
      match p
      case InitIn(cid, cmd, bcnt, payload) =>
        HandleInitPacket(cid, cmd, bcnt, payload, draws, now, accepts);
      case ContIn(cid, seqByte, payload) =>
        HandleContPacket(cid, seqByte, payload, now, accepts);
    }

    /** Stores a new channel object under `cid`. */
    method PutChannel(cid: uint32, ch: Channel)
      requires Valid() && ch !in repr && Assembling(ch.Value())
      modifies `channels, `repr
      ensures Valid() && channels == old(channels)[cid := ch] && repr == old(repr) + {ch}
      ensures Table() == old(Table())[cid := ch.Value()]
    {
      hide Assembling;
      channels := channels[cid := ch];
      repr := repr + {ch};
      assert forall c <- channels :: channels[c] == if c == cid then ch else old(channels)[c];
    }

    method HandleInitPacket(cid: uint32, cmd: Command, bcnt: uint16, payload: seq<byte>,
                            draws: seq<Draw>, now: int, accepts: nat)
      requires Valid() && |payload| >= INIT_DATA_LEN
      modifies this, repr, dev
      ensures Valid() && fresh(repr - old(repr))
      ensures State() == After(old(State()),
                               Receive(old(Table()), InitIn(cid, cmd, bcnt, payload),
                                       FirstAccepted(draws, old(channels.Keys)), now),
                               now, accepts)
    {
      hide Fragment, Hooks, ToBe, Take, Table, Valid;
      if cmd == INIT {
        if bcnt != 8 || |payload| < 8 {
          SendError(cid, ERR_INVALID_LEN, accepts);
          return;
        }
        HandleInit(cid, payload[..8], draws, now, accepts);
        return;
      }
      if cid == BROADCAST_CID {
        SendError(cid, ERR_INVALID_CHANNEL, accepts);
        return;
      }
      if bcnt > MAX_MESSAGE_LEN {
        SendError(cid, ERR_INVALID_LEN, accepts);
        return;
      }
      CancelTransaction(cid);
      if cmd == CANCEL {
        return;
      }
      StartMessage(cid, cmd, bcnt, payload, now, accepts);
    }

    method StartMessage(cid: uint32, cmd: Command, bcnt: uint16, payload: seq<byte>, now: int, accepts: nat)
      requires Valid() && |payload| >= INIT_DATA_LEN && bcnt <= MAX_MESSAGE_LEN
      modifies this, dev
      ensures Valid() && fresh(repr - old(repr)) && cancelled == old(cancelled)
      ensures var e := BeginMessage(old(Table()), cid, cmd, bcnt, payload, now);
              State() == After(old(State()), e.(cancelled := {}), now, accepts)
    {
      hide Fragment, Hooks, ToBe, Table, Valid;
      var dataLen := Min(Min(bcnt, INIT_DATA_LEN), |payload|);
      var msgData := payload[..dataLen];
      assert msgData == Take(payload, Min(bcnt, INIT_DATA_LEN));
      var ch := new Channel(cmd, bcnt, msgData, now, None);
      PutChannel(cid, ch);
      if |msgData| % 0x1_0000 >= bcnt {
        DispatchCommand(Message(cid, cmd, msgData[..bcnt]), accepts);
      }
    }

    method HandleContPacket(cid: uint32, seqByte: byte, payload: seq<byte>, now: int, accepts: nat)
      requires Valid() && seqByte < 0x80 && |payload| >= CONT_DATA_LEN
      modifies this, repr, dev
      ensures Valid() && repr == old(repr)
      ensures State() == After(old(State()), Receive(old(Table()), ContIn(cid, seqByte, payload), None, now), now, accepts)
    {
      hide Fragment, Receive, ContinueMessage, Complete, Inject, Table, Valid, ErrorReply;
      TableAt(cid);
      ReceiveCont(Table(), cid, seqByte, payload, now);
      if cid !in channels || channels[cid].totalLen == 0 {
        SendError(cid, ERR_INVALID_CHANNEL, accepts);
        return;
      }
      var ch := channels[cid];
      if seqByte != ch.seqNum {
        SendError(cid, ERR_INVALID_SEQ, accepts);
        return;
      }
      AcceptContPacket(cid, payload, now, accepts);
    }

    method AcceptContPacket(cid: uint32, payload: seq<byte>, now: int, accepts: nat)
      requires Valid() && |payload| >= CONT_DATA_LEN && cid in channels && channels[cid].totalLen != 0
      modifies repr, `dispatched, dev
      ensures Valid() && cancelled == old(cancelled)
      ensures cid in old(Table())
      ensures State() == After(old(State()), ContinueMessage(old(Table()), cid, payload, now), now, accepts)
    {
      hide Fragment, ContinueMessage, Complete, Table, Valid;
      TableAt(cid);
      ghost var before, e := State(), ContinueMessage(Table(), cid, payload, now);
      assert before.cancelled + {} == before.cancelled;
      var complete, m := ExtendChannel(cid, payload, now);
      if complete {
        DispatchCommand(m, accepts);
      }
    }

    lemma ReceiveCont(t: Table, cid: uint32, seqByte: byte, payload: seq<byte>, now: int)
      ensures Receive(t, ContIn(cid, seqByte, payload), None, now) ==
              if cid !in t || t[cid].totalLen == 0 then Effect(t, {}, Reply(ErrorReply(cid, ERR_INVALID_CHANNEL)))
              else if seqByte != t[cid].seqNum then Effect(t, {}, Reply(ErrorReply(cid, ERR_INVALID_SEQ)))
              else ContinueMessage(t, cid, payload, now)
    {
    }

    method ExtendChannel(cid: uint32, payload: seq<byte>, now: int) returns (complete: bool, m: Message)
      requires Valid() && |payload| >= CONT_DATA_LEN && cid in channels && channels[cid].totalLen != 0
      modifies repr
      ensures Valid() && complete == Complete(old(Table())[cid], payload)
      ensures var e := ContinueMessage(old(Table()), cid, payload, now);
              Table() == e.table && e.cancelled == {} && e.next == if complete then Deliver(m) else Done
      ensures cancelled == old(cancelled) && dispatched == old(dispatched) && dev.packets == old(dev.packets)
    {
      hide Collected, Complete, Continued;
      var ch := channels[cid];
      assert ch.Value() == Table()[cid];
      var cmd := ch.cmd;
      var done, data := ch.Extend(payload, now);
      complete, m := done, Message(cid, cmd, data);
      assert Table() == old(Table())[cid := ch.Value()];
    }

    method HandleInit(cid: uint32, nonce: seq<byte>, draws: seq<Draw>, now: int, accepts: nat)
      requires Valid() && |nonce| == 8
      modifies this, dev
      ensures Valid() && fresh(repr - old(repr))
      ensures var newCid := if cid == BROADCAST_CID then FirstAccepted(draws, old(channels.Keys)) else Some(cid);
              var hooks := if cid == BROADCAST_CID then {} else Hooks(old(Table()), {cid});
              var next := if newCid == None then Done else Insert(newCid.value, cid, nonce);
              State() == After(old(State()), Effect(old(Table()), hooks, next), now, accepts)
    {
      hide Fragment, Hooks, ToBe, Take, Table, Valid;
      var newCid: uint32;
      if cid == BROADCAST_CID {
        var drawn := AllocateCID(draws);
        if drawn == None {
          return;
        }
        newCid := drawn.value;
      } else {
        CancelTransaction(cid);
        newCid := cid;
      }
      var ch := new Channel(0, 0, [], now, None);
      PutChannel(newCid, ch);
      SendResponse(InitReply(newCid, cid, nonce), accepts);
    }

    /** Draws until a candidate is accepted; `None` when the given draws end before that. */
    method AllocateCID(draws: seq<Draw>) returns (cid: Option<uint32>)
      ensures cid == FirstAccepted(draws, channels.Keys)
    {
      var i := 0;
      while i < |draws|
        invariant 0 <= i <= |draws|
        invariant FirstAccepted(draws[i..], channels.Keys) == FirstAccepted(draws, channels.Keys)
      {
        var candidate := draws[i].Cid();
        if candidate != 0 && candidate != BROADCAST_CID {
          if draws[i].Clock? || candidate !in channels {
            return Some(candidate);
          }
        }
        assert draws[i..][1..] == draws[i + 1..];
        i := i + 1;
      }
      return None;
    }

    // -------------------------------------------------------------- transactions and housekeeping

    method RegisterTransaction(cid: uint32, txn: nat, now: int)
      requires Valid()
      modifies `channels, `repr, repr
      ensures Valid() && fresh(repr - old(repr))
      ensures Table() == RegisterCancel(old(Table()), cid, txn, now)
    {
      TableAt(cid);
      hide Table, Valid;
      if cid in channels {
        SetCancel(cid, Some(txn));
      } else {
        var ch := new Channel(0, 0, [], now, Some(txn));
        IdleIsAssembling(ch.Value());
        hide Assembling;
        PutChannel(cid, ch);
      }
    }

    /** Overwrites the cancel slot of a channel object. */
    method SetCancel(cid: uint32, cancel: Option<nat>)
      requires Valid() && cid in channels && cid in Table()
      modifies repr
      ensures Valid() && Table() == old(Table())[cid := old(Table())[cid].(cancel := cancel)]
    {
      var ch := channels[cid];
      CancelSlot(ch.Value(), cancel);
      hide Assembling;
      ch.cancelFunc := cancel;
      assert ch.Value() == old(ch.Value()).(cancel := cancel);
      assert forall c <- channels :: c != cid ==> channels[c].Value() == old(channels[c].Value());
    }

    lemma CancelSlot(ch: Chan, cancel: Option<nat>)
      ensures Assembling(ch.(cancel := cancel)) == Assembling(ch)
    {
    }

    lemma IdleIsAssembling(ch: Chan)
      ensures ch.totalLen == 0 ==> Assembling(ch)
    {
    }

    method FinishTransaction(cid: uint32)
      requires Valid()
      modifies repr
      ensures Valid() && Table() == ClearCancel(old(Table()), cid)
    {
      TableAt(cid);
      hide Table, Valid;
      if cid in channels {
        SetCancel(cid, None);
      }
    }

    method DropChannel(cid: uint32)
      requires Valid() && cid in channels
      modifies `channels
      ensures Valid() && Table() == old(Table()) - {cid}
      ensures channels.Keys == Table().Keys
    {
      channels := channels - {cid};
    }

    method DropIfExpired(cid: uint32, now: int) returns (dropped: bool)
      requires Valid() && cid in channels && channels.Keys == Table().Keys
      modifies `channels, `cancelled
      ensures Valid() && channels.Keys == Table().Keys
      ensures dropped <==> now - old(Table())[cid].lastSeen > CHANNEL_TIMEOUT
      ensures Table() == if dropped then old(Table()) - {cid} else old(Table())
      ensures cancelled == if dropped then old(cancelled) + Hooks(old(Table()), {cid}) else old(cancelled)
    {
      TableAt(cid);
      dropped := now - channels[cid].lastSeen > CHANNEL_TIMEOUT;
      hide Table, Valid, Hooks;
      if dropped {
        CancelTransaction(cid);
        DropChannel(cid);
      }
    }

    /** One tick of the cleanup loop: a sweep over the table that deletes while it iterates. */
    method CleanupChannels(now: int)
      requires Valid()
      modifies `channels, `cancelled
      ensures Valid()
      ensures Table() == old(Table()) - Expired(old(Table()), now)
      ensures cancelled == old(cancelled) + Hooks(old(Table()), Expired(old(Table()), now))
    {
      ghost var t, base := Table(), cancelled;
      var todo := channels.Keys;
      SweepStart(t, base, now);
      hide *;
      while todo != {}
        invariant Valid() && channels.Keys == Table().Keys
        invariant Swept(t, base, now, todo, Table(), cancelled)
        decreases |todo|
      {
        var cid :| cid in todo;
        SweepWithin(t, base, now, todo, Table(), cancelled);
        ghost var table, ended := Table(), cancelled;
        var dropped := DropIfExpired(cid, now);
        SweepStep(t, base, now, todo, cid, table, ended);
        todo := todo - {cid};
      }
      SweepEnd(t, base, now, Table(), cancelled);
    }

    /** The sweep has been through everything but `todo`. */
    ghost predicate Swept(t: Table, base: set<nat>, now: int, todo: set<uint32>, table: Table, ended: set<nat>) {
      var gone := Expired(t, now) - todo;
      todo <= t.Keys && table == t - gone && ended == base + Hooks(t, gone)
    }

    lemma SweepStart(t: Table, base: set<nat>, now: int)
      ensures Swept(t, base, now, t.Keys, t, base)
    {
    }

    lemma SweepWithin(t: Table, base: set<nat>, now: int, todo: set<uint32>, table: Table, ended: set<nat>)
      requires Swept(t, base, now, todo, table, ended)
      ensures todo <= table.Keys
    {
    }

    lemma SweepStep(t: Table, base: set<nat>, now: int, todo: set<uint32>, cid: uint32, table: Table, ended: set<nat>)
      requires Swept(t, base, now, todo, table, ended) && cid in todo && cid in table
      ensures var dropped := now - table[cid].lastSeen > CHANNEL_TIMEOUT;
              Swept(t, base, now, todo - {cid},
                    if dropped then table - {cid} else table,
                    if dropped then ended + Hooks(table, {cid}) else ended)
    {
      var gone := Expired(t, now) - todo;
      if now - table[cid].lastSeen > CHANNEL_TIMEOUT {
        assert Expired(t, now) - (todo - {cid}) == gone + {cid};
        HooksUnion(t, gone, {cid});
        HooksAgree(t, table, cid);
      } else {
        assert Expired(t, now) - (todo - {cid}) == gone;
      }
    }

    lemma SweepEnd(t: Table, base: set<nat>, now: int, table: Table, ended: set<nat>)
      requires Swept(t, base, now, {}, table, ended)
      ensures table == t - Expired(t, now) && ended == base + Hooks(t, Expired(t, now))
    {
      assert Expired(t, now) - {} == Expired(t, now);
    }

    method Close()
      requires Valid()
      modifies `channels, `cancelled
      ensures Valid() && Table() == map[]
      ensures cancelled == old(cancelled) + Hooks(old(Table()), old(channels.Keys))
    {
      CancelAll();
      channels := map[];
    }

    method CancelAll()
      requires Valid()
      modifies `cancelled
      ensures cancelled == old(cancelled) + Hooks(Table(), channels.Keys)
    {
      hide Hooks, Valid, Table;
      ghost var seen := {};
      var todo := channels.Keys;
      HooksOfNone(Table());
      while todo != {}
        invariant todo <= channels.Keys && seen == channels.Keys - todo
        invariant cancelled == old(cancelled) + Hooks(Table(), seen)
        decreases |todo|
      {
        var cid :| cid in todo;
        CancelTransaction(cid);
        HooksUnion(Table(), seen, {cid});
        seen := seen + {cid};
        todo := todo - {cid};
      }
      assert seen == channels.Keys;
    }

    lemma HooksOfNone(t: Table)
      ensures Hooks(t, {}) == {}
    {
    }

    lemma HooksAgree(t: Table, t': Table, cid: uint32)
      requires cid in t && cid in t' && t[cid] == t'[cid]
      ensures Hooks(t, {cid}) == Hooks(t', {cid})
    {
      assert Hooks(t, {cid}) == if t[cid].cancel.Some? then {t[cid].cancel.value} else {};
      assert Hooks(t', {cid}) == if t[cid].cancel.Some? then {t[cid].cancel.value} else {};
    }
  }
}
