/** The other end of the wire: a host that reassembles the reports of the device, one message at a time. */
module Host {
  import opened Bytes
  import opened Framing

  datatype State =
    | Ready
    | Collecting(cid: uint32, cmd: Command, total: nat, data: seq<byte>, number: nat)
    | Garbled

  datatype Outcome = Outcome(state: State, messages: seq<Message>)

  function Progress(cid: uint32, cmd: Command, total: nat, data: seq<byte>, number: nat): Outcome {
    if |data| >= total then Outcome(Ready, [Message(cid, cmd, data)])
    else Outcome(Collecting(cid, cmd, total, data, number), [])
  }

  function Step(h: State, p: Packet): Outcome {
    match (h, ReadPacket(p))
    case (Ready, InitIn(cid, cmd, bcnt, payload)) =>
      Progress(cid, cmd, bcnt, Take(payload, Min(bcnt, INIT_DATA_LEN)), 0)
    case (Collecting(cid, cmd, total, data, number), ContIn(cid', seqByte, payload)) =>
      if cid' == cid && seqByte == number && |data| <= total
      then Progress(cid, cmd, total, data + Take(payload, Min(total - |data|, CONT_DATA_LEN)), number + 1)
      else Outcome(Garbled, [])
    case _ => Outcome(Garbled, [])
  }

  function Run(h: State, ps: seq<Packet>): Outcome
    decreases |ps|
  {
    if ps == [] then Outcome(h, [])
    else
      var first := Step(h, ps[0]);
      var rest := Run(first.state, ps[1..]);
      Outcome(rest.state, first.messages + rest.messages)
  }

  lemma {:induction false} RunConcat(h: State, ps: seq<Packet>, qs: seq<Packet>)
    ensures var first := Run(h, ps);
            var rest := Run(first.state, qs);
            Run(h, ps + qs) == Outcome(rest.state, first.messages + rest.messages)
    decreases |ps|
  {
    hide Step;
    if ps == [] {
      assert ps + qs == qs;
    } else {
      assert (ps + qs)[1..] == ps[1..] + qs;
      RunConcat(Step(h, ps[0]).state, ps[1..], qs);
    }
  }

  lemma ReadContinuation(cid: uint32, cmd: Command, got: seq<byte>, number: nat, rest: seq<byte>)
    requires rest != [] && number < 0x80
    ensures var ps := Continuations(cid, number, rest);
            var chunk, tail := Take(rest, CONT_DATA_LEN), Drop(rest, CONT_DATA_LEN);
            && Step(Collecting(cid, cmd, |got| + |rest|, got, number), ps[0])
               == Progress(cid, cmd, |got| + |rest|, got + chunk, number + 1)
            && ps[1..] == Continuations(cid, number + 1, tail)
            && got + rest == (got + chunk) + tail
            && |got| + |rest| == |got + chunk| + |tail|
  {
    hide Step, ContPacket, Progress;
    var chunk, tail := Take(rest, CONT_DATA_LEN), Drop(rest, CONT_DATA_LEN);
    StepContinuation(cid, cmd, |got| + |rest|, got, number, chunk);
    assert rest == chunk + tail;
    assert got + (chunk + tail) == (got + chunk) + tail;
  }

  lemma StepContinuation(cid: uint32, cmd: Command, total: nat, got: seq<byte>, number: nat, chunk: seq<byte>)
    requires |chunk| <= CONT_DATA_LEN && number < 0x80 && |got| + |chunk| <= total
    requires |chunk| == CONT_DATA_LEN || |got| + |chunk| == total
    ensures Step(Collecting(cid, cmd, total, got, number), ContPacket(cid, number, chunk)) ==
            Progress(cid, cmd, total, got + chunk, number + 1)
  {
    hide ReadPacket, ReadReport, ContPacket, Progress;
    ReadContPacket(cid, number, chunk);
    assert Take(Pad(chunk, CONT_DATA_LEN), |chunk|) == chunk;
  }

  /** A host that has collected `got` and sees the first `k` continuations for `rest`. */
  lemma {:induction false} CollectContinuations(cid: uint32, cmd: Command, got: seq<byte>, number: nat,
                                                rest: seq<byte>, k: nat)
    requires rest != [] && number + (|rest| + CONT_DATA_LEN - 1) / CONT_DATA_LEN <= 0x80
    requires k <= |Continuations(cid, number, rest)|
    ensures var out := Run(Collecting(cid, cmd, |got| + |rest|, got, number), Continuations(cid, number, rest)[..k]);
            if k < |Continuations(cid, number, rest)|
            then out.messages == [] && out.state.Collecting?
            else out == Outcome(Ready, [Message(cid, cmd, got + rest)])
    decreases |rest|
  {
    hide Step, ContPacket;
    ContinuationsShape(cid, number, rest);
    if k > 0 {
      var ps := Continuations(cid, number, rest);
      var chunk, tail := Take(rest, CONT_DATA_LEN), Drop(rest, CONT_DATA_LEN);
      ReadContinuation(cid, cmd, got, number, rest);
      assert ps[..k][0] == ps[0] && ps[..k][1..] == ps[1..][..k - 1];
      if tail == [] {
        assert got + rest == got + chunk;
      } else {
        CollectContinuations(cid, cmd, got + chunk, number + 1, tail, k - 1);
      }
    }
  }

  lemma ReadFirstPacket(m: Message)
    requires |m.data| < 0x1_0000
    ensures Step(Ready, Fragment(m)[0]) == Progress(m.cid, m.cmd, |m.data|, Take(m.data, INIT_DATA_LEN), 0)
    ensures Fragment(m)[1..] == Continuations(m.cid, 0, Drop(m.data, INIT_DATA_LEN))
    ensures m.data == Take(m.data, INIT_DATA_LEN) + Drop(m.data, INIT_DATA_LEN)
  {
    hide ReadPacket, ReadReport, InitPacket;
    var chunk := Take(m.data, INIT_DATA_LEN);
    ReadInitPacket(m.cid, m.cmd, |m.data|, chunk);
    assert Take(Pad(chunk, INIT_DATA_LEN), |chunk|) == chunk;
  }

  /** A host reads the fragmentation of a message of at most 7609 bytes as that message, at its last packet. */
  lemma {:induction false} ReassembleFragment(m: Message, k: nat)
    requires |m.data| <= MAX_FRAMED_LEN && k <= |Fragment(m)|
    ensures var out := Run(Ready, Fragment(m)[..k]);
            if k < |Fragment(m)| then out.messages == [] else out == Outcome(Ready, [m])
  {
    if k > 0 {
      var chunk, rest := Take(m.data, INIT_DATA_LEN), Drop(m.data, INIT_DATA_LEN);
      var conts := Continuations(m.cid, 0, rest);
      ReadFirstPacket(m);
      assert Fragment(m)[..k][1..] == conts[..k - 1];
      if rest == [] {
        assert chunk == m.data;
      } else {
        CollectContinuations(m.cid, m.cmd, chunk, 0, rest, k - 1);
      }
    }
  }

  // ---------------------------------------------------------------- messages that are too long

  lemma {:induction false} GarbledForGood(ps: seq<Packet>)
    ensures Run(Garbled, ps) == Outcome(Garbled, [])
  {
    if ps != [] {
      GarbledForGood(ps[1..]);
    }
  }

  /** No message of a host is longer than its 16-bit length field can say. */
  lemma {:induction false} MessagesAreShort(h: State, ps: seq<Packet>)
    requires h.Collecting? ==> |h.data| <= h.total < 0x1_0000
    ensures forall m <- Run(h, ps).messages :: |m.data| < 0x1_0000
    decreases |ps|
  {
    if ps != [] {
      MessagesAreShort(Step(h, ps[0]).state, ps[1..]);
    }
  }

  /** From sequence number `number` on, a transfer that needs a number above 0x7F ends in a garbled host. */
  lemma {:induction false} SequenceOverflow(cid: uint32, cmd: Command, got: seq<byte>, number: nat, rest: seq<byte>)
    requires number <= 0x80 && |rest| > (0x80 - number) * CONT_DATA_LEN
    ensures Run(Collecting(cid, cmd, |got| + |rest|, got, number), Continuations(cid, number, rest)).messages == []
    decreases |rest|
  {
    var ps := Continuations(cid, number, rest);
    var chunk, tail := Take(rest, CONT_DATA_LEN), Drop(rest, CONT_DATA_LEN);
    if number == 0x80 {
      assert ps[0][4] == 0x80;
      GarbledForGood(ps[1..]);
    } else {
      ReadContinuation(cid, cmd, got, number, rest);
      SequenceOverflow(cid, cmd, got + chunk, number + 1, tail);
    }
  }

  /** The framing of `sendResponse` is readable exactly up to 7609 bytes. */
  lemma ReassembleIff(m: Message)
    ensures Run(Ready, Fragment(m)).messages == [m] <==> |m.data| <= 7609
  {
    var ps := Fragment(m);
    assert ps[..|ps|] == ps;
    if |m.data| <= MAX_FRAMED_LEN {
      ReassembleFragment(m, |ps|);
    } else if |m.data| >= 0x1_0000 {
      MessagesAreShort(Ready, ps);
      assert m !in Run(Ready, ps).messages;
      assert m in [m];
    } else {
      ReadFirstPacket(m);
      SequenceOverflow(m.cid, m.cmd, Take(m.data, INIT_DATA_LEN), 0, Drop(m.data, INIT_DATA_LEN));
    }
  }
}
