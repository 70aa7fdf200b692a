/** The reference for one channel: an isolated assembler that sees nothing but the channel's own inputs. */
module Assembler {
  import opened Bytes
  import opened Framing
  import Channels

  /** What can concern a channel: a packet carrying its identifier, a cleanup tick, the loss of the channel,
      or something that is none of its business. */
  datatype Input =
    | Other
    | Packet(p: Incoming, now: int)
    | Tick(now: int)
    | Gone

  datatype State =
    | Idle
    | Collecting(cmd: Command, total: nat, data: seq<byte>, number: nat, lastSeen: int)

  datatype Output = Output(state: State, messages: seq<Message>)

  /** Packets that begin a message. */
  predicate Starts(i: Input) {
    && i.Packet? && i.p.InitIn?
    && i.p.cmd != INIT && i.p.cmd != CANCEL && i.p.bcnt <= MAX_MESSAGE_LEN
  }

  /** Inputs after which nothing of an earlier message is left. */
  predicate Resets(i: Input) {
    i.Gone? || (i.Packet? && i.p.InitIn? && i.p.cmd == INIT && i.p.bcnt == 8)
  }

  predicate Continues(a: State, i: Input) {
    a.Collecting? && i.Packet? && i.p.ContIn? && i.p.seqByte == a.number
  }

  predicate TimesOut(a: State, i: Input) {
    a.Collecting? && i.Tick? && i.now - a.lastSeen > 30_000_000_000
  }

  function Start(i: Input): Output
    requires Starts(i)
  {
    var data := Take(Take(i.p.payload, INIT_DATA_LEN), i.p.bcnt);
    Output(if i.p.bcnt == 0 then Idle else Collecting(i.p.cmd, i.p.bcnt, data, 0, i.now),
           if |data| == i.p.bcnt then [Message(i.p.cid, i.p.cmd, data)] else [])
  }

  function Continue(a: State, i: Input): Output
    requires Continues(a, i)
  {
    var data := Take(a.data + Take(i.p.payload, CONT_DATA_LEN), a.total);
    if |data| == a.total then Output(Idle, [Message(i.p.cid, a.cmd, data)])
    else Output(Collecting(a.cmd, a.total, data, a.number + 1, i.now), [])
  }

  function Step(a: State, i: Input): Output {
    if Starts(i) then Start(i)
    else if Continues(a, i) then Continue(a, i)
    else if Resets(i) || TimesOut(a, i) then Output(Idle, [])
    else Output(a, [])
  }

  function Run(a: State, inputs: seq<Input>): Output
    decreases |inputs|
  {
    if inputs == [] then Output(a, [])
    else
      var first := Step(a, inputs[0]);
      var rest := Run(first.state, inputs[1..]);
      Output(rest.state, first.messages + rest.messages)
  }

  lemma {:induction false} RunConcat(a: State, left: seq<Input>, right: seq<Input>)
    ensures var first := Run(a, left);
            var rest := Run(first.state, right);
            Run(a, left + right) == Output(rest.state, first.messages + rest.messages)
    decreases |left|
  {
    if left == [] {
      assert left + right == right;
    } else {
      assert (left + right)[1..] == left[1..] + right;
      RunConcat(Step(a, left[0]).state, left[1..], right);
    }
  }

  lemma RunLast(a: State, inputs: seq<Input>, n: nat)
    requires n < |inputs|
    ensures var before := Run(a, inputs[..n]);
            var last := Step(before.state, inputs[n]);
            Run(a, inputs[..n + 1]) == Output(last.state, before.messages + last.messages)
  {
    assert inputs[..n + 1] == inputs[..n] + [inputs[n]];
    RunConcat(a, inputs[..n], [inputs[n]]);
    var before := Run(a, inputs[..n]);
    assert [inputs[n]][1..] == [];
    assert Step(before.state, inputs[n]).messages + [] == Step(before.state, inputs[n]).messages;
  }

  // ---------------------------------------------------------------- only own inputs matter

  function Significant(inputs: seq<Input>): seq<Input> {
    if inputs == [] then []
    else (if inputs[0].Other? then [] else [inputs[0]]) + Significant(inputs[1..])
  }

  lemma {:induction false} OthersDoNotMatter(a: State, inputs: seq<Input>)
    ensures Run(a, Significant(inputs)) == Run(a, inputs)
    decreases |inputs|
  {
    if inputs != [] {
      var i, rest := inputs[0], Significant(inputs[1..]);
      var next := Step(a, i);
      OthersDoNotMatter(next.state, inputs[1..]);
      if i.Other? {
        assert next == Output(a, []);
        assert Significant(inputs) == rest;
      } else {
        hide Step;
        assert Significant(inputs)[1..] == rest;
      }
    }
  }

  // ---------------------------------------------------------------- a transfer amid noise

  /** Inputs that leave a transfer alone which waits for continuation `number` and last got a packet at `last`. */
  predicate IsNoise(i: Input, number: nat, last: int) {
    match i
    case Other => true
    case Gone => false
    case Tick(now) => now - last <= Channels.CHANNEL_TIMEOUT
    case Packet(Ignored, _) => true
    case Packet(InitIn(_, cmd, bcnt, _), _) => if cmd == INIT then bcnt != 8 else cmd == CANCEL || bcnt > MAX_MESSAGE_LEN
    case Packet(ContIn(_, seqByte, _), _) => seqByte != number
  }

  /** The packets `ps`, each as a report with its 0x00 prefix, in this order and with any noise before each of them. */
  predicate Carries(inputs: seq<Input>, ps: seq<Framing.Packet>, number: nat, last: int) {
    if ps == [] then inputs == []
    else
      && inputs != []
      && (if inputs[0].Packet? && inputs[0].p == ReadReport([0] + ps[0])
          then Carries(inputs[1..], ps[1..], number + 1, inputs[0].now)
          else IsNoise(inputs[0], number, last) && Carries(inputs[1..], ps, number, last))
  }

  /** The fragments of `m`: its initialization packet first, then its continuations amid noise. */
  predicate Transfers(inputs: seq<Input>, m: Message) {
    && inputs != [] && inputs[0].Packet? && inputs[0].p == ReadReport([0] + Fragment(m)[0])
    && Carries(inputs[1..], Fragment(m)[1..], 0, inputs[0].now)
  }

  lemma {:induction false} NoiseIsIgnored(a: State, i: Input)
    requires a.Collecting? && IsNoise(i, a.number, a.lastSeen)
    ensures Step(a, i) == Output(a, [])
  {
  }

  lemma ReadNextFragment(cid: uint32, number: nat, rest: seq<byte>)
    requires rest != [] && number < 0x80
    ensures var ps := Continuations(cid, number, rest);
            && ReadReport([0] + ps[0]) == ContIn(cid, number, Pad(Take(rest, CONT_DATA_LEN), CONT_DATA_LEN))
            && ps[1..] == Continuations(cid, number + 1, Drop(rest, CONT_DATA_LEN))
            && rest == Take(rest, CONT_DATA_LEN) + Drop(rest, CONT_DATA_LEN)
  {
    ReadContPacket(cid, number, Take(rest, CONT_DATA_LEN));
  }

  lemma {:induction false} CollectAmidNoise(a: State, cid: uint32, rest: seq<byte>, inputs: seq<Input>)
    requires a.Collecting? && a.total == |a.data| + |rest| && rest != []
    requires a.number + (|rest| + CONT_DATA_LEN - 1) / CONT_DATA_LEN <= 0x80
    requires Carries(inputs, Continuations(cid, a.number, rest), a.number, a.lastSeen)
    ensures Run(a, inputs) == Output(Idle, [Message(cid, a.cmd, a.data + rest)])
    ensures Run(a, inputs[..|inputs| - 1]).messages == []
    decreases |inputs|
  {
    hide Step, IsNoise, Continuations, ReadReport, Run, Carries;
    var ps := Continuations(cid, a.number, rest);
    ReadNextFragment(cid, a.number, rest);
    SomeContinuations(cid, a.number, rest);
    CarriesFirst(inputs, ps, a.number, a.lastSeen);
    RunFirst(a, inputs);
    var i := inputs[0];
    var tail := inputs[1..];
    if i.Packet? && i.p == ReadReport([0] + ps[0]) {
      var chunk, after := Take(rest, CONT_DATA_LEN), Drop(rest, CONT_DATA_LEN);
      ContinueWith(a, cid, chunk, i);
      if after == [] {
        NoContinuations(cid, a.number + 1);
        CarriesNothing(tail, a.number + 1, i.now);
        RunNothing(Idle);
        assert chunk == rest;
      } else {
        var a' := Step(a, i).state;
        assert a.data + chunk + after == a.data + (chunk + after);
        assert tail != [] by {
          SomeContinuations(cid, a.number + 1, after);
          CarriesFirst(tail, ps[1..], a.number + 1, i.now);
        }
        CollectAmidNoise(a', cid, after, tail);
      }
    } else {
      NoiseIsIgnored(a, i);
      CollectAmidNoise(a, cid, rest, tail);
    }
  }

  lemma CarriesFirst(inputs: seq<Input>, ps: seq<Framing.Packet>, number: nat, last: int)
    requires Carries(inputs, ps, number, last) && ps != []
    ensures inputs != []
    ensures if inputs[0].Packet? && inputs[0].p == ReadReport([0] + ps[0])
            then Carries(inputs[1..], ps[1..], number + 1, inputs[0].now)
            else IsNoise(inputs[0], number, last) && Carries(inputs[1..], ps, number, last)
  {
    hide ReadReport, IsNoise;
  }

  lemma CarriesNothing(inputs: seq<Input>, number: nat, last: int)
    requires Carries(inputs, [], number, last)
    ensures inputs == []
  {
  }

  lemma NoContinuations(cid: uint32, number: nat)
    ensures Continuations(cid, number, []) == []
  {
  }

  lemma SomeContinuations(cid: uint32, number: nat, rest: seq<byte>)
    requires rest != []
    ensures Continuations(cid, number, rest) != []
  {
  }

  lemma RunNothing(a: State)
    ensures Run(a, []) == Output(a, [])
  {
  }

  /** A run and the run without its last input, both after their first step. */
  lemma RunFirst(a: State, inputs: seq<Input>)
    requires inputs != []
    ensures var first, tail := Step(a, inputs[0]), inputs[1..];
            var rest := Run(first.state, tail);
            && Run(a, inputs) == Output(rest.state, first.messages + rest.messages)
            && Run(a, inputs[..|inputs| - 1]).messages ==
               if tail == [] then [] else first.messages + Run(first.state, tail[..|tail| - 1]).messages
  {
    hide Step;
    var tail := inputs[1..];
    if tail != [] {
      assert inputs[..|inputs| - 1][0] == inputs[0] && inputs[..|inputs| - 1][1..] == tail[..|tail| - 1];
    }
  }

  lemma ContinueWith(a: State, cid: uint32, chunk: seq<byte>, i: Input)
    requires a.Collecting? && 0 < |chunk| <= CONT_DATA_LEN && |a.data| + |chunk| <= a.total
    requires |chunk| == CONT_DATA_LEN || |a.data| + |chunk| == a.total
    requires i.Packet? && a.number < 0x80 && i.p == ContIn(cid, a.number, Pad(chunk, CONT_DATA_LEN))
    ensures Step(a, i) ==
            if |a.data| + |chunk| == a.total then Output(Idle, [Message(cid, a.cmd, a.data + chunk)])
            else Output(Collecting(a.cmd, a.total, a.data + chunk, a.number + 1, i.now), [])
  {
    assert Take(i.p.payload, CONT_DATA_LEN) == i.p.payload;
    assert Take(a.data + i.p.payload, a.total) == a.data + chunk;
  }

  /** From any state, the fragments of a message amid noise deliver exactly that message, with the last of them. */
  lemma TransferDelivers(a: State, m: Message, inputs: seq<Input>)
    requires |m.data| <= MAX_MESSAGE_LEN && m.cmd != INIT && m.cmd != CANCEL
    requires Transfers(inputs, m)
    ensures Run(a, inputs).messages == [m]
    ensures Run(a, inputs[..|inputs| - 1]).messages == []
  {
    var chunk, rest := Take(m.data, INIT_DATA_LEN), Drop(m.data, INIT_DATA_LEN);
    var i := inputs[0];
    FirstFragment(a, m, i);
    RunFirst(a, inputs);
    hide Step, Fragment, ReadReport, Run;
    if rest == [] {
      NoContinuations(m.cid, 0);
      RunNothing(Step(a, i).state);
    } else {
      CollectAmidNoise(Step(a, i).state, m.cid, rest, inputs[1..]);
    }
  }

  /** Whatever came before, the first fragment begins the message. */
  lemma FirstFragment(a: State, m: Message, i: Input)
    requires |m.data| <= MAX_MESSAGE_LEN && m.cmd != INIT && m.cmd != CANCEL
    requires i.Packet? && i.p == ReadReport([0] + Fragment(m)[0])
    ensures var chunk, rest := Take(m.data, INIT_DATA_LEN), Drop(m.data, INIT_DATA_LEN);
            && Fragment(m)[1..] == Continuations(m.cid, 0, rest)
            && m.data == chunk + rest
            && Step(a, i) == Output(if m.data == [] then Idle else Collecting(m.cmd, |m.data|, chunk, 0, i.now),
                                    if rest == [] then [m] else [])
  {
    var chunk, rest := Take(m.data, INIT_DATA_LEN), Drop(m.data, INIT_DATA_LEN);
    ReadInitPacket(m.cid, m.cmd, |m.data|, chunk);
    hide ReadReport, InitPacket;
    assert Take(i.p.payload, INIT_DATA_LEN) == i.p.payload;
    assert rest == [] ==> chunk == m.data;
    assert rest != [] ==> chunk == i.p.payload;
    assert Take(i.p.payload, |m.data|) == chunk;
    assert m.data == chunk + rest;
  }
}
