/** Where dispatched messages come from, and how often one initialization packet can be answered by a dispatch. */
module Provenance {
  import opened Bytes
  import opened Framing
  import opened Assembler
  import Channels

  function Before(inputs: seq<Input>, n: nat): State
    requires n <= |inputs|
  {
    Run(Idle, inputs[..n]).state
  }

  /** The positions of the packets that make up the message in progress after the first `n` inputs. */
  function TrailOf(inputs: seq<Input>, n: nat): seq<nat>
    requires n <= |inputs|
  {
    if n == 0 then []
    else if Starts(inputs[n - 1]) then [n - 1]
    else if Continues(Before(inputs, n - 1), inputs[n - 1]) then TrailOf(inputs, n - 1) + [n - 1]
    else TrailOf(inputs, n - 1)
  }

  /** An initialization packet and continuations 0, 1, 2, … in order, with no other beginning and no reset since. */
  ghost predicate IsTrail(inputs: seq<Input>, trail: seq<nat>, n: nat)
    requires n <= |inputs|
  {
    && trail != []
    && (forall j :: 0 <= j < |trail| ==> trail[j] < n)
    && (forall j, k :: 0 <= j < k < |trail| ==> trail[j] < trail[k])
    && Starts(inputs[trail[0]])
    && (forall j :: 1 <= j < |trail| ==>
          inputs[trail[j]].Packet? && inputs[trail[j]].p.ContIn? && inputs[trail[j]].p.seqByte == j - 1)
    && (forall k :: trail[0] < k < n ==> !Starts(inputs[k]) && !Resets(inputs[k]))
  }

  /** The payloads of the packets at the given positions, one after the other. */
  function Carried(inputs: seq<Input>, trail: seq<nat>): seq<byte>
    requires forall j :: 0 <= j < |trail| ==>
               trail[j] < |inputs| && inputs[trail[j]].Packet? && !inputs[trail[j]].p.Ignored?
  {
    if trail == [] then []
    else
      var last := |trail| - 1;
      Carried(inputs, trail[..last])
      + Take(inputs[trail[last]].p.payload, if last == 0 then INIT_DATA_LEN else CONT_DATA_LEN)
  }

  /** The state of a collecting assembler is the cut of what its trail carried. */
  ghost predicate Faithful(inputs: seq<Input>, n: nat, a: State, trail: seq<nat>)
    requires n <= |inputs|
  {
    && a.Collecting? && IsTrail(inputs, trail, n)
    && a.cmd == inputs[trail[0]].p.cmd && a.total == inputs[trail[0]].p.bcnt
    && a.number == |trail| - 1
    && a.data == Take(Carried(inputs, trail), a.total)
  }

  lemma CutTwice<T>(x: seq<T>, y: seq<T>, n: nat)
    ensures Take(Take(x, n) + y, n) == Take(x + y, n)
  {
  }

  lemma TrailGrows(inputs: seq<Input>, n: nat, trail: seq<nat>)
    requires n < |inputs| && IsTrail(inputs, trail, n) && !Starts(inputs[n]) && !Resets(inputs[n])
    ensures IsTrail(inputs, trail, n + 1)
    ensures inputs[n].Packet? && inputs[n].p.ContIn? && inputs[n].p.seqByte == |trail| - 1 ==>
              IsTrail(inputs, trail + [n], n + 1)
              && Carried(inputs, trail + [n]) == Carried(inputs, trail) + Take(inputs[n].p.payload, CONT_DATA_LEN)
  {
    assert (trail + [n])[..|trail|] == trail;
  }

  lemma TrailStarts(inputs: seq<Input>, n: nat)
    requires n < |inputs| && Starts(inputs[n])
    ensures IsTrail(inputs, [n], n + 1)
    ensures Carried(inputs, [n]) == Take(inputs[n].p.payload, INIT_DATA_LEN)
  {
    assert Carried(inputs, [n][..0]) == [];
  }

  lemma StepIsFaithful(inputs: seq<Input>, n: nat, a: State, trail: seq<nat>)
    requires n < |inputs| && !Starts(inputs[n]) && Faithful(inputs, n, a, trail)
    requires Step(a, inputs[n]).state.Collecting?
    ensures Faithful(inputs, n + 1, Step(a, inputs[n]).state,
                     if Continues(a, inputs[n]) then trail + [n] else trail)
  {
    TrailGrows(inputs, n, trail);
    if Continues(a, inputs[n]) {
      CutTwice(Carried(inputs, trail), Take(inputs[n].p.payload, CONT_DATA_LEN), a.total);
    }
  }

  lemma {:induction false} CollectingIsFaithful(inputs: seq<Input>, n: nat)
    requires n <= |inputs|
    ensures Before(inputs, n).Collecting? ==> Faithful(inputs, n, Before(inputs, n), TrailOf(inputs, n))
  {
    if n > 0 {
      RunLast(Idle, inputs, n - 1);
      CollectingIsFaithful(inputs, n - 1);
      if Before(inputs, n).Collecting? {
        if Starts(inputs[n - 1]) {
          TrailStarts(inputs, n - 1);
        } else {
          StepIsFaithful(inputs, n - 1, Before(inputs, n - 1), TrailOf(inputs, n - 1));
        }
      }
    }
  }

  /** Message `m`, dispatched by input `n`, is the cut of what its trail carried, and the trail ends with `n`. */
  ghost predicate Explains(inputs: seq<Input>, n: nat, m: Message)
    requires n < |inputs|
  {
    var trail := TrailOf(inputs, n + 1);
    && IsTrail(inputs, trail, n + 1) && trail[|trail| - 1] == n
    && m.cmd == inputs[trail[0]].p.cmd && |m.data| == inputs[trail[0]].p.bcnt <= MAX_MESSAGE_LEN
    && m.data == Take(Carried(inputs, trail), |m.data|)
  }

  /** A message dispatched by input `n` is the payload of the latest initialization packet followed by those of
      its continuations 0, 1, 2, …, the last of them input `n` itself, cut to the announced length. */
  lemma DispatchProvenance(inputs: seq<Input>, n: nat, m: Message)
    requires n < |inputs| && m in Step(Before(inputs, n), inputs[n]).messages
    ensures Explains(inputs, n, m)
  {
    var a, i := Before(inputs, n), inputs[n];
    CollectingIsFaithful(inputs, n);
    if Starts(i) {
      TrailStarts(inputs, n);
    } else {
      var trail := TrailOf(inputs, n);
      TrailGrows(inputs, n, trail);
      CutTwice(Carried(inputs, trail), Take(i.p.payload, CONT_DATA_LEN), a.total);
    }
  }

  // ---------------------------------------------------------------- how often a message is dispatched

  /** No later message begins in these inputs. */
  predicate NoStart(inputs: seq<Input>) {
    forall i <- inputs :: !Starts(i)
  }

  /** A continuation numbered 0 arrives before the channel is reset or times out. */
  predicate ZeroContinuationFirst(inputs: seq<Input>, lastSeen: int) {
    inputs != []
    && (|| (inputs[0].Packet? && inputs[0].p.ContIn? && inputs[0].p.seqByte == 0)
        || (&& !Resets(inputs[0])
            && !(inputs[0].Tick? && inputs[0].now - lastSeen > Channels.CHANNEL_TIMEOUT)
            && ZeroContinuationFirst(inputs[1..], lastSeen)))
  }

  lemma {:induction false} IdleStaysSilent(inputs: seq<Input>)
    requires NoStart(inputs)
    ensures Run(Idle, inputs) == Output(Idle, [])
    decreases |inputs|
  {
    if inputs != [] {
      assert inputs[0] in inputs;
      assert forall i <- inputs[1..] :: i in inputs;
      IdleStaysSilent(inputs[1..]);
    }
  }

  lemma {:induction false} LongMessageOnce(a: State, inputs: seq<Input>)
    requires NoStart(inputs)
    ensures |Run(a, inputs).messages| <= 1
    decreases |inputs|
  {
    if inputs != [] {
      assert inputs[0] in inputs;
      assert forall i <- inputs[1..] :: i in inputs;
      if Step(a, inputs[0]).state.Idle? {
        IdleStaysSilent(inputs[1..]);
      } else {
        LongMessageOnce(Step(a, inputs[0]).state, inputs[1..]);
      }
    }
  }

  lemma {:induction false} CompleteMessageAgain(a: State, cid: uint32, inputs: seq<Input>)
    requires NoStart(inputs) && a.Collecting? && a.number == 0 && |a.data| == a.total
    requires forall i <- inputs :: i.Packet? && !i.p.Ignored? ==> i.p.cid == cid
    ensures Run(a, inputs).messages ==
            if ZeroContinuationFirst(inputs, a.lastSeen) then [Message(cid, a.cmd, a.data)] else []
    decreases |inputs|
  {
    if inputs != [] {
      var i, rest := inputs[0], inputs[1..];
      assert i in inputs;
      assert forall k <- rest :: k in inputs;
      if Continues(a, i) {
        assert Take(a.data + Take(i.p.payload, CONT_DATA_LEN), a.total) == a.data;
        IdleStaysSilent(rest);
      } else if Resets(i) || TimesOut(a, i) {
        IdleStaysSilent(rest);
      } else {
        CompleteMessageAgain(a, cid, rest);
      }
    }
  }

  /** Between one initialization packet and the next, a message of 58 bytes or more is dispatched at most once,
      an empty one exactly once, and one of 1 to 57 bytes once more if and only if a continuation numbered 0 follows
      before the channel is reset or times out: the channel still counts the finished message as in progress. */
  lemma DispatchCount(a: State, first: Input, rest: seq<Input>)
    requires Starts(first) && first.p.Full() && NoStart(rest)
    requires forall i <- rest :: i.Packet? && !i.p.Ignored? ==> i.p.cid == first.p.cid
    ensures var n := |Run(a, [first] + rest).messages|;
            if first.p.bcnt == 0 then n == 1
            else if first.p.bcnt > INIT_DATA_LEN then n <= 1
            else n == if ZeroContinuationFirst(rest, first.now) then 2 else 1
    ensures forall m <- Run(a, [first] + rest).messages :: first.p.bcnt <= INIT_DATA_LEN ==>
              m == Message(first.p.cid, first.p.cmd, first.p.payload[..first.p.bcnt])
  {
    assert ([first] + rest)[1..] == rest;
    var out := Step(a, first);
    if first.p.bcnt == 0 {
      IdleStaysSilent(rest);
    } else if first.p.bcnt > INIT_DATA_LEN {
      LongMessageOnce(out.state, rest);
    } else {
      assert Take(Take(first.p.payload, INIT_DATA_LEN), first.p.bcnt) == first.p.payload[..first.p.bcnt];
      CompleteMessageAgain(out.state, first.p.cid, rest);
    }
  }
}
