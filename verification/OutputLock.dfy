/** Concurrent `sendResponse` calls: every packet is a step of its own, and one lock serializes whole messages. */
module OutputLock {
  import opened Bytes
  import opened Framing
  import Host

  /** A call of `sendResponse`: waiting for the lock, or holding it with `rest` of the data still to send. */
  datatype Writer =
    | Waiting(message: Message)
    | Writing(message: Message, started: bool, rest: seq<byte>, seqByte: byte)

  /** One finished call: the caller, its message, and how many of its packets were injected. */
  datatype Finished = Finished(caller: nat, message: Message, injected: nat)

  datatype Output = Output(
    holder: Option<nat>,
    writers: map<nat, Writer>,
    packets: seq<Packet>,
    finished: seq<Finished>,
    calls: seq<(nat, Message)>,
    injected: nat)

  const INITIAL := Output(None, map[], [], [], [], 0)

  datatype Event =
    | Call(caller: nat, message: Message)
    | Lock(caller: nat)
    | InjectNext(caller: nat)
    | InjectFails(caller: nat)
    | Unlock(caller: nat)

  /** The packet a writer builds next. */
  function NextPacket(w: Writer): Packet
    requires w.Writing?
  {
    if !w.started then InitPacket(w.message.cid, w.message.cmd, |w.message.data|, Take(w.message.data, INIT_DATA_LEN))
    else ContPacket(w.message.cid, w.seqByte, Take(w.rest, CONT_DATA_LEN))
  }

  function Advance(w: Writer): Writer
    requires w.Writing?
  {
    if !w.started then w.(started := true, rest := Drop(w.message.data, INIT_DATA_LEN))
    else w.(rest := Drop(w.rest, CONT_DATA_LEN), seqByte := (w.seqByte + 1) % 0x100)
  }

  predicate HasMore(w: Writer)
    requires w.Writing?
  {
    !w.started || |w.rest| > 0
  }

  predicate Enabled(s: Output, e: Event) {
    match e
    case Call(c, _) => c !in s.writers
    case Lock(c) => c in s.writers && s.writers[c].Waiting? && s.holder == None
    case InjectNext(c) => c in s.writers && s.writers[c].Writing? && HasMore(s.writers[c])
    case InjectFails(c) => c in s.writers && s.writers[c].Writing? && HasMore(s.writers[c])
    case Unlock(c) => c in s.writers && s.writers[c].Writing? && !HasMore(s.writers[c])
  }

  function Leave(s: Output, c: nat): Output
    requires c in s.writers
  {
    s.(holder := None, writers := s.writers - {c},
       finished := s.finished + [Finished(c, s.writers[c].message, s.injected)], injected := 0)
  }

  function Step(s: Output, e: Event): Output
    requires Enabled(s, e)
  {
    match e
    case Call(c, m) => s.(writers := s.writers[c := Waiting(m)], calls := s.calls + [(c, m)])
    case Lock(c) => s.(writers := s.writers[c := Writing(s.writers[c].message, false, [], 0)], holder := Some(c))
    case InjectNext(c) =>
      var w := s.writers[c];
      s.(packets := s.packets + [NextPacket(w)], writers := s.writers[c := Advance(w)], injected := s.injected + 1)
    case InjectFails(c) => Leave(s, c)
    case Unlock(c) => Leave(s, c)
  }

  predicate Feasible(s: Output, es: seq<Event>)
    decreases |es|
  {
    es == [] || (Enabled(s, es[0]) && Feasible(Step(s, es[0]), es[1..]))
  }

  function Run(s: Output, es: seq<Event>): Output
    requires Feasible(s, es)
    decreases |es|
  {
    if es == [] then s else Run(Step(s, es[0]), es[1..])
  }

  // ---------------------------------------------------------------- atomicity

  /** The injected packets of finished calls, one call after the other. */
  function Pieces(fs: seq<Finished>): seq<Packet> {
    if fs == [] then []
    else
      var last := fs[|fs| - 1];
      Pieces(fs[..|fs| - 1]) + Take(Fragment(last.message), last.injected)
  }

  /** What a writer that holds the lock has yet to inject. */
  function Remaining(w: Writer, injected: nat): seq<Packet>
    requires w.Writing?
  {
    if !w.started then Fragment(w.message)
    else if injected == 0 then [] else Continuations(w.message.cid, injected - 1, w.rest)
  }

  ghost predicate Progress(w: Writer, injected: nat) {
    && w.Writing?
    && injected <= |Fragment(w.message)|
    && Remaining(w, injected) == Fragment(w.message)[injected..]
    && (w.started <==> injected > 0)
    && w.seqByte == if w.started then (injected - 1) % 0x100 else 0
  }

  /** The part of the log that belongs to the call in progress. */
  function Current(s: Output): seq<Packet> {
    if s.holder.Some? && s.holder.value in s.writers && s.writers[s.holder.value].Writing?
    then Take(Fragment(s.writers[s.holder.value].message), s.injected) else []
  }

  ghost predicate Inv(s: Output) {
    && (forall c <- s.writers :: s.writers[c].Writing? <==> s.holder == Some(c))
    && (s.holder.Some? ==> s.holder.value in s.writers && Progress(s.writers[s.holder.value], s.injected))
    && (s.holder.None? ==> s.injected == 0)
    && s.packets == Pieces(s.finished) + Current(s)
  }

  lemma AdvanceProgress(w: Writer, injected: nat)
    requires Progress(w, injected) && HasMore(w)
    ensures injected < |Fragment(w.message)| && NextPacket(w) == Fragment(w.message)[injected]
    ensures Progress(Advance(w), injected + 1)
  {
    var all := Fragment(w.message);
    RemainingUnfolds(w, injected);
    AdvanceCounts(w, injected);
    AdvanceKeepsMessage(w);
    hide Remaining, NextPacket, Advance, HasMore, Fragment;
    assert all[injected..][0] == all[injected];
    assert all[injected..][1..] == all[injected + 1..];
  }

  lemma RemainingUnfolds(w: Writer, injected: nat)
    requires w.Writing? && HasMore(w) && (w.started <==> injected > 0)
    requires w.seqByte == if w.started then (injected - 1) % 0x100 else 0
    ensures Remaining(w, injected) == [NextPacket(w)] + Remaining(Advance(w), injected + 1)
  {
    hide InitPacket, ContPacket;
  }

  lemma AdvanceCounts(w: Writer, injected: nat)
    requires w.Writing? && (w.started <==> injected > 0)
    requires w.seqByte == if w.started then (injected - 1) % 0x100 else 0
    ensures Advance(w).started && Advance(w).seqByte == injected % 0x100
  {
  }

  lemma PiecesGrow(fs: seq<Finished>, f: Finished)
    ensures Pieces(fs + [f]) == Pieces(fs) + Take(Fragment(f.message), f.injected)
  {
    assert (fs + [f])[..|fs|] == fs;
  }

  lemma InvLock(s: Output, c: nat)
    requires Inv(s) && Enabled(s, Lock(c))
    ensures Inv(Step(s, Lock(c)))
  {
    hide Fragment;
    var all := Fragment(s.writers[c].message);
    assert Take(all, 0) == [] && all[0..] == all;
  }

  lemma TakeOneMore(all: seq<Packet>, n: nat)
    requires n < |all|
    ensures Take(all, n) + [all[n]] == Take(all, n + 1)
  {
  }

  lemma InvInject(s: Output, c: nat)
    requires Inv(s) && Enabled(s, InjectNext(c))
    ensures Inv(Step(s, InjectNext(c)))
  {
    var w := s.writers[c];
    assert s.holder == Some(c);
    AdvanceProgress(w, s.injected);
    AdvanceKeepsMessage(w);
    hide Fragment, NextPacket, Progress, Pieces, Advance, HasMore, Take;
    TakeOneMore(Fragment(w.message), s.injected);
    var s' := Step(s, InjectNext(c));
    assert Current(s') == Current(s) + [NextPacket(w)];
  }

  lemma AdvanceKeepsMessage(w: Writer)
    requires w.Writing?
    ensures Advance(w).Writing? && Advance(w).message == w.message
  {
  }

  lemma InvLeave(s: Output, c: nat)
    requires Inv(s) && c in s.writers && s.writers[c].Writing?
    ensures Inv(Leave(s, c))
  {
    hide Fragment, Progress;
    PiecesGrow(s.finished, Finished(c, s.writers[c].message, s.injected));
    assert Pieces(Leave(s, c).finished) + [] == Pieces(Leave(s, c).finished);
  }

  lemma InvStep(s: Output, e: Event)
    requires Inv(s) && Enabled(s, e)
    ensures Inv(Step(s, e))
  {
    match e
    case Call(c, m) => hide Progress, Fragment, Pieces;
    case Lock(c) => InvLock(s, c);
    case InjectNext(c) => InvInject(s, c);
    case InjectFails(c) => InvLeave(s, c);
    case Unlock(c) => InvLeave(s, c);
  }

  lemma {:induction false} InvAlways(s: Output, es: seq<Event>)
    requires Inv(s) && Feasible(s, es)
    ensures Inv(Run(s, es))
    decreases |es|
  {
    hide Inv, Step, Enabled;
    if es != [] {
      InvStep(s, es[0]);
      InvAlways(Step(s, es[0]), es[1..]);
    }
  }

  /** In every interleaving the log is a sequence of contiguous pieces, one for each finished call in the order of
      their turns at the lock, and then what the one holder of the lock has sent: packets of two messages never mix. */
  lemma OutputIsAtomic(es: seq<Event>)
    requires Feasible(INITIAL, es)
    ensures var s := Run(INITIAL, es);
            && s.packets == Pieces(s.finished) + Current(s)
            && (forall c <- s.writers :: s.writers[c].Writing? <==> s.holder == Some(c))
  {
    InvAlways(INITIAL, es);
  }

  /** A call ends with its last packet or with the first that cannot be injected: it is entered with as many packets as
      were injected, its caller may call again, and the lock is free. */
  lemma CallsEnd(es: seq<Event>, c: nat)
    requires Feasible(INITIAL, es) && c in Run(INITIAL, es).writers && Run(INITIAL, es).holder == Some(c)
    ensures var s := Run(INITIAL, es);
            var m := s.writers[c].message;
            && s.injected <= |Fragment(m)| && s.packets == Pieces(s.finished) + Fragment(m)[..s.injected]
            && (s.injected < |Fragment(m)| <==> Enabled(s, InjectFails(c)))
            && (s.injected == |Fragment(m)| <==> Enabled(s, Unlock(c)))
            && (Enabled(s, InjectFails(c)) ==> Left(s, c, Step(s, InjectFails(c))))
            && (Enabled(s, Unlock(c)) ==> Left(s, c, Step(s, Unlock(c))))
  {
    InvFromStart(es);
    hide Run, Feasible, Fragment, Pieces, HasMore, Inv;
    var s := Run(INITIAL, es);
    HolderKnows(s, c);
  }

  /** The call of `c` is over: nothing more was injected, it is entered as it stood, and the lock is free. */
  ghost predicate Left(s: Output, c: nat, s': Output)
    requires c in s.writers
  {
    && s'.holder == None && c !in s'.writers && s'.packets == s.packets
    && s'.finished == s.finished + [Finished(c, s.writers[c].message, s.injected)]
  }

  lemma InvFromStart(es: seq<Event>)
    requires Feasible(INITIAL, es)
    ensures Inv(Run(INITIAL, es))
  {
    InvAlways(INITIAL, es);
  }

  /** The holder has more to send exactly when not all of its packets are injected. */
  lemma HolderKnows(s: Output, c: nat)
    requires Inv(s) && c in s.writers && s.holder == Some(c)
    ensures var w := s.writers[c];
            && w.Writing? && s.injected <= |Fragment(w.message)|
            && s.packets == Pieces(s.finished) + Fragment(w.message)[..s.injected]
            && (HasMore(w) <==> s.injected < |Fragment(w.message)|)
  {
    var w := s.writers[c];
    if HasMore(w) {
      AdvanceProgress(w, s.injected);
    } else {
      UnlockIsWhole(s, c);
    }
    hide Fragment, Pieces;
  }

  // ---------------------------------------------------------------- calls without failing injections

  ghost predicate AllWhole(fs: seq<Finished>) {
    forall f <- fs :: f.injected == |Fragment(f.message)|
  }

  lemma {:induction false} WithoutFailuresAllWhole(s: Output, es: seq<Event>)
    requires Inv(s) && Feasible(s, es) && AllWhole(s.finished)
    requires forall e <- es :: !e.InjectFails?
    ensures AllWhole(Run(s, es).finished)
    decreases |es|
  {
    hide Inv, Fragment, Feasible;
    if es != [] {
      var e := es[0];
      assert e in es && Enabled(s, e) && Feasible(Step(s, e), es[1..]) by {
        UnfoldFeasible(s, es);
      }
      InvStep(s, e);
      if e.Unlock? {
        UnlockIsWhole(s, e.caller);
      }
      assert forall k <- es[1..] :: k in es;
      WithoutFailuresAllWhole(Step(s, e), es[1..]);
      UnfoldFeasible(s, es);
    }
  }

  lemma UnfoldFeasible(s: Output, es: seq<Event>)
    requires es != [] && Feasible(s, es)
    ensures Enabled(s, es[0]) && Feasible(Step(s, es[0]), es[1..])
    ensures Run(s, es) == Run(Step(s, es[0]), es[1..])
  {
  }

  lemma UnlockIsWhole(s: Output, c: nat)
    requires Inv(s) && Enabled(s, Unlock(c))
    ensures s.injected == |Fragment(s.writers[c].message)|
  {
    var w := s.writers[c];
    assert Progress(w, s.injected);
    assert Remaining(w, s.injected) == [];
  }

  /** The messages of which a host has received every packet. */
  function Delivered(s: Output): seq<Message> {
    Messages(s.finished)
    + if s.holder.Some? && s.holder.value in s.writers && s.injected == |Fragment(s.writers[s.holder.value].message)|
      then [s.writers[s.holder.value].message] else []
  }

  function Messages(fs: seq<Finished>): seq<Message> {
    seq(|fs|, i requires 0 <= i < |fs| => fs[i].message)
  }

  lemma {:induction false} HostReadsPieces(fs: seq<Finished>)
    requires AllWhole(fs) && forall f <- fs :: |f.message.data| <= MAX_FRAMED_LEN
    ensures Host.Run(Host.Ready, Pieces(fs)) == Host.Outcome(Host.Ready, Messages(fs))
  {
    if fs == [] {
      assert Messages(fs) == [];
    } else {
      hide Host.Run, Fragment, Pieces;
      var front, last := fs[..|fs| - 1], fs[|fs| - 1];
      assert last in fs && forall f <- front :: f in fs;
      HostReadsPieces(front);
      assert Messages(fs) == Messages(front) + [last.message];
      hide *;
      HostReadsOneMore(Pieces(front), Messages(front), last);
      UnfoldPieces(fs);
    }
  }

  lemma UnfoldPieces(fs: seq<Finished>)
    requires fs != []
    ensures Pieces(fs) == Pieces(fs[..|fs| - 1]) + Take(Fragment(fs[|fs| - 1].message), fs[|fs| - 1].injected)
  {
  }

  lemma HostReadsOneMore(ps: seq<Packet>, ms: seq<Message>, last: Finished)
    requires Host.Run(Host.Ready, ps) == Host.Outcome(Host.Ready, ms)
    requires last.injected == |Fragment(last.message)| && |last.message.data| <= MAX_FRAMED_LEN
    ensures Host.Run(Host.Ready, ps + Take(Fragment(last.message), last.injected)) ==
            Host.Outcome(Host.Ready, ms + [last.message])
  {
    hide Host.Step, Host.Run, Fragment;
    var whole := Fragment(last.message);
    assert Take(whole, last.injected) == whole == whole[..|whole|];
    Host.RunConcat(Host.Ready, ps, whole);
    Host.ReassembleFragment(last.message, |whole|);
  }

  /** Whatever the interleaving, as long as injections succeed a host reads exactly the messages sent, in the order
      in which the calls had the lock. */
  lemma HostReadsWhatWasSent(es: seq<Event>)
    requires Feasible(INITIAL, es)
    requires forall e <- es :: !e.InjectFails?
    requires var s := Run(INITIAL, es);
             && (forall f <- s.finished :: |f.message.data| <= MAX_FRAMED_LEN)
             && (forall c <- s.writers :: |s.writers[c].message.data| <= MAX_FRAMED_LEN)
    ensures Host.Run(Host.Ready, Run(INITIAL, es).packets).messages == Delivered(Run(INITIAL, es))
  {
    var s := Run(INITIAL, es);
    InvAlways(INITIAL, es);
    WithoutFailuresAllWhole(INITIAL, es);
    HostReadsPieces(s.finished);
    hide Host.Step, Fragment, Feasible, Run;
    Host.RunConcat(Host.Ready, Pieces(s.finished), Current(s));
    if s.holder.Some? {
      var m := s.writers[s.holder.value].message;
      Host.ReassembleFragment(m, s.injected);
      assert Take(Fragment(m), s.injected) == Fragment(m)[..s.injected];
    }
  }

  // ---------------------------------------------------------------- no call is lost or repeated

  /** The messages of one caller, in the order of its calls. */
  function CallsOf(calls: seq<(nat, Message)>, c: nat): seq<Message> {
    if calls == [] then []
    else
      var last := calls[|calls| - 1];
      CallsOf(calls[..|calls| - 1], c) + if last.0 == c then [last.1] else []
  }

  function FinishedOf(fs: seq<Finished>, c: nat): seq<Message> {
    if fs == [] then []
    else
      var last := fs[|fs| - 1];
      FinishedOf(fs[..|fs| - 1], c) + if last.caller == c then [last.message] else []
  }

  /** The message a caller has in progress. */
  function InProgress(s: Output, c: nat): seq<Message> {
    if c in s.writers then [s.writers[c].message] else []
  }

  /** A caller's finished messages and the one in progress are exactly its calls, in order. */
  ghost predicate Accounted(s: Output, c: nat) {
    CallsOf(s.calls, c) == FinishedOf(s.finished, c) + InProgress(s, c)
  }

  lemma AccountedStep(s: Output, e: Event, c: nat)
    requires Accounted(s, c) && Enabled(s, e)
    ensures Accounted(Step(s, e), c)
  {
    InProgressStep(s, e, c);
    var s', done := Step(s, e), FinishedOf(s.finished, c);
    assert done + [] == done;
    if e.Call? {
      CallsGrow(s.calls, e.caller, e.message, c);
    } else if e.InjectFails? || e.Unlock? {
      var f := Finished(e.caller, s.writers[e.caller].message, s.injected);
      FinishedGrows(s.finished, f, c);
      assert FinishedOf(s'.finished, c) + [] == FinishedOf(s'.finished, c);
    }
    hide CallsOf, FinishedOf, HasMore, NextPacket, Advance, InProgress, Enabled;
  }

  /** Only a call and the end of a call change what its caller has in progress. */
  lemma InProgressStep(s: Output, e: Event, c: nat)
    requires Enabled(s, e)
    ensures InProgress(Step(s, e), c) ==
            if e.Call? && e.caller == c then [e.message]
            else if (e.InjectFails? || e.Unlock?) && e.caller == c then []
            else InProgress(s, c)
    ensures e.Call? && e.caller == c ==> InProgress(s, c) == []
    ensures e.InjectFails? || e.Unlock? ==>
              e.caller in s.writers && InProgress(s, e.caller) == [s.writers[e.caller].message]
  {
    hide NextPacket;
  }

  lemma CallsGrow(calls: seq<(nat, Message)>, k: nat, m: Message, c: nat)
    ensures CallsOf(calls + [(k, m)], c) == CallsOf(calls, c) + if k == c then [m] else []
  {
    assert (calls + [(k, m)])[..|calls|] == calls;
  }

  lemma FinishedGrows(fs: seq<Finished>, f: Finished, c: nat)
    ensures FinishedOf(fs + [f], c) == FinishedOf(fs, c) + if f.caller == c then [f.message] else []
  {
    assert (fs + [f])[..|fs|] == fs;
  }

  lemma {:induction false} CallsAreAccountedFor(s: Output, es: seq<Event>, c: nat)
    requires Accounted(s, c) && Feasible(s, es)
    ensures Accounted(Run(s, es), c)
    decreases |es|
  {
    hide Accounted, Step, Enabled;
    if es != [] {
      AccountedStep(s, es[0], c);
      CallsAreAccountedFor(Step(s, es[0]), es[1..], c);
    }
  }
}
