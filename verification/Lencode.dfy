/** The length-prefixed codec: what an encoder writes and a decoder reads, one call at a time. */
module Lencode {
  import opened Bytes

  datatype EncodeError = TooLong | WriteFailed

  datatype DecodeError = Eof | UnexpectedEof | SeparatorMismatch | BufferRejected

  /** What a call comes to; `Crashed` stands for a slice expression out of range. */
  datatype Result = Message(message: seq<byte>) | Length(length: nat) | Failed(error: DecodeError) | Crashed

  const MAX_LEN: nat := 0xFF

  // ---------------------------------------------------------------- encoding

  function Record(sep: seq<byte>, msg: seq<byte>): seq<byte>
    requires |msg| <= MAX_LEN
  {
    sep + [|msg|] + msg
  }

  ghost predicate AllShort(msgs: seq<seq<byte>>) {
    forall m <- msgs :: |m| <= MAX_LEN
  }

  function Stream(sep: seq<byte>, msgs: seq<seq<byte>>): seq<byte>
    requires AllShort(msgs)
  {
    if msgs == [] then [] else Record(sep, msgs[0]) + Stream(sep, msgs[1..])
  }

  /** An encoder: what the writer holds, how much more it takes (if that is limited), and the first error. */
  datatype EncState = EncState(out: seq<byte>, room: Option<nat>, err: Option<EncodeError>)

  function WriteOnce(s: EncState, b: seq<byte>): EncState {
    if s.err.Some? then s
    else if s.room.None? then s.(out := s.out + b)
    else if |b| <= s.room.value then s.(out := s.out + b, room := Some(s.room.value - |b|))
    else EncState(s.out + b[..s.room.value], Some(0), Some(WriteFailed))
  }

  function EncodeOne(sep: seq<byte>, s: EncState, msg: seq<byte>): EncState {
    if s.err.Some? then s
    else if |msg| > MAX_LEN then s.(err := Some(TooLong))
    else WriteOnce(WriteOnce(WriteOnce(s, sep), [|msg|]), msg)
  }

  function EncodeRun(sep: seq<byte>, s: EncState, msgs: seq<seq<byte>>): EncState
    decreases |msgs|
  {
    if msgs == [] then s else EncodeRun(sep, EncodeOne(sep, s, msgs[0]), msgs[1..])
  }

  /** How many messages come before the first one that is too long. */
  function ShortPrefix(msgs: seq<seq<byte>>): (n: nat)
    ensures n <= |msgs| && AllShort(msgs[..n])
    ensures n < |msgs| ==> |msgs[n]| > MAX_LEN
  {
    if msgs == [] || |msgs[0]| > MAX_LEN then 0
    else
      var n := ShortPrefix(msgs[1..]);
      assert forall m <- msgs[..n + 1] :: m == msgs[0] || m in msgs[1..][..n];
      n + 1
  }

  lemma {:induction false} ErrorLatches(sep: seq<byte>, s: EncState, msgs: seq<seq<byte>>)
    requires s.err.Some?
    ensures EncodeRun(sep, s, msgs) == s
  {
    if msgs != [] {
      ErrorLatches(sep, s, msgs[1..]);
    }
  }

  /** On an unlimited writer, a sequence of calls leaves exactly the records of the messages before the first one
      that is too long, and an error if there is such a one: nothing after it is written. */
  lemma {:induction false} EncodeWritesRecords(sep: seq<byte>, out: seq<byte>, msgs: seq<seq<byte>>)
    ensures var n := ShortPrefix(msgs);
            EncodeRun(sep, EncState(out, None, None), msgs) ==
            EncState(out + Stream(sep, msgs[..n]), None, if n < |msgs| then Some(TooLong) else None)
    decreases |msgs|
  {
    if msgs != [] {
      var first, rest := msgs[0], msgs[1..];
      if |first| > MAX_LEN {
        ErrorLatches(sep, EncState(out, None, Some(TooLong)), rest);
        assert out + [] == out;
      } else {
        hide EncodeOne, Record, Stream;
        EncodeWritesRecords(sep, out + Record(sep, first), rest);
        EncodeShort(sep, out, first);
        StreamOfPrefix(sep, msgs, ShortPrefix(msgs));
      }
    } else {
      assert out + [] == out;
    }
  }

  lemma EncodeShort(sep: seq<byte>, out: seq<byte>, msg: seq<byte>)
    requires |msg| <= MAX_LEN
    ensures EncodeOne(sep, EncState(out, None, None), msg) == EncState(out + Record(sep, msg), None, None)
  {
    assert out + sep + [|msg|] + msg == out + Record(sep, msg);
  }

  lemma StreamOfPrefix(sep: seq<byte>, msgs: seq<seq<byte>>, n: nat)
    requires 0 < n <= |msgs| && AllShort(msgs[..n])
    ensures msgs[..n][0] == msgs[0] && AllShort(msgs[1..][..n - 1]) && |msgs[0]| <= MAX_LEN
    ensures Stream(sep, msgs[..n]) == Record(sep, msgs[0]) + Stream(sep, msgs[1..][..n - 1])
  {
    assert msgs[..n][1..] == msgs[1..][..n - 1];
    assert msgs[..n][0] in msgs[..n];
    hide Record;
  }

  /** A limited and an unlimited encoder that were given the same: the limited one holds what fits. */
  ghost predicate Cuts(limited: EncState, full: EncState, k: nat) {
    && full.room == None && full.err != Some(WriteFailed) && limited.room.Some?
    && limited.out == Take(full.out, k)
    && if |full.out| > k then limited.err == Some(WriteFailed)
       else limited.err == full.err && limited.room.value == k - |full.out|
  }

  lemma WriteCuts(limited: EncState, full: EncState, k: nat, b: seq<byte>)
    requires Cuts(limited, full, k)
    ensures Cuts(WriteOnce(limited, b), WriteOnce(full, b), k)
  {
  }

  lemma EncodeCuts(sep: seq<byte>, limited: EncState, full: EncState, k: nat, msg: seq<byte>)
    requires Cuts(limited, full, k)
    ensures Cuts(EncodeOne(sep, limited, msg), EncodeOne(sep, full, msg), k)
  {
    if |msg| <= MAX_LEN && full.err.None? {
      var l1, f1 := WriteOnce(limited, sep), WriteOnce(full, sep);
      WriteCuts(limited, full, k, sep);
      var l2, f2 := WriteOnce(l1, [|msg|]), WriteOnce(f1, [|msg|]);
      WriteCuts(l1, f1, k, [|msg|]);
      WriteCuts(l2, f2, k, msg);
      FailedStays(limited, sep);
      FailedStays(l1, [|msg|]);
      FailedStays(l2, msg);
      hide WriteOnce;
    }
  }

  lemma FailedStays(s: EncState, b: seq<byte>)
    ensures s.err.Some? ==> WriteOnce(s, b) == s
  {
  }

  /** On a writer that takes only `k` bytes a sequence of calls leaves the first `k` bytes of what it would have written,
      and reports a failed write exactly when that is not all. */
  lemma {:induction false} LimitedWriterCuts(sep: seq<byte>, limited: EncState, full: EncState, k: nat,
                                             msgs: seq<seq<byte>>)
    requires Cuts(limited, full, k)
    ensures Cuts(EncodeRun(sep, limited, msgs), EncodeRun(sep, full, msgs), k)
    decreases |msgs|
  {
    if msgs != [] {
      hide Cuts, EncodeOne;
      EncodeCuts(sep, limited, full, k, msgs[0]);
      LimitedWriterCuts(sep, EncodeOne(sep, limited, msgs[0]), EncodeOne(sep, full, msgs[0]), k, msgs[1..]);
    }
  }

  // ---------------------------------------------------------------- decoding

  /** A decoder: the bytes not read yet, the length of a message whose prefix was read, and the first error. */
  datatype DecState = DecState(rest: seq<byte>, pending: Option<nat>, err: Option<DecodeError>)

  function ReadPrefix(sep: seq<byte>, s: DecState): DecState {
    if s.err.Some? || s.pending.Some? then s
    else if |s.rest| < |sep| + 1 then DecState([], None, Some(if s.rest == [] then Eof else UnexpectedEof))
    else if s.rest[..|sep|] != sep then DecState(s.rest[|sep| + 1..], None, Some(SeparatorMismatch))
    else DecState(s.rest[|sep| + 1..], Some(s.rest[|sep|]), None)
  }

  /** Reads the body of the pending message. */
  function ReadBody(s: DecState): DecState
    requires s.err.None? && s.pending.Some?
  {
    if |s.rest| < s.pending.value then DecState([], s.pending, Some(UnexpectedEof))
    else DecState(s.rest[s.pending.value..], None, None)
  }

  datatype Step = Step(state: DecState, result: Result)

  /** Decodes into a slice of `len` bytes that could be extended to `cap` bytes. */
  function DecodeInto(sep: seq<byte>, s: DecState, len: nat, cap: nat): Step {
    var p := ReadPrefix(sep, s);
    if p.err.Some? then Step(p, Failed(p.err.value))
    else if p.pending.None? then Step(p, Failed(Eof))
    else if p.pending.value < len then Step(p.(err := Some(BufferRejected)), Failed(BufferRejected))
    else if p.pending.value > cap then Step(p, Crashed)
    else
      var q := ReadBody(p);
      Step(q, if q.err.Some? then Failed(q.err.value) else Message(p.rest[..p.pending.value]))
  }

  function Decode(sep: seq<byte>, s: DecState): Step {
    var p := ReadPrefix(sep, s);
    if p.err.Some? then Step(p, Failed(p.err.value)) else DecodeInto(sep, p, p.pending.GetOr(0), p.pending.GetOr(0))
  }

  function NextLen(sep: seq<byte>, s: DecState): Step {
    var p := ReadPrefix(sep, s);
    Step(p, if p.err.Some? then Failed(p.err.value) else Length(p.pending.GetOr(0)))
  }

  datatype Call = DecodeCall | NextLenCall

  function Perform(sep: seq<byte>, s: DecState, call: Call): Step {
    if call.DecodeCall? then Decode(sep, s) else NextLen(sep, s)
  }

  /** The results of the `Decode` calls of a schedule. */
  function Decoded(sep: seq<byte>, s: DecState, calls: seq<Call>): seq<Result>
    decreases |calls|
  {
    if calls == [] then []
    else
      var step := Perform(sep, s, calls[0]);
      (if calls[0].DecodeCall? then [step.result] else []) + Decoded(sep, step.state, calls[1..])
  }

  function DecodeCalls(calls: seq<Call>): seq<Call> {
    if calls == [] then []
    else (if calls[0].DecodeCall? then [calls[0]] else []) + DecodeCalls(calls[1..])
  }

  /** Calls of `NextLen` change nothing for the calls of `Decode` around them. */
  lemma {:induction false} NextLenIsTransparent(sep: seq<byte>, s: DecState, s': DecState, calls: seq<Call>)
    requires ReadPrefix(sep, s) == ReadPrefix(sep, s')
    ensures Decoded(sep, s, calls) == Decoded(sep, s', DecodeCalls(calls))
    decreases |calls|
  {
    if calls != [] {
      if calls[0].DecodeCall? {
        assert DecodeCalls(calls)[1..] == DecodeCalls(calls[1..]);
        NextLenIsTransparent(sep, Decode(sep, s).state, Decode(sep, s').state, calls[1..]);
      } else {
        assert DecodeCalls(calls) == DecodeCalls(calls[1..]);
        assert ReadPrefix(sep, NextLen(sep, s).state) == ReadPrefix(sep, s);
        NextLenIsTransparent(sep, NextLen(sep, s).state, s', calls[1..]);
      }
    }
  }

  /** After the first error every call reports it again, and nothing more is read. */
  lemma DecodeErrorLatches(sep: seq<byte>, s: DecState, call: Call)
    ensures var step := Perform(sep, s, call);
            step.result.Failed? ==> forall again: Call :: Perform(sep, step.state, again) == step
  {
  }

  /** The length that NextLen reports is that of the message which the next Decode reads, if its bytes are all there. */
  lemma NextLenAnnounces(sep: seq<byte>, s: DecState)
    ensures var step := NextLen(sep, s);
            step.result.Length? && s.err.None? && (s.pending.Some? || step.state.pending.Some?) ==>
              Decode(sep, step.state).result ==
              if step.result.length <= |step.state.rest| then Message(step.state.rest[..step.result.length])
              else Failed(UnexpectedEof)
  {
  }

  /** What a fresh decoder makes of its bytes. */
  lemma DecodeOutcome(sep: seq<byte>, b: seq<byte>)
    ensures var n := |sep|;
            Decode(sep, DecState(b, None, None)).result ==
            if b == [] then Failed(Eof)
            else if |b| <= n then Failed(UnexpectedEof)
            else if b[..n] != sep then Failed(SeparatorMismatch)
            else if |b| < n + 1 + b[n] then Failed(UnexpectedEof)
            else Message(b[n + 1..n + 1 + b[n]])
  {
  }

  /** A whole schedule after an error has nothing but that error to report. */
  lemma {:induction false} OneErrorForever(sep: seq<byte>, s: DecState, call: Call, calls: seq<Call>)
    requires Perform(sep, s, call).result.Failed?
    ensures forall r <- Decoded(sep, Perform(sep, s, call).state, calls) :: r == Perform(sep, s, call).result
    decreases |calls|
  {
    if calls != [] {
      DecodeErrorLatches(sep, s, call);
      hide Perform;
      var step := Perform(sep, s, call);
      assert Perform(sep, step.state, calls[0]) == step;
      OneErrorForever(sep, s, call, calls[1..]);
    }
  }

  // ---------------------------------------------------------------- round trip and truncation

  /** All messages up to the first error, and that error. */
  datatype Reading = Reading(messages: seq<seq<byte>>, error: DecodeError)

  function DecodeAll(sep: seq<byte>, b: seq<byte>): Reading
    decreases |b|
  {
    var step := Decode(sep, DecState(b, None, None));
    match step.result
    case Message(m) =>
      var more := DecodeAll(sep, step.state.rest);
      Reading([m] + more.messages, more.error)
    case Failed(e) => Reading([], e)
    case _ => Reading([], Eof)
  }

  /** What `Decode` reads from a fresh decoder is a record at the front of the bytes, and the rest is left. */
  lemma DecodeReadsRecord(sep: seq<byte>, b: seq<byte>)
    ensures var step := Decode(sep, DecState(b, None, None));
            !step.result.Length? && !step.result.Crashed?
            && (step.result.Message? ==>
                  && |step.result.message| <= MAX_LEN && step.state == DecState(step.state.rest, None, None)
                  && b == Record(sep, step.result.message) + step.state.rest)
  {
    var step := Decode(sep, DecState(b, None, None));
    if step.result.Message? {
      var p := ReadPrefix(sep, DecState(b, None, None));
      assert b == b[..|sep|] + [b[|sep|]] + b[|sep| + 1..];
      assert p.rest == p.rest[..p.pending.value] + step.state.rest;
    }
  }

  lemma DecodeRecord(sep: seq<byte>, m: seq<byte>, rest: seq<byte>)
    requires |m| <= MAX_LEN
    ensures Decode(sep, DecState(Record(sep, m) + rest, None, None)) == Step(DecState(rest, None, None), Message(m))
  {
    var b := Record(sep, m) + rest;
    assert b[..|sep|] == sep && b[|sep|] == |m| && b[|sep| + 1..] == m + rest;
    assert (m + rest)[..|m|] == m && (m + rest)[|m|..] == rest;
  }

  lemma DecodeCutRecord(sep: seq<byte>, m: seq<byte>, n: nat)
    requires |m| <= MAX_LEN && n < |Record(sep, m)|
    ensures DecodeAll(sep, Record(sep, m)[..n]) == Reading([], if n == 0 then Eof else UnexpectedEof)
  {
    var b := Record(sep, m)[..n];
    if n > |sep| {
      assert b[..|sep|] == sep && b[|sep|] == |m|;
    }
  }

  lemma DecodeAllRecord(sep: seq<byte>, m: seq<byte>, rest: seq<byte>)
    requires |m| <= MAX_LEN
    ensures var more := DecodeAll(sep, rest);
            DecodeAll(sep, Record(sep, m) + rest) == Reading([m] + more.messages, more.error)
  {
    DecodeRecord(sep, m, rest);
  }

  /** How many whole records fit into the first `n` bytes of a stream. */
  function WholeRecords(sep: seq<byte>, msgs: seq<seq<byte>>, n: nat): (k: nat)
    requires AllShort(msgs)
    ensures k <= |msgs|
  {
    if msgs == [] || n < |Record(sep, msgs[0])| then 0
    else 1 + WholeRecords(sep, msgs[1..], n - |Record(sep, msgs[0])|)
  }

  /** The reading of the first `n` bytes, record by record. */
  function Readable(sep: seq<byte>, msgs: seq<seq<byte>>, n: nat): Reading
    requires AllShort(msgs)
  {
    if msgs == [] then Reading([], Eof)
    else if n < |Record(sep, msgs[0])| then Reading([], if n == 0 then Eof else UnexpectedEof)
    else
      var more := Readable(sep, msgs[1..], n - |Record(sep, msgs[0])|);
      Reading([msgs[0]] + more.messages, more.error)
  }

  lemma {:induction false} DecodesReadable(sep: seq<byte>, msgs: seq<seq<byte>>, n: nat)
    requires AllShort(msgs) && n <= |Stream(sep, msgs)|
    ensures DecodeAll(sep, Stream(sep, msgs)[..n]) == Readable(sep, msgs, n)
  {
    if msgs != [] {
      hide DecodeAll, Record;
      var first, rest := msgs[0], msgs[1..];
      var record := Record(sep, first);
      if n < |record| {
        assert Stream(sep, msgs)[..n] == record[..n];
        DecodeCutRecord(sep, first, n);
      } else {
        var m := n - |record|;
        DecodesReadable(sep, rest, m);
        assert Stream(sep, msgs)[..n] == record + Stream(sep, rest)[..m];
        DecodeAllRecord(sep, first, Stream(sep, rest)[..m]);
      }
    }
  }

  lemma {:induction false} ReadableIsPrefix(sep: seq<byte>, msgs: seq<seq<byte>>, n: nat)
    requires AllShort(msgs) && n <= |Stream(sep, msgs)|
    ensures var k := WholeRecords(sep, msgs, n);
            && AllShort(msgs[..k])
            && Readable(sep, msgs, n) ==
               Reading(msgs[..k], if n == |Stream(sep, msgs[..k])| then Eof else UnexpectedEof)
  {
    var k := WholeRecords(sep, msgs, n);
    ShortParts(msgs, k);
    if k == 0 {
      assert msgs[..k] == [];
    } else {
      hide Record, AllShort, Stream, Readable, WholeRecords;
      var rest, m := msgs[1..], n - |Record(sep, msgs[0])|;
      FirstIsWhole(sep, msgs, n);
      ReadableIsPrefix(sep, rest, m);
      StreamOfPrefix(sep, msgs, k);
      assert msgs[..k] == [msgs[0]] + rest[..k - 1];
    }
  }

  lemma FirstIsWhole(sep: seq<byte>, msgs: seq<seq<byte>>, n: nat)
    requires AllShort(msgs) && n <= |Stream(sep, msgs)| && WholeRecords(sep, msgs, n) > 0
    ensures msgs != [] && AllShort(msgs[1..]) && |msgs[0]| <= MAX_LEN
    ensures var m := n - |Record(sep, msgs[0])|;
            && 0 <= m <= |Stream(sep, msgs[1..])| && WholeRecords(sep, msgs, n) == 1 + WholeRecords(sep, msgs[1..], m)
            && Readable(sep, msgs, n) ==
               var more := Readable(sep, msgs[1..], m);
               Reading([msgs[0]] + more.messages, more.error)
  {
    hide Record;
  }

  lemma ShortParts(msgs: seq<seq<byte>>, k: nat)
    requires AllShort(msgs) && k <= |msgs|
    ensures AllShort(msgs[..k])
    ensures msgs != [] ==> AllShort(msgs[1..]) && |msgs[0]| <= MAX_LEN
  {
    assert forall m <- msgs[..k] :: m in msgs;
  }

  /** Decoding the first `n` bytes of a stream yields the messages of the whole records among them, and then EOF
      when the cut is between two records and an unexpected EOF otherwise. */
  lemma TruncatedRoundTrip(sep: seq<byte>, msgs: seq<seq<byte>>, n: nat)
    requires AllShort(msgs) && n <= |Stream(sep, msgs)|
    ensures var k := WholeRecords(sep, msgs, n);
            && AllShort(msgs[..k])
            && DecodeAll(sep, Stream(sep, msgs)[..n]) ==
               Reading(msgs[..k], if n == |Stream(sep, msgs[..k])| then Eof else UnexpectedEof)
  {
    hide DecodeAll;
    DecodesReadable(sep, msgs, n);
    ReadableIsPrefix(sep, msgs, n);
  }

  lemma {:induction false} AllRecordsAreWhole(sep: seq<byte>, msgs: seq<seq<byte>>)
    requires AllShort(msgs)
    ensures WholeRecords(sep, msgs, |Stream(sep, msgs)|) == |msgs|
  {
    if msgs != [] {
      AllRecordsAreWhole(sep, msgs[1..]);
    }
  }

  /** The round trip, and its converse: a byte string reads as a list of messages and a clean end exactly when it is
      the stream of that list. */
  lemma {:induction false} ReadsIffStream(sep: seq<byte>, b: seq<byte>, msgs: seq<seq<byte>>)
    ensures DecodeAll(sep, b) == Reading(msgs, Eof) <==> AllShort(msgs) && b == Stream(sep, msgs)
    decreases |b|
  {
    if AllShort(msgs) && b == Stream(sep, msgs) {
      TruncatedRoundTrip(sep, msgs, |b|);
      AllRecordsAreWhole(sep, msgs);
      assert b[..|b|] == b && msgs[..|msgs|] == msgs;
    }
    if DecodeAll(sep, b) == Reading(msgs, Eof) {
      var step := Decode(sep, DecState(b, None, None));
      DecodeReadsRecord(sep, b);
      if step.result.Message? {
        var tail := DecodeAll(sep, step.state.rest).messages;
        ReadsIffStream(sep, step.state.rest, tail);
        assert msgs == [step.result.message] + tail && msgs[1..] == tail;
        assert forall m <- msgs :: m == step.result.message || m in tail;
      } else {
        assert b == [];
      }
    }
  }

  /** The documentation asks for a buffer large enough for the message. A slice is in fact accepted, provided the body
      is all there, if and only if it is no longer than the message and can be extended to its length: a slice without
      spare capacity only when it is exactly as long. A longer one is rejected, one that is too short crashes the call. */
  lemma AcceptedBuffers(sep: seq<byte>, s: DecState, len: nat, cap: nat)
    requires s.err.None? && s.pending.Some? && s.pending.value <= |s.rest| && len <= cap
    ensures DecodeInto(sep, s, len, cap).result.Message? <==> len <= s.pending.value <= cap
    ensures DecodeInto(sep, s, len, cap).result == Failed(BufferRejected) <==> len > s.pending.value
    ensures DecodeInto(sep, s, len, cap).result.Crashed? <==> s.pending.value > cap
  {
  }
}
