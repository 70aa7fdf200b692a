/** CTAPHID packets: how a message becomes 64-byte reports, and how a report is read. */
module Framing {
  import opened Bytes

  const REPORT_LEN: nat := 64
  const INIT_DATA_LEN: nat := 57
  const CONT_DATA_LEN: nat := 59
  const MAX_MESSAGE_LEN: nat := 1200
  const BROADCAST_CID: uint32 := 0xFFFF_FFFF

  /** Longest message whose continuation packets all have a 7-bit sequence number. */
  const MAX_FRAMED_LEN: nat := INIT_DATA_LEN + 0x80 * CONT_DATA_LEN

  /** A command identifier; the eighth bit of its byte marks an initialization packet. */
  type Command = c: int | 0 <= c < 0x80

  const PING: Command := 0x01
  const INIT: Command := 0x06
  const CBOR: Command := 0x10
  const CANCEL: Command := 0x11
  const KEEPALIVE: Command := 0x3B
  const ERROR: Command := 0x3F

  const ERR_INVALID_CMD: byte := 0x01
  const ERR_INVALID_LEN: byte := 0x03
  const ERR_INVALID_SEQ: byte := 0x04
  const ERR_INVALID_CHANNEL: byte := 0x0B

  const KEEPALIVE_PROCESSING: byte := 0x01

  type Packet = p: seq<byte> | |p| == REPORT_LEN witness Zeros(REPORT_LEN)

  datatype Message = Message(cid: uint32, cmd: Command, data: seq<byte>)

  // ---------------------------------------------------------------- device to host

  function InitPacket(cid: uint32, cmd: Command, len: nat, chunk: seq<byte>): Packet
    requires |chunk| <= INIT_DATA_LEN
  {
    ToBe(cid, 4) + [cmd + 0x80] + ToBe(len, 2) + Pad(chunk, INIT_DATA_LEN)
  }

  function ContPacket(cid: uint32, seqByte: byte, chunk: seq<byte>): Packet
    requires |chunk| <= CONT_DATA_LEN
  {
    ToBe(cid, 4) + [seqByte] + Pad(chunk, CONT_DATA_LEN)
  }

  /** The continuation packets carrying `rest`, the first of them numbered `number` (one byte, so modulo 256). */
  function Continuations(cid: uint32, number: nat, rest: seq<byte>): seq<Packet>
    decreases |rest|
  {
    if rest == [] then []
    else [ContPacket(cid, number % 0x100, Take(rest, CONT_DATA_LEN))]
         + Continuations(cid, number + 1, Drop(rest, CONT_DATA_LEN))
  }

  function Fragment(m: Message): seq<Packet> {
    [InitPacket(m.cid, m.cmd, |m.data|, Take(m.data, INIT_DATA_LEN))]
    + Continuations(m.cid, 0, Drop(m.data, INIT_DATA_LEN))
  }

  function FragmentAll(ms: seq<Message>): seq<Packet> {
    if ms == [] then [] else Fragment(ms[0]) + FragmentAll(ms[1..])
  }

  /** 1 + ceil(max(0, n - 57) / 59). */
  function PacketCount(n: nat): nat {
    1 + (if n <= 57 then 0 else (n - 57 + 58) / 59)
  }

  lemma {:induction false} ContinuationsShape(cid: uint32, number: nat, rest: seq<byte>)
    ensures |Continuations(cid, number, rest)| == (|rest| + CONT_DATA_LEN - 1) / CONT_DATA_LEN
    ensures forall k :: 0 <= k < |Continuations(cid, number, rest)| ==>
              Continuations(cid, number, rest)[k][..5] == ToBe(cid, 4) + [(number + k) % 0x100]
    decreases |rest|
  {
    if rest != [] {
      ContinuationsShape(cid, number + 1, Drop(rest, CONT_DATA_LEN));
    }
  }

  /** The number of packets of a response, and the sequence byte of each continuation. */
  lemma FragmentShape(m: Message)
    ensures |Fragment(m)| == PacketCount(|m.data|)
    ensures Fragment(m)[0][..7] == ToBe(m.cid, 4) + [m.cmd + 0x80] + ToBe(|m.data|, 2)
    ensures forall k :: 1 <= k < |Fragment(m)| ==> Fragment(m)[k][..5] == ToBe(m.cid, 4) + [(k - 1) % 0x100]
    ensures |m.data| <= 7609 <==> forall k :: 1 <= k < |Fragment(m)| ==> Fragment(m)[k][4] < 0x80
  {
    var rest := Drop(m.data, INIT_DATA_LEN);
    var conts := Continuations(m.cid, 0, rest);
    ContinuationsShape(m.cid, 0, rest);
    forall k | 1 <= k < |Fragment(m)|
      ensures Fragment(m)[k][..5] == ToBe(m.cid, 4) + [(k - 1) % 0x100]
      ensures Fragment(m)[k][4] == (k - 1) % 0x100
    {
      assert Fragment(m)[k] == conts[k - 1];
      assert Fragment(m)[k][4] == Fragment(m)[k][..5][4];
    }
    if |m.data| > MAX_FRAMED_LEN {
      assert Fragment(m)[129][4] == 0x80;
    }
  }

  // ---------------------------------------------------------------- reading a report

  /** What a report says: nothing usable, an initialization packet, or a continuation packet. */
  datatype Incoming =
    | Ignored
    | InitIn(cid: uint32, cmd: Command, bcnt: uint16, payload: seq<byte>)
    | ContIn(cid: uint32, seqByte: byte, payload: seq<byte>)
  {
    /** The channel of a packet, or `other` when there is none. */
    function CidOr(other: uint32): uint32 {
      if Ignored? then other else cid
    }

    /** Padding makes every payload fill its packet. */
    predicate Full() {
      match this
      case Ignored => true
      case InitIn(_, _, _, payload) => |payload| >= INIT_DATA_LEN
      case ContIn(_, seqByte, payload) => seqByte < 0x80 && |payload| >= CONT_DATA_LEN
    }
  }

  function ReadPacket(p: seq<byte>): (r: Incoming)
    requires |p| >= REPORT_LEN
    ensures r.Full()
  {
    ReadFields(p[..4]);
    ReadFields(p[5..7]);
    PowersOf256();
    if p[4] >= 0x80
    then InitIn(FromBe(p[..4]), p[4] - 0x80, FromBe(p[5..7]), p[7..])
    else ContIn(FromBe(p[..4]), p[4], p[5..])
  }

  lemma ReadFields(s: seq<byte>)
    ensures FromBe(s) < Pow256(|s|)
  {
    ToBeFromBe(s);
  }

  /** A report of the host: an optional 0x00 report-ID prefix, then a packet that may be cut short. */
  function ReadReport(report: seq<byte>): (r: Incoming)
    ensures r.Full()
  {
    var body := if |report| > 0 && report[0] == 0 then report[1..] else report;
    if |body| < 7 then Ignored
    else ReadPacket(if |body| < REPORT_LEN then Pad(body, REPORT_LEN) else body)
  }

  /** Reading undoes building, up to the zero padding of the payload. */
  lemma ReadInitPacket(cid: uint32, cmd: Command, len: nat, chunk: seq<byte>)
    requires |chunk| <= INIT_DATA_LEN
    ensures var p := InitPacket(cid, cmd, len, chunk);
            ReadReport([0] + p) == ReadPacket(p) == InitIn(cid, cmd, len % 0x1_0000, Pad(chunk, INIT_DATA_LEN))
  {
    var p := InitPacket(cid, cmd, len, chunk);
    FromBeToBe(cid, 4);
    FromBeToBe(len, 2);
    PowersOf256();
    assert ([0] + p)[1..] == p;
    assert p[..4] == ToBe(cid, 4);
    assert p[5..7] == ToBe(len, 2);
    assert p[7..] == Pad(chunk, INIT_DATA_LEN);
  }

  lemma ReadContPacket(cid: uint32, seqByte: byte, chunk: seq<byte>)
    requires |chunk| <= CONT_DATA_LEN && seqByte < 0x80
    ensures var p := ContPacket(cid, seqByte, chunk);
            ReadReport([0] + p) == ReadPacket(p) == ContIn(cid, seqByte, Pad(chunk, CONT_DATA_LEN))
  {
    var p := ContPacket(cid, seqByte, chunk);
    FromBeToBe(cid, 4);
    PowersOf256();
    assert ([0] + p)[1..] == p;
    assert p[..4] == ToBe(cid, 4);
    assert p[5..] == Pad(chunk, CONT_DATA_LEN);
  }
}
