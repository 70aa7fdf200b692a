/** The encoder and decoder objects, over a writer and a reader. */
module Codec {
  import opened Bytes
  import opened Lencode

  /** A writer that takes a limited or an unlimited number of bytes. */
  class ByteWriter {
    var data: seq<byte>
    var room: Option<nat>

    constructor (room: Option<nat>)
      ensures data == [] && this.room == room
    {
      data := [];
      this.room := room;
    }

    method Write(b: seq<byte>) returns (ok: bool)
      modifies this
      ensures ok == (old(room).None? || |b| <= old(room).value)
      ensures data == old(data) + (if ok then b else b[..old(room).value])
      ensures room == if old(room).None? then None else Some(if ok then old(room).value - |b| else 0)
    {
      ok := room.None? || |b| <= room.value;
      if !ok {
        data, room := data + b[..room.value], Some(0);
        return;
      }
      data := data + b;
      if room.Some? {
        room := Some(room.value - |b|);
      }
    }
  }

  class Encoder {
    const w: ByteWriter
    /** No separator is the same as an empty one. */
    const separator: Option<seq<byte>>
    var err: Option<EncodeError>

    constructor (w: ByteWriter, separator: Option<seq<byte>>)
      ensures this.w == w && this.separator == separator && err == None
    {
      this.w, this.separator, this.err := w, separator, None;
    }

    function State(): EncState
      reads this, w
    {
      EncState(w.data, w.room, err)
    }

    method WriteBytes(b: seq<byte>)
      modifies this, w
      ensures State() == WriteOnce(old(State()), b)
    {
      if err.Some? {
        return;
      }
      var ok := w.Write(b);
      if !ok {
        err := Some(WriteFailed);
      }
    }

    method Encode(msg: seq<byte>) returns (error: Option<EncodeError>)
      modifies this, w
      ensures State() == EncodeOne(separator.GetOr([]), old(State()), msg)
      ensures error == err
    {
      if err.Some? {
        return err;
      }
      if |msg| > 0xFF {
        err := Some(TooLong);
        return err;
      }
      WriteNothing(State());
      if separator.Some? {
        WriteBytes(separator.value);
      }
      WriteBytes([|msg|]);
      WriteBytes(msg);
      return err;
    }

    lemma WriteNothing(s: EncState)
      ensures WriteOnce(s, []) == s
    {
      assert s.out + [] == s.out;
    }
  }

  class ByteReader {
    var rest: seq<byte>

    constructor (b: seq<byte>)
      ensures rest == b
    {
      rest := b;
    }

    /** Fills the first `n` bytes of a buffer; with fewer bytes left it takes them all and fails. */
    method ReadFull(buf: array<byte>, n: nat) returns (err: Option<DecodeError>)
      requires n <= buf.Length
      modifies this, buf
      ensures err == if |old(rest)| >= n then None else Some(if old(rest) == [] then Eof else UnexpectedEof)
      ensures err.None? ==> buf[..n] == old(rest)[..n] && buf[n..] == old(buf[n..]) && rest == old(rest)[n..]
      ensures err.Some? ==> rest == []
    {
      var available := if |rest| < n then rest else rest[..n];
      var k := CopyAt(buf, 0, available);
      assert buf[..k] == available;
      if |available| < n {
        err := Some(if rest == [] then Eof else UnexpectedEof);
        rest := [];
      } else {
        err := None;
        rest := rest[n..];
      }
    }
  }

  class Decoder {
    const r: ByteReader
    const separator: seq<byte>
    const prefixBuf: array<byte>
    var err: Option<DecodeError>
    var pendingPrefix: bool
    var pendingLen: nat

    ghost predicate Valid()
      reads this
    {
      prefixBuf.Length == |separator| + 1 && (!pendingPrefix ==> pendingLen == 0)
    }

    constructor (r: ByteReader, separator: Option<seq<byte>>)
      ensures Valid() && this.r == r && this.separator == separator.GetOr([])
      ensures fresh(prefixBuf) && State() == DecState(r.rest, None, None)
    {
      this.r, this.separator := r, separator.GetOr([]);
      this.prefixBuf := new byte[|separator.GetOr([])| + 1](_ => 0);
      err, pendingPrefix, pendingLen := None, false, 0;
    }

    function State(): DecState
      reads this, r
    {
      DecState(r.rest, if pendingPrefix then Some(pendingLen) else None, err)
    }

    method ReadMessagePrefix() returns (error: Option<DecodeError>)
      requires Valid()
      modifies this, r, prefixBuf
      ensures Valid() && State() == ReadPrefix(separator, old(State())) && error == err
    {
      if err.Some? {
        return err;
      }
      if pendingPrefix {
        return None;
      }
      ghost var b := r.rest;
      error := r.ReadFull(prefixBuf, prefixBuf.Length);
      if error.Some? {
        err := error;
        return;
      }
      assert prefixBuf[..] == prefixBuf[..prefixBuf.Length] == b[..|separator| + 1];
      assert prefixBuf[..|separator|] == b[..|separator|];
      if |separator| > 0 {
        if prefixBuf[..|separator|] != separator {
          err := Some(SeparatorMismatch);
          return err;
        }
      }
      pendingPrefix, pendingLen := true, prefixBuf[|separator|];
      return err;
    }

    /** Reads the next message into the slice `buf[..len]`, whose capacity is that of `buf`. */
    method DecodeIntoBuffer(buf: array<byte>, len: nat) returns (error: Option<DecodeError>, crashed: bool)
      requires Valid() && buf != prefixBuf && len <= buf.Length
      modifies this, r, prefixBuf, buf
      ensures Valid() && State() == DecodeInto(separator, old(State()), len, buf.Length).state
      ensures match DecodeInto(separator, old(State()), len, buf.Length).result
              case Failed(e) => error == Some(e) && !crashed
              case Message(m) =>
                && error == None && !crashed
                && len <= |m| <= buf.Length && buf[..|m|] == m && buf[|m|..] == old(buf[|m|..])
              case Crashed => crashed
              case Length(_) => false
    {
      crashed := false;
      error := ReadMessagePrefix();
      if error.Some? {
        return;
      }
      if pendingLen < len {
        err := Some(BufferRejected);
        return err, false;
      }
      if pendingLen > buf.Length {
        return None, true;
      }
      error := r.ReadFull(buf, pendingLen);
      if error.Some? {
        error := Some(UnexpectedEof);
        err := error;
        return;
      }
      pendingPrefix, pendingLen := false, 0;
    }

    method DecodeMessage() returns (result: Result)
      requires Valid()
      modifies this, r, prefixBuf
      ensures Valid() && Step(State(), result) == Decode(separator, old(State()))
    {
      var error := ReadMessagePrefix();
      if error.Some? {
        return Failed(error.value);
      }
      var buf := new byte[pendingLen](_ => 0);
      var crashed: bool;
      error, crashed := DecodeIntoBuffer(buf, buf.Length);
      if error.Some? {
        return Failed(error.value);
      }
      assert buf[..buf.Length] == buf[..];
      return Message(buf[..]);
    }

    method NextLength() returns (result: Result)
      requires Valid()
      modifies this, r, prefixBuf
      ensures Valid() && Step(State(), result) == NextLen(separator, old(State()))
    {
      if err.Some? {
        return Failed(err.value);
      }
      if !pendingPrefix {
        var error := ReadMessagePrefix();
        if error.Some? {
          return Failed(error.value);
        }
      }
      return Length(pendingLen);
    }
  }
}
