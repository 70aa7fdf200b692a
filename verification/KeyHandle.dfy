/** The key handle of the TPM backend: three encoded fields, read back by three decodes and a clean end. */
module KeyHandle {
  import opened Bytes
  import opened Lencode
  import opened Codec

  /** "TPM" */
  const SEPARATOR: seq<byte> := [0x54, 0x50, 0x4D]

  datatype Fields = Fields(private: seq<byte>, public: seq<byte>, seed: seq<byte>)
  {
    function List(): seq<seq<byte>> {
      [private, public, seed]
    }
  }

  /** What the three `Encode` calls leave in the buffer; their errors are ignored. */
  function Built(f: Fields): seq<byte> {
    Stream(SEPARATOR, f.List()[..ShortPrefix(f.List())])
  }

  method BuildHandle(f: Fields) returns (handle: seq<byte>)
    ensures handle == Built(f)
  {
    var out := new ByteWriter(None);
    var enc := new Encoder(out, Some(SEPARATOR));
    ghost var start := enc.State();
    var err := enc.Encode(f.private);
    err := enc.Encode(f.public);
    err := enc.Encode(f.seed);
    handle := out.data;
    ThreeSteps(f, start);
    EncodeWritesRecords(SEPARATOR, [], f.List());
    assert [] + Built(f) == Built(f);
  }

  lemma ThreeSteps(f: Fields, s: EncState)
    ensures EncodeRun(SEPARATOR, s, f.List()) ==
            EncodeOne(SEPARATOR, EncodeOne(SEPARATOR, EncodeOne(SEPARATOR, s, f.private), f.public), f.seed)
  {
    hide EncodeOne;
    var s1 := EncodeOne(SEPARATOR, s, f.private);
    var s2 := EncodeOne(SEPARATOR, s1, f.public);
    assert f.List()[1..] == [f.public, f.seed] && [f.public, f.seed][1..] == [f.seed] && [f.seed][1..] == [];
    assert EncodeRun(SEPARATOR, s, f.List()) == EncodeRun(SEPARATOR, s1, [f.public, f.seed]);
    assert EncodeRun(SEPARATOR, s1, [f.public, f.seed]) == EncodeRun(SEPARATOR, s2, [f.seed]);
  }

  /** The fields of a handle that passes the check of `SignASN1`. */
  function Accepted(handle: seq<byte>): Option<Fields> {
    var reading := DecodeAll(SEPARATOR, handle);
    if |reading.messages| == 3 && reading.error == Eof
    then Some(Fields(reading.messages[0], reading.messages[1], reading.messages[2])) else None
  }

  method ParseHandle(handle: seq<byte>) returns (f: Option<Fields>)
    ensures f == Accepted(handle)
  {
    hide Decode, DecodeAll;
    var reader := new ByteReader(handle);
    var dec := new Decoder(reader, Some(SEPARATOR));
    UnfoldReading(reader.rest);
    var private := dec.DecodeMessage();
    if private.Failed? {
      return None;
    }
    UnfoldReading(reader.rest);
    var public := dec.DecodeMessage();
    if public.Failed? {
      return None;
    }
    UnfoldReading(reader.rest);
    var seed := dec.DecodeMessage();
    if seed.Failed? {
      return None;
    }
    UnfoldReading(reader.rest);
    var end := dec.DecodeMessage();
    if end != Failed(Eof) {
      return None;
    }
    return Some(Fields(private.message, public.message, seed.message));
  }

  lemma UnfoldReading(b: seq<byte>)
    ensures var step := Decode(SEPARATOR, DecState(b, None, None));
            match step.result
            case Message(m) =>
              && step.state == DecState(step.state.rest, None, None)
              && DecodeAll(SEPARATOR, b).messages == [m] + DecodeAll(SEPARATOR, step.state.rest).messages
              && DecodeAll(SEPARATOR, b).error == DecodeAll(SEPARATOR, step.state.rest).error
            case Failed(e) => DecodeAll(SEPARATOR, b) == Reading([], e)
            case _ => false
  {
    DecodeReadsRecord(SEPARATOR, b);
  }

  /** A byte string passes the check exactly when it is the encoding of a triple, and then of one triple only. */
  lemma AcceptedIffEncoding(handle: seq<byte>, f: Fields)
    ensures Accepted(handle) == Some(f) <==>
            (forall field <- f.List() :: |field| <= 255) && handle == Stream([0x54, 0x50, 0x4D], f.List())
  {
    ReadsIffStream(SEPARATOR, handle, f.List());
    hide DecodeAll;
    var messages := DecodeAll(SEPARATOR, handle).messages;
    if |messages| == 3 {
      assert messages == [messages[0], messages[1], messages[2]];
    }
  }

  /** A built handle is accepted, and then with its own fields, exactly when no field is longer than 255 bytes. */
  lemma BuiltIsAccepted(f: Fields)
    ensures AllShort(f.List()) ==> Accepted(Built(f)) == Some(f)
    ensures !AllShort(f.List()) ==> Accepted(Built(f)) == None
  {
    var n := ShortPrefix(f.List());
    var written := f.List()[..n];
    ReadsIffStream(SEPARATOR, Built(f), written);
    if AllShort(f.List()) {
      assert written == f.List();
    } else {
      assert n == 3 ==> written == f.List();
    }
  }
}
