/** Authenticator data (section 6.1 of WebAuthn Level 2) and the fixed-width coordinates of a public key. */
module AuthData {
  import opened Bytes

  type Hash = h: seq<byte> | |h| == 32 witness Zeros(32)

  type Aaguid = a: seq<byte> | |a| == 16 witness Zeros(16)

  const FLAG_USER_PRESENT: byte := 0x01
  const FLAG_USER_VERIFIED: byte := 0x04
  const FLAG_ATTESTED: byte := 0x40
  const FLAG_EXTENSIONS: byte := 0x80

  datatype AttestedCredential = AttestedCredential(aaguid: Aaguid, credentialId: seq<byte>, publicKey: seq<byte>)

  datatype AuthenticatorData = AuthenticatorData(
    rpIdHash: Hash,
    flags: byte,
    signCount: uint32,
    attested: Option<AttestedCredential>,
    extensions: seq<byte>)

  predicate HasAttested(flags: byte) {
    (flags / FLAG_ATTESTED) % 2 == 1
  }

  predicate HasExtensions(flags: byte) {
    flags >= FLAG_EXTENSIONS
  }

  function AttestedBytes(a: AttestedCredential): seq<byte> {
    a.aaguid + ToBe(|a.credentialId|, 2) + a.credentialId + a.publicKey
  }

  function HeadBytes(ad: AuthenticatorData): (s: seq<byte>)
    ensures |s| == 37
  {
    ad.rpIdHash + [ad.flags] + ToBe(ad.signCount, 4)
  }

  function Marshalled(ad: AuthenticatorData): seq<byte> {
    HeadBytes(ad)
    + (if HasAttested(ad.flags) && ad.attested.Some? then AttestedBytes(ad.attested.value) else [])
    + (if HasExtensions(ad.flags) then ad.extensions else [])
  }

  class Buffer {
    var bytes: seq<byte>

    constructor ()
      ensures bytes == []
    {
      bytes := [];
    }

    method Write(b: seq<byte>)
      modifies this
      ensures bytes == old(bytes) + b
    {
      bytes := bytes + b;
    }
  }

  /** Writes the fields one after the other into a buffer. */
  method Marshal(ad: AuthenticatorData) returns (r: seq<byte>)
    ensures r == Marshalled(ad)
  {
    hide ToBe, HasAttested, HasExtensions;
    var buf := new Buffer();
    buf.Write(ad.rpIdHash);
    buf.Write([ad.flags]);
    buf.Write(ToBe(ad.signCount, 4));
    assert buf.bytes == HeadBytes(ad);
    if HasAttested(ad.flags) && ad.attested.Some? {
      var acd := ad.attested.value;
      buf.Write(acd.aaguid);
      buf.Write(ToBe(|acd.credentialId|, 2));
      buf.Write(acd.credentialId);
      buf.Write(acd.publicKey);
      assert buf.bytes == HeadBytes(ad) + AttestedBytes(acd);
    }
    hide HeadBytes, AttestedBytes;
    if HasExtensions(ad.flags) && |ad.extensions| > 0 {
      buf.Write(ad.extensions);
    }
    r := buf.bytes;
  }

  // ---------------------------------------------------------------- reading the layout back

  /** The layout of section 6.1, for data without extensions: the public key takes all that is left. */
  function Parse(b: seq<byte>): Option<AuthenticatorData> {
    if |b| < 37 || HasExtensions(b[32]) then None
    else
      ReadWidth(b[33..37]);
      var head := AuthenticatorData(b[..32], b[32], FromBe(b[33..37]), None, []);
      if !HasAttested(b[32]) then if |b| == 37 then Some(head) else None
      else if |b| < 55 then None
      else
        var len := FromBe(b[53..55]);
        if |b| < 55 + len then None
        else Some(head.(attested := Some(AttestedCredential(b[37..53], b[55..55 + len], b[55 + len..]))))
  }

  lemma ReadWidth(s: seq<byte>)
    ensures FromBe(s) < Pow256(|s|)
    ensures |s| == 4 ==> FromBe(s) < 0x1_0000_0000
  {
    ToBeFromBe(s);
    PowersOf256();
  }

  lemma MarshalledParts(ad: AuthenticatorData)
    requires !HasExtensions(ad.flags) && (HasAttested(ad.flags) <==> ad.attested.Some?)
    ensures Marshalled(ad) == HeadBytes(ad) + if ad.attested.Some? then AttestedBytes(ad.attested.value) else []
  {
    hide HeadBytes, AttestedBytes;
  }

  lemma HeadFields(ad: AuthenticatorData, tail: seq<byte>)
    ensures var b := HeadBytes(ad) + tail;
            b[..32] == ad.rpIdHash && b[32] == ad.flags && b[33..37] == ToBe(ad.signCount, 4) && b[37..] == tail
  {
    hide ToBe;
  }

  lemma AttestedFields(a: AttestedCredential)
    ensures var b := AttestedBytes(a);
            && |b| == 18 + |a.credentialId| + |a.publicKey|
            && b[..16] == a.aaguid && b[16..18] == ToBe(|a.credentialId|, 2) && b[18..] == a.credentialId + a.publicKey
  {
    hide ToBe;
    var b := AttestedBytes(a);
    assert b == a.aaguid + (ToBe(|a.credentialId|, 2) + (a.credentialId + a.publicKey));
  }

  lemma MarshalledFields(ad: AuthenticatorData)
    requires !HasExtensions(ad.flags) && (HasAttested(ad.flags) <==> ad.attested.Some?)
    ensures var b := Marshalled(ad);
            && |b| >= 37
            && b[..32] == ad.rpIdHash && b[32] == ad.flags && b[33..37] == ToBe(ad.signCount, 4)
            && (ad.attested.None? ==> |b| == 37)
            && (ad.attested.Some? ==>
                  var a := ad.attested.value;
                  && |b| == 55 + |a.credentialId| + |a.publicKey|
                  && b[37..53] == a.aaguid && b[53..55] == ToBe(|a.credentialId|, 2)
                  && b[55..] == a.credentialId + a.publicKey)
  {
    hide ToBe, AttestedBytes, HeadBytes, Marshalled, HasAttested, HasExtensions;
    var b := Marshalled(ad);
    MarshalledParts(ad);
    HeadFields(ad, b[37..]);
    if ad.attested.Some? {
      var a := ad.attested.value;
      AttestedFields(a);
      assert b[37..] == AttestedBytes(a);
      assert b[37..53] == b[37..][..16] && b[53..55] == b[37..][16..18] && b[55..] == b[37..][18..];
    }
  }

  /** The optional parts are there exactly when their flag is set and there is something to write. */
  lemma OptionalParts(ad: AuthenticatorData)
    ensures var b := Marshalled(ad);
            var attested :=
              if (ad.flags / 0x40) % 2 == 1 && ad.attested.Some? then AttestedBytes(ad.attested.value) else [];
            var extensions := if ad.flags / 0x80 == 1 then ad.extensions else [];
            && |b| == 37 + |attested| + |extensions|
            && b[37..37 + |attested|] == attested && b[37 + |attested|..] == extensions
  {
    hide AttestedBytes, HeadBytes;
  }

  /** What is marshalled can be read back, exactly when the identifier's length fits its two bytes. */
  lemma MarshalRoundTrip(ad: AuthenticatorData)
    requires !HasExtensions(ad.flags) && (HasAttested(ad.flags) <==> ad.attested.Some?)
    ensures Parse(Marshalled(ad)) == Some(ad.(extensions := [])) <==>
            (ad.attested.Some? ==> |ad.attested.value.credentialId| <= 0xFFFF)
  {
    hide Marshalled, ToBe, FromBe, HasAttested, HasExtensions;
    var b := Marshalled(ad);
    MarshalledFields(ad);
    FromBeToBe(ad.signCount, 4);
    PowersOf256();
    if ad.attested.Some? {
      var a := ad.attested.value;
      FromBeToBe(|a.credentialId|, 2);
      var len := FromBe(b[53..55]);
      assert len == |a.credentialId| % 0x1_0000;
      if len == |a.credentialId| {
        assert b[55..55 + len] == b[55..][..len] == a.credentialId;
        assert b[55 + len..] == b[55..][len..] == a.publicKey;
      }
    }
  }

  // ---------------------------------------------------------------- coordinates

  /** The shortest big-endian bytes of a number. */
  function MinBytes(n: nat): seq<byte> {
    if n == 0 then [] else MinBytes(n / 0x100) + [n % 0x100]
  }

  method PadTo32(b: seq<byte>) returns (r: seq<byte>)
    ensures r == if |b| >= 32 then b[..32] else Zeros(32 - |b|) + b
  {
    if |b| >= 32 {
      return b[..32];
    }
    var padded := new byte[32](_ => 0);
    var n := CopyAt(padded, 32 - |b|, b);
    r := padded[..];
  }

  method BigIntToBytes(n: nat) returns (r: seq<byte>)
    ensures r == StoredCoordinate(n)
  {
    var b := MinBytes(n);
    if |b| < 32 {
      var padded := new byte[32](_ => 0);
      var k := CopyAt(padded, 32 - |b|, b);
      return padded[..];
    }
    return b;
  }

  /** The bytes of a coordinate in the public key sent to the relying party. */
  function SentCoordinate(n: nat): seq<byte> {
    var b := MinBytes(n);
    if |b| >= 32 then b[..32] else Zeros(32 - |b|) + b
  }

  /** The bytes of a coordinate in the stored credential. */
  function StoredCoordinate(n: nat): seq<byte> {
    var b := MinBytes(n);
    if |b| < 32 then Zeros(32 - |b|) + b else b
  }

  lemma {:induction false} MinBytesValue(n: nat)
    ensures FromBe(MinBytes(n)) == n
    ensures MinBytes(n) != [] ==> MinBytes(n)[0] != 0
  {
    if n > 0 {
      MinBytesValue(n / 0x100);
      var s := MinBytes(n);
      assert s[..|s| - 1] == MinBytes(n / 0x100);
    }
  }

  lemma {:induction false} MinBytesLength(n: nat, w: nat)
    ensures |MinBytes(n)| <= w <==> n < Pow256(w)
    decreases w
  {
    if w > 0 && n > 0 {
      MinBytesLength(n / 0x100, w - 1);
    }
  }

  /** The two paddings agree, on 32 bytes that decode to the number, exactly for numbers below 2^256. */
  lemma CoordinatesAgree(n: nat)
    ensures SentCoordinate(n) == StoredCoordinate(n) <==> n < Pow256(32)
    ensures n < Pow256(32) ==> |StoredCoordinate(n)| == 32 && FromBe(StoredCoordinate(n)) == n
    ensures |SentCoordinate(n)| == 32
  {
    hide MinBytes, FromBe, Pow256;
    var b := MinBytes(n);
    MinBytesLength(n, 32);
    MinBytesValue(n);
    if |b| < 32 {
      LeadingZeros(32 - |b|, b);
    } else if |b| == 32 {
      assert b[..32] == b;
    }
  }

  /** The stored bytes are the number, whatever its size; those sent are the 32 leading bytes of a larger one. */
  lemma CoordinateValue(n: nat)
    ensures FromBe(StoredCoordinate(n)) == n
    ensures n < Pow256(32) ==> |StoredCoordinate(n)| == 32
    ensures n >= Pow256(32) ==> |StoredCoordinate(n)| > 32 && SentCoordinate(n) == StoredCoordinate(n)[..32]
  {
    hide MinBytes, FromBe, Pow256;
    var b := MinBytes(n);
    MinBytesLength(n, 32);
    MinBytesValue(n);
    if |b| < 32 {
      LeadingZeros(32 - |b|, b);
    }
  }
}
