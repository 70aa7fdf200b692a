/** The CTAP2 commands as functions: what each answers, and what it does to the store and to the assertion session. */
module Ctap2 {
  import opened Bytes
  import opened Credentials
  import opened AuthData
  import Storage

  const STATUS_INVALID_COMMAND: byte := 0x01
  const STATUS_INVALID_PARAMETER: byte := 0x02
  const STATUS_INVALID_CBOR: byte := 0x12
  const STATUS_UNSUPPORTED_EXTENSION: byte := 0x16
  const STATUS_CREDENTIAL_EXCLUDED: byte := 0x19
  const STATUS_UNSUPPORTED_ALGORITHM: byte := 0x26
  const STATUS_OPERATION_DENIED: byte := 0x27
  const STATUS_NO_CREDENTIALS: byte := 0x2E
  const STATUS_USER_ACTION_TIMEOUT: byte := 0x2F
  const STATUS_NOT_ALLOWED: byte := 0x30
  const STATUS_OTHER: byte := 0x7F

  const PUBLIC_KEY: string := "public-key"
  const ES256: int := -7

  /** The configuration of a handler; the two hash functions stand for SHA-256 of a relying-party identifier and
      of a byte string, and `cose` for the CBOR encoding of a public key with the given coordinates, which may fail. */
  datatype Config = Config(allowed: set<string>, aaguid: Aaguid, hashRp: string -> Hash, sha256: Blob -> Hash,
                           cose: (Blob, Blob) -> Option<Blob>)

  /** A signature, as the key, the relying party and the digest that it was made for. */
  datatype Signature = Signature(keyHandle: Blob, rpIdHash: Hash, digest: Hash)

  datatype User = User(id: Blob, name: string, displayName: string)

  datatype Response =
    | Status(code: byte)
    | Info
    | Attestation(authData: Blob, signature: Signature)
    | Assertion(credentialId: Blob, authData: Blob, signature: Signature, user: Option<User>, count: nat)

  /** What the user is asked to confirm. */
  datatype Ask = Ask(challenge: Hash, application: Hash)

  /** How a presence check ends: it cannot start, a result arrives (in time or after cancellation), or none does. */
  datatype Presence = Busy | Result(ok: bool, inTime: bool) | NoResult

  /** What the signer does for one response: its counter, and whether signing and encoding work. */
  datatype Signing = Signing(counter: uint32, works: bool)

  datatype MakeRequest = MakeRequest(
    rpId: string, rpName: string, user: User, clientDataHash: Blob, params: seq<(string, int)>, excludeList: seq<Blob>,
    hmacSecret: bool, residentKey: bool)

  /** The key made by the signer: its handle and the coordinates of its public point. */
  datatype NewKey = NewKey(handle: Blob, x: nat, y: nat)

  /** The surroundings of a registration: the key handles the signer accepts, the user, the new key, the clock, and
      whether the store can be written. */
  datatype MakeWorld = MakeWorld(
    usable: set<Blob>, presence: Presence, key: Option<NewKey>, now: int, persists: bool, signing: Signing)

  datatype AssertRequest = AssertRequest(rpId: string, clientDataHash: Blob, allowList: seq<Blob>, hmacSecret: bool)

  datatype AssertWorld = AssertWorld(usable: set<Blob>, presence: Presence, signing: Signing)

  /** A command; a request is `None` when it cannot be decoded. */
  datatype Command =
    | GetInfo
    | MakeCredential(makeRequest: Option<MakeRequest>, makeWorld: MakeWorld)
    | GetAssertion(assertRequest: Option<AssertRequest>, assertWorld: AssertWorld)
    | GetNextAssertion(signing: Signing)
    | Unknown

  /** What is kept between a GetAssertion with several matches and the GetNextAssertions that follow. */
  datatype Session = Session(credentials: seq<Credential>, index: nat, rpIdHash: Hash, clientDataHash: Blob)

  datatype State = State(store: Option<Storage.Store>, session: Option<Session>)

  /** The new state, the answer, and what the user was asked on the way. */
  datatype Outcome = Outcome(state: State, response: Response, asked: seq<Ask>)

  // ---------------------------------------------------------------- responses

  function AssertionData(rpIdHash: Hash, counter: uint32): Blob {
    Marshalled(AuthenticatorData(rpIdHash, FLAG_USER_PRESENT + FLAG_USER_VERIFIED, counter, None, []))
  }

  function Assert(cfg: Config, keyHandle: Blob, user: Option<User>, rpIdHash: Hash, clientDataHash: Blob, count: nat,
                  w: Signing): Response {
    var authData := AssertionData(rpIdHash, w.counter);
    if w.works
    then Assertion(keyHandle, authData, Signature(keyHandle, rpIdHash, cfg.sha256(authData + clientDataHash)), user, count)
    else Status(STATUS_OTHER)
  }

  function AssertResident(cfg: Config, c: Credential, rpIdHash: Hash, clientDataHash: Blob, total: nat, first: bool,
                          w: Signing): Response {
    Assert(cfg, c.credentialId, Some(User(c.userId, c.userName, c.userDisplayName)), rpIdHash, clientDataHash,
           if first && total > 1 then total else 0, w)
  }

  // ---------------------------------------------------------------- GetAssertion

  function FirstUsable(ids: seq<Blob>, usable: set<Blob>): Option<Blob> {
    if ids == [] then None
    else if ids[0] in usable then Some(ids[0])
    else FirstUsable(ids[1..], usable)
  }

  /** The credentials the signer still accepts, in order. */
  function Valid(cs: seq<Credential>, usable: set<Blob>): seq<Credential> {
    if cs == [] then []
    else Valid(cs[..|cs| - 1], usable) + if cs[|cs| - 1].credentialId in usable then [cs[|cs| - 1]] else []
  }

  /** The status with which a presence check ends a command, or none when the user was confirmed in time. */
  function PresenceStatus(p: Presence): Option<byte> {
    match p
    case Busy => Some(STATUS_OPERATION_DENIED)
    case Result(_, false) => Some(STATUS_USER_ACTION_TIMEOUT)
    case Result(ok, true) => if ok then None else Some(STATUS_OPERATION_DENIED)
    case NoResult => Some(STATUS_USER_ACTION_TIMEOUT)
  }

  /** The discoverable credentials a request matches. */
  function Matches(s: State, req: AssertRequest, w: AssertWorld): seq<Credential> {
    if s.store.None? then [] else Valid(OfRp(s.store.value.list, req.rpId), w.usable)
  }

  function Asserts(cfg: Config, s: State, req: AssertRequest, w: AssertWorld): Outcome {
    if req.rpId !in cfg.allowed then Outcome(s, Status(STATUS_OPERATION_DENIED), [])
    else if req.hmacSecret then Outcome(s, Status(STATUS_UNSUPPORTED_EXTENSION), [])
    else AssertsFresh(cfg, s.(session := None), req, w)
  }

  /** The part of GetAssertion after the earlier session is gone. */
  function AssertsFresh(cfg: Config, s: State, req: AssertRequest, w: AssertWorld): Outcome {
    var hash := cfg.hashRp(req.rpId);
    var listed := FirstUsable(req.allowList, w.usable);
    var found := Matches(s, req, w);
    if |req.clientDataHash| != 32 then Outcome(s, Status(STATUS_INVALID_PARAMETER), [])
    else if (if req.allowList != [] then listed.None? else found == []) then Outcome(s, Status(STATUS_NO_CREDENTIALS), [])
    else
      var asked := [Ask(req.clientDataHash, hash)];
      if PresenceStatus(w.presence).Some? then Outcome(s, Status(PresenceStatus(w.presence).value), asked)
      else if req.allowList != []
      then Outcome(s, Assert(cfg, listed.value, None, hash, req.clientDataHash, 0, w.signing), asked)
      else
        var session := if |found| > 1 then Some(Session(found, 0, hash, req.clientDataHash)) else None;
        Outcome(s.(session := session),
                AssertResident(cfg, found[0], hash, req.clientDataHash, |found|, true, w.signing), asked)
  }

  // ---------------------------------------------------------------- GetNextAssertion

  function AssertsNext(cfg: Config, s: State, w: Signing): Outcome {
    if s.session.None? then Outcome(s, Status(STATUS_NOT_ALLOWED), [])
    else
      var session := s.session.value.(index := s.session.value.index + 1);
      if session.index >= |session.credentials| then Outcome(s.(session := None), Status(STATUS_NOT_ALLOWED), [])
      else Outcome(s.(session := Some(session)),
                   AssertResident(cfg, session.credentials[session.index], session.rpIdHash, session.clientDataHash,
                                  |session.credentials|, false, w), [])
  }

  // ---------------------------------------------------------------- MakeCredential

  predicate WantsES256(params: seq<(string, int)>) {
    (PUBLIC_KEY, ES256) in params
  }

  /** Why a registration stops before the user is asked, if it does. */
  function MakePrecheck(cfg: Config, req: MakeRequest, w: MakeWorld): Option<byte> {
    if req.rpId !in cfg.allowed then Some(STATUS_OPERATION_DENIED)
    else if req.hmacSecret then Some(STATUS_UNSUPPORTED_EXTENSION)
    else if |req.clientDataHash| != 32 then Some(STATUS_INVALID_PARAMETER)
    else if !WantsES256(req.params) then Some(STATUS_UNSUPPORTED_ALGORITHM)
    else if FirstUsable(req.excludeList, w.usable).Some? then Some(STATUS_CREDENTIAL_EXCLUDED)
    else None
  }

  /** Why a registration stops before a key is made, if it does. */
  function MakeRefusal(cfg: Config, req: MakeRequest, w: MakeWorld): Option<byte> {
    if MakePrecheck(cfg, req, w).Some? then MakePrecheck(cfg, req, w)
    else if PresenceStatus(w.presence).Some? then PresenceStatus(w.presence)
    else if w.key.None? then Some(STATUS_OTHER)
    else None
  }

  function NewCredential(req: MakeRequest, key: NewKey, now: int): Credential {
    Credential(req.rpId, req.rpName, req.user.id, req.user.name, req.user.displayName, key.handle,
               StoredCoordinate(key.x), StoredCoordinate(key.y), now)
  }

  /** The credential a command hands to the store, if it gets that far. */
  function Saved(cfg: Config, cmd: Command): Option<Credential> {
    if cmd.MakeCredential? && cmd.makeRequest.Some? && cmd.makeRequest.value.residentKey
       && MakeRefusal(cfg, cmd.makeRequest.value, cmd.makeWorld).None?
    then Some(NewCredential(cmd.makeRequest.value, cmd.makeWorld.key.value, cmd.makeWorld.now))
    else None
  }

  /** The public key sent to the relying party: fixed-width coordinates, encoded. */
  function CoseKey(cfg: Config, key: NewKey): Option<Blob> {
    cfg.cose(SentCoordinate(key.x), SentCoordinate(key.y))
  }

  function Attest(cfg: Config, req: MakeRequest, key: NewKey, w: Signing): Response {
    var coseKey := CoseKey(cfg, key);
    if coseKey.None? then Status(STATUS_OTHER)
    else
      var hash := cfg.hashRp(req.rpId);
      var authData := Marshalled(AuthenticatorData(
        hash, FLAG_USER_PRESENT + FLAG_USER_VERIFIED + FLAG_ATTESTED, w.counter,
        Some(AttestedCredential(cfg.aaguid, key.handle, coseKey.value)), []));
      if w.works then Attestation(authData, Signature(key.handle, hash, cfg.sha256(authData + req.clientDataHash)))
      else Status(STATUS_OTHER)
  }

  function Makes(cfg: Config, s: State, req: MakeRequest, w: MakeWorld): Outcome {
    var refusal := MakeRefusal(cfg, req, w);
    var asked := if MakePrecheck(cfg, req, w).None? then [Ask(req.clientDataHash, cfg.hashRp(req.rpId))] else [];
    if refusal.Some? then Outcome(s, Status(refusal.value), asked)
    else
      var saved := Saved(cfg, MakeCredential(Some(req), w));
      var store := if saved.Some? && s.store.Some?
        then Some(Storage.Apply(s.store.value, Storage.SaveOp(saved.value, w.persists))) else s.store;
      Outcome(s.(store := store), Attest(cfg, req, w.key.value, w.signing), asked)
  }

  // ---------------------------------------------------------------- the dispatcher

  function Exec(cfg: Config, s: State, cmd: Command): Outcome {
    match cmd
    case GetInfo => Outcome(s, Info, [])
    case MakeCredential(None, _) => Outcome(s, Status(STATUS_INVALID_CBOR), [])
    case MakeCredential(Some(req), w) => Makes(cfg, s, req, w)
    case GetAssertion(None, _) => Outcome(s, Status(STATUS_INVALID_CBOR), [])
    case GetAssertion(Some(req), w) => Asserts(cfg, s, req, w)
    case GetNextAssertion(w) => AssertsNext(cfg, s, w)
    case Unknown => Outcome(s, Status(STATUS_INVALID_COMMAND), [])
  }

  function Run(cfg: Config, s: State, cmds: seq<Command>): State {
    if cmds == [] then s else Exec(cfg, Run(cfg, s, cmds[..|cmds| - 1]), cmds[|cmds| - 1]).state
  }

  /** The answer to command `i` of a run. */
  function Answer(cfg: Config, s: State, cmds: seq<Command>, i: nat): Response
    requires i < |cmds|
  {
    Exec(cfg, Run(cfg, s, cmds[..i]), cmds[i]).response
  }

  /** What the user was asked during command `i` of a run. */
  function Asked(cfg: Config, s: State, cmds: seq<Command>, i: nat): seq<Ask>
    requires i < |cmds|
  {
    Exec(cfg, Run(cfg, s, cmds[..i]), cmds[i]).asked
  }

  lemma RunLast(cfg: Config, s: State, cmds: seq<Command>, i: nat)
    requires i < |cmds|
    ensures Run(cfg, s, cmds[..i + 1]) == Exec(cfg, Run(cfg, s, cmds[..i]), cmds[i]).state
  {
    assert cmds[..i + 1][..i] == cmds[..i];
  }
}
