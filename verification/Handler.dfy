/** The handler object: it carries the store and the assertion session between commands. */
module Handler {
  import opened Bytes
  import opened Credentials
  import opened AuthData
  import opened Ctap2
  import Disk
  import Storage

  class AssertionState {
    var credentials: seq<Credential>
    var currentIndex: nat
    var rpIDHash: Hash
    var clientDataHash: Blob

    constructor (credentials: seq<Credential>, rpIDHash: Hash, clientDataHash: Blob)
      ensures Value() == Session(credentials, 0, rpIDHash, clientDataHash)
    {
      this.credentials, this.currentIndex := credentials, 0;
      this.rpIDHash, this.clientDataHash := rpIDHash, clientDataHash;
    }

    function Value(): Session
      reads this
    {
      Session(credentials, currentIndex, rpIDHash, clientDataHash)
    }
  }

  class Handler {
    const cfg: Config
    const storage: Storage.CredentialStorage?
    var assertionState: AssertionState?
    /** Every pair handed to the presence check, in order. */
    var asked: seq<Ask>

    ghost function Repr(): set<object>
      reads this
    {
      {this} + (if storage != null then {storage, storage.dir} else {})
      + (if assertionState != null then {assertionState} else {})
    }

    ghost predicate Valid()
      reads Repr()
    {
      storage != null ==> storage.Valid()
    }

    function Store(): Option<Storage.Store>
      reads if storage != null then {storage, storage.dir} else {}
    {
      if storage == null then None else Some(storage.State())
    }

    function State(): State
      reads Repr()
    {
      Ctap2.State(Store(), if assertionState == null then None else Some(assertionState.Value()))
    }

    constructor (storage: Storage.CredentialStorage?, allowedRPIDs: seq<string>, aaguid: Aaguid,
                 hashRp: string -> Hash, sha256: Blob -> Hash, cose: (Blob, Blob) -> Option<Blob>)
      requires storage != null ==> storage.Valid()
      ensures Valid() && this.storage == storage && assertionState == null && asked == []
      ensures cfg == Config((set r | r in allowedRPIDs), aaguid, hashRp, sha256, cose)
    {
      var allowed: set<string> := {};
      var i := 0;
      while i < |allowedRPIDs|
        invariant 0 <= i <= |allowedRPIDs|
        invariant allowed == set r | r in allowedRPIDs[..i]
      {
        allowed := allowed + {allowedRPIDs[i]};
        i := i + 1;
      }
      assert allowedRPIDs[..i] == allowedRPIDs;
      this.cfg := Config(allowed, aaguid, hashRp, sha256, cose);
      this.storage := storage;
      this.assertionState := null;
      this.asked := [];
    }

    predicate IsRPIDAllowed(rpId: string) {
      rpId in cfg.allowed
    }

    /** `o` and `tmpPath` tell how the disk behaves should the command write the store. */
    method HandleCommand(cmd: Command, tmpPath: string, o: Disk.Outcomes) returns (r: Response)
      requires Valid()
      requires cmd.MakeCredential? && storage != null ==>
                 tmpPath != storage.filePath
                 && cmd.makeWorld.persists == (o.Persists() && tmpPath !in storage.dir.files)
      modifies Repr()
      ensures Valid() && fresh(Repr() - old(Repr()))
      ensures old(asked) <= asked
      ensures Outcome(State(), r, asked[|old(asked)|..]) == Exec(cfg, old(State()), cmd)
    {
      match cmd
      case GetInfo => r := Info;
      case MakeCredential(None, _) => r := Status(STATUS_INVALID_CBOR);
      case MakeCredential(Some(req), w) => r := MakeCredential(req, w, tmpPath, o);
      case GetAssertion(None, _) => r := Status(STATUS_INVALID_CBOR);
      case GetAssertion(Some(req), w) => r := GetAssertion(req, w);
      case GetNextAssertion(w) => r := HandleGetNextAssertion(w);
      case Unknown => r := Status(STATUS_INVALID_COMMAND);
    }

    method HandleGetNextAssertion(w: Signing) returns (r: Response)
      requires Valid()
      modifies Repr()
      ensures Valid() && fresh(Repr() - old(Repr()))
      ensures old(asked) <= asked
      ensures Outcome(State(), r, asked[|old(asked)|..]) == AssertsNext(cfg, old(State()), w)
    {
      hide AssertResident, Storage.CredentialStorage.Valid;
      assert asked[|asked|..] == [];
      if assertionState == null {
        return Status(STATUS_NOT_ALLOWED);
      }
      var state := assertionState;
      state.currentIndex := state.currentIndex + 1;
      if state.currentIndex >= |state.credentials| {
        assertionState := null;
        return Status(STATUS_NOT_ALLOWED);
      }
      var cred := state.credentials[state.currentIndex];
      r := BuildAssertionResponse(cred, state.rpIDHash, state.clientDataHash, |state.credentials|, false, w);
    }

    method FindUsable(ids: seq<Blob>, usable: set<Blob>) returns (found: Option<Blob>)
      ensures found == FirstUsable(ids, usable)
    {
      var i := 0;
      while i < |ids|
        invariant 0 <= i <= |ids|
        invariant FirstUsable(ids[i..], usable) == FirstUsable(ids, usable)
      {
        if ids[i] in usable {
          return Some(ids[i]);
        }
        assert ids[i..][1..] == ids[i + 1..];
        i := i + 1;
      }
      return None;
    }

    /** The credentials of a relying party that the signer still accepts. */
    method Discover(rpId: string, usable: set<Blob>) returns (valid: seq<Credential>)
      requires Valid()
      ensures valid == if Store().None? then [] else Ctap2.Valid(OfRp(Store().value.list, rpId), usable)
    {
      if storage == null {
        return [];
      }
      var matched := storage.GetByRPID(rpId);
      valid := KeepUsable(matched, usable);
    }

    method KeepUsable(matched: seq<Credential>, usable: set<Blob>) returns (valid: seq<Credential>)
      ensures valid == Ctap2.Valid(matched, usable)
    {
      valid := [];
      var i := 0;
      while i < |matched|
        invariant 0 <= i <= |matched|
        invariant valid == Ctap2.Valid(matched[..i], usable)
      {
        var cred := matched[i];
        assert matched[..i + 1][..i] == matched[..i];
        if cred.credentialId in usable {
          valid := valid + [cred];
        }
        i := i + 1;
      }
      assert matched[..i] == matched;
    }

    /** Hands the two parameters to the presence check and waits for its answer. */
    method ConfirmPresence(clientDataHash: Blob, rpIDHash: Hash, answer: Presence) returns (denied: Option<byte>)
      requires |clientDataHash| == 32
      modifies `asked
      ensures asked == old(asked) + [Ask(clientDataHash, rpIDHash)] && denied == PresenceStatus(answer)
    {
      var challengeParam := new byte[32](_ => 0);
      var n := CopyAt(challengeParam, 0, clientDataHash);
      assert challengeParam[..] == clientDataHash;
      asked := asked + [Ask(challengeParam[..], rpIDHash)];
      denied := PresenceStatus(answer);
    }

    method GetAssertion(req: AssertRequest, w: AssertWorld) returns (r: Response)
      requires Valid()
      modifies this
      ensures Valid() && fresh(Repr() - old(Repr()))
      ensures old(asked) <= asked
      ensures Outcome(State(), r, asked[|old(asked)|..]) == Asserts(cfg, old(State()), req, w)
    {
      hide AssertsFresh;
      if !IsRPIDAllowed(req.rpId) {
        return Status(STATUS_OPERATION_DENIED);
      }
      if req.hmacSecret {
        return Status(STATUS_UNSUPPORTED_EXTENSION);
      }
      assertionState := null;
      r := AssertFresh(req, w);
    }

    /** The rest of GetAssertion, once the earlier session is gone. */
    method AssertFresh(req: AssertRequest, w: AssertWorld) returns (r: Response)
      requires Valid() && assertionState == null
      modifies this
      ensures Valid() && fresh(Repr() - old(Repr()))
      ensures old(asked) <= asked
      ensures Outcome(State(), r, asked[|old(asked)|..]) == AssertsFresh(cfg, old(State()), req, w)
    {
      hide Ctap2.Valid, OfRp, FirstUsable, Assert, AssertResident, PresenceStatus;
      if |req.clientDataHash| != 32 {
        return Status(STATUS_INVALID_PARAMETER);
      }
      var rpIDHash := cfg.hashRp(req.rpId);
      var listed: Option<Blob> := None;
      var matched := [];
      if |req.allowList| > 0 {
        listed := FindUsable(req.allowList, w.usable);
        if listed.None? {
          return Status(STATUS_NO_CREDENTIALS);
        }
      } else {
        matched := Discover(req.rpId, w.usable);
        if |matched| == 0 {
          return Status(STATUS_NO_CREDENTIALS);
        }
      }
      var denied := ConfirmPresence(req.clientDataHash, rpIDHash, w.presence);
      if denied.Some? {
        return Status(denied.value);
      }
      if listed.Some? {
        r := BuildNonResidentAssertionResponse(listed.value, rpIDHash, req.clientDataHash, w.signing);
        return;
      }
      if |matched| > 1 {
        assertionState := new AssertionState(matched, rpIDHash, req.clientDataHash);
      }
      r := BuildAssertionResponse(matched[0], rpIDHash, req.clientDataHash, |matched|, true, w.signing);
    }

    method BuildNonResidentAssertionResponse(id: Blob, rpIDHash: Hash, clientDataHash: Blob, w: Signing)
      returns (r: Response)
      ensures r == Assert(cfg, id, None, rpIDHash, clientDataHash, 0, w)
    {
      r := Sign(id, None, rpIDHash, clientDataHash, 0, w);
    }

    method BuildAssertionResponse(cred: Credential, rpIDHash: Hash, clientDataHash: Blob, total: nat, first: bool,
                                  w: Signing)
      returns (r: Response)
      ensures r == AssertResident(cfg, cred, rpIDHash, clientDataHash, total, first, w)
    {
      var count := 0;
      if first && total > 1 {
        count := total;
      }
      r := Sign(cred.credentialId, Some(User(cred.userId, cred.userName, cred.userDisplayName)), rpIDHash,
                clientDataHash, count, w);
    }

    /** Builds the authenticator data and signs them together with the client data. */
    method Sign(id: Blob, user: Option<User>, rpIDHash: Hash, clientDataHash: Blob, count: nat, w: Signing)
      returns (r: Response)
      ensures r == Assert(cfg, id, user, rpIDHash, clientDataHash, count, w)
    {
      var authData := Marshal(
        AuthenticatorData(rpIDHash, FLAG_USER_PRESENT + FLAG_USER_VERIFIED, w.counter, None, []));
      if !w.works {
        return Status(STATUS_OTHER);
      }
      var signature := Signature(id, rpIDHash, cfg.sha256(authData + clientDataHash));
      return Assertion(id, authData, signature, user, count);
    }

    method SupportsES256(params: seq<(string, int)>) returns (es256Supported: bool)
      ensures es256Supported == WantsES256(params)
    {
      es256Supported := false;
      var i := 0;
      while i < |params|
        invariant 0 <= i <= |params| && !es256Supported
        invariant (PUBLIC_KEY, ES256) !in params[..i]
      {
        if params[i].0 == PUBLIC_KEY && params[i].1 == ES256 {
          es256Supported := true;
          break;
        }
        i := i + 1;
      }
    }

    /** The checks before the user is asked. */
    method CheckRegistration(req: MakeRequest, w: MakeWorld) returns (refused: Option<byte>)
      ensures refused == MakePrecheck(cfg, req, w)
    {
      hide FirstUsable, WantsES256;
      if !IsRPIDAllowed(req.rpId) {
        return Some(STATUS_OPERATION_DENIED);
      }
      if req.hmacSecret {
        return Some(STATUS_UNSUPPORTED_EXTENSION);
      }
      if |req.clientDataHash| != 32 {
        return Some(STATUS_INVALID_PARAMETER);
      }
      var es256Supported := SupportsES256(req.params);
      if !es256Supported {
        return Some(STATUS_UNSUPPORTED_ALGORITHM);
      }
      var excluded := FindUsable(req.excludeList, w.usable);
      if excluded.Some? {
        return Some(STATUS_CREDENTIAL_EXCLUDED);
      }
      return None;
    }

    lemma PrecheckedHash(req: MakeRequest, w: MakeWorld)
      ensures MakePrecheck(cfg, req, w).None? ==> |req.clientDataHash| == 32
    {
    }

    method MakeCredential(req: MakeRequest, w: MakeWorld, tmpPath: string, o: Disk.Outcomes) returns (r: Response)
      requires Valid()
      requires storage != null ==>
                 tmpPath != storage.filePath && w.persists == (o.Persists() && tmpPath !in storage.dir.files)
      modifies Repr()
      ensures Valid() && Repr() == old(Repr())
      ensures old(asked) <= asked
      ensures Outcome(State(), r, asked[|old(asked)|..]) == Makes(cfg, old(State()), req, w)
    {
      hide MakePrecheck, Storage.Apply, Attest, NewCredential;
      PrecheckedHash(req, w);
      var refused := CheckRegistration(req, w);
      if refused.Some? {
        return Status(refused.value);
      }
      var denied := ConfirmPresence(req.clientDataHash, cfg.hashRp(req.rpId), w.presence);
      if denied.Some? {
        return Status(denied.value);
      }
      if w.key.None? {
        return Status(STATUS_OTHER);
      }
      var key := w.key.value;
      if req.residentKey && storage != null {
        StoreResident(req, key, w.now, tmpPath, o);
      }
      r := BuildAttestation(req, key, w.signing);
    }

    /** A failing disk write is logged and otherwise ignored. */
    method StoreResident(req: MakeRequest, key: NewKey, now: int, tmpPath: string, o: Disk.Outcomes)
      requires Valid() && storage != null && tmpPath != storage.filePath
      modifies storage, storage.dir
      ensures storage.Valid()
      ensures var op := Storage.SaveOp(NewCredential(req, key, now), o.Persists() && tmpPath !in old(storage.dir.files));
              storage.State() == Storage.Apply(old(storage.State()), op)
    {
      var x := BigIntToBytes(key.x);
      var y := BigIntToBytes(key.y);
      var cred := Credential(req.rpId, req.rpName, req.user.id, req.user.name, req.user.displayName, key.handle,
                             x, y, now);
      var ok := storage.Save(cred, tmpPath, o);
    }

    method BuildCOSEPublicKeyES256(x: nat, y: nat) returns (coseKey: Option<Blob>)
      ensures coseKey == cfg.cose(SentCoordinate(x), SentCoordinate(y))
    {
      var xBytes := PadTo32(MinBytes(x));
      var yBytes := PadTo32(MinBytes(y));
      return cfg.cose(xBytes, yBytes);
    }

    method BuildAttestation(req: MakeRequest, key: NewKey, w: Signing) returns (r: Response)
      ensures r == Attest(cfg, req, key, w)
    {
      var coseKey := BuildCOSEPublicKeyES256(key.x, key.y);
      if coseKey.None? {
        return Status(STATUS_OTHER);
      }
      var hash := cfg.hashRp(req.rpId);
      var authData := Marshal(AuthenticatorData(
        hash, FLAG_USER_PRESENT + FLAG_USER_VERIFIED + FLAG_ATTESTED, w.counter,
        Some(AttestedCredential(cfg.aaguid, key.handle, coseKey.value)), []));
      if !w.works {
        return Status(STATUS_OTHER);
      }
      return Attestation(authData, Signature(key.handle, hash, cfg.sha256(authData + req.clientDataHash)));
    }
  }
}
