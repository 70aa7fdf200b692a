/** When a command is refused, and how: a reference that looks at the request and its surroundings, with the status codes
    of the protocol written out. */
module Decisions {
  import opened Bytes
  import opened Credentials
  import opened AuthData
  import opened Ctap2
  import HandlerRuns

  /** The status with which the user's answer ends a command, if it does. */
  function PresenceRefusal(p: Presence): Option<byte> {
    match p
    case Busy => Some(0x27)
    case NoResult => Some(0x2F)
    case Result(ok, inTime) => if !inTime then Some(0x2F) else if !ok then Some(0x27) else None
  }

  /** A credential of the allow list, or of the relying party when there is no list, is usable. */
  ghost predicate CanAssert(s: State, req: AssertRequest, usable: set<Blob>) {
    if req.allowList != [] then exists id <- req.allowList :: id in usable
    else s.store.Some? && exists c <- s.store.value.list :: c.rpId == req.rpId && c.credentialId in usable
  }

  ghost function AssertionRefusal(cfg: Config, s: State, req: AssertRequest, w: AssertWorld): Option<byte> {
    if req.rpId !in cfg.allowed then Some(0x27)
    else if req.hmacSecret then Some(0x16)
    else if |req.clientDataHash| != 32 then Some(0x02)
    else if !CanAssert(s, req, w.usable) then Some(0x2E)
    else if PresenceRefusal(w.presence).Some? then PresenceRefusal(w.presence)
    else if !w.signing.works then Some(0x7F)
    else None
  }

  ghost function RegistrationRefusal(cfg: Config, req: MakeRequest, w: MakeWorld): Option<byte> {
    if req.rpId !in cfg.allowed then Some(0x27)
    else if req.hmacSecret then Some(0x16)
    else if |req.clientDataHash| != 32 then Some(0x02)
    else if ("public-key", -7) !in req.params then Some(0x26)
    else if exists id <- req.excludeList :: id in w.usable then Some(0x19)
    else if PresenceRefusal(w.presence).Some? then PresenceRefusal(w.presence)
    else if w.key.None? || CoseKey(cfg, w.key.value).None? || !w.signing.works then Some(0x7F)
    else None
  }

  ghost function Refusal(cfg: Config, s: State, cmd: Command): Option<byte> {
    match cmd
    case GetInfo => None
    case MakeCredential(None, _) => Some(0x12)
    case MakeCredential(Some(req), w) => RegistrationRefusal(cfg, req, w)
    case GetAssertion(None, _) => Some(0x12)
    case GetAssertion(Some(req), w) => AssertionRefusal(cfg, s, req, w)
    case GetNextAssertion(w) =>
      if s.session.None? || s.session.value.index + 1 >= |s.session.value.credentials| then Some(0x30)
      else if !w.works then Some(0x7F)
      else None
    case Unknown => Some(0x01)
  }

  lemma {:induction false} FirstUsableIsFirst(ids: seq<Blob>, usable: set<Blob>)
    ensures match FirstUsable(ids, usable)
            case None => forall id <- ids :: id !in usable
            case Some(id) => exists k :: 0 <= k < |ids| && ids[k] == id && id in usable
                                         && forall j :: 0 <= j < k ==> ids[j] !in usable
  {
    if ids != [] && ids[0] !in usable {
      FirstUsableIsFirst(ids[1..], usable);
      if FirstUsable(ids[1..], usable).Some? {
        var k :| 0 <= k < |ids[1..]| && ids[1..][k] == FirstUsable(ids[1..], usable).value && ids[1..][k] in usable
                 && forall j :: 0 <= j < k ==> ids[1..][j] !in usable;
        assert ids[k + 1] == ids[1..][k];
        assert forall j :: 1 <= j < k + 1 ==> ids[j] == ids[1..][j - 1];
      } else {
        assert ids == [ids[0]] + ids[1..];
      }
    } else if ids != [] {
      assert ids[0] == FirstUsable(ids, usable).value;
    }
  }

  lemma CanAssertIff(s: State, req: AssertRequest, w: AssertWorld)
    ensures CanAssert(s, req, w.usable) <==>
            if req.allowList != [] then FirstUsable(req.allowList, w.usable).Some? else Matches(s, req, w) != []
  {
    FirstUsableIsFirst(req.allowList, w.usable);
    if s.store.Some? {
      var ofRp, found := OfRp(s.store.value.list, req.rpId), Matches(s, req, w);
      OfRpMembers(s.store.value.list, req.rpId);
      HandlerRuns.ValidMembers(ofRp, w.usable);
      hide OfRp, Valid;
      if found != [] {
        assert found[0] in found;
      }
    }
  }

  lemma AssertionDecision(cfg: Config, s: State, req: AssertRequest, w: AssertWorld)
    ensures var r := Asserts(cfg, s, req, w).response;
            match AssertionRefusal(cfg, s, req, w)
            case Some(code) => r == Status(code)
            case None => r.Assertion?
  {
    CanAssertIff(s, req, w);
    hide CanAssert, FirstUsable, Valid, OfRp, AssertionData;
  }

  lemma RegistrationDecision(cfg: Config, s: State, req: MakeRequest, w: MakeWorld)
    ensures var r := Makes(cfg, s, req, w).response;
            match RegistrationRefusal(cfg, req, w)
            case Some(code) => r == Status(code)
            case None => r.Attestation?
  {
    FirstUsableIsFirst(req.excludeList, w.usable);
    hide FirstUsable, Saved, CoseKey, Marshalled;
  }

  /** Every command, in any state: it is refused for exactly these reasons, checked in this order and with these status
      codes, and is otherwise answered by what was asked for. */
  lemma RefusalsAreExact(cfg: Config, s: State, cmd: Command)
    ensures var r := Exec(cfg, s, cmd).response;
            match Refusal(cfg, s, cmd)
            case Some(code) => r == Status(code)
            case None =>
              && (cmd.GetInfo? <==> r == Info)
              && (cmd.MakeCredential? <==> r.Attestation?)
              && (cmd.GetAssertion? || cmd.GetNextAssertion? <==> r.Assertion?)
  {
    match cmd
    case MakeCredential(Some(req), w) =>
      RegistrationDecision(cfg, s, req, w);
      hide Makes, RegistrationRefusal;
    case GetAssertion(Some(req), w) =>
      AssertionDecision(cfg, s, req, w);
      hide Asserts, AssertionRefusal;
    case _ => hide Makes, Asserts, RegistrationRefusal, AssertionRefusal;
  }

  /** The user is asked if and only if no earlier check stands in the way, and then about exactly this client data and
      this relying party. */
  lemma AskedIff(cfg: Config, s: State, cmd: Command)
    ensures match cmd
            case MakeCredential(Some(req), w) =>
              Exec(cfg, s, cmd).asked ==
              if RegistrationRefusal(cfg, req, w.(presence := Busy)) == Some(0x27) && req.rpId in cfg.allowed
              then [Ask(req.clientDataHash, cfg.hashRp(req.rpId))] else []
            case GetAssertion(Some(req), w) =>
              Exec(cfg, s, cmd).asked ==
              if AssertionRefusal(cfg, s, req, w.(presence := Busy)) == Some(0x27) && req.rpId in cfg.allowed
              then [Ask(req.clientDataHash, cfg.hashRp(req.rpId))] else []
            case _ => Exec(cfg, s, cmd).asked == []
  {
    match cmd
    case MakeCredential(Some(req), w) =>
      FirstUsableIsFirst(req.excludeList, w.usable);
      hide FirstUsable, Saved, Attest;
    case GetAssertion(Some(req), w) =>
      CanAssertIff(s, req, w);
      hide CanAssert, FirstUsable, Valid, OfRp, Assert, AssertResident;
    case _ =>
  }

  /** With an allow list, the first usable entry signs, and the answer names no user and no number of matches. */
  lemma AllowListAnswer(cfg: Config, s: State, req: AssertRequest, w: AssertWorld)
    requires req.allowList != [] && AssertionRefusal(cfg, s, req, w).None?
    ensures var r := Asserts(cfg, s, req, w).response;
            && HandlerRuns.SignsFor(cfg, r, cfg.hashRp(req.rpId), req.clientDataHash, w.signing.counter)
            && r.user == None && r.count == 0
            && exists k :: 0 <= k < |req.allowList| && req.allowList[k] == r.credentialId && r.credentialId in w.usable
                           && forall j :: 0 <= j < k ==> req.allowList[j] !in w.usable
  {
    AssertionDecision(cfg, s, req, w);
    FirstUsableIsFirst(req.allowList, w.usable);
    HandlerRuns.AssertionDataReads(cfg.hashRp(req.rpId), w.signing.counter);
    hide FirstUsable, Matches, Parse, AssertionData;
  }
}
