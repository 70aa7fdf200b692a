/** The handler over whole runs of commands: enumeration, authority of the user's confirmation, and what
    registrations make discoverable. */
module HandlerRuns {
  import opened Bytes
  import opened Credentials
  import opened AuthData
  import opened Ctap2

  /** Commands that leave an assertion session alone. */
  predicate Neutral(cfg: Config, cmd: Command) {
    match cmd
    case GetInfo => true
    case Unknown => true
    case MakeCredential(_, _) => true
    case GetAssertion(None, _) => true
    case GetAssertion(Some(req), _) => req.rpId !in cfg.allowed || req.hmacSecret
    case GetNextAssertion(_) => false
  }

  /** A GetAssertion that ends any earlier session. */
  predicate Opens(cfg: Config, cmd: Command) {
    cmd.GetAssertion? && !Neutral(cfg, cmd)
  }

  lemma NeutralKeepsSession(cfg: Config, s: State, cmd: Command)
    requires Neutral(cfg, cmd)
    ensures Exec(cfg, s, cmd).state.session == s.session
    ensures !Exec(cfg, s, cmd).response.Assertion?
  {
  }

  /** What an opening command leaves does not depend on the session before it. */
  lemma OpeningForgets(cfg: Config, s: State, cmd: Command, session: Option<Session>)
    requires Opens(cfg, cmd)
    ensures Exec(cfg, s, cmd) == Exec(cfg, s.(session := session), cmd)
  {
  }

  /** Apart from GetNextAssertion, the neutral commands are all that leave every session alone. */
  lemma OnlyNeutralKeepsSessions(cfg: Config, cmd: Command)
    requires !cmd.GetNextAssertion?
    ensures (forall s: State :: Exec(cfg, s, cmd).state.session == s.session) <==> Neutral(cfg, cmd)
  {
    if Neutral(cfg, cmd) {
      forall s: State
        ensures Exec(cfg, s, cmd).state.session == s.session
      {
        NeutralKeepsSession(cfg, s, cmd);
      }
    } else {
      var s := State(None, Some(Session([], 0, Zeros(32), [])));
      assert Exec(cfg, s, cmd).state.session != s.session;
    }
  }

  // ---------------------------------------------------------------- enumeration

  function NextCount(cmds: seq<Command>): nat {
    if cmds == [] then 0 else NextCount(cmds[..|cmds| - 1]) + if cmds[|cmds| - 1].GetNextAssertion? then 1 else 0
  }

  /** The session after `n` GetNextAssertions on `found`. */
  function SessionAt(found: seq<Credential>, hash: Hash, clientDataHash: Blob, n: nat): Option<Session> {
    if |found| > 1 && n < |found| then Some(Session(found, n, hash, clientDataHash)) else None
  }

  /** `open` is a discovery request whose matches were found and whose user was confirmed. */
  ghost predicate Discovers(cfg: Config, s: State, open: Command) {
    && open.GetAssertion? && open.assertRequest.Some?
    && var req, w := open.assertRequest.value, open.assertWorld;
    && req.rpId in cfg.allowed && !req.hmacSecret && |req.clientDataHash| == 32 && req.allowList == []
    && Matches(s, req, w) != [] && PresenceStatus(w.presence).None?
  }

  lemma {:induction false} SessionAfter(cfg: Config, s: State, open: Command, cmds: seq<Command>)
    requires Discovers(cfg, s, open)
    requires forall cmd <- cmds :: Neutral(cfg, cmd) || cmd.GetNextAssertion?
    ensures var req := open.assertRequest.value;
            Run(cfg, Exec(cfg, s, open).state, cmds).session ==
            SessionAt(Matches(s, req, open.assertWorld), cfg.hashRp(req.rpId), req.clientDataHash, NextCount(cmds))
  {
    if cmds != [] {
      var front, last := cmds[..|cmds| - 1], cmds[|cmds| - 1];
      assert last in cmds && forall cmd <- front :: cmd in cmds;
      SessionAfter(cfg, s, open, front);
      var s' := Run(cfg, Exec(cfg, s, open).state, front);
      if Neutral(cfg, last) {
        NeutralKeepsSession(cfg, s', last);
      } else {
        var req := open.assertRequest.value;
        SessionAdvances(cfg, s', last, Matches(s, req, open.assertWorld), cfg.hashRp(req.rpId), req.clientDataHash,
                        NextCount(front));
      }
      hide Exec, Matches, SessionAt;
    }
  }

  lemma SessionAdvances(cfg: Config, s: State, cmd: Command, found: seq<Credential>, hash: Hash, clientDataHash: Blob,
                        n: nat)
    requires cmd.GetNextAssertion? && s.session == SessionAt(found, hash, clientDataHash, n)
    ensures Exec(cfg, s, cmd).state.session == SessionAt(found, hash, clientDataHash, n + 1)
  {
    hide AssertResident;
  }

  /** `r` is what is due for credential `c`: when the signer works, an assertion that names `c` and its user, that is
      signed by the key of `c` over authenticator data and client data, and whose authenticator data reads, by the layout
      of section 6.1, as user present and verified for `rpIdHash` with the signer's counter. */
  ghost predicate DueFor(cfg: Config, r: Response, c: Credential, rpIdHash: Hash, clientDataHash: Blob, count: nat,
                         w: Signing) {
    if !w.works then r == Status(0x7F)
    else
      && r.Assertion? && r.credentialId == c.credentialId
      && r.user == Some(User(c.userId, c.userName, c.userDisplayName)) && r.count == count
      && Parse(r.authData) == Some(AuthenticatorData(rpIdHash, 0x05, w.counter, None, []))
      && r.signature == Signature(c.credentialId, rpIdHash, cfg.sha256(r.authData + clientDataHash))
  }

  lemma ResidentAnswerIsDue(cfg: Config, c: Credential, rpIdHash: Hash, clientDataHash: Blob, total: nat, first: bool,
                            w: Signing)
    ensures DueFor(cfg, AssertResident(cfg, c, rpIdHash, clientDataHash, total, first, w), c, rpIdHash, clientDataHash,
                   if first && total > 1 then total else 0, w)
  {
    AssertionDataReads(rpIdHash, w.counter);
    hide Parse, AssertionData;
  }

  /** After a discovery that matched c1 … ck, the first answer is due for c1, with the number of matches if there are
      several. Whatever neutral commands come in between, the n-th GetNextAssertion is answered for c(n+1), for the same
      relying party and client data, while n < k; every later one is refused and finds the session gone. */
  lemma Enumeration(cfg: Config, s: State, open: Command, cmds: seq<Command>, i: nat)
    requires Discovers(cfg, s, open) && i < |cmds| && cmds[i].GetNextAssertion?
    requires forall cmd <- cmds :: Neutral(cfg, cmd) || cmd.GetNextAssertion?
    ensures var req, w := open.assertRequest.value, open.assertWorld;
            var found, hash := Matches(s, req, w), cfg.hashRp(req.rpId);
            var s1 := Exec(cfg, s, open).state;
            var n := NextCount(cmds[..i + 1]);
            var answer := Answer(cfg, s1, cmds, i);
            && DueFor(cfg, Exec(cfg, s, open).response, found[0], hash, req.clientDataHash,
                      if |found| > 1 then |found| else 0, w.signing)
            && (n < |found| ==> DueFor(cfg, answer, found[n], hash, req.clientDataHash, 0, cmds[i].signing))
            && (n >= |found| ==> answer == Status(0x30) && Run(cfg, s1, cmds[..i + 1]).session == None)
  {
    var req, w := open.assertRequest.value, open.assertWorld;
    var found, hash, n := Matches(s, req, w), cfg.hashRp(req.rpId), NextCount(cmds[..i]);
    var s1 := Exec(cfg, s, open).state;
    var s' := Run(cfg, s1, cmds[..i]);
    forall cmd | cmd in cmds[..i] || cmd in cmds[..i + 1]
      ensures Neutral(cfg, cmd) || cmd.GetNextAssertion?
    {
    }
    FirstAnswer(cfg, s, open);
    SessionAfter(cfg, s, open, cmds[..i]);
    SessionAfter(cfg, s, open, cmds[..i + 1]);
    assert NextCount(cmds[..i + 1]) == n + 1 by {
      assert cmds[..i + 1][..i] == cmds[..i];
    }
    NextInSession(cfg, s', found, hash, req.clientDataHash, n, cmds[i].signing);
    hide DueFor, Matches, Run, NextCount, AssertsNext;
  }

  lemma FirstAnswer(cfg: Config, s: State, open: Command)
    requires Discovers(cfg, s, open)
    ensures var req, w := open.assertRequest.value, open.assertWorld;
            var found := Matches(s, req, w);
            DueFor(cfg, Exec(cfg, s, open).response, found[0], cfg.hashRp(req.rpId), req.clientDataHash,
                   if |found| > 1 then |found| else 0, w.signing)
  {
    hide DueFor, AssertResident;
    var req, w := open.assertRequest.value, open.assertWorld;
    var found := Matches(s, req, w);
    ResidentAnswerIsDue(cfg, found[0], cfg.hashRp(req.rpId), req.clientDataHash, |found|, true, w.signing);
  }

  /** What GetNextAssertion answers after `n` others. */
  lemma NextInSession(cfg: Config, s: State, found: seq<Credential>, hash: Hash, clientDataHash: Blob, n: nat,
                      w: Signing)
    requires found != [] && s.session == SessionAt(found, hash, clientDataHash, n)
    ensures var r := AssertsNext(cfg, s, w).response;
            if n + 1 < |found| then DueFor(cfg, r, found[n + 1], hash, clientDataHash, 0, w) else r == Status(0x30)
  {
    hide DueFor, AssertResident;
    if n + 1 < |found| {
      ResidentAnswerIsDue(cfg, found[n + 1], hash, clientDataHash, |found|, false, w);
    }
  }

  // ---------------------------------------------------------------- authority

  /** A session holds at least two credentials, all of one allowed relying party, and points at one of them. */
  ghost predicate SessionOk(cfg: Config, s: State) {
    s.session.Some? ==>
      var session := s.session.value;
      && |session.credentials| >= 2 && session.index < |session.credentials|
      && |session.clientDataHash| == 32
      && exists rpId :: IsSessionOf(cfg, session, rpId)
  }

  ghost predicate IsSessionOf(cfg: Config, session: Session, rpId: string) {
    rpId in cfg.allowed && session.rpIdHash == cfg.hashRp(rpId) && forall c <- session.credentials :: c.rpId == rpId
  }

  lemma {:induction false} ValidMembers(cs: seq<Credential>, usable: set<Blob>)
    ensures forall c :: c in Valid(cs, usable) <==> c in cs && c.credentialId in usable
  {
    if cs != [] {
      ValidMembers(cs[..|cs| - 1], usable);
    }
  }

  lemma MatchesMembers(s: State, req: AssertRequest, w: AssertWorld)
    ensures forall c <- Matches(s, req, w) :: c.rpId == req.rpId && c.credentialId in w.usable
  {
    if s.store.Some? {
      ValidMembers(OfRp(s.store.value.list, req.rpId), w.usable);
      OfRpMembers(s.store.value.list, req.rpId);
    }
  }

  lemma SessionOkStep(cfg: Config, s: State, cmd: Command)
    requires SessionOk(cfg, s)
    ensures SessionOk(cfg, Exec(cfg, s, cmd).state)
  {
    var s' := Exec(cfg, s, cmd).state;
    if Neutral(cfg, cmd) {
      NeutralKeepsSession(cfg, s, cmd);
    } else if cmd.GetAssertion? {
      var req := cmd.assertRequest.value;
      MatchesMembers(s, req, cmd.assertWorld);
      if s'.session.Some? {
        assert IsSessionOf(cfg, s'.session.value, req.rpId);
      }
    } else if s'.session.Some? {
      var rpId :| IsSessionOf(cfg, s.session.value, rpId);
      assert IsSessionOf(cfg, s'.session.value, rpId);
    }
  }

  lemma {:induction false} SessionOkAlways(cfg: Config, s: State, cmds: seq<Command>)
    requires SessionOk(cfg, s)
    ensures SessionOk(cfg, Run(cfg, s, cmds))
  {
    hide SessionOk, Exec;
    if cmds != [] {
      SessionOkAlways(cfg, s, cmds[..|cmds| - 1]);
      SessionOkStep(cfg, Run(cfg, s, cmds[..|cmds| - 1]), cmds[|cmds| - 1]);
    }
  }

  /** How many commands there were up to and including the last opening one; none if there was none. */
  function LastOpening(cfg: Config, cmds: seq<Command>): (n: nat)
    ensures n <= |cmds|
    ensures n > 0 ==> Opens(cfg, cmds[n - 1])
    ensures forall k :: n <= k < |cmds| ==> !Opens(cfg, cmds[k])
  {
    if cmds == [] then 0
    else if Opens(cfg, cmds[|cmds| - 1]) then |cmds|
    else LastOpening(cfg, cmds[..|cmds| - 1])
  }

  lemma {:induction false} StoreIgnoresSession(cfg: Config, s: State, session: Option<Session>, cmds: seq<Command>)
    ensures Run(cfg, s, cmds).store == Run(cfg, s.(session := session), cmds).store
  {
    if cmds != [] {
      var front := cmds[..|cmds| - 1];
      StoreIgnoresSession(cfg, s, session, front);
      StoreMoves(cfg, Run(cfg, s, front), Run(cfg, s.(session := session), front), cmds[|cmds| - 1]);
      hide Exec;
    }
  }

  lemma StoreMoves(cfg: Config, s: State, s': State, cmd: Command)
    requires s.store == s'.store
    ensures Exec(cfg, s, cmd).state.store == Exec(cfg, s', cmd).state.store
  {
    hide Attest, Assert, AssertResident, Matches, FirstUsable;
  }

  /** Once a run has had an opening command, nothing is left of the session it started with. */
  lemma {:induction false} OldSessionsDoNotMatter(cfg: Config, s: State, session: Option<Session>, cmds: seq<Command>)
    requires LastOpening(cfg, cmds) > 0
    ensures Run(cfg, s, cmds) == Run(cfg, s.(session := session), cmds)
  {
    var front, last := cmds[..|cmds| - 1], cmds[|cmds| - 1];
    var s1, s2 := Run(cfg, s, front), Run(cfg, s.(session := session), front);
    hide Exec, Opens;
    if Opens(cfg, last) {
      StoreIgnoresSession(cfg, s, session, front);
      OpeningForgets(cfg, s1, last, s2.session);
      assert s1.(session := s2.session) == s2;
    } else {
      OldSessionsDoNotMatter(cfg, s, session, front);
    }
  }

  /** The user confirmed `open`, in time, for exactly this relying party and this client data. */
  ghost predicate Confirmed(cfg: Config, open: Command, rpIdHash: Hash, clientDataHash: Blob) {
    && open.GetAssertion? && open.assertRequest.Some?
    && open.assertWorld.presence == Result(true, true)
    && open.assertRequest.value.rpId in cfg.allowed
    && cfg.hashRp(open.assertRequest.value.rpId) == rpIdHash
    && open.assertRequest.value.clientDataHash == clientDataHash && |clientDataHash| == 32
  }

  /** A session stems from the last opening command, which asked the user and was confirmed. */
  lemma {:induction false} SessionIsConfirmed(cfg: Config, s: State, cmds: seq<Command>)
    requires s.session.None? && Run(cfg, s, cmds).session.Some?
    ensures var session := Run(cfg, s, cmds).session.value;
            LastOpening(cfg, cmds) > 0
            && Confirmed(cfg, cmds[LastOpening(cfg, cmds) - 1], session.rpIdHash, session.clientDataHash)
            && Asked(cfg, s, cmds, LastOpening(cfg, cmds) - 1) == [Ask(session.clientDataHash, session.rpIdHash)]
  {
    hide Assert, AssertResident, Matches, Marshalled, Makes, FirstUsable;
    var front, last := cmds[..|cmds| - 1], cmds[|cmds| - 1];
    var s' := Run(cfg, s, front);
    if !Opens(cfg, last) {
      if Neutral(cfg, last) {
        NeutralKeepsSession(cfg, s', last);
      }
      SessionIsConfirmed(cfg, s, front);
      var n := LastOpening(cfg, cmds);
      assert front[..n - 1] == cmds[..n - 1];
    }
  }

  /** The counter that the signer shows for a command. */
  function CounterOf(cmd: Command): uint32 {
    match cmd
    case MakeCredential(_, w) => w.signing.counter
    case GetAssertion(_, w) => w.signing.counter
    case GetNextAssertion(w) => w.counter
    case _ => 0
  }

  /** `r` is an assertion that reads, by the layout of section 6.1, as user present and verified for `rpIdHash` with this
      counter, and that is signed together with `clientDataHash` by the key it names. */
  ghost predicate SignsFor(cfg: Config, r: Response, rpIdHash: Hash, clientDataHash: Blob, counter: uint32) {
    && r.Assertion?
    && Parse(r.authData) == Some(AuthenticatorData(rpIdHash, 0x05, counter, None, []))
    && r.signature == Signature(r.credentialId, rpIdHash, cfg.sha256(r.authData + clientDataHash))
  }

  lemma AssertionDataReads(rpIdHash: Hash, counter: uint32)
    ensures Parse(AssertionData(rpIdHash, counter)) == Some(AuthenticatorData(rpIdHash, 0x05, counter, None, []))
  {
    hide Parse, Marshalled;
    MarshalRoundTrip(AuthenticatorData(rpIdHash, 0x05, counter, None, []));
  }

  lemma OpeningAnswer(cfg: Config, s: State, cmd: Command)
    requires Opens(cfg, cmd) && Exec(cfg, s, cmd).response.Assertion?
    ensures var req := cmd.assertRequest.value;
            && Confirmed(cfg, cmd, cfg.hashRp(req.rpId), req.clientDataHash)
            && Exec(cfg, s, cmd).asked == [Ask(req.clientDataHash, cfg.hashRp(req.rpId))]
            && SignsFor(cfg, Exec(cfg, s, cmd).response, cfg.hashRp(req.rpId), req.clientDataHash, CounterOf(cmd))
  {
    hide Parse, Marshalled, Matches, FirstUsable, AssertionData;
    AssertionDataReads(cfg.hashRp(cmd.assertRequest.value.rpId), cmd.assertWorld.signing.counter);
  }

  lemma NextAnswer(cfg: Config, s: State, w: Signing)
    requires AssertsNext(cfg, s, w).response.Assertion?
    ensures s.session.Some?
    ensures SignsFor(cfg, AssertsNext(cfg, s, w).response, s.session.value.rpIdHash, s.session.value.clientDataHash,
                     w.counter)
  {
    hide Parse, Marshalled, AssertionData;
    AssertionDataReads(s.session.value.rpIdHash, w.counter);
  }

  lemma LastOpeningStep(cfg: Config, cmds: seq<Command>, i: nat)
    requires i < |cmds|
    ensures LastOpening(cfg, cmds[..i + 1]) == if Opens(cfg, cmds[i]) then i + 1 else LastOpening(cfg, cmds[..i])
  {
    assert cmds[..i + 1][..i] == cmds[..i];
  }

  /** In every run that starts without a session, each assertion sent out signs for the relying party and the client
      data of the last opening command; these two are what that command asked the user, who agreed in time. */
  lemma EveryAssertionIsConfirmed(cfg: Config, s: State, cmds: seq<Command>, i: nat)
    requires s.session.None? && i < |cmds| && Answer(cfg, s, cmds, i).Assertion?
    ensures var n := LastOpening(cfg, cmds[..i + 1]);
            n > 0 && var req := cmds[n - 1].assertRequest.value;
            && Confirmed(cfg, cmds[n - 1], cfg.hashRp(req.rpId), req.clientDataHash)
            && Asked(cfg, s, cmds, n - 1) == [Ask(req.clientDataHash, cfg.hashRp(req.rpId))]
            && SignsFor(cfg, Answer(cfg, s, cmds, i), cfg.hashRp(req.rpId), req.clientDataHash, CounterOf(cmds[i]))
  {
    var s', cmd := Run(cfg, s, cmds[..i]), cmds[i];
    assert Answer(cfg, s, cmds, i) == Exec(cfg, s', cmd).response && Asked(cfg, s, cmds, i) == Exec(cfg, s', cmd).asked;
    LastOpeningStep(cfg, cmds, i);
    hide SignsFor, Confirmed, Run, Exec, Neutral, Asked, Answer;
    if Opens(cfg, cmd) {
      OpeningAnswer(cfg, s', cmd);
    } else if Neutral(cfg, cmd) {
      NeutralKeepsSession(cfg, s', cmd);
    } else {
      OnlyNextIsLeft(cfg, s', cmd);
      NextAnswer(cfg, s', cmd.signing);
      SessionIsConfirmed(cfg, s, cmds[..i]);
      var n, session := LastOpening(cfg, cmds[..i]), s'.session.value;
      ConfirmedIsFor(cfg, cmds[n - 1], session.rpIdHash, session.clientDataHash);
      AskedInPrefix(cfg, s, cmds, i, n - 1);
    }
  }

  lemma OnlyNextIsLeft(cfg: Config, s: State, cmd: Command)
    requires !Neutral(cfg, cmd) && !Opens(cfg, cmd)
    ensures cmd.GetNextAssertion? && Exec(cfg, s, cmd) == AssertsNext(cfg, s, cmd.signing)
  {
    hide AssertsNext;
  }

  lemma ConfirmedIsFor(cfg: Config, open: Command, rpIdHash: Hash, clientDataHash: Blob)
    requires Confirmed(cfg, open, rpIdHash, clientDataHash)
    ensures open.GetAssertion? && open.assertRequest.Some?
    ensures cfg.hashRp(open.assertRequest.value.rpId) == rpIdHash
    ensures open.assertRequest.value.clientDataHash == clientDataHash && |clientDataHash| == 32
  {
  }

  lemma AskedInPrefix(cfg: Config, s: State, cmds: seq<Command>, i: nat, k: nat)
    requires k < i <= |cmds|
    ensures Asked(cfg, s, cmds[..i], k) == Asked(cfg, s, cmds, k)
  {
    assert cmds[..i][..k] == cmds[..k];
  }

  /** The assertions sent out by a run. */
  function Assertions(cfg: Config, s: State, cmds: seq<Command>): nat {
    if cmds == [] then 0
    else
      var front := cmds[..|cmds| - 1];
      Assertions(cfg, s, front)
      + if Exec(cfg, Run(cfg, s, front), cmds[|cmds| - 1]).response.Assertion? then 1 else 0
  }

  function Left(s: State): nat {
    if s.session.Some? && s.session.value.index < |s.session.value.credentials|
    then |s.session.value.credentials| - 1 - s.session.value.index else 0
  }

  lemma {:induction false} SessionIsSpent(cfg: Config, s: State, cmds: seq<Command>)
    requires forall cmd <- cmds :: !Opens(cfg, cmd)
    ensures Assertions(cfg, s, cmds) + Left(Run(cfg, s, cmds)) <= Left(s)
  {
    if cmds != [] {
      var front, last := cmds[..|cmds| - 1], cmds[|cmds| - 1];
      assert last in cmds && forall cmd <- front :: cmd in cmds;
      SessionIsSpent(cfg, s, front);
      if Neutral(cfg, last) {
        NeutralKeepsSession(cfg, Run(cfg, s, front), last);
      }
    }
  }

  /** One confirmation covers at most as many assertions as the request matched credentials: one for a request with
      an allow list, and until the next opening command no more than the discovered ones. */
  lemma ConfirmationIsBounded(cfg: Config, s: State, open: Command, cmds: seq<Command>)
    requires Opens(cfg, open)
    requires forall cmd <- cmds :: !Opens(cfg, cmd)
    ensures var first := Exec(cfg, s, open);
            var req := open.assertRequest.value;
            (if first.response.Assertion? then 1 else 0) + Assertions(cfg, first.state, cmds)
            <= if req.allowList != [] then 1 else |Matches(s, req, open.assertWorld)|
  {
    SessionIsSpent(cfg, Exec(cfg, s, open).state, cmds);
  }

  // ---------------------------------------------------------------- registration

  /** The coordinates sent to the relying party and those stored are the same bytes, exactly for numbers below 2^256;
      the bytes then are the two numbers. */
  lemma CoordinatesOf(cfg: Config, key: NewKey, req: MakeRequest, now: int)
    ensures var c := NewCredential(req, key, now);
            && (SentCoordinate(key.x) == c.publicKeyX && SentCoordinate(key.y) == c.publicKeyY <==>
                key.x < Pow256(32) && key.y < Pow256(32))
            && (key.x < Pow256(32) && key.y < Pow256(32) ==>
                  && CoseKey(cfg, key) == cfg.cose(c.publicKeyX, c.publicKeyY)
                  && FromBe(c.publicKeyX) == key.x && FromBe(c.publicKeyY) == key.y)
  {
    CoordinatesAgree(key.x);
    CoordinatesAgree(key.y);
    hide SentCoordinate, StoredCoordinate;
  }

  /** `c` has what the request and the new key say; its coordinates are the numbers when these fit. */
  ghost predicate Describes(c: Credential, req: MakeRequest, key: NewKey, now: int) {
    && c.rpId == req.rpId && c.rpName == req.rpName
    && c.userId == req.user.id && c.userName == req.user.name && c.userDisplayName == req.user.displayName
    && c.credentialId == key.handle && c.createdAt == now
    && FromBe(c.publicKeyX) == key.x && FromBe(c.publicKeyY) == key.y
    && (key.x < Pow256(32) ==> |c.publicKeyX| == 32) && (key.y < Pow256(32) ==> |c.publicKeyY| == 32)
  }

  lemma NewCredentialDescribes(cfg: Config, req: MakeRequest, key: NewKey, now: int)
    ensures Describes(NewCredential(req, key, now), req, key, now)
  {
    CoordinateValue(key.x);
    CoordinateValue(key.y);
    hide StoredCoordinate, Pow256, FromBe;
  }

  /** Every attestation sent out is for an allowed relying party, asked the user for exactly that relying party and this
      client data and was confirmed in time, excludes no usable credential, reads as attested data of the new key with
      that key's coordinates, and is signed by that key. A requested resident credential is in the store, under the new
      key, and with the very coordinates that were attested. */
  lemma RegistrationIsConfirmed(cfg: Config, s: State, cmd: Command)
    requires Exec(cfg, s, cmd).response.Attestation?
    ensures cmd.MakeCredential? && cmd.makeRequest.Some? && cmd.makeWorld.key.Some?
    ensures Exec(cfg, s, cmd).state.store.Some? <==> s.store.Some?
    ensures var req, w, key := cmd.makeRequest.value, cmd.makeWorld, cmd.makeWorld.key.value;
            var r := Exec(cfg, s, cmd).response;
            && req.rpId in cfg.allowed && w.presence == Result(true, true) && |req.clientDataHash| == 32
            && Exec(cfg, s, cmd).asked == [Ask(req.clientDataHash, cfg.hashRp(req.rpId))]
            && (forall id <- req.excludeList :: id !in w.usable)
            && CoseKey(cfg, key).Some?
            && (|key.handle| <= 0xFFFF ==>
                  Parse(r.authData) == Some(AuthenticatorData(
                    cfg.hashRp(req.rpId), 0x45, w.signing.counter,
                    Some(AttestedCredential(cfg.aaguid, key.handle, CoseKey(cfg, key).value)), [])))
            && r.signature == Signature(key.handle, cfg.hashRp(req.rpId), cfg.sha256(r.authData + req.clientDataHash))
            && ("public-key", -7) in req.params
            && (req.residentKey && s.store.Some? ==>
                  exists c <- Exec(cfg, s, cmd).state.store.value.list ::
                    && Describes(c, req, key, w.now)
                    && (key.x < Pow256(32) && key.y < Pow256(32) ==>
                          CoseKey(cfg, key) == cfg.cose(c.publicKeyX, c.publicKeyY)))
  {
    hide *;
    OnlyRegistrationsAttest(cfg, s, cmd);
    var req, w := cmd.makeRequest.value, cmd.makeWorld;
    AttestationMeans(cfg, s, req, w);
    var key := w.key.value;
    NoneUsable(req.excludeList, w.usable);
    CoordinatesOf(cfg, key, req, w.now);
    AttestationReads(cfg, req, key, w.signing);
    if req.residentKey && s.store.Some? {
      RegistrationIsStored(cfg, s, req, w);
      NewCredentialDescribes(cfg, req, key, w.now);
      assert NewCredential(req, key, w.now) in Exec(cfg, s, cmd).state.store.value.list;
    }
  }

  lemma OnlyRegistrationsAttest(cfg: Config, s: State, cmd: Command)
    requires Exec(cfg, s, cmd).response.Attestation?
    ensures cmd.MakeCredential? && cmd.makeRequest.Some?
    ensures Exec(cfg, s, cmd) == Makes(cfg, s, cmd.makeRequest.value, cmd.makeWorld)
  {
    hide Makes, Matches, FirstUsable, Marshalled;
  }

  /** No refusal came in the way of an attestation. */
  lemma AttestationMeans(cfg: Config, s: State, req: MakeRequest, w: MakeWorld)
    requires Makes(cfg, s, req, w).response.Attestation?
    ensures MakeRefusal(cfg, req, w).None? && w.key.Some?
    ensures req.rpId in cfg.allowed && w.presence == Result(true, true) && |req.clientDataHash| == 32
    ensures FirstUsable(req.excludeList, w.usable).None? && ("public-key", -7) in req.params
    ensures Makes(cfg, s, req, w).state.store.Some? <==> s.store.Some?
    ensures Makes(cfg, s, req, w).asked == [Ask(req.clientDataHash, cfg.hashRp(req.rpId))]
    ensures Makes(cfg, s, req, w).response == Attest(cfg, req, w.key.value, w.signing)
  {
    hide Attest, NewCredential, FirstUsable;
  }

  lemma AttestationReads(cfg: Config, req: MakeRequest, key: NewKey, w: Signing)
    requires Attest(cfg, req, key, w).Attestation?
    ensures CoseKey(cfg, key).Some?
    ensures var r := Attest(cfg, req, key, w);
            && (|key.handle| <= 0xFFFF ==>
                  Parse(r.authData) == Some(AuthenticatorData(
                    cfg.hashRp(req.rpId), 0x45, w.counter,
                    Some(AttestedCredential(cfg.aaguid, key.handle, CoseKey(cfg, key).value)), [])))
            && r.signature == Signature(key.handle, cfg.hashRp(req.rpId), cfg.sha256(r.authData + req.clientDataHash))
  {
    hide Parse, Marshalled, CoseKey;
    MarshalRoundTrip(AuthenticatorData(
      cfg.hashRp(req.rpId), 0x45, w.counter,
      Some(AttestedCredential(cfg.aaguid, key.handle, CoseKey(cfg, key).value)), []));
  }

  lemma RegistrationIsStored(cfg: Config, s: State, req: MakeRequest, w: MakeWorld)
    requires MakeRefusal(cfg, req, w).None? && req.residentKey && s.store.Some?
    ensures Makes(cfg, s, req, w).state.store.Some?
    ensures NewCredential(req, w.key.value, w.now) in Makes(cfg, s, req, w).state.store.value.list
  {
    PutContains(s.store.value.list, NewCredential(req, w.key.value, w.now));
    hide Put, NewCredential, Attest, MakePrecheck;
  }

  lemma {:induction false} NoneUsable(ids: seq<Blob>, usable: set<Blob>)
    requires FirstUsable(ids, usable).None?
    ensures forall id <- ids :: id !in usable
  {
    if ids != [] {
      NoneUsable(ids[1..], usable);
    }
  }

  lemma PutContains(cs: seq<Credential>, c: Credential)
    ensures c in Put(cs, c)
  {
    var i := FirstWithKey(cs, c.Key());
    assert Put(cs, c)[i] == c;
  }
}
