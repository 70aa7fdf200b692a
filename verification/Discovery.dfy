/** From registrations to discovery: what a run of commands stores, and what a later GetAssertion finds. */
module Discovery {
  import opened Bytes
  import opened Credentials
  import opened AuthData
  import opened Ctap2
  import HandlerRuns

  /** The credentials that a run hands to the store, in order. */
  function Registered(cfg: Config, cmds: seq<Command>): seq<Credential> {
    if cmds == [] then []
    else
      var saved := Saved(cfg, cmds[|cmds| - 1]);
      Registered(cfg, cmds[..|cmds| - 1]) + if saved.Some? then [saved.value] else []
  }

  function PutAll(cs: seq<Credential>, regs: seq<Credential>): seq<Credential> {
    if regs == [] then cs else Put(PutAll(cs, regs[..|regs| - 1]), regs[|regs| - 1])
  }

  /** The command asks for a resident credential, nothing stands in its way, and `c` has what the request says, with the
      handle and the coordinates of the new key. */
  ghost predicate RegisteredBy(cfg: Config, cmd: Command, c: Credential) {
    && cmd.MakeCredential? && cmd.makeRequest.Some? && cmd.makeRequest.value.residentKey && cmd.makeWorld.key.Some?
    && MakeRefusal(cfg, cmd.makeRequest.value, cmd.makeWorld).None?
    && HandlerRuns.Describes(c, cmd.makeRequest.value, cmd.makeWorld.key.value, cmd.makeWorld.now)
  }

  lemma SavedIsRegistered(cfg: Config, cmd: Command)
    requires Saved(cfg, cmd).Some?
    ensures RegisteredBy(cfg, cmd, Saved(cfg, cmd).value)
  {
    HandlerRuns.NewCredentialDescribes(cfg, cmd.makeRequest.value, cmd.makeWorld.key.value, cmd.makeWorld.now);
    hide MakeRefusal;
  }

  /** Whatever the disk does, the list is what the registrations of the run put there one after the other. */
  lemma {:induction false} StoreHoldsRegistered(cfg: Config, s: State, cmds: seq<Command>)
    requires s.store.Some?
    ensures var s' := Run(cfg, s, cmds);
            s'.store.Some? && s'.store.value.list == PutAll(s.store.value.list, Registered(cfg, cmds))
  {
    if cmds != [] {
      var front, last := cmds[..|cmds| - 1], cmds[|cmds| - 1];
      hide Saved, RegisteredBy, Put, Exec;
      StoreHoldsRegistered(cfg, s, front);
      StoreStep(cfg, Run(cfg, s, front), last);
      var regs := Registered(cfg, front);
      if Saved(cfg, last).Some? {
        assert (regs + [Saved(cfg, last).value])[..|regs|] == regs;
      } else {
        assert Registered(cfg, cmds) == regs;
      }
    }
  }

  /** Every credential handed to the store stems from a request of the run, and has what the request says. */
  lemma {:induction false} RegisteredByRequests(cfg: Config, cmds: seq<Command>)
    ensures forall c <- Registered(cfg, cmds) :: exists i :: 0 <= i < |cmds| && RegisteredBy(cfg, cmds[i], c)
  {
    if cmds != [] {
      var front, last := cmds[..|cmds| - 1], cmds[|cmds| - 1];
      hide Saved, RegisteredBy;
      RegisteredByRequests(cfg, front);
      if Saved(cfg, last).Some? {
        SavedIsRegistered(cfg, last);
      }
      forall c | c in Registered(cfg, cmds)
        ensures exists i :: 0 <= i < |cmds| && RegisteredBy(cfg, cmds[i], c)
      {
        if c in Registered(cfg, front) {
          var i :| 0 <= i < |front| && RegisteredBy(cfg, front[i], c);
          assert cmds[i] == front[i];
        } else {
          assert RegisteredBy(cfg, cmds[|cmds| - 1], c);
        }
      }
    }
  }

  lemma StoreStep(cfg: Config, s: State, cmd: Command)
    requires s.store.Some?
    ensures var store := Exec(cfg, s, cmd).state.store;
            store.Some? && store.value.list ==
                           if Saved(cfg, cmd).Some? then Put(s.store.value.list, Saved(cfg, cmd).value)
                           else s.store.value.list
  {
  }

  // ---------------------------------------------------------------- the list and the registrations

  /** Registration number `j` is the latest of its user. */
  ghost predicate LatestAt(regs: seq<Credential>, j: nat) {
    j < |regs| && forall k :: j < k < |regs| ==> regs[k].Key() != regs[j].Key()
  }

  /** Earlier entries belong to users who registered first earlier. */
  ghost predicate InOrder(cs: seq<Credential>, regs: seq<Credential>) {
    forall i, k :: 0 <= i < k < |cs| ==> FirstWithKey(regs, cs[i].Key()) < FirstWithKey(regs, cs[k].Key())
  }

  ghost predicate IsLatest(regs: seq<Credential>, c: Credential) {
    exists j: nat :: LatestAt(regs, j) && regs[j] == c
  }

  /** The list has the latest registration of every user, in the order of the first registrations. */
  ghost predicate ListsLatest(cs: seq<Credential>, regs: seq<Credential>) {
    && (forall c <- cs :: IsLatest(regs, c))
    && (forall j: nat :: LatestAt(regs, j) ==> regs[j] in cs)
    && InOrder(cs, regs)
  }

  lemma FirstGrows(regs: seq<Credential>, c: Credential, key: (string, Blob))
    ensures var i := FirstWithKey(regs, key);
            FirstWithKey(regs + [c], key) ==
            if i < |regs| then i else if c.Key() == key then |regs| else |regs| + 1
  {
    var i, i' := FirstWithKey(regs, key), FirstWithKey(regs + [c], key);
    assert forall k :: 0 <= k < |regs| ==> (regs + [c])[k] == regs[k];
    assert (regs + [c])[|regs|] == c;
    hide FirstWithKey;
  }

  lemma LatestGrows(regs: seq<Credential>, c: Credential, j: nat)
    ensures LatestAt(regs + [c], j) <==>
            j == |regs| || (LatestAt(regs, j) && regs[j].Key() != c.Key())
  {
    var regs' := regs + [c];
    assert forall k :: 0 <= k < |regs| ==> regs'[k] == regs[k];
    assert regs'[|regs|] == c;
  }

  /** Every registration is followed by a latest one of its user. */
  lemma {:induction false} LatestExists(regs: seq<Credential>, m: nat)
    requires m < |regs|
    ensures exists j: nat :: LatestAt(regs, j) && regs[j].Key() == regs[m].Key()
    decreases |regs| - m
  {
    if !LatestAt(regs, m) {
      var k :| m < k < |regs| && regs[k].Key() == regs[m].Key();
      LatestExists(regs, k);
    }
  }

  lemma PutListsLatest(cs: seq<Credential>, regs: seq<Credential>, c: Credential)
    requires ListsLatest(cs, regs)
    ensures ListsLatest(Put(cs, c), regs + [c])
  {
    forall d | d in cs
      ensures FirstWithKey(regs, d.Key()) < |regs|
    {
      ListedIsRegistered(regs, d);
    }
    if FirstWithKey(cs, c.Key()) == |cs| {
      UnlistedIsNew(cs, regs, c);
    }
    PutIsInOrder(cs, regs, c);
    PutHasLatest(cs, regs, c);
    hide InOrder, IsLatest, LatestAt, Put, FirstWithKey;
  }

  lemma ListedIsRegistered(regs: seq<Credential>, c: Credential)
    requires IsLatest(regs, c)
    ensures FirstWithKey(regs, c.Key()) < |regs|
  {
    var j: nat :| LatestAt(regs, j) && regs[j] == c;
  }

  /** Whoever registered is on the list. */
  lemma RegisteredIsListed(cs: seq<Credential>, regs: seq<Credential>, m: nat)
    requires ListsLatest(cs, regs) && m < |regs|
    ensures exists a :: 0 <= a < |cs| && cs[a].Key() == regs[m].Key()
  {
    LatestExists(regs, m);
    var j: nat :| LatestAt(regs, j) && regs[j].Key() == regs[m].Key();
    var a :| 0 <= a < |cs| && cs[a] == regs[j];
    assert cs[a].Key() == regs[m].Key();
  }

  lemma UnlistedIsNew(cs: seq<Credential>, regs: seq<Credential>, c: Credential)
    requires ListsLatest(cs, regs) && FirstWithKey(cs, c.Key()) == |cs|
    ensures FirstWithKey(regs, c.Key()) == |regs|
  {
    if FirstWithKey(regs, c.Key()) < |regs| {
      RegisteredIsListed(cs, regs, FirstWithKey(regs, c.Key()));
    }
  }

  lemma PutIsInOrder(cs: seq<Credential>, regs: seq<Credential>, c: Credential)
    requires InOrder(cs, regs) && forall d <- cs :: FirstWithKey(regs, d.Key()) < |regs|
    requires FirstWithKey(cs, c.Key()) == |cs| ==> FirstWithKey(regs, c.Key()) == |regs|
    ensures InOrder(Put(cs, c), regs + [c])
  {
    var cs', i := Put(cs, c), FirstWithKey(cs, c.Key());
    forall a, b | 0 <= a < b < |cs'|
      ensures FirstWithKey(regs + [c], cs'[a].Key()) < FirstWithKey(regs + [c], cs'[b].Key())
    {
      FirstOfEntry(cs, regs, c, a);
      FirstOfEntry(cs, regs, c, b);
      assert FirstWithKey(regs, cs[a].Key()) < |regs| by {
        assert cs[a] in cs;
      }
      hide FirstWithKey, Put;
      assert b < |cs| ==> FirstWithKey(regs, cs[a].Key()) < FirstWithKey(regs, cs[b].Key());
    }
  }

  /** When the user of an entry registered first: as before, or just now when the entry is a new one. */
  lemma FirstOfEntry(cs: seq<Credential>, regs: seq<Credential>, c: Credential, a: nat)
    requires a < |Put(cs, c)| && forall d <- cs :: FirstWithKey(regs, d.Key()) < |regs|
    requires FirstWithKey(cs, c.Key()) == |cs| ==> FirstWithKey(regs, c.Key()) == |regs|
    ensures |cs| <= |Put(cs, c)| <= |cs| + 1
    ensures FirstWithKey(regs + [c], Put(cs, c)[a].Key()) ==
            if a < |cs| then FirstWithKey(regs, cs[a].Key()) else |regs|
  {
    var key := Put(cs, c)[a].Key();
    FirstGrows(regs, c, key);
    if a < |cs| {
      assert cs[a] in cs && key == cs[a].Key();
    }
  }

  lemma PutHasLatest(cs: seq<Credential>, regs: seq<Credential>, c: Credential)
    requires ListsLatest(cs, regs)
    ensures forall d <- Put(cs, c) :: IsLatest(regs + [c], d)
    ensures forall j: nat :: LatestAt(regs + [c], j) ==> (regs + [c])[j] in Put(cs, c)
  {
    var cs', regs', i := Put(cs, c), regs + [c], FirstWithKey(cs, c.Key());
    assert c in cs' by {
      assert cs'[i] == c;
    }
    forall d | d in cs'
      ensures IsLatest(regs', d)
    {
      var a :| 0 <= a < |cs'| && cs'[a] == d;
      if a == i {
        LatestGrows(regs, c, |regs|);
        assert LatestAt(regs', |regs|) && regs'[|regs|] == d;
      } else {
        assert d in cs && (a < i ==> cs[a].Key() != c.Key());
        assert a > i ==> FirstWithKey(regs, cs[i].Key()) < FirstWithKey(regs, cs[a].Key());
        var j: nat :| LatestAt(regs, j) && regs[j] == d;
        LatestGrows(regs, c, j);
        assert LatestAt(regs', j) && regs'[j] == d;
      }
    }
    forall j: nat | LatestAt(regs', j)
      ensures regs'[j] in cs'
    {
      LatestGrows(regs, c, j);
      if j < |regs| {
        var a :| 0 <= a < |cs| && cs[a] == regs[j];
        assert a != i && cs'[a] == regs'[j];
      }
    }
  }

  lemma {:induction false} RegisteredAreListed(regs: seq<Credential>)
    ensures ListsLatest(PutAll([], regs), regs)
  {
    hide *;
    if regs == [] {
      NothingListed();
    } else {
      var front, c := regs[..|regs| - 1], regs[|regs| - 1];
      RegisteredAreListed(front);
      PutListsLatest(PutAll([], front), front, c);
      UnfoldPutAll([], regs);
      assert front + [c] == regs;
    }
  }

  lemma NothingListed()
    ensures ListsLatest(PutAll([], []), [])
  {
  }

  lemma UnfoldPutAll(cs: seq<Credential>, regs: seq<Credential>)
    requires regs != []
    ensures PutAll(cs, regs) == Put(PutAll(cs, regs[..|regs| - 1]), regs[|regs| - 1])
  {
  }

  // ---------------------------------------------------------------- what a discovery finds

  lemma {:induction false} OfRpIsInOrder(cs: seq<Credential>, regs: seq<Credential>, rpId: string)
    requires InOrder(cs, regs)
    ensures InOrder(OfRp(cs, rpId), regs)
  {
    if cs != [] {
      var front, last := cs[..|cs| - 1], cs[|cs| - 1];
      OfRpIsInOrder(front, regs, rpId);
      OfRpMembers(front, rpId);
      AppendInOrder(front, OfRp(front, rpId), last, regs);
    }
  }

  lemma {:induction false} ValidIsInOrder(cs: seq<Credential>, regs: seq<Credential>, usable: set<Blob>)
    requires InOrder(cs, regs)
    ensures InOrder(Valid(cs, usable), regs)
  {
    if cs != [] {
      var front, last := cs[..|cs| - 1], cs[|cs| - 1];
      ValidIsInOrder(front, regs, usable);
      HandlerRuns.ValidMembers(front, usable);
      AppendInOrder(front, Valid(front, usable), last, regs);
    }
  }

  /** Some of the entries before the last one, and then the last one, or not. */
  lemma AppendInOrder(front: seq<Credential>, part: seq<Credential>, last: Credential, regs: seq<Credential>)
    requires InOrder(front + [last], regs) && InOrder(part, regs) && forall c <- part :: c in front
    ensures InOrder(part + [last], regs) && InOrder(part + [], regs)
  {
    hide FirstWithKey;
    assert part + [] == part;
    forall i | 0 <= i < |part|
      ensures FirstWithKey(regs, part[i].Key()) < FirstWithKey(regs, last.Key())
    {
      assert part[i] in part;
      var k :| 0 <= k < |front| && front[k] == part[i];
      assert (front + [last])[k] == part[i] && (front + [last])[|front|] == last;
    }
  }

  /** `found` has, of this relying party, the latest registration of each user for whom it is usable, and nothing else,
      each once and in the order in which the users registered first. */
  ghost predicate FindsUsers(found: seq<Credential>, regs: seq<Credential>, rpId: string, usable: set<Blob>) {
    && (forall c <- found :: c.rpId == rpId && c.credentialId in usable && IsLatest(regs, c))
    && (forall j: nat :: LatestAt(regs, j) && regs[j].rpId == rpId && regs[j].credentialId in usable ==> regs[j] in found)
    && InOrder(found, regs)
  }

  /** After any run from an empty store, whether or not the disk could be written, a discovery finds exactly the usable
      ones among the latest credentials of the relying party's users, each user once, in order of first registration. */
  lemma RegistrationToEnumeration(cfg: Config, s: State, cmds: seq<Command>, req: AssertRequest, w: AssertWorld)
    requires s.store.Some? && s.store.value.list == []
    ensures FindsUsers(Matches(Run(cfg, s, cmds), req, w), Registered(cfg, cmds), req.rpId, w.usable)
  {
    StoreHoldsRegistered(cfg, s, cmds);
    var regs := Registered(cfg, cmds);
    hide Run, Registered, IsLatest, LatestAt, InOrder;
    RegisteredAreListed(regs);
    var list := PutAll([], regs);
    OfRpIsInOrder(list, regs, req.rpId);
    ValidIsInOrder(OfRp(list, req.rpId), regs, w.usable);
    OfRpMembers(list, req.rpId);
    HandlerRuns.ValidMembers(OfRp(list, req.rpId), w.usable);
  }

  // ---------------------------------------------------------------- a registration is discovered

  /** The command asks for a resident credential of this user. */
  predicate RegistersUser(cmd: Command, rpId: string, userId: Blob) {
    && cmd.MakeCredential? && cmd.makeRequest.Some? && cmd.makeRequest.value.residentKey
    && cmd.makeRequest.value.rpId == rpId && cmd.makeRequest.value.user.id == userId
  }

  /** A registration stays the latest of its user until that user registers again. */
  lemma {:induction false} RegistrationStaysLatest(cfg: Config, cmds: seq<Command>, i: nat)
    requires i < |cmds| && Saved(cfg, cmds[i]).Some?
    requires var c := Saved(cfg, cmds[i]).value;
             forall k :: i < k < |cmds| ==> !RegistersUser(cmds[k], c.rpId, c.userId)
    ensures IsLatest(Registered(cfg, cmds), Saved(cfg, cmds[i]).value)
  {
    hide Saved, RegistersUser;
    var n := |cmds| - 1;
    var front, last, c := cmds[..n], cmds[n], Saved(cfg, cmds[i]).value;
    var regs := Registered(cfg, front);
    if i == n {
      LatestGrows(regs, c, |regs|);
      assert LatestAt(regs + [c], |regs|) && (regs + [c])[|regs|] == c;
    } else {
      RegistrationStaysLatest(cfg, front, i);
      if Saved(cfg, last).Some? {
        var d := Saved(cfg, last).value;
        OtherUser(cfg, last, c);
        StillLatest(regs, c, d);
      } else {
        assert regs + [] == regs;
      }
    }
  }

  lemma StillLatest(regs: seq<Credential>, c: Credential, d: Credential)
    requires IsLatest(regs, c) && d.Key() != c.Key()
    ensures IsLatest(regs + [d], c)
  {
    var j: nat :| LatestAt(regs, j) && regs[j] == c;
    LatestGrows(regs, d, j);
    assert LatestAt(regs + [d], j) && (regs + [d])[j] == c;
  }

  lemma OtherUser(cfg: Config, cmd: Command, c: Credential)
    requires Saved(cfg, cmd).Some? && !RegistersUser(cmd, c.rpId, c.userId)
    ensures Saved(cfg, cmd).value.Key() != c.Key()
  {
    SavedIsRegistered(cfg, cmd);
  }

  /** An attested registration with a resident key is discovered from then on, under the identifier, the user and the key
      handle of its request, as long as that user does not register again and the key is usable. */
  lemma RegisteredIsDiscovered(cfg: Config, s: State, cmds: seq<Command>, i: nat, req: AssertRequest, w: AssertWorld)
    requires s.store.Some? && s.store.value.list == []
    requires i < |cmds| && Answer(cfg, s, cmds, i).Attestation?
    requires cmds[i].MakeCredential? && cmds[i].makeRequest.Some? && cmds[i].makeRequest.value.residentKey
    requires var r := cmds[i].makeRequest.value;
             req.rpId == r.rpId && forall k :: i < k < |cmds| ==> !RegistersUser(cmds[k], r.rpId, r.user.id)
    requires cmds[i].makeWorld.key.Some? && cmds[i].makeWorld.key.value.handle in w.usable
    ensures exists c <- Matches(Run(cfg, s, cmds), req, w) ::
              HandlerRuns.Describes(c, cmds[i].makeRequest.value, cmds[i].makeWorld.key.value, cmds[i].makeWorld.now)
  {
    AttestedIsSaved(cfg, Run(cfg, s, cmds[..i]), cmds[i]);
    hide Run, Registered, Saved, Matches;
    var c := Saved(cfg, cmds[i]).value;
    RegistrationStaysLatest(cfg, cmds, i);
    RegistrationToEnumeration(cfg, s, cmds, req, w);
    var j: nat :| LatestAt(Registered(cfg, cmds), j) && Registered(cfg, cmds)[j] == c;
    assert c in Matches(Run(cfg, s, cmds), req, w);
  }

  lemma AttestedIsSaved(cfg: Config, s: State, cmd: Command)
    requires Exec(cfg, s, cmd).response.Attestation?
    requires cmd.MakeCredential? && cmd.makeRequest.Some? && cmd.makeRequest.value.residentKey
    ensures Saved(cfg, cmd).Some? && RegisteredBy(cfg, cmd, Saved(cfg, cmd).value)
  {
    HandlerRuns.OnlyRegistrationsAttest(cfg, s, cmd);
    HandlerRuns.AttestationMeans(cfg, s, cmd.makeRequest.value, cmd.makeWorld);
    hide Exec, Makes, MakeRefusal;
    SavedIsRegistered(cfg, cmd);
  }
}
