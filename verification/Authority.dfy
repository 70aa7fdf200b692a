/** What a signature rests on: the handler's runs together with the prompts that answer them. */
module Authority {
  import opened Bytes
  import opened Credentials
  import opened AuthData
  import opened Ctap2
  import HandlerRuns
  import Prompts = Presence

  /** How the presence check of a command ends. */
  function AnswerTo(cmd: Command): Option<Presence> {
    match cmd
    case MakeCredential(_, w) => Some(w.presence)
    case GetAssertion(_, w) => Some(w.presence)
    case _ => None
  }

  /** When command `k` asked and heard a result, it heard it as caller `caller` of the presence service, which it had
      handed the pair it asked for. */
  ghost predicate Wired(cfg: Config, s: State, cmds: seq<Command>, k: nat, p: Prompts.State, caller: nat)
    requires k < |cmds|
  {
    forall ask <- Asked(cfg, s, cmds, k) :: AnswerTo(cmds[k]).Some? && AnswerTo(cmds[k]).value.Result? ==>
      && caller < |p.callers|
      && p.callers[caller].challenge == ask.challenge && p.callers[caller].application == ask.application
      && p.callers[caller].waiting == Prompts.Got(Prompts.Result(AnswerTo(cmds[k]).value.ok))
  }

  /** The presence service accepted a request with exactly this challenge and this application, and the verifier of
      that very request ended with success. */
  ghost predicate Agreed(events: seq<Prompts.Event>, prompt: nat, challenge: Blob, application: Hash) {
    && Prompts.Feasible(Prompts.INITIAL, events) && |challenge| == 32
    && Prompts.VerifierEnds(prompt, Prompts.Result(true)) in events
    && Prompts.VerifierEnds(prompt, Prompts.Result(false)) !in events
    && exists i: nat :: Prompts.AcceptedAt(events, i, prompt, challenge, application)
  }

  lemma HeardAgreement(cfg: Config, s: State, cmds: seq<Command>, k: nat, events: seq<Prompts.Event>, caller: nat,
                       ask: Ask)
    requires k < |cmds| && Prompts.Feasible(Prompts.INITIAL, events)
    requires Wired(cfg, s, cmds, k, Prompts.Run(Prompts.INITIAL, events), caller)
    requires Asked(cfg, s, cmds, k) == [ask] && AnswerTo(cmds[k]) == Some(Presence.Result(true, true))
    ensures Agreed(events, caller, ask.challenge, ask.application)
  {
    hide Asked, Prompts.AcceptedAt;
    assert ask in Asked(cfg, s, cmds, k);
    Prompts.ResultIsOwn(events, caller);
  }

  /** The assertion signs what `open` asked for, and the user agreed to just that in the given prompt. */
  ghost predicate RestsOn(cfg: Config, r: Response, counter: uint32, open: Command, events: seq<Prompts.Event>,
                           prompt: nat) {
    && open.GetAssertion? && open.assertRequest.Some?
    && var req := open.assertRequest.value;
    && Agreed(events, prompt, req.clientDataHash, cfg.hashRp(req.rpId))
    && HandlerRuns.SignsFor(cfg, r, cfg.hashRp(req.rpId), req.clientDataHash, counter)
  }

  /** Handler and presence service together, under any interleaving of prompts, verdicts, rendezvous and time-outs:
      every assertion of a run rests on a prompt for the very client data and relying party that it signs, to which the
      user agreed; it is the prompt of the last opening command. */
  lemma AssertionRestsOnVerdict(cfg: Config, s: State, cmds: seq<Command>, i: nat, events: seq<Prompts.Event>,
                                callers: seq<nat>)
    requires s.session.None? && i < |cmds| && Answer(cfg, s, cmds, i).Assertion?
    requires Prompts.Feasible(Prompts.INITIAL, events) && |callers| == |cmds|
    requires forall k :: 0 <= k < |cmds| ==> Wired(cfg, s, cmds, k, Prompts.Run(Prompts.INITIAL, events), callers[k])
    ensures var n := HandlerRuns.LastOpening(cfg, cmds[..i + 1]);
            n > 0 && RestsOn(cfg, Answer(cfg, s, cmds, i), HandlerRuns.CounterOf(cmds[i]), cmds[n - 1], events,
                             callers[n - 1])
  {
    hide Wired, HandlerRuns.SignsFor, Agreed, Asked, Answer, Prompts.Run, Prompts.Feasible;
    HandlerRuns.EveryAssertionIsConfirmed(cfg, s, cmds, i);
    var n := HandlerRuns.LastOpening(cfg, cmds[..i + 1]);
    var req := cmds[n - 1].assertRequest.value;
    HeardAgreement(cfg, s, cmds, n - 1, events, callers[n - 1], Ask(req.clientDataHash, cfg.hashRp(req.rpId)));
  }

  /** The same for every attestation: the prompt is the one of the registration itself. */
  lemma AttestationRestsOnVerdict(cfg: Config, s: State, cmds: seq<Command>, i: nat, events: seq<Prompts.Event>,
                                  caller: nat)
    requires i < |cmds| && Answer(cfg, s, cmds, i).Attestation?
    requires Prompts.Feasible(Prompts.INITIAL, events)
    requires Wired(cfg, s, cmds, i, Prompts.Run(Prompts.INITIAL, events), caller)
    ensures cmds[i].MakeCredential? && cmds[i].makeRequest.Some?
    ensures var req := cmds[i].makeRequest.value;
            Agreed(events, caller, req.clientDataHash, cfg.hashRp(req.rpId))
  {
    HandlerRuns.RegistrationIsConfirmed(cfg, Run(cfg, s, cmds[..i]), cmds[i]);
    hide Wired, Agreed, Exec;
    var req := cmds[i].makeRequest.value;
    HeardAgreement(cfg, s, cmds, i, events, caller, Ask(req.clientDataHash, cfg.hashRp(req.rpId)));
  }
}
