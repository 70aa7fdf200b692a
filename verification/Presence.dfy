/** Confirmation of the user's presence: at most one prompt at a time, each with a result channel of its own. */
module Presence {
  import opened Bytes
  import opened AuthData

  datatype Result = Result(ok: bool)

  /** Where a prompt stands: verifying, offering its result, about to free the slot, or over. */
  datatype Phase = Verifying | Offering(result: Result) | Releasing | Over

  /** A prompt goroutine, with the channel of its request and what the verifier said. */
  datatype Prompt = Prompt(channel: nat, challenge: Hash, application: Hash, phase: Phase, verdict: Option<Result>)

  datatype Waiting = Listening | Got(result: Result) | Left

  /** A successful call of `ConfirmPresence`, which waits on the channel it was given. */
  datatype Caller = Caller(channel: nat, challenge: Hash, application: Hash, waiting: Waiting)

  /** `slot` is the channel of the active request. Prompt and caller number n belong to the n-th accepted request. */
  datatype State = State(slot: Option<nat>, channels: nat, prompts: seq<Prompt>, callers: seq<Caller>, refusals: nat)

  const INITIAL := State(None, 0, [], [], 0)

  datatype Event =
    | Confirm(challenge: Hash, application: Hash)
    | VerifierEnds(prompt: nat, result: Result)
    | Rendezvous(prompt: nat, caller: nat)
    | SendTimesOut(prompt: nat)
    | CallerLeaves(caller: nat)
    | Release(prompt: nat)

  predicate Enabled(s: State, e: Event) {
    match e
    case Confirm(_, _) => true
    case VerifierEnds(p, _) => p < |s.prompts| && s.prompts[p].phase.Verifying?
    case Rendezvous(p, c) =>
      && p < |s.prompts| && s.prompts[p].phase.Offering?
      && c < |s.callers| && s.callers[c].waiting.Listening?
      && s.prompts[p].channel == s.callers[c].channel
    case SendTimesOut(p) => p < |s.prompts| && s.prompts[p].phase.Offering?
    case CallerLeaves(c) => c < |s.callers| && s.callers[c].waiting.Listening?
    case Release(p) => p < |s.prompts| && s.prompts[p].phase.Releasing?
  }

  /** A call of `ConfirmPresence` under the lock: refused while the slot is taken, else a new request with a new channel. */
  function Confirms(s: State, challenge: Hash, application: Hash): State {
    if s.slot.Some? then s.(refusals := s.refusals + 1)
    else State(Some(s.channels), s.channels + 1,
               s.prompts + [Prompt(s.channels, challenge, application, Verifying, None)],
               s.callers + [Caller(s.channels, challenge, application, Listening)], s.refusals)
  }

  function Step(s: State, e: Event): State
    requires Enabled(s, e)
  {
    match e
    case Confirm(challenge, application) => Confirms(s, challenge, application)
    case VerifierEnds(p, r) =>
      s.(prompts := s.prompts[p := s.prompts[p].(phase := Offering(r), verdict := Some(r))])
    case Rendezvous(p, c) =>
      s.(prompts := s.prompts[p := s.prompts[p].(phase := Releasing)],
         callers := s.callers[c := s.callers[c].(waiting := Got(s.prompts[p].phase.result))])
    case SendTimesOut(p) => s.(prompts := s.prompts[p := s.prompts[p].(phase := Releasing)])
    case CallerLeaves(c) => s.(callers := s.callers[c := s.callers[c].(waiting := Left)])
    case Release(p) => s.(slot := None, prompts := s.prompts[p := s.prompts[p].(phase := Over)])
  }

  predicate Feasible(s: State, es: seq<Event>)
    decreases |es|
  {
    es == [] || (Enabled(s, es[0]) && Feasible(Step(s, es[0]), es[1..]))
  }

  function Run(s: State, es: seq<Event>): State
    requires Feasible(s, es)
    decreases |es|
  {
    if es == [] then s else Run(Step(s, es[0]), es[1..])
  }

  // ---------------------------------------------------------------- single flight

  predicate Live(p: Prompt) {
    !p.phase.Over?
  }

  /** Channels are numbered like the requests they were made for. */
  ghost predicate OwnChannels(s: State) {
    && |s.prompts| == |s.callers| == s.channels
    && forall n :: 0 <= n < s.channels ==>
         && s.prompts[n].channel == n == s.callers[n].channel
         && s.prompts[n].challenge == s.callers[n].challenge
         && s.prompts[n].application == s.callers[n].application
  }

  /** The slot names the one live prompt, and is free exactly when there is none. */
  ghost predicate SlotIsLivePrompt(s: State) {
    forall n :: 0 <= n < |s.prompts| ==> (Live(s.prompts[n]) <==> s.slot == Some(n))
  }

  /** What a caller got is what the verifier of its own request said; a prompt that offers has not been heard yet. */
  ghost predicate OwnResults(s: State) {
    && (s.slot.Some? ==> s.slot.value < |s.prompts|)
    && forall n :: 0 <= n < |s.callers| && n < |s.prompts| ==>
         && (s.callers[n].waiting.Got? ==>
               s.prompts[n].verdict == Some(s.callers[n].waiting.result)
               && (s.prompts[n].phase.Releasing? || s.prompts[n].phase.Over?))
         && (s.prompts[n].phase.Verifying? ==> s.prompts[n].verdict == None)
         && (s.prompts[n].phase.Offering? ==> s.prompts[n].verdict == Some(s.prompts[n].phase.result))
  }

  ghost predicate Inv(s: State) {
    OwnChannels(s) && SlotIsLivePrompt(s) && OwnResults(s)
  }

  lemma OwnChannelsStep(s: State, e: Event)
    requires OwnChannels(s) && Enabled(s, e)
    ensures OwnChannels(Step(s, e))
  {
  }

  lemma SlotStep(s: State, e: Event)
    requires OwnChannels(s) && SlotIsLivePrompt(s) && Enabled(s, e)
    requires s.slot.Some? ==> s.slot.value < |s.prompts|
    ensures SlotIsLivePrompt(Step(s, e))
    ensures Step(s, e).slot.Some? ==> Step(s, e).slot.value < |Step(s, e).prompts|
  {
  }

  lemma OwnResultsStep(s: State, e: Event)
    requires OwnChannels(s) && OwnResults(s) && Enabled(s, e)
    requires Step(s, e).slot.Some? ==> Step(s, e).slot.value < |Step(s, e).prompts|
    ensures OwnResults(Step(s, e))
  {
    match e
    case Confirm(_, _) =>
    case VerifierEnds(_, _) =>
    case Rendezvous(p, c) =>
      assert p == c;
    case SendTimesOut(_) =>
    case CallerLeaves(_) =>
    case Release(_) =>
  }

  lemma InvStep(s: State, e: Event)
    requires Inv(s) && Enabled(s, e)
    ensures Inv(Step(s, e))
  {
    OwnChannelsStep(s, e);
    SlotStep(s, e);
    OwnResultsStep(s, e);
    hide OwnChannels, SlotIsLivePrompt, Step, Enabled;
  }

  lemma {:induction false} Always(s: State, es: seq<Event>)
    requires Inv(s) && Feasible(s, es)
    ensures Inv(Run(s, es))
    decreases |es|
  {
    hide Inv, Step, Enabled;
    if es != [] {
      InvStep(s, es[0]);
      Always(Step(s, es[0]), es[1..]);
    }
  }

  /** Under any interleaving: two prompts are never live at once, the slot is taken exactly while one is, and a new
      request is accepted exactly when none is. */
  lemma SingleFlight(es: seq<Event>, n: nat, m: nat, challenge: Hash, application: Hash)
    requires Feasible(INITIAL, es) && n < |Run(INITIAL, es).prompts| && m < |Run(INITIAL, es).prompts|
    ensures var s := Run(INITIAL, es);
            && (Live(s.prompts[n]) && Live(s.prompts[m]) ==> n == m)
            && (Live(s.prompts[n]) ==> s.slot == Some(n) && Confirms(s, challenge, application).prompts == s.prompts)
            && (s.slot.Some? ==> s.slot.value < |s.prompts| && Live(s.prompts[s.slot.value]))
            && (s.slot.None? ==> |Confirms(s, challenge, application).prompts| == |s.prompts| + 1)
  {
    Always(INITIAL, es);
  }

  // ---------------------------------------------------------------- what a result stands for

  lemma {:induction false} FeasiblePrefix(s: State, es: seq<Event>, n: nat)
    requires Feasible(s, es) && n < |es|
    ensures Feasible(s, es[..n]) && Enabled(Run(s, es[..n]), es[n])
    ensures Feasible(s, es[..n + 1]) && Run(s, es[..n + 1]) == Step(Run(s, es[..n]), es[n])
    decreases |es|
  {
    hide Enabled, Step;
    if n == 0 {
      assert es[..1] == [es[0]] && es[..1][1..] == [];
    } else {
      FeasiblePrefix(Step(s, es[0]), es[1..], n - 1);
      assert es[..n][1..] == es[1..][..n - 1] && es[..n + 1][1..] == es[1..][..n];
    }
  }

  /** Event `i` of the schedule is the call that made request number `n`: no other request was active then. */
  ghost predicate AcceptedAt(es: seq<Event>, i: nat, n: nat, challenge: Hash, application: Hash)
    requires Feasible(INITIAL, es)
  {
    && i < |es| && es[i] == Confirm(challenge, application)
    && Feasible(INITIAL, es[..i]) && Run(INITIAL, es[..i]).slot.None? && |Run(INITIAL, es[..i]).callers| == n
  }

  /** Every request stems from a call with its challenge and its application. */
  lemma {:induction false} RequestsAreCalls(es: seq<Event>, n: nat)
    requires Feasible(INITIAL, es) && n < |Run(INITIAL, es).callers|
    ensures var caller := Run(INITIAL, es).callers[n];
            exists i: nat :: AcceptedAt(es, i, n, caller.challenge, caller.application)
    decreases |es|
  {
    var k := |es| - 1;
    FeasiblePrefix(INITIAL, es, k);
    assert es[..k + 1] == es;
    var before := Run(INITIAL, es[..k]);
    var caller := Run(INITIAL, es).callers[n];
    CallersStay(before, es[k]);
    hide Run, Feasible, Step, Enabled;
    if n < |before.callers| {
      RequestsAreCalls(es[..k], n);
      var i: nat :| AcceptedAt(es[..k], i, n, caller.challenge, caller.application);
      assert es[..k][..i] == es[..i];
      assert AcceptedAt(es, i, n, caller.challenge, caller.application);
    } else {
      assert AcceptedAt(es, k, n, caller.challenge, caller.application);
    }
  }

  /** A step makes at most one caller, out of a call that finds the slot free; the others keep what they asked. */
  lemma CallersStay(s: State, e: Event)
    requires Enabled(s, e)
    ensures var s' := Step(s, e);
            && |s.callers| <= |s'.callers| <= |s.callers| + 1
            && (forall n :: 0 <= n < |s.callers| ==>
                  && s'.callers[n].challenge == s.callers[n].challenge
                  && s'.callers[n].application == s.callers[n].application)
            && (|s'.callers| > |s.callers| ==>
                  var caller := s'.callers[|s.callers|];
                  s.slot.None? && e == Confirm(caller.challenge, caller.application))
  {
  }

  /** A prompt has a verdict exactly when its verifier has ended, and it is what the verifier ended with. */
  lemma {:induction false} VerdictsAreEnds(es: seq<Event>, r: Result)
    requires Feasible(INITIAL, es)
    ensures var prompts := Run(INITIAL, es).prompts;
            && (forall p: nat :: VerifierEnds(p, r) in es ==> p < |prompts|)
            && (forall p: nat :: p < |prompts| ==> (prompts[p].verdict == Some(r) <==> VerifierEnds(p, r) in es))
    decreases |es|
  {
    if es != [] {
      var k := |es| - 1;
      FeasiblePrefix(INITIAL, es, k);
      assert es[..k + 1] == es && es == es[..k] + [es[k]];
      VerdictsAreEnds(es[..k], r);
      InitialInv();
      Always(INITIAL, es[..k]);
      hide Run, Feasible;
      VerdictStep(Run(INITIAL, es[..k]), es[k], r);
    }
  }

  lemma InitialInv()
    ensures Inv(INITIAL)
  {
  }

  lemma VerdictStep(s: State, e: Event, r: Result)
    requires Inv(s) && Enabled(s, e)
    ensures var prompts := Step(s, e).prompts;
            && |s.prompts| <= |prompts| && (forall p: nat :: e == VerifierEnds(p, r) ==> p < |s.prompts|)
            && (forall p: nat :: p < |s.prompts| ==>
                  (prompts[p].verdict == Some(r) <==> s.prompts[p].verdict == Some(r) || e == VerifierEnds(p, r)))
            && (forall p :: |s.prompts| <= p < |prompts| ==> prompts[p].verdict == None)
  {
  }

  /** A result that reaches a caller is what the verifier of its own request ended with, and there is no other: the
      verifier ended once only, and the request was made with the caller's challenge and application while none was
      active. It is never the result of a request made before or after, whatever timed out in between. */
  lemma ResultIsOwn(es: seq<Event>, c: nat)
    requires Feasible(INITIAL, es) && c < |Run(INITIAL, es).callers| && Run(INITIAL, es).callers[c].waiting.Got?
    ensures var caller := Run(INITIAL, es).callers[c];
            && (forall r :: VerifierEnds(c, r) in es <==> r == caller.waiting.result)
            && exists i: nat :: AcceptedAt(es, i, c, caller.challenge, caller.application)
  {
    Always(INITIAL, es);
    RequestsAreCalls(es, c);
    forall r
      ensures VerifierEnds(c, r) in es <==> r == Run(INITIAL, es).callers[c].waiting.result
    {
      VerdictsAreEnds(es, r);
    }
  }

  /** Whoever holds the slot can go on until the slot is free: the verifier may end either way, a waiting caller can be
      given the result, the offer can time out, and the prompt then frees the slot. */
  lemma PromptsGoOn(es: seq<Event>, r: Result)
    requires Feasible(INITIAL, es) && Run(INITIAL, es).slot.Some?
    ensures var s, n := Run(INITIAL, es), Run(INITIAL, es).slot.value;
            && n < |s.prompts| && n < |s.callers|
            && match s.prompts[n].phase
               case Verifying => Enabled(s, VerifierEnds(n, r)) && Step(s, VerifierEnds(n, r)).prompts[n].phase == Offering(r)
               case Offering(result) =>
                 && Enabled(s, SendTimesOut(n)) && Step(s, SendTimesOut(n)).prompts[n].phase.Releasing?
                 && (s.callers[n].waiting.Listening? ==>
                       Enabled(s, Rendezvous(n, n)) && Step(s, Rendezvous(n, n)).callers[n].waiting == Got(result))
               case Releasing => Enabled(s, Release(n)) && Step(s, Release(n)).slot == None
               case Over => false
  {
    InitialInv();
    Always(INITIAL, es);
    hide Run, Feasible;
  }

  /** How many results a schedule lets a prompt deliver. */
  function Deliveries(es: seq<Event>, p: nat): nat {
    if es == [] then 0
    else (if es[0].Rendezvous? && es[0].prompt == p then 1 else 0) + Deliveries(es[1..], p)
  }

  /** From a prompt that may still deliver at most `quota` results, a schedule delivers no more. */
  lemma {:induction false} DeliversWithin(s: State, es: seq<Event>, p: nat)
    requires Feasible(s, es)
    ensures var quota := if p < |s.prompts| && (s.prompts[p].phase.Releasing? || s.prompts[p].phase.Over?) then 0 else 1;
            Deliveries(es, p) <= quota
    decreases |es|
  {
    if es != [] {
      DeliversWithin(Step(s, es[0]), es[1..], p);
    }
  }

  /** A prompt delivers at most one result. */
  lemma AtMostOneDelivery(es: seq<Event>, p: nat)
    requires Feasible(INITIAL, es)
    ensures Deliveries(es, p) <= 1
  {
    DeliversWithin(INITIAL, es, p);
  }

  // ---------------------------------------------------------------- the object

  /** The shared slot. Its lock makes each method one step. */
  class UserPresence {
    var activeRequest: Option<nat>
    var state: State

    ghost predicate Valid()
      reads this
    {
      Inv(state) && activeRequest == state.slot
    }

    constructor ()
      ensures Valid() && state == INITIAL
    {
      activeRequest, state := None, INITIAL;
    }

    method ConfirmPresence(challenge: Hash, application: Hash) returns (channel: Option<nat>)
      requires Valid()
      modifies this
      ensures Valid() && state == Confirms(old(state), challenge, application)
      ensures channel.Some? <==> old(activeRequest).None?
      ensures channel.Some? ==> activeRequest == channel
    {
      ghost var before := state;
      if activeRequest.Some? {
        state := state.(refusals := state.refusals + 1);
        channel := None;
      } else {
        channel := Some(state.channels);
        state := State(channel, state.channels + 1,
                       state.prompts + [Prompt(state.channels, challenge, application, Verifying, None)],
                       state.callers + [Caller(state.channels, challenge, application, Listening)], state.refusals);
        activeRequest := channel;
      }
      InvStep(before, Confirm(challenge, application));
    }

    /** The end of a prompt: the slot is freed without looking whose it is. */
    method FreeSlot(p: nat)
      requires Valid() && Enabled(state, Release(p))
      modifies this
      ensures Valid() && state == Step(old(state), Release(p)) && activeRequest == None
      ensures old(activeRequest) == Some(p)
    {
      InvStep(state, Release(p));
      state := state.(slot := None, prompts := state.prompts[p := state.prompts[p].(phase := Over)]);
      activeRequest := None;
    }
  }
}
