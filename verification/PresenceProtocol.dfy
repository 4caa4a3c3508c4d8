/** Any number of `issue_nonce` and `submit` calls in flight at once. A `submit` releases the
    lock between its look-up and its commit, and asks the authorizer and the verifier in
    between; every step of every call is a separate action, and actions interleave freely. */
module PresenceProtocol {
  import opened Wrappers
  import opened PresenceLedger
  import opened PresenceHistory

  type CallId = nat

  /** Where a call is: what it does next, or what it returned. */
  datatype Pc = Starting | LookingUp | Authorizing | Verifying | Locking | Returned(response: Response)

  datatype Call = Call(request: Request, pc: Pc)

  datatype System = System(ledger: Ledger, calls: map<CallId, Call>)

  const INITIAL := System(EMPTY_LEDGER, map[])

  datatype Action = Invoke(id: CallId, request: Request) | Advance(id: CallId)

  function Refuse(pc: Pc, refusal: Option<AdmissionError>): Pc {
    if refusal.Some? then Returned(Refused(refusal.value)) else pc
  }

  /** The next program counter of a call that does not hold the lock. */
  function NextPc(r: Request, pc: Pc): Pc {
    match pc
    case Starting => Refuse(if r.IssueNonce? then Authorizing else LookingUp, ValidationRefusal(r))
    case Authorizing => Refuse(if r.IssueNonce? then Locking else Verifying, AuthorizationRefusal(r.authorization))
    case Verifying => if r.Submit? then Refuse(Locking, VerificationRefusal(r.verification)) else pc
    case _ => pc
  }

  /** The lock section that a call runs when it is at `Locking`. */
  function SectionOf(r: Request): Section
    requires r.Submit? ==> r.observation.digest.Some?
  {
    match r
    case IssueNonce(principal, houseId, now, _, _, nonce) => Issue(principal, houseId, now, nonce)
    case Submit(principal, o, now, _, _, _, eventId) => Commit(principal, o, o.digest.value, now, eventId)
  }

  /** `observation_digest` succeeded for every submission past its first step. */
  predicate DigestReady(c: Call) {
    c.request.Submit? && !c.pc.Starting? && !c.pc.Returned? ==> c.request.observation.digest.Some?
  }

  function AdvanceCall(s: System, id: CallId): System
    requires id in s.calls
  {
    var c := s.calls[id];
    if c.pc.LookingUp? && c.request.Submit? && DigestReady(c) then
      var found := LookUp(s.ledger, c.request.observation.observationId, c.request.observation.digest.value);
      s.(calls := s.calls[id := c.(pc := if found.Some? then Returned(found.value) else Authorizing)])
    else if c.pc.Locking? && DigestReady(c) then
      var outcome := Apply(s.ledger, SectionOf(c.request));
      System(outcome.ledger, s.calls[id := c.(pc := Returned(outcome.response))])
    else
      s.(calls := s.calls[id := c.(pc := NextPc(c.request, c.pc))])
  }

  /** Invoking an id again, or advancing an unknown one, does nothing. */
  function Step(s: System, a: Action): System {
    match a
    case Invoke(id, request) => if id in s.calls then s else s.(calls := s.calls[id := Call(request, Starting)])
    case Advance(id) => if id in s.calls then AdvanceCall(s, id) else s
  }

  /** `states[i]` is the system that action `actions[i]` finds: one interleaving. */
  ghost predicate IsBehaviour(actions: seq<Action>, states: seq<System>) {
    && |states| == |actions| + 1
    && states[0] == INITIAL
    && forall i | 0 <= i < |actions| :: states[i + 1] == Step(states[i], actions[i])
  }

  // ----- what every call keeps

  /** The oracles a call has passed are those its program counter is past. */
  predicate CallConsistent(c: Call) {
    && (c.pc.LookingUp? || c.pc.Verifying? ==> c.request.Submit?)
    && (!c.pc.Starting? && !c.pc.Returned? ==> ValidationRefusal(c.request).None?)
    && (c.pc.Verifying? || c.pc.Locking? ==> AuthorizationRefusal(c.request.authorization).None?)
    && (c.pc.Locking? ==> OracleRefusal(c.request).None?)
  }

  ghost predicate Consistent(s: System) {
    forall id | id in s.calls :: CallConsistent(s.calls[id])
  }

  lemma StepKeepsConsistent(s: System, a: Action)
    requires Consistent(s)
    ensures Consistent(Step(s, a))
  {
    hide Apply, LookUp;
  }

  lemma {:induction false} AlwaysConsistent(actions: seq<Action>, states: seq<System>, n: nat)
    requires IsBehaviour(actions, states) && n <= |actions|
    ensures Consistent(states[n])
  {
    hide Step, CallConsistent;
    if n > 0 {
      AlwaysConsistent(actions, states, n - 1);
      StepKeepsConsistent(states[n - 1], actions[n - 1]);
    }
  }

  predicate HasReturned(s: System, id: CallId) {
    id in s.calls && s.calls[id].pc.Returned?
  }

  /** Calls stay, keep their request, and keep the response they returned. */
  lemma {:induction false} CallsPersist(actions: seq<Action>, states: seq<System>, m: nat, n: nat, id: CallId)
    requires IsBehaviour(actions, states) && m <= n <= |actions|
    requires id in states[m].calls
    ensures id in states[n].calls && states[n].calls[id].request == states[m].calls[id].request
    ensures HasReturned(states[m], id) ==> states[n].calls[id] == states[m].calls[id]
  {
    hide Apply, LookUp;
    if m < n {
      CallsPersist(actions, states, m, n - 1, id);
    }
  }

  // ----- linearizability

  /** The action is the one at which the call takes effect: its look-up when that finds a
      decision or when an oracle is going to refuse, its commit or issue otherwise, and
      the refusing step itself when the ledger is never consulted. */
  predicate TakesEffect(s: System, a: Action) {
    && a.Advance? && a.id in s.calls
    && var c := s.calls[a.id];
       match c.pc
       case Starting => ValidationRefusal(c.request).Some?
       case LookingUp =>
         && c.request.Submit? && c.request.observation.digest.Some?
         && (|| LookUp(s.ledger, c.request.observation.observationId, c.request.observation.digest.value).Some?
             || OracleRefusal(c.request).Some?)
       case Authorizing => c.request.IssueNonce? && OracleRefusal(c.request).Some?
       case Locking => true
       case _ => false
  }

  /** A call in the order of effects, and the action that gave it effect. */
  datatype Effect = Effect(at: nat, id: CallId, request: Request)

  ghost function Effects(actions: seq<Action>, states: seq<System>, n: nat): seq<Effect>
    requires n <= |actions| <= |states|
  {
    if n == 0 then []
    else
      var before := Effects(actions, states, n - 1);
      if TakesEffect(states[n - 1], actions[n - 1])
      then before + [Effect(n - 1, actions[n - 1].id, states[n - 1].calls[actions[n - 1].id].request)]
      else before
  }

  /** The atomic calls one after the other: the final ledger and each call's response. */
  datatype Serial = Serial(ledger: Ledger, responses: seq<Response>)

  ghost function Replay(effects: seq<Effect>): (r: Serial)
    ensures |r.responses| == |effects|
  {
    if effects == [] then Serial(EMPTY_LEDGER, [])
    else
      var before := Replay(effects[..|effects| - 1]);
      var outcome := AtomicCall(before.ledger, effects[|effects| - 1].request);
      Serial(outcome.ledger, before.responses + [outcome.response])
  }

  /** The call has taken effect: it returned, or its look-up is past and an oracle is
      about to refuse it. */
  predicate HasEffect(c: Call) {
    c.pc.Returned? || (c.request.Submit? && (c.pc.Authorizing? || c.pc.Verifying?) && OracleRefusal(c.request).Some?)
  }

  /** What an effective call returns, or is bound to return. */
  function FinalResponse(c: Call): Response
    requires HasEffect(c)
  {
    if c.pc.Returned? then c.pc.response else Refused(OracleRefusal(c.request).value)
  }

  /** The effects so far explain the system: replaying them atomically gives the ledger and
      every response, and they are exactly the calls that have taken effect, once each. */
  ghost predicate Explains(effects: seq<Effect>, s: System, n: nat) {
    && Replay(effects).ledger == s.ledger
    && (forall k | 0 <= k < |effects| :: EffectExplained(effects, k, s, n))
    && (forall j, k | 0 <= j < k < |effects| :: effects[j].at < effects[k].at && effects[j].id != effects[k].id)
    && (forall id | id in s.calls && HasEffect(s.calls[id]) :: exists k :: 0 <= k < |effects| && effects[k].id == id)
  }

  ghost predicate EffectExplained(effects: seq<Effect>, k: nat, s: System, n: nat)
    requires k < |effects|
  {
    var e := effects[k];
    && e.at < n
    && e.id in s.calls
    && s.calls[e.id].request == e.request
    && HasEffect(s.calls[e.id])
    && Replay(effects).responses[k] == FinalResponse(s.calls[e.id])
  }

  /** One action, seen through the atomic specification. */
  lemma StepIsAtomicOrSilent(s: System, a: Action)
    requires Consistent(s)
    ensures TakesEffect(s, a) ==>
              var outcome := AtomicCall(s.ledger, s.calls[a.id].request);
              && !HasEffect(s.calls[a.id])
              && Step(s, a).ledger == outcome.ledger
              && HasEffect(Step(s, a).calls[a.id])
              && FinalResponse(Step(s, a).calls[a.id]) == outcome.response
    ensures !TakesEffect(s, a) ==>
              && Step(s, a).ledger == s.ledger
              && forall id | id in s.calls && HasEffect(s.calls[id]) ::
                   HasEffect(Step(s, a).calls[id]) && FinalResponse(Step(s, a).calls[id]) == FinalResponse(s.calls[id])
    ensures forall id | id in Step(s, a).calls && HasEffect(Step(s, a).calls[id]) && !(TakesEffect(s, a) && id == a.id) ::
              id in s.calls && HasEffect(s.calls[id])
    ensures forall id | id in s.calls && (a.Invoke? || id != a.id) :: Step(s, a).calls[id] == s.calls[id]
    ensures forall id | id in s.calls :: id in Step(s, a).calls && Step(s, a).calls[id].request == s.calls[id].request
  {
    hide CommitObstacle, LiveGrants;
    if a.Advance? && a.id in s.calls {
      assert CallConsistent(s.calls[a.id]);
      assert s.calls[a.id].pc.Locking? ==>
        AtomicCall(s.ledger, s.calls[a.id].request) == Apply(s.ledger, SectionOf(s.calls[a.id].request));
    }
  }

  lemma {:induction false} EffectsExplain(actions: seq<Action>, states: seq<System>, n: nat)
    requires IsBehaviour(actions, states) && n <= |actions|
    ensures Explains(Effects(actions, states, n), states[n], n)
  {
    if n > 0 {
      hide Step, Explains, TakesEffect, Consistent;
      EffectsExplain(actions, states, n - 1);
      AlwaysConsistent(actions, states, n - 1);
      StepExplains(Effects(actions, states, n - 1), states[n - 1], actions[n - 1], n - 1);
    }
  }

  lemma StepExplains(effects: seq<Effect>, s: System, a: Action, n: nat)
    requires Consistent(s) && Explains(effects, s, n)
    ensures var after := if TakesEffect(s, a) then effects + [Effect(n, a.id, s.calls[a.id].request)] else effects;
            Explains(after, Step(s, a), n + 1)
  {
    StepIsAtomicOrSilent(s, a);
    var t, m := Step(s, a), n + 1;
    hide Step, HasEffect, FinalResponse, AtomicCall;
    if TakesEffect(s, a) {
      hide TakesEffect;
      var e := Effect(n, a.id, s.calls[a.id].request);
      var after := effects + [e];
      assert after[..|after| - 1] == effects;
      forall k | 0 <= k < |after| ensures EffectExplained(after, k, t, m) {
        if k < |effects| {
          assert EffectExplained(effects, k, s, n);
        }
      }
      forall id | id in t.calls && HasEffect(t.calls[id]) ensures exists k :: 0 <= k < |after| && after[k].id == id {
        if id == a.id {
          assert after[|effects|].id == id;
        } else {
          var k :| 0 <= k < |effects| && effects[k].id == id;
          assert after[k].id == id;
        }
      }
      forall j, k | 0 <= j < k < |after| ensures after[j].at < after[k].at && after[j].id != after[k].id {
        assert EffectExplained(effects, j, s, n);
      }
    } else {
      forall k | 0 <= k < |effects| ensures EffectExplained(effects, k, t, m) {
        assert EffectExplained(effects, k, s, n);
      }
    }
  }

  /** The response of a returned call is the one its replayed atomic call gives. */
  ghost predicate Answered(effects: seq<Effect>, k: nat, id: CallId, c: Call)
    requires k < |effects| && c.pc.Returned?
  {
    && effects[k].id == id
    && effects[k].request == c.request
    && Replay(effects).responses[k] == c.pc.response
  }

  lemma ReturnedCallIsAnswered(effects: seq<Effect>, s: System, n: nat, id: CallId) returns (k: nat)
    requires Explains(effects, s, n) && HasReturned(s, id)
    ensures k < |effects| && Answered(effects, k, id, s.calls[id])
  {
    k :| k < |effects| && effects[k].id == id;
    assert EffectExplained(effects, k, s, n);
  }

  /** The effect lies inside its call: after the invocation, before the return. */
  ghost predicate InsideCall(actions: seq<Action>, states: seq<System>, e: Effect)
    requires |actions| < |states|
  {
    && e.at < |actions|
    && actions[e.at] == Advance(e.id)
    && e.id in states[e.at].calls
    && !HasReturned(states[e.at], e.id)
  }

  lemma {:induction false} EffectIsInsideCall(actions: seq<Action>, states: seq<System>, n: nat, k: nat)
    requires IsBehaviour(actions, states) && n <= |actions| && k < |Effects(actions, states, n)|
    ensures InsideCall(actions, states, Effects(actions, states, n)[k])
  {
    hide Step, Apply;
    if k < |Effects(actions, states, n - 1)| {
      EffectIsInsideCall(actions, states, n - 1, k);
    }
  }

  /** Linearizability. The calls, replayed atomically in the order of their effects, give
      the ledger and every returned response, and each effect lies inside its call. */
  lemma Linearizability(actions: seq<Action>, states: seq<System>)
    requires IsBehaviour(actions, states)
    ensures var s := states[|actions|];
      var effects := Effects(actions, states, |actions|);
      && Replay(effects).ledger == s.ledger
      && (forall j, k | 0 <= j < k < |effects| :: effects[j].at < effects[k].at && effects[j].id != effects[k].id)
      && (forall k | 0 <= k < |effects| :: InsideCall(actions, states, effects[k]))
      && (forall id | HasReturned(s, id) :: exists k: nat :: k < |effects| && Answered(effects, k, id, s.calls[id]))
  {
    var s := states[|actions|];
    var effects := Effects(actions, states, |actions|);
    EffectsExplain(actions, states, |actions|);
    hide IsBehaviour, Effects, Answered, InsideCall;
    forall k | 0 <= k < |effects| ensures InsideCall(actions, states, effects[k]) {
      EffectIsInsideCall(actions, states, |actions|, k);
    }
    forall id | HasReturned(s, id) ensures exists k: nat :: k < |effects| && Answered(effects, k, id, s.calls[id]) {
      var k := ReturnedCallIsAnswered(effects, s, |actions|, id);
    }
  }

  /** A call that returned before another one was invoked comes first in the replay. */
  lemma RealTimeOrder(actions: seq<Action>, states: seq<System>, i: nat, j: nat, k: nat)
    requires IsBehaviour(actions, states) && i <= |actions|
    requires j < |Effects(actions, states, |actions|)| && k < |Effects(actions, states, |actions|)|
    requires HasReturned(states[i], Effects(actions, states, |actions|)[j].id)
    requires Effects(actions, states, |actions|)[k].id !in states[i].calls
    ensures j < k
  {
    var effects := Effects(actions, states, |actions|);
    EffectIsInsideCall(actions, states, |actions|, j);
    EffectIsInsideCall(actions, states, |actions|, k);
    EffectsExplain(actions, states, |actions|);
    if i <= effects[j].at {
      CallsPersist(actions, states, i, effects[j].at, effects[j].id);
    }
    if effects[k].at < i {
      CallsPersist(actions, states, effects[k].at, i, effects[k].id);
    }
  }
}
