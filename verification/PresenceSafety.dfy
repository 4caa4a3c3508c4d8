/** What is promised to callers of the admission engine, for every interleaving. */
module PresenceSafety {
  import opened Wrappers
  import opened PresenceLedger
  import opened PresenceHistory
  import opened PresenceProtocol

  predicate HoldsLock(s: System, a: Action) {
    a.Advance? && a.id in s.calls && s.calls[a.id].pc.Locking? && DigestReady(s.calls[a.id])
  }

  function SectionAt(s: System, a: Action): Section
    requires HoldsLock(s, a)
  {
    SectionOf(s.calls[a.id].request)
  }

  /** The action records a new decision. */
  predicate Commits(s: System, a: Action) {
    HoldsLock(s, a) && Admits(s.ledger, SectionAt(s, a))
  }

  // ----- every interleaving is a run of lock sections

  /** The actions among the first `n` that run a lock section which can write. */
  ghost function LockActions(actions: seq<Action>, states: seq<System>, n: nat): seq<nat>
    requires n <= |actions| <= |states|
  {
    if n == 0 then []
    else LockActions(actions, states, n - 1) + if HoldsLock(states[n - 1], actions[n - 1]) then [n - 1] else []
  }

  ghost predicate Projects(actions: seq<Action>, states: seq<System>, n: nat, at: seq<nat>, ss: seq<Section>, ls: seq<Ledger>)
    requires n <= |actions| < |states|
  {
    && |at| == |ss|
    && IsRun(ss, ls)
    && ls[|ss|] == states[n].ledger
    && (forall i | 0 <= i < |at| ::
          at[i] < n && HoldsLock(states[at[i]], actions[at[i]]) && SectionAt(states[at[i]], actions[at[i]]) == ss[i]
          && ls[i] == states[at[i]].ledger)
    && (forall i, j | 0 <= i < j < |at| :: at[i] < at[j])
  }

  /** Dropping everything outside the lock leaves a run of sections that ends in the same ledger. */
  lemma {:induction false} InterleavingIsARun(actions: seq<Action>, states: seq<System>, n: nat)
    returns (ss: seq<Section>, ls: seq<Ledger>)
    requires IsBehaviour(actions, states) && n <= |actions|
    ensures Projects(actions, states, n, LockActions(actions, states, n), ss, ls)
  {
    if n == 0 {
      ss, ls := [], [EMPTY_LEDGER];
    } else {
      ss, ls := InterleavingIsARun(actions, states, n - 1);
      var s, a := states[n - 1], actions[n - 1];
      LedgerMovesUnderLock(s, a);
      hide Step, Apply, HoldsLock, Projects;
      if HoldsLock(s, a) {
        ss, ls := ProjectionExtends(actions, states, n, LockActions(actions, states, n - 1), ss, ls);
      } else {
        ProjectionStays(actions, states, n, LockActions(actions, states, n - 1), ss, ls);
      }
    }
  }

  lemma ProjectionStays(actions: seq<Action>, states: seq<System>, n: nat, at: seq<nat>, ss: seq<Section>, ls: seq<Ledger>)
    requires 0 < n <= |actions| < |states| && Projects(actions, states, n - 1, at, ss, ls)
    requires states[n].ledger == states[n - 1].ledger
    ensures Projects(actions, states, n, at, ss, ls)
  {
    hide HoldsLock, IsRun;
  }

  lemma ProjectionExtends(actions: seq<Action>, states: seq<System>, n: nat, at: seq<nat>, ss: seq<Section>, ls: seq<Ledger>)
    returns (ss': seq<Section>, ls': seq<Ledger>)
    requires 0 < n <= |actions| < |states| && Projects(actions, states, n - 1, at, ss, ls)
    requires HoldsLock(states[n - 1], actions[n - 1])
    requires states[n].ledger == Apply(states[n - 1].ledger, SectionAt(states[n - 1], actions[n - 1])).ledger
    ensures Projects(actions, states, n, at + [n - 1], ss', ls')
  {
    var s := SectionAt(states[n - 1], actions[n - 1]);
    RunExtends(ss, ls, s, states[n].ledger);
    ss', ls' := ss + [s], ls + [states[n].ledger];
    hide HoldsLock, IsRun, Apply, SectionAt;
  }

  lemma RunExtends(ss: seq<Section>, ls: seq<Ledger>, s: Section, l: Ledger)
    requires IsRun(ss, ls) && l == Apply(ls[|ss|], s).ledger
    ensures IsRun(ss + [s], ls + [l])
  {
    hide Apply;
  }

  lemma LedgerMovesUnderLock(s: System, a: Action)
    ensures HoldsLock(s, a) ==>
              && Step(s, a).ledger == Apply(s.ledger, SectionAt(s, a)).ledger
              && Step(s, a).calls[a.id].pc == Returned(Apply(s.ledger, SectionAt(s, a)).response)
    ensures !HoldsLock(s, a) ==> Step(s, a).ledger == s.ledger
  {
    hide Apply, LookUp;
  }

  /** Conservation in every reachable state. */
  lemma ReachableLedgerIsBalanced(actions: seq<Action>, states: seq<System>, n: nat)
    requires IsBehaviour(actions, states) && n <= |actions|
    ensures Balanced(states[n].ledger, |states[n].ledger.decisions|)
  {
    var ss, ls := InterleavingIsARun(actions, states, n);
    Conservation(ss, ls, |ss|);
  }

  // ----- gap-free sequences

  /** The action records the decision for `key` that carries number `q`. */
  ghost predicate CommitsAs(s: System, a: Action, key: SequenceKey, q: nat) {
    && Commits(s, a)
    && (SectionAt(s, a).principal, SectionAt(s, a).observation.houseId) == key
    && DecisionOf(s.ledger, SectionAt(s, a)).sequence == q
  }

  ghost predicate IsCarried(actions: seq<Action>, states: seq<System>, n: nat, key: SequenceKey, q: nat)
    requires n <= |actions| <= |states|
  {
    exists k :: 0 <= k < n && CommitsAs(states[k], actions[k], key, q)
  }

  /** In every reachable state the decisions of one principal and house carry exactly the
      numbers from 1 to the counter, in the order of the actions that recorded them, and
      the counter is far from its 64-bit limit. */
  lemma SequencesAreGapFree(actions: seq<Action>, states: seq<System>, n: nat, key: SequenceKey)
    requires IsBehaviour(actions, states) && n <= |actions|
    ensures CurrentSequence(states[n].ledger, key) <= MAX_RECORDED_OBSERVATIONS < U64_MAX
    ensures forall q: nat | 1 <= q <= CurrentSequence(states[n].ledger, key) :: IsCarried(actions, states, n, key, q)
    ensures forall k, q: nat | 0 <= k < n && CommitsAs(states[k], actions[k], key, q) ::
              1 <= q <= CurrentSequence(states[n].ledger, key)
    ensures forall j, k, p: nat, q: nat | 0 <= j < k < n
              && CommitsAs(states[j], actions[j], key, p) && CommitsAs(states[k], actions[k], key, q) :: p < q
  {
    hide Admits, DecisionOf, CarriesSequence, CommitsAs, IsRun, LockActions, CurrentSequence;
    var at := LockActions(actions, states, n);
    var ss, ls := InterleavingIsARun(actions, states, n);
    OverflowIsUnreachable(ss, ls, |ss|, key);
    forall q: nat | 1 <= q <= CurrentSequence(states[n].ledger, key)
      ensures IsCarried(actions, states, n, key, q)
    {
      var i := EverySequenceIsCarried(ss, ls, |ss|, key, q);
      CarriedByItsAction(actions, states, n, at, ss, ls, i, key, q);
      assert CommitsAs(states[at[i]], actions[at[i]], key, q);
    }
    forall k, q: nat | 0 <= k < n && CommitsAs(states[k], actions[k], key, q)
      ensures 1 <= q <= CurrentSequence(states[n].ledger, key)
    {
      var i := CarryingSection(actions, states, n, at, ss, ls, k, key, q);
      CarriedIsCounted(ss, ls, i, |ss|, key, q);
    }
    forall j, k, p: nat, q: nat | 0 <= j < k < n
      && CommitsAs(states[j], actions[j], key, p) && CommitsAs(states[k], actions[k], key, q)
      ensures p < q
    {
      var h := CarryingSection(actions, states, n, at, ss, ls, j, key, p);
      var i := CarryingSection(actions, states, n, at, ss, ls, k, key, q);
      assert h < i;
      CarriedInOrder(ss, ls, h, i, key, p, q);
    }
  }

  lemma CarriedByItsAction(actions: seq<Action>, states: seq<System>, n: nat, at: seq<nat>, ss: seq<Section>, ls: seq<Ledger>,
                           i: nat, key: SequenceKey, q: nat)
    requires n <= |actions| < |states| && Projects(actions, states, n, at, ss, ls) && i < |ss|
    ensures CommitsAs(states[at[i]], actions[at[i]], key, q) <==> CarriesSequence(ss, ls, i, key, q)
  {
    hide HoldsLock, SectionAt, Admits, DecisionOf;
  }

  lemma CarryingSection(actions: seq<Action>, states: seq<System>, n: nat, at: seq<nat>, ss: seq<Section>, ls: seq<Ledger>,
                        k: nat, key: SequenceKey, q: nat) returns (i: nat)
    requires n <= |actions| < |states| && Projects(actions, states, n, at, ss, ls)
    requires at == LockActions(actions, states, n)
    requires k < n && CommitsAs(states[k], actions[k], key, q)
    ensures i < |ss| && at[i] == k && CarriesSequence(ss, ls, i, key, q)
  {
    i := LockIndex(actions, states, n, k);
    CarriedByItsAction(actions, states, n, at, ss, ls, i, key, q);
  }

  // ----- one decision per observation

  /** Every decision handed out is the one on record for the observation. */
  ghost predicate AnswersMatchRecord(s: System) {
    forall id | HasReturned(s, id) && s.calls[id].pc.response.Decided? ::
      AnswersFromRecord(s.ledger, s.calls[id])
  }

  ghost predicate AnswersFromRecord(l: Ledger, c: Call)
    requires c.pc.Returned? && c.pc.response.Decided?
  {
    && c.request.Submit?
    && c.request.observation.digest.Some?
    && c.request.observation.observationId in l.decisions
    && l.decisions[c.request.observation.observationId]
       == Recorded(c.request.observation.digest.value, c.pc.response.decision)
  }

  lemma StepKeepsAnswers(s: System, a: Action)
    requires Consistent(s) && AnswersMatchRecord(s)
    ensures AnswersMatchRecord(Step(s, a))
  {
    if a.Advance? && a.id in s.calls {
      assert CallConsistent(s.calls[a.id]);
      if HoldsLock(s, a) {
        SectionEffect(s.ledger, SectionAt(s, a));
        SectionAnswersFromRecord(s.ledger, SectionAt(s, a));
      }
      hide Apply, Admits, DecisionOf;
    }
  }

  lemma SectionAnswersFromRecord(l: Ledger, s: Section)
    ensures Apply(l, s).response.Decided? ==>
              && s.Commit?
              && s.observation.observationId in Apply(l, s).ledger.decisions
              && Apply(l, s).ledger.decisions[s.observation.observationId]
                 == Recorded(s.digest, Apply(l, s).response.decision)
  {
  }

  lemma {:induction false} AnswersAlwaysMatch(actions: seq<Action>, states: seq<System>, n: nat)
    requires IsBehaviour(actions, states) && n <= |actions|
    ensures AnswersMatchRecord(states[n])
  {
    hide Step, AnswersFromRecord;
    if n > 0 {
      AnswersAlwaysMatch(actions, states, n - 1);
      AlwaysConsistent(actions, states, n - 1);
      StepKeepsAnswers(states[n - 1], actions[n - 1]);
    }
  }

  /** All successful responses for one observation id are the same decision, given for the
      same digest. */
  lemma OneDecisionPerObservation(actions: seq<Action>, states: seq<System>, n: nat, a: CallId, b: CallId)
    requires IsBehaviour(actions, states) && n <= |actions|
    requires HasReturned(states[n], a) && states[n].calls[a].pc.response.Decided?
    requires HasReturned(states[n], b) && states[n].calls[b].pc.response.Decided?
    requires states[n].calls[a].request.Submit? && states[n].calls[b].request.Submit?
    requires states[n].calls[a].request.observation.observationId == states[n].calls[b].request.observation.observationId
    ensures states[n].calls[a].pc.response == states[n].calls[b].pc.response
    ensures states[n].calls[a].request.observation.digest == states[n].calls[b].request.observation.digest
  {
    AnswersAlwaysMatch(actions, states, n);
    assert AnswersFromRecord(states[n].ledger, states[n].calls[a]);
    assert AnswersFromRecord(states[n].ledger, states[n].calls[b]);
  }

  ghost predicate RecordedBy(s: System, a: Action, id: Uuid, recorded: Recorded) {
    && Commits(s, a)
    && var r := s.calls[a.id].request;
       && r.Submit?
       && r.shapeValid && r.authorization == Allowed && r.verification == Verified
       && r.observation.observationId == id
       && r.observation.digest == Some(recorded.digest)
       && recorded.decision == DecisionOf(s.ledger, SectionAt(s, a))
       && Step(s, a).calls[a.id].pc == Returned(Decided(recorded.decision))
  }

  lemma CommitIsAuthorized(s: System, a: Action)
    requires Consistent(s) && Commits(s, a)
    ensures var o := s.calls[a.id].request.observation;
      && RecordedBy(s, a, o.observationId, Recorded(o.digest.value, DecisionOf(s.ledger, SectionAt(s, a))))
      && o.observationId !in s.ledger.decisions
      && Step(s, a).ledger.decisions
         == s.ledger.decisions[o.observationId := Recorded(o.digest.value, DecisionOf(s.ledger, SectionAt(s, a)))]
  {
    assert CallConsistent(s.calls[a.id]);
    LedgerMovesUnderLock(s, a);
    SectionEffect(s.ledger, SectionAt(s, a));
    hide Step, LookUp, CommitObstacle;
  }

  lemma OnlyCommitsRecord(s: System, a: Action)
    requires !Commits(s, a)
    ensures Step(s, a).ledger == s.ledger.(nonces := Step(s, a).ledger.nonces)
    ensures Step(s, a).ledger == s.ledger || (HoldsLock(s, a) && s.calls[a.id].request.IssueNonce?)
  {
    LedgerMovesUnderLock(s, a);
    if HoldsLock(s, a) {
      SectionEffect(s.ledger, SectionAt(s, a));
    }
  }

  /** Each decision on record was put there by exactly one action, of a call whose shape was
      valid and which was itself authorized and verified. */
  lemma {:induction false} DecisionHasItsCall(actions: seq<Action>, states: seq<System>, n: nat, id: Uuid) returns (k: nat)
    requires IsBehaviour(actions, states) && n <= |actions|
    requires id in states[n].ledger.decisions
    ensures k < n && RecordedBy(states[k], actions[k], id, states[n].ledger.decisions[id])
    ensures forall j | 0 <= j < n && Commits(states[j], actions[j])
              && states[j].calls[actions[j].id].request.observation.observationId == id :: j == k
  {
    var s, a := states[n - 1], actions[n - 1];
    AlwaysConsistent(actions, states, n - 1);
    if Commits(s, a) {
      CommitIsAuthorized(s, a);
    } else {
      OnlyCommitsRecord(s, a);
    }
    hide Step, RecordedBy, DecisionOf, CallConsistent;
    if id in s.ledger.decisions {
      k := DecisionHasItsCall(actions, states, n - 1, id);
    } else {
      k := n - 1;
      forall j | 0 <= j < n && Commits(states[j], actions[j])
        && states[j].calls[actions[j].id].request.observation.observationId == id
        ensures j == k
      {
        if j < k {
          AlwaysConsistent(actions, states, j);
          CommitIsAuthorized(states[j], actions[j]);
          RecordIsKept(actions, states, j + 1, k, id);
        }
      }
    }
  }

  lemma {:induction false} RecordIsKept(actions: seq<Action>, states: seq<System>, m: nat, n: nat, id: Uuid)
    requires IsBehaviour(actions, states) && m <= n <= |actions|
    requires id in states[m].ledger.decisions
    ensures id in states[n].ledger.decisions && states[n].ledger.decisions[id] == states[m].ledger.decisions[id]
  {
    if m < n {
      RecordIsKept(actions, states, m, n - 1, id);
      var s, a := states[n - 1], actions[n - 1];
      AlwaysConsistent(actions, states, n - 1);
      if Commits(s, a) {
        CommitIsAuthorized(s, a);
      } else {
        OnlyCommitsRecord(s, a);
      }
      hide Step, RecordedBy, DecisionOf, CallConsistent;
    }
  }

  /** A refused submission changed nothing, at any of its steps. */
  lemma RefusedSubmissionChangesNothing(actions: seq<Action>, states: seq<System>, n: nat, id: CallId, i: nat)
    requires IsBehaviour(actions, states) && i < n <= |actions|
    requires HasReturned(states[n], id) && states[n].calls[id].request.Submit? && states[n].calls[id].pc.response.Refused?
    requires actions[i] == Advance(id)
    ensures states[i + 1].ledger == states[i].ledger
  {
    var s, a := states[i], actions[i];
    AlwaysConsistent(actions, states, i);
    if Commits(s, a) {
      CommitIsAuthorized(s, a);
    } else {
      OnlyCommitsRecord(s, a);
    }
    if id in s.calls {
      CallsPersist(actions, states, i, n, id);
      CallsPersist(actions, states, i + 1, n, id);
    }
    hide DecisionOf, CallConsistent;
  }

  // ----- nonces

  /** Different `issue_nonce` calls draw different nonces. */
  ghost predicate FreshDraws(s: System) {
    forall a, b | a in s.calls && b in s.calls && a != b && s.calls[a].request.IssueNonce? && s.calls[b].request.IssueNonce? ::
      s.calls[a].request.nonce != s.calls[b].request.nonce
  }

  lemma ProjectionIsFresh(actions: seq<Action>, states: seq<System>, n: nat, at: seq<nat>, ss: seq<Section>, ls: seq<Ledger>)
    requires IsBehaviour(actions, states) && n <= |actions| && FreshDraws(states[n])
    requires Projects(actions, states, n, at, ss, ls)
    ensures FreshNonces(ss)
  {
    forall i, j | 0 <= i < j < |ss| && ss[i].Issue? && ss[j].Issue? ensures ss[i].nonce != ss[j].nonce {
      var a, b := actions[at[i]].id, actions[at[j]].id;
      LedgerMovesUnderLock(states[at[i]], actions[at[i]]);
      assert HasReturned(states[at[i] + 1], a);
      CallsPersist(actions, states, at[i] + 1, at[j], a);
      CallsPersist(actions, states, at[i], n, a);
      CallsPersist(actions, states, at[j], n, b);
    }
  }

  /** Single use and binding for calls: a committed submission used a nonce that an
      `issue_nonce` call had handed to the same principal for the same house, less than 60
      seconds before by the two calls' own timestamps, and no other commit used it. */
  lemma NonceAdmitsOneCall(actions: seq<Action>, states: seq<System>, n: nat, k: nat) returns (j: nat)
    requires IsBehaviour(actions, states) && n <= |actions| && FreshDraws(states[n])
    requires k < n && Commits(states[k], actions[k])
    ensures j < k && HoldsLock(states[j], actions[j]) && Grants(states[j].ledger, SectionAt(states[j], actions[j]))
    ensures var issued, used := SectionAt(states[j], actions[j]), SectionAt(states[k], actions[k]);
      && issued.nonce == used.observation.submissionNonce
      && issued.principal == used.principal
      && issued.houseId == used.observation.houseId
      && used.now < issued.now + 60 * SECOND
    ensures forall m | 0 <= m < n && Commits(states[m], actions[m])
              && SectionAt(states[m], actions[m]).observation.submissionNonce
                 == SectionAt(states[k], actions[k]).observation.submissionNonce :: m == k
  {
    var at := LockActions(actions, states, n);
    var ss, ls := InterleavingIsARun(actions, states, n);
    ProjectionIsFresh(actions, states, n, at, ss, ls);
    var i := LockIndex(actions, states, n, k);
    hide Admits, Grants, LockActions;
    var g := NonceIsBound(ss, ls, i);
    j := at[g];
    forall m | 0 <= m < n && Commits(states[m], actions[m])
      && SectionAt(states[m], actions[m]).observation.submissionNonce
         == SectionAt(states[k], actions[k]).observation.submissionNonce
      ensures m == k
    {
      var h := LockIndex(actions, states, n, m);
      NonceIsSingleUse(ss, ls, i, h);
    }
  }

  lemma {:induction false} LockIndex(actions: seq<Action>, states: seq<System>, n: nat, k: nat) returns (i: nat)
    requires k < n <= |actions| <= |states| && HoldsLock(states[k], actions[k])
    ensures i < |LockActions(actions, states, n)| && LockActions(actions, states, n)[i] == k
  {
    if k == n - 1 {
      i := |LockActions(actions, states, n - 1)|;
    } else {
      i := LockIndex(actions, states, n - 1, k);
    }
  }

  // ----- retries

  /** No two observations submitted so far share a digest. */
  ghost predicate DigestsDistinguish(s: System) {
    forall a, b | a in s.calls && b in s.calls && s.calls[a].request.Submit? && s.calls[b].request.Submit?
      && s.calls[a].request.observation.digest.Some?
      && s.calls[a].request.observation.digest == s.calls[b].request.observation.digest ::
      s.calls[a].request.observation == s.calls[b].request.observation
  }

  /** A submission succeeds only for the very observation that was committed. */
  lemma SuccessIsForCommittedObservation(actions: seq<Action>, states: seq<System>, n: nat, id: CallId) returns (k: nat)
    requires IsBehaviour(actions, states) && n <= |actions| && DigestsDistinguish(states[n])
    requires HasReturned(states[n], id) && states[n].calls[id].pc.response.Decided?
    ensures k < n && Commits(states[k], actions[k])
    ensures states[n].calls[id].request.Submit?
    ensures SectionAt(states[k], actions[k]).observation == states[n].calls[id].request.observation
    ensures DecisionOf(states[k].ledger, SectionAt(states[k], actions[k])) == states[n].calls[id].pc.response.decision
    ensures states[n].calls[id].pc.response.decision.eventId == SectionAt(states[k], actions[k]).eventId
    ensures states[n].calls[id].pc.response.decision.recordedAt == SectionAt(states[k], actions[k]).now
  {
    AnswersAlwaysMatch(actions, states, n);
    assert AnswersFromRecord(states[n].ledger, states[n].calls[id]);
    k := DecisionHasItsCall(actions, states, n, states[n].calls[id].request.observation.observationId);
    CallsPersist(actions, states, k, n, actions[k].id);
    CommitDescribesItsObservation(states[k].ledger, SectionAt(states[k], actions[k]));
    hide Admits, Apply, DecisionOf;
  }

  /** Whoever gets a decision gets the one on their own observation: it repeats the
      observation's identifiers, follows the sequence the observation claimed, and asks for
      confirmation exactly when the direction was ambiguous. */
  lemma DecisionDescribesTheObservation(actions: seq<Action>, states: seq<System>, n: nat, id: CallId)
    requires IsBehaviour(actions, states) && n <= |actions| && DigestsDistinguish(states[n])
    requires HasReturned(states[n], id) && states[n].calls[id].pc.response.Decided?
    ensures states[n].calls[id].request.Submit?
    ensures var o, d := states[n].calls[id].request.observation, states[n].calls[id].pc.response.decision;
      && (d.kind == ConfirmationRequired <==> o.ambiguous)
      && (d.reason == AmbiguousDirection <==> o.ambiguous)
      && d.observationId == o.observationId && d.houseId == o.houseId && d.doorId == o.doorId
      && d.direction == o.direction && d.policyVersion == o.policyVersion
      && d.sequence == o.previousSequence + 1
  {
    var k := SuccessIsForCommittedObservation(actions, states, n, id);
    CommitDescribesItsObservation(states[k].ledger, SectionAt(states[k], actions[k]));
  }

  lemma CommitDescribesItsObservation(l: Ledger, s: Section)
    requires Admits(l, s)
    ensures var o, d := s.observation, DecisionOf(l, s);
      && (d.kind == ConfirmationRequired <==> o.ambiguous)
      && (d.reason == AmbiguousDirection <==> o.ambiguous)
      && d.observationId == o.observationId && d.houseId == o.houseId && d.doorId == o.doorId
      && d.direction == o.direction && d.policyVersion == o.policyVersion
      && d.sequence == o.previousSequence + 1 && d.eventId == s.eventId && d.recordedAt == s.now
  {
  }
}
