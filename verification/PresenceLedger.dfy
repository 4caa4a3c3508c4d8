/** The presence ledger of src/presence.rs as a value, and what each critical section
    of `issue_nonce` and `submit` does to it. The class in PresenceAdmission.dfy updates
    the same ledger in place and is proved against these functions. */
module PresenceLedger {
  import opened Wrappers

  const MAX_PENDING_NONCES := 10_000
  const MAX_RECORDED_OBSERVATIONS := 100_000
  const U64_MAX := 0xFFFF_FFFF_FFFF_FFFF

  /** Points in time, in nanoseconds. */
  type Instant = int
  const SECOND: int := 1_000_000_000
  const NONCE_LIFETIME: int := 60 * SECOND

  /** Identifiers and digests are only ever compared. */
  type Uuid = nat
  type Digest = nat
  type U64 = n: nat | n <= U64_MAX

  datatype Principal = Principal(provider: string, tenant: string, subject: string)

  datatype Verification = Verified | Invalid | VerifierUnavailable | DeviceWasRevoked

  datatype ProductAuthorization = Allowed | Denied | AuthorizerUnavailable

  datatype AdmissionError =
    | InvalidRequest
    | AuthenticationUnavailable
    | DeviceRevoked
    | EvidenceInvalid
    | Expired
    | MembershipDenied
    | PolicyConflict
    | RateLimited
    | Replayed

  /** What `submit` reads of a DoorwayObservation. `digest` is what `observation_digest`
      returns on it (None when the encoding fails) and `ambiguous` is what
      `direction_requires_confirmation` returns: both are functions of the observation. */
  datatype Observation = Observation(
    observationId: Uuid,
    submissionNonce: string,
    houseId: string,
    doorId: string,
    challengeId: Uuid,
    evidenceId: Uuid,
    direction: string,
    previousSequence: U64,
    policyVersion: string,
    digest: Option<Digest>,
    ambiguous: bool)

  datatype DecisionKind = Accepted | ConfirmationRequired

  datatype DecisionReason = PlainlyAccepted | AmbiguousDirection

  datatype Decision = Decision(
    kind: DecisionKind,
    reason: DecisionReason,
    eventId: Uuid,
    observationId: Uuid,
    houseId: string,
    doorId: string,
    direction: string,
    sequence: U64,
    policyVersion: string,
    recordedAt: Instant)

  datatype Grant = Grant(principal: Principal, houseId: string, expiresAt: Instant)

  datatype Recorded = Recorded(digest: Digest, decision: Decision)

  /** Sequence numbers are kept per principal and house. */
  type SequenceKey = (Principal, string)

  datatype Ledger = Ledger(
    nonces: map<string, Grant>,
    usedChallenges: set<Uuid>,
    usedEvidence: set<Uuid>,
    sequences: map<SequenceKey, U64>,
    decisions: map<Uuid, Recorded>)

  const EMPTY_LEDGER := Ledger(map[], {}, {}, map[], map[])

  datatype Response =
    | NonceIssued(nonce: string, expiresAt: Instant)
    | Decided(decision: Decision)
    | Refused(error: AdmissionError)

  /** A ledger together with what the caller is told. */
  datatype Outcome = Outcome(ledger: Ledger, response: Response)

  // ----- issue_nonce, under the lock

  /** The grants that `retain` keeps at time `now`. */
  function LiveGrants(nonces: map<string, Grant>, now: Instant): map<string, Grant> {
    map n | n in nonces && nonces[n].expiresAt > now :: nonces[n]
  }

  /** Purge, check the cap, insert. The purge stays even when the cap refuses the request. */
  function IssueSection(l: Ledger, principal: Principal, houseId: string, now: Instant, nonce: string): Outcome {
    var live := LiveGrants(l.nonces, now);
    if |live| >= MAX_PENDING_NONCES then
      Outcome(l.(nonces := live), Refused(RateLimited))
    else
      var expiresAt := now + NONCE_LIFETIME;
      Outcome(l.(nonces := live[nonce := Grant(principal, houseId, expiresAt)]), NonceIssued(nonce, expiresAt))
  }

  // ----- submit, under the lock

  /** The idempotency check both lock sections of `submit` begin with. It compares the
      digest and not the principal. */
  function LookUp(l: Ledger, observationId: Uuid, digest: Digest): Option<Response> {
    if observationId in l.decisions then
      Some(if l.decisions[observationId].digest == digest
           then Decided(l.decisions[observationId].decision)
           else Refused(Replayed))
    else
      None
  }

  function KeyOf(principal: Principal, o: Observation): SequenceKey {
    (principal, o.houseId)
  }

  function CurrentSequence(l: Ledger, key: SequenceKey): U64 {
    if key in l.sequences then l.sequences[key] else 0
  }

  /** The first check that fails between the second look-up and the commit, if any. */
  function CommitObstacle(l: Ledger, principal: Principal, o: Observation, now: Instant): Option<AdmissionError> {
    if |l.decisions| >= MAX_RECORDED_OBSERVATIONS then Some(RateLimited)
    else if o.submissionNonce !in l.nonces then Some(Replayed)
    else
      var grant := l.nonces[o.submissionNonce];
      if grant.expiresAt <= now then Some(Expired)
      else if grant.principal != principal || grant.houseId != o.houseId then Some(MembershipDenied)
      else if o.challengeId in l.usedChallenges || o.evidenceId in l.usedEvidence then Some(Replayed)
      else if o.previousSequence != CurrentSequence(l, KeyOf(principal, o)) then Some(PolicyConflict)
      else if CurrentSequence(l, KeyOf(principal, o)) == U64_MAX then Some(PolicyConflict)
      else None
  }

  function NewDecision(o: Observation, sequence: U64, eventId: Uuid, now: Instant): Decision {
    Decision(
      if o.ambiguous then ConfirmationRequired else Accepted,
      if o.ambiguous then AmbiguousDirection else PlainlyAccepted,
      eventId, o.observationId, o.houseId, o.doorId, o.direction, sequence, o.policyVersion, now)
  }

  /** The commit consumes the nonce, the challenge and the evidence, advances the sequence
      and records the decision, all in one lock section. */
  function CommitSection(l: Ledger, principal: Principal, o: Observation, digest: Digest, now: Instant, eventId: Uuid): Outcome {
    match LookUp(l, o.observationId, digest)
    case Some(response) => Outcome(l, response)
    case None =>
      match CommitObstacle(l, principal, o, now)
      case Some(error) => Outcome(l, Refused(error))
      case None =>
        var key := KeyOf(principal, o);
        var next: U64 := CurrentSequence(l, key) + 1;
        var decision := NewDecision(o, next, eventId, now);
        Outcome(
          Ledger(
            l.nonces - {o.submissionNonce},
            l.usedChallenges + {o.challengeId},
            l.usedEvidence + {o.evidenceId},
            l.sequences[key := next],
            l.decisions[o.observationId := Recorded(digest, decision)]),
          Decided(decision))
  }

  // ----- whole calls

  /** One call, with the answers its own oracles give: the shape check, the authorizer, the
      verifier, the freshly drawn nonce or event id, and the time the call was made. */
  datatype Request =
    | IssueNonce(principal: Principal, houseId: string, now: Instant,
                 shapeValid: bool, authorization: ProductAuthorization, nonce: string)
    | Submit(principal: Principal, observation: Observation, now: Instant,
             shapeValid: bool, authorization: ProductAuthorization, verification: Verification, eventId: Uuid)

  function AuthorizationRefusal(a: ProductAuthorization): Option<AdmissionError> {
    match a
    case Allowed => None
    case Denied => Some(MembershipDenied)
    case AuthorizerUnavailable => Some(AuthenticationUnavailable)
  }

  function VerificationRefusal(v: Verification): Option<AdmissionError> {
    match v
    case Verified => None
    case Invalid => Some(EvidenceInvalid)
    case VerifierUnavailable => Some(AuthenticationUnavailable)
    case DeviceWasRevoked => Some(DeviceRevoked)
  }

  /** What the checks before the first lock answer, when they refuse the call. */
  function ValidationRefusal(r: Request): Option<AdmissionError> {
    match r
    case IssueNonce(_, _, _, shapeValid, _, _) => if shapeValid then None else Some(InvalidRequest)
    case Submit(_, o, _, shapeValid, _, _, _) =>
      if !shapeValid then Some(EvidenceInvalid)
      else if o.digest.None? then Some(InvalidRequest)
      else None
  }

  /** What the authorizer and then the verifier answer, when one of them refuses the call. */
  function OracleRefusal(r: Request): Option<AdmissionError> {
    match r
    case IssueNonce(_, _, _, _, authorization, _) => AuthorizationRefusal(authorization)
    case Submit(_, _, _, _, authorization, verification, _) =>
      if AuthorizationRefusal(authorization).Some?
      then AuthorizationRefusal(authorization)
      else VerificationRefusal(verification)
  }

  /** The atomic specification: the whole call at one instant, nothing in between. */
  function AtomicCall(l: Ledger, r: Request): Outcome {
    if ValidationRefusal(r).Some? then Outcome(l, Refused(ValidationRefusal(r).value))
    else if r.IssueNonce? then
      if OracleRefusal(r).Some? then Outcome(l, Refused(OracleRefusal(r).value))
      else IssueSection(l, r.principal, r.houseId, r.now, r.nonce)
    else
      var digest := r.observation.digest.value;
      var found := LookUp(l, r.observation.observationId, digest);
      if found.Some? then Outcome(l, found.value)
      else if OracleRefusal(r).Some? then Outcome(l, Refused(OracleRefusal(r).value))
      else CommitSection(l, r.principal, r.observation, digest, r.now, r.eventId)
  }
}
