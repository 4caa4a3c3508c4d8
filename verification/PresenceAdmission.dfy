/** The admission engine itself: the ledger's five collections as fields that the methods
    update in place. Each method is one lock section of the source, or one whole call that
    nothing interrupts. */
module PresenceAdmission {
  import opened Wrappers
  import opened PresenceLedger

  class Admission {
    var nonces: map<string, Grant>
    var usedChallenges: set<Uuid>
    var usedEvidence: set<Uuid>
    var sequences: map<SequenceKey, U64>
    var decisions: map<Uuid, Recorded>

    /** The ledger as a value. */
    ghost function Contents(): Ledger
      reads this
    {
      Ledger(nonces, usedChallenges, usedEvidence, sequences, decisions)
    }

    constructor ()
      ensures Contents() == EMPTY_LEDGER
    {
      nonces, usedChallenges, usedEvidence := map[], {}, {};
      sequences, decisions := map[], map[];
    }

    /** The lock section of `issue_nonce`. */
    method IssueLocked(principal: Principal, houseId: string, now: Instant, nonce: string) returns (response: Response)
      modifies this`nonces
      ensures Outcome(Contents(), response) == IssueSection(old(Contents()), principal, houseId, now, nonce)
    {
      var expiresAt := now + NONCE_LIFETIME;
      nonces := map n | n in nonces && nonces[n].expiresAt > now :: nonces[n];
      if |nonces| >= MAX_PENDING_NONCES {
        return Refused(RateLimited);
      }
      nonces := nonces[nonce := Grant(principal, houseId, expiresAt)];
      return NonceIssued(nonce, expiresAt);
    }

    /** The first lock section of `submit`, and the opening of the second. */
    method FindRecorded(observationId: Uuid, digest: Digest) returns (found: Option<Response>)
      ensures found == LookUp(Contents(), observationId, digest)
    {
      if observationId in decisions {
        var recorded := decisions[observationId];
        if recorded.digest == digest {
          return Some(Decided(recorded.decision));
        }
        return Some(Refused(Replayed));
      }
      return None;
    }

    /** The checks of the second lock section, in the source's order. */
    method CheckCommit(principal: Principal, o: Observation, now: Instant) returns (obstacle: Option<AdmissionError>)
      ensures obstacle == CommitObstacle(Contents(), principal, o, now)
    {
      if |decisions| >= MAX_RECORDED_OBSERVATIONS {
        return Some(RateLimited);
      }
      if o.submissionNonce !in nonces {
        return Some(Replayed);
      }
      var grant := nonces[o.submissionNonce];
      if grant.expiresAt <= now {
        return Some(Expired);
      }
      if grant.principal != principal || grant.houseId != o.houseId {
        return Some(MembershipDenied);
      }
      if o.challengeId in usedChallenges || o.evidenceId in usedEvidence {
        return Some(Replayed);
      }
      var key := (principal, o.houseId);
      var current: U64 := if key in sequences then sequences[key] else 0;
      if o.previousSequence != current {
        return Some(PolicyConflict);
      }
      if current == U64_MAX {
        return Some(PolicyConflict);
      }
      return None;
    }

    /** The second lock section of `submit`. */
    method CommitLocked(principal: Principal, o: Observation, digest: Digest, now: Instant, eventId: Uuid)
      returns (response: Response)
      modifies this
      ensures Outcome(Contents(), response) == CommitSection(old(Contents()), principal, o, digest, now, eventId)
    {
      var found := FindRecorded(o.observationId, digest);
      if found.Some? {
        return found.value;
      }
      var obstacle := CheckCommit(principal, o, now);
      if obstacle.Some? {
        return Refused(obstacle.value);
      }
      var key := (principal, o.houseId);
      var next: U64 := (if key in sequences then sequences[key] else 0) + 1;
      var kind, reason := Accepted, PlainlyAccepted;
      if o.ambiguous {
        kind, reason := ConfirmationRequired, AmbiguousDirection;
      }
      var decision := Decision(kind, reason, eventId, o.observationId, o.houseId, o.doorId,
                               o.direction, next, o.policyVersion, now);
      nonces := nonces - {o.submissionNonce};
      usedChallenges := usedChallenges + {o.challengeId};
      usedEvidence := usedEvidence + {o.evidenceId};
      sequences := sequences[key := next];
      decisions := decisions[o.observationId := Recorded(digest, decision)];
      return Decided(decision);
    }

    /** A whole uninterrupted call does what the atomic specification says. */
    method Call(r: Request) returns (response: Response)
      modifies this
      ensures Outcome(Contents(), response) == AtomicCall(old(Contents()), r)
    {
      match r
      case IssueNonce(principal, houseId, now, shapeValid, authorization, nonce) =>
        if !shapeValid {
          return Refused(InvalidRequest);
        }
        match authorization {
          case Allowed =>
          case Denied => return Refused(MembershipDenied);
          case AuthorizerUnavailable => return Refused(AuthenticationUnavailable);
        }
        response := IssueLocked(principal, houseId, now, nonce);
      case Submit(principal, o, now, shapeValid, authorization, verification, eventId) =>
        if !shapeValid {
          return Refused(EvidenceInvalid);
        }
        if o.digest.None? {
          return Refused(InvalidRequest);
        }
        var found := FindRecorded(o.observationId, o.digest.value);
        if found.Some? {
          return found.value;
        }
        match authorization {
          case Allowed =>
          case Denied => return Refused(MembershipDenied);
          case AuthorizerUnavailable => return Refused(AuthenticationUnavailable);
        }
        match verification {
          case Verified =>
          case Invalid => return Refused(EvidenceInvalid);
          case VerifierUnavailable => return Refused(AuthenticationUnavailable);
          case DeviceWasRevoked => return Refused(DeviceRevoked);
        }
        response := CommitLocked(principal, o, o.digest.value, now, eventId);
    }
  }
}
