/** When purging expired nonces is harmless: exactly when lock holders' timestamps never
    go back. */
module PresencePurging {
  import opened Wrappers
  import opened PresenceLedger
  import opened PresenceHistory

  /** No section's timestamp is more than `lag` behind that of an earlier section. */
  ghost predicate LagAtMost(ss: seq<Section>, lag: nat) {
    forall i, j | 0 <= i < j < |ss| :: ss[i].now - ss[j].now <= lag
  }

  // ----- what the cap counts

  ghost predicate Unspent(ss: seq<Section>, ls: seq<Ledger>, j: nat, n: nat)
    requires n <= |ss| <= |ls|
    requires j < n && ss[j].Issue?
  {
    forall k | j < k < n :: !Spends(ls[k], ss[k], ss[j].nonce)
  }

  /** Nonces issued before section `n`, not consumed, and not expired at `now`. */
  ghost function Outstanding(ss: seq<Section>, ls: seq<Ledger>, n: nat, now: Instant): set<string>
    requires n <= |ss| <= |ls|
  {
    set j | 0 <= j < n && Grants(ls[j], ss[j]) && ExpiryOf(ss[j]) > now && Unspent(ss, ls, j, n) :: ss[j].nonce
  }

  lemma GrantStandsUnlessSpent(ss: seq<Section>, ls: seq<Ledger>, j: nat, n: nat)
    requires IsRun(ss, ls) && LagAtMost(ss, 0) && j < n < |ss|
    requires Grants(ls[j], ss[j]) && ExpiryOf(ss[j]) > ss[n].now
    ensures Unspent(ss, ls, j, n) <==> Stands(ss, ls, j, n)
  {
    hide Grants, Admits, Apply;
  }

  /** With timestamps in lock order, an issuing section finds exactly the outstanding nonces
      after its purge. It refuses when 10,000 of them exist, and else hands out the drawn
      nonce for 60 seconds. */
  lemma CapCountsOutstanding(ss: seq<Section>, ls: seq<Ledger>, n: nat)
    requires IsRun(ss, ls) && FreshNonces(ss) && LagAtMost(ss, 0)
    requires n < |ss| && ss[n].Issue?
    ensures LiveGrants(ls[n].nonces, ss[n].now).Keys == Outstanding(ss, ls, n, ss[n].now)
    ensures Apply(ls[n], ss[n]).response
         == if |Outstanding(ss, ls, n, ss[n].now)| >= 10_000 then Refused(RateLimited)
            else NonceIssued(ss[n].nonce, ss[n].now + 60 * SECOND)
  {
    var live, due := LiveGrants(ls[n].nonces, ss[n].now), Outstanding(ss, ls, n, ss[n].now);
    assert live.Keys == due by {
      forall nonce ensures nonce in live <==> nonce in due {
        OutstandingIsLive(ss, ls, n, nonce);
      }
    }
    assert |live| == |live.Keys|;
  }

  lemma OutstandingIsLive(ss: seq<Section>, ls: seq<Ledger>, n: nat, nonce: string)
    requires IsRun(ss, ls) && FreshNonces(ss) && LagAtMost(ss, 0)
    requires n < |ss| && ss[n].Issue?
    ensures nonce in LiveGrants(ls[n].nonces, ss[n].now) <==> nonce in Outstanding(ss, ls, n, ss[n].now)
  {
    PendingExactly(ss, ls, n, nonce);
    hide Apply, Admits, IsRun;
    if nonce in LiveGrants(ls[n].nonces, ss[n].now) {
      var j: nat :| Stands(ss, ls, j, n) && ss[j].nonce == nonce;
      GrantStandsUnlessSpent(ss, ls, j, n);
    }
    if nonce in Outstanding(ss, ls, n, ss[n].now) {
      var j :| 0 <= j < n && Grants(ls[j], ss[j]) && ExpiryOf(ss[j]) > ss[n].now && Unspent(ss, ls, j, n) && ss[j].nonce == nonce;
      GrantStandsUnlessSpent(ss, ls, j, n);
    }
  }

  // ----- a ledger that never purges

  /** Like `Apply`, but expired grants stay, and the cap looks past them. */
  function ApplyKeeping(l: Ledger, s: Section): Outcome {
    if s.Commit? then Apply(l, s)
    else if |LiveGrants(l.nonces, s.now)| >= MAX_PENDING_NONCES then Outcome(l, Refused(RateLimited))
    else Outcome(l.(nonces := l.nonces[s.nonce := GrantOf(s)]), NonceIssued(s.nonce, ExpiryOf(s)))
  }

  ghost predicate IsKeepingRun(ss: seq<Section>, us: seq<Ledger>) {
    && |us| == |ss| + 1
    && us[0] == EMPTY_LEDGER
    && forall i | 0 <= i < |ss| :: us[i + 1] == ApplyKeeping(us[i], ss[i]).ledger
  }

  /** Equal answers, except that a purged nonce is reported as replayed, not as expired. */
  predicate SameAnswer(purging: Response, keeping: Response) {
    purging == keeping || (purging == Refused(Replayed) && keeping == Refused(Expired))
  }

  ghost predicate PurgeInvisible(ss: seq<Section>, ls: seq<Ledger>, us: seq<Ledger>)
    requires |ls| == |us| == |ss| + 1
  {
    forall i | 0 <= i < |ss| :: SameAnswer(Apply(ls[i], ss[i]).response, ApplyKeeping(us[i], ss[i]).response)
  }

  /** `u` is `l` with some grants kept that had expired by time `t`. */
  ghost predicate KeepsExpired(l: Ledger, u: Ledger, t: Instant) {
    && u == l.(nonces := u.nonces)
    && (forall n | n in l.nonces :: n in u.nonces && u.nonces[n] == l.nonces[n])
    && (forall n | n in u.nonces && n !in l.nonces :: u.nonces[n].expiresAt <= t)
  }

  lemma SectionKeepsExpired(l: Ledger, u: Ledger, t: Instant, s: Section)
    requires KeepsExpired(l, u, t) && t <= s.now
    ensures KeepsExpired(Apply(l, s).ledger, ApplyKeeping(u, s).ledger, s.now)
    ensures SameAnswer(Apply(l, s).response, ApplyKeeping(u, s).response)
  {
    hide Apply, ApplyKeeping, KeepsExpired;
    if s.Issue? {
      IssueKeepsExpired(l, u, t, s);
    } else {
      KeepingCommitIsCommit(u, s);
      CommitKeepsExpired(l, u, t, s);
    }
  }

  lemma IssueKeepsExpired(l: Ledger, u: Ledger, t: Instant, s: Section)
    requires KeepsExpired(l, u, t) && t <= s.now && s.Issue?
    ensures KeepsExpired(Apply(l, s).ledger, ApplyKeeping(u, s).ledger, s.now)
    ensures SameAnswer(Apply(l, s).response, ApplyKeeping(u, s).response)
  {
    assert LiveGrants(l.nonces, s.now) == LiveGrants(u.nonces, s.now);
  }

  lemma CommitKeepsExpired(l: Ledger, u: Ledger, t: Instant, s: Section)
    requires KeepsExpired(l, u, t) && t <= s.now && s.Commit?
    ensures KeepsExpired(Apply(l, s).ledger, Apply(u, s).ledger, s.now)
    ensures SameAnswer(Apply(l, s).response, Apply(u, s).response)
  {
    ObstacleKeepsExpired(l, u, t, s);
    CommitCases(l, s);
    CommitCases(u, s);
    if CommitObstacle(l, s.principal, s.observation, s.now).None? && LookUp(l, s.observation.observationId, s.digest).None? {
      AdmissionKeepsExpired(l, u, t, s);
    }
    hide CommitObstacle, Apply, LookUp;
  }

  lemma CommitCases(l: Ledger, s: Section)
    requires s.Commit?
    ensures var found, obstacle := LookUp(l, s.observation.observationId, s.digest), CommitObstacle(l, s.principal, s.observation, s.now);
      if found.Some? then Apply(l, s) == Outcome(l, found.value)
      else obstacle.Some? ==> Apply(l, s) == Outcome(l, Refused(obstacle.value))
  {
    hide CommitObstacle, LookUp;
  }

  lemma AdmissionKeepsExpired(l: Ledger, u: Ledger, t: Instant, s: Section)
    requires KeepsExpired(l, u, t) && t <= s.now && s.Commit?
    requires Admits(l, s) && Admits(u, s)
    ensures KeepsExpired(Apply(l, s).ledger, Apply(u, s).ledger, s.now)
    ensures Apply(l, s).response == Apply(u, s).response
  {
    hide LookUp, CommitObstacle;
  }

  lemma ObstacleKeepsExpired(l: Ledger, u: Ledger, t: Instant, s: Section)
    requires KeepsExpired(l, u, t) && t <= s.now && s.Commit?
    ensures var a := CommitObstacle(l, s.principal, s.observation, s.now);
      var b := CommitObstacle(u, s.principal, s.observation, s.now);
      a == b || (a == Some(Replayed) && b == Some(Expired))
    ensures LookUp(l, s.observation.observationId, s.digest) == LookUp(u, s.observation.observationId, s.digest)
  {
  }

  lemma NothingKept(t: Instant)
    ensures KeepsExpired(EMPTY_LEDGER, EMPTY_LEDGER, t)
  {
  }

  lemma {:induction false} PurgeIsInvisible(ss: seq<Section>, ls: seq<Ledger>, us: seq<Ledger>, n: nat)
    requires IsRun(ss, ls) && IsKeepingRun(ss, us) && LagAtMost(ss, 0)
    requires n <= |ss|
    ensures forall i | 0 <= i < n :: SameAnswer(Apply(ls[i], ss[i]).response, ApplyKeeping(us[i], ss[i]).response)
    ensures KeepsExpired(ls[n], us[n], if n == 0 then 0 else ss[n - 1].now)
  {
    hide Apply, ApplyKeeping, KeepsExpired, SameAnswer;
    NothingKept(0);
    if n > 0 {
      PurgeIsInvisible(ss, ls, us, n - 1);
      var t := if n == 1 then ss[0].now else ss[n - 2].now;
      NothingKept(t);
      SectionKeepsExpired(ls[n - 1], us[n - 1], t, ss[n - 1]);
    }
  }

  /** The purge never shows if and only if timestamps never go back: a lag of one
      nanosecond can make the purge refuse a submission in time. */
  lemma PurgeIsInvisibleExactlyInOrder(lag: nat)
    ensures (forall ss, ls, us | IsRun(ss, ls) && IsKeepingRun(ss, us) && LagAtMost(ss, lag) :: PurgeInvisible(ss, ls, us))
       <==> lag == 0
  {
    if lag == 0 {
      forall ss, ls, us | IsRun(ss, ls) && IsKeepingRun(ss, us) && LagAtMost(ss, lag) ensures PurgeInvisible(ss, ls, us) {
        PurgeIsInvisible(ss, ls, us, |ss|);
      }
    } else {
      var ss, ls, us := PurgeCanRefuse();
    }
  }

  /** An issue section on a ledger that holds only grants, at most one of them live. */
  lemma IssueOnFewGrants(l: Ledger, s: Section, live: map<string, Grant>)
    requires s.Issue? && LiveGrants(l.nonces, s.now) == live && |live| <= 1
    ensures Apply(l, s).ledger == l.(nonces := live[s.nonce := GrantOf(s)])
    ensures ApplyKeeping(l, s).ledger == l.(nonces := l.nonces[s.nonce := GrantOf(s)])
  {
  }

  /** The first submission ever, holding a pending nonce of its own. */
  lemma FirstSubmission(l: Ledger, s: Section)
    requires s.Commit? && l == EMPTY_LEDGER.(nonces := l.nonces)
    requires s.observation.previousSequence == 0
    ensures s.observation.submissionNonce !in l.nonces ==> Apply(l, s).response == Refused(Replayed)
    ensures s.observation.submissionNonce in l.nonces
         && l.nonces[s.observation.submissionNonce].expiresAt > s.now
         && l.nonces[s.observation.submissionNonce].principal == s.principal
         && l.nonces[s.observation.submissionNonce].houseId == s.observation.houseId
        ==> Apply(l, s).response.Decided?
  {
  }

  /** An issue at 60 s purges the nonce issued at 0 s; the submission that holds it was
      stamped one nanosecond before. */
  lemma PurgeCanRefuse() returns (ss: seq<Section>, ls: seq<Ledger>, us: seq<Ledger>)
    ensures IsRun(ss, ls) && IsKeepingRun(ss, us) && LagAtMost(ss, 1)
    ensures !PurgeInvisible(ss, ls, us)
    ensures |ss| == 3 && Apply(ls[2], ss[2]).response == Refused(Replayed) && ApplyKeeping(us[2], ss[2]).response.Decided?
  {
    hide Apply, ApplyKeeping;
    var p := Principal("provider", "tenant", "subject");
    var o := Observation(1, "a", "house", "door", 2, 3, "entry", 0, "policy", Some(4), false);
    var s0, s1, s2 := Issue(p, "house", 0, "a"), Issue(p, "house", NONCE_LIFETIME, "b"), Commit(p, o, 4, NONCE_LIFETIME - 1, 5);
    var g0, g1 := GrantOf(s0), GrantOf(s1);
    assert "a" != "b" by { assert "a"[0] != "b"[0]; }
    var first := EMPTY_LEDGER.(nonces := map["a" := g0]);
    var purged := EMPTY_LEDGER.(nonces := map["b" := g1]);
    var kept := EMPTY_LEDGER.(nonces := map["a" := g0, "b" := g1]);
    IssueOnFewGrants(EMPTY_LEDGER, s0, map[]);
    IssueOnFewGrants(first, s1, map[]);
    assert Apply(first, s1).ledger == purged;
    assert ApplyKeeping(first, s1).ledger == kept;
    FirstSubmission(purged, s2);
    FirstSubmission(kept, s2);
    ss := [s0, s1, s2];
    ls := [EMPTY_LEDGER, first, purged, Apply(purged, s2).ledger];
    us := [EMPTY_LEDGER, first, kept, ApplyKeeping(kept, s2).ledger];
    KeepingCommitIsCommit(kept, s2);
    assert !SameAnswer(Apply(ls[2], ss[2]).response, ApplyKeeping(us[2], ss[2]).response);
  }

  lemma KeepingCommitIsCommit(l: Ledger, s: Section)
    requires s.Commit?
    ensures ApplyKeeping(l, s) == Apply(l, s)
  {
  }
}
