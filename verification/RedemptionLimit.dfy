/** No code is redeemed more than 128 times, although counters are discarded: exactly as
    long as no lock holder's clock is more than 104 seconds behind an earlier holder's. */
module RedemptionLimit {
  import opened Wrappers
  import opened Text
  import opened Base64Url
  import opened VisitorClaims
  import opened VisitorToken
  import opened VisitorLedger
  import opened VisitorRuns

  // ----- lock holders

  /** The check-in passes the checks before the lock. */
  predicate HoldsLock(cfg: Config, e: Event) {
    e.Entry? && CheckInRefusal(cfg, e.entry, e.now).None?
  }

  function KeyAt(cfg: Config, e: Event): string
    requires HoldsLock(cfg, e)
  {
    RedemptionKey(e.entry.qrToken).value
  }

  function PayloadSegment(e: Event): string
    requires e.Entry?
  {
    var segments := Split(e.entry.qrToken, '.');
    if |segments| == 3 then segments[1] else ""
  }

  /** The minute that the code of a lock holder was issued for. */
  function IssuedMinute(cfg: Config, e: Event): int
    requires HoldsLock(cfg, e)
  {
    VerifyReadsClaims(cfg, e.entry.qrToken, e.entry.doorId, Action.CheckIn, e.now);
    AuthenticClaims(cfg, e.entry.qrToken).value.issuedMinute
  }

  /** No lock holder's whole second is more than `lag` before that of an earlier one. */
  ghost predicate LagAtMost(cfg: Config, es: seq<Event>, lag: nat) {
    forall i, j | 0 <= i < j < |es| && HoldsLock(cfg, es[i]) && HoldsLock(cfg, es[j]) ::
      Seconds(es[i].now) - Seconds(es[j].now) <= lag
  }

  /** The codes of the run's lock holders have no MAC collision. */
  ghost predicate NoCollisions(cfg: Config, es: seq<Event>) {
    forall i, j | 0 <= i < |es| && 0 <= j < |es| && HoldsLock(cfg, es[i]) && HoldsLock(cfg, es[j])
      && Signature(cfg, PayloadSegment(es[i])) == Signature(cfg, PayloadSegment(es[j])) ::
      PayloadSegment(es[i]) == PayloadSegment(es[j])
  }

  /** A code is held in its own minute or the 15 seconds after it. */
  lemma HolderIsInWindow(cfg: Config, e: Event)
    requires HoldsLock(cfg, e)
    ensures 60 * IssuedMinute(cfg, e) <= Seconds(e.now) <= 60 * IssuedMinute(cfg, e) + 75
    ensures IssuedMinute(cfg, e) <= Minute(e.now) <= IssuedMinute(cfg, e) + 1
  {
    VerifyReadsClaims(cfg, e.entry.qrToken, e.entry.doorId, Action.CheckIn, e.now);
    hide Verify, AuthenticClaims;
  }

  /** One key is one code... */
  lemma OneKeyOneToken(cfg: Config, es: seq<Event>, i: nat, j: nat)
    requires cfg.Valid() && NoCollisions(cfg, es) && i < |es| && j < |es|
    requires HoldsLock(cfg, es[i]) && HoldsLock(cfg, es[j]) && KeyAt(cfg, es[i]) == KeyAt(cfg, es[j])
    ensures es[i].entry.qrToken == es[j].entry.qrToken
  {
    VerifyReadsClaims(cfg, es[i].entry.qrToken, es[i].entry.doorId, Action.CheckIn, es[i].now);
    VerifyReadsClaims(cfg, es[j].entry.qrToken, es[j].entry.doorId, Action.CheckIn, es[j].now);
    assert |Split(es[i].entry.qrToken, '.')| == 3 && |Split(es[j].entry.qrToken, '.')| == 3;
    AcceptedTokenHasKey(cfg, es[i].entry.qrToken);
    AcceptedTokenHasKey(cfg, es[j].entry.qrToken);
    EncodeIsInjective(Signature(cfg, PayloadSegment(es[i])), Signature(cfg, PayloadSegment(es[j])));
    AcceptedTokensAreCanonical(cfg, es[i].entry.qrToken, es[j].entry.qrToken);
  }

  /** ...so one issued minute. */
  lemma SameKeySameMinute(cfg: Config, es: seq<Event>, i: nat, j: nat)
    requires cfg.Valid() && NoCollisions(cfg, es) && i < |es| && j < |es|
    requires HoldsLock(cfg, es[i]) && HoldsLock(cfg, es[j]) && KeyAt(cfg, es[i]) == KeyAt(cfg, es[j])
    ensures IssuedMinute(cfg, es[i]) == IssuedMinute(cfg, es[j])
  {
    OneKeyOneToken(cfg, es, i, j);
    hide HoldsLock, NoCollisions, AuthenticClaims, KeyAt;
  }

  // ----- a service that never discards anything

  function KeepingApply(cfg: Config, s: State, e: Event): Outcome {
    if !HoldsLock(cfg, e) then Apply(cfg, s, e)
    else if Exhausted(s.redemptions, KeyAt(cfg, e)) then Outcome(s, Refused(RateLimited))
    else if |OpenVisits(s.visits)| >= MAX_ACTIVE_VISITS then Outcome(s, Refused(CapacityReached))
    else
      Outcome(
        State(
          s.visits[e.draws.visitId :=
            Visit(ReceiptTag(cfg, ReceiptOf(e.draws)), Some(Trim(e.entry.displayName)), None)],
          CountOne(s.redemptions, KeyAt(cfg, e), Minute(e.now))),
        CheckedIn(e.draws.visitId, ReceiptOf(e.draws), e.now))
  }

  ghost predicate IsKeepingRun(cfg: Config, es: seq<Event>, us: seq<State>) {
    && |us| == |es| + 1
    && us[0] == EMPTY_STATE
    && forall i | 0 <= i < |es| :: us[i + 1] == KeepingApply(cfg, us[i], es[i]).state
  }

  /** Equal answers, except that checking a discarded visit out again reports it as unknown. */
  predicate SameAnswer(discarding: Response, keeping: Response) {
    discarding == keeping || (discarding == Refused(VisitNotFound) && keeping == Refused(AlreadyCheckedOut))
  }

  // ----- the simulation

  /** Only closed visits are missing from `s`. */
  ghost predicate VisitsRelated(s: State, u: State) {
    && (forall id | id in s.visits :: id in u.visits && u.visits[id] == s.visits[id])
    && (forall id | id in u.visits && id !in s.visits :: !IsOpen(u.visits[id]))
  }

  /** One of the first `n` events held the lock three or more minutes after `minute`. */
  ghost predicate Outdated(cfg: Config, es: seq<Event>, n: nat, minute: int)
    requires n <= |es|
  {
    exists j :: 0 <= j < n && HoldsLock(cfg, es[j]) && Minute(es[j].now) >= minute + 3
  }

  /** One of the first `n` events held the lock with key `key` in minute `minute`. */
  ghost predicate StartedBy(cfg: Config, es: seq<Event>, n: nat, key: string, minute: int)
    requires n <= |es|
  {
    exists i :: 0 <= i < n && HoldsLock(cfg, es[i]) && KeyAt(cfg, es[i]) == key && Minute(es[i].now) == minute
  }

  /** Only outdated counters are missing from `s`, and every counter has a first use. */
  ghost predicate CountersRelated(cfg: Config, es: seq<Event>, n: nat, s: map<string, Redemption>, u: map<string, Redemption>)
    requires n <= |es|
  {
    && (forall k | k in s :: k in u && u[k] == s[k])
    && (forall k | k in u && k !in s :: Outdated(cfg, es, n, u[k].minute))
    && (forall k | k in u :: StartedBy(cfg, es, n, k, u[k].minute))
  }

  /** While a code can still be presented, no earlier lock holder was in a minute that
      outdates the code's counter. */
  lemma CounterIsNotOutdated(cfg: Config, es: seq<Event>, n: nat, i: nat)
    requires cfg.Valid() && NoCollisions(cfg, es) && LagAtMost(cfg, es, 104)
    requires i < n < |es| && HoldsLock(cfg, es[i]) && HoldsLock(cfg, es[n]) && KeyAt(cfg, es[i]) == KeyAt(cfg, es[n])
    ensures !Outdated(cfg, es, n, Minute(es[i].now))
    ensures Minute(es[i].now) >= Minute(es[n].now) - 1
  {
    hide HoldsLock, KeyAt, IssuedMinute;
    SameKeySameMinute(cfg, es, i, n);
    HolderIsInWindow(cfg, es[i]);
    HolderIsInWindow(cfg, es[n]);
    forall j | 0 <= j < n && HoldsLock(cfg, es[j]) ensures Minute(es[j].now) < Minute(es[i].now) + 3 {
      assert Seconds(es[j].now) <= Seconds(es[n].now) + 104;
    }
  }

  /** A counter that a lock holder needs has not been discarded, and will not be now. */
  lemma NeededCounterIsKept(cfg: Config, es: seq<Event>, n: nat, s: map<string, Redemption>, u: map<string, Redemption>)
    requires cfg.Valid() && NoCollisions(cfg, es) && LagAtMost(cfg, es, 104)
    requires n < |es| && HoldsLock(cfg, es[n]) && CountersRelated(cfg, es, n, s, u)
    requires KeyAt(cfg, es[n]) in u
    ensures KeyAt(cfg, es[n]) in KeptRedemptions(s, Minute(es[n].now))
  {
    hide HoldsLock, KeyAt;
    var key := KeyAt(cfg, es[n]);
    assert StartedBy(cfg, es, n, key, u[key].minute);
    var i :| 0 <= i < n && HoldsLock(cfg, es[i]) && KeyAt(cfg, es[i]) == key && Minute(es[i].now) == u[key].minute;
    CounterIsNotOutdated(cfg, es, n, i);
  }

  /** Discarding keeps the relation: what goes is outdated by the very event that discards. */
  lemma DiscardingKeepsRelation(cfg: Config, es: seq<Event>, n: nat, s: map<string, Redemption>, u: map<string, Redemption>)
    requires n < |es| && HoldsLock(cfg, es[n]) && CountersRelated(cfg, es, n, s, u)
    ensures CountersRelated(cfg, es, n + 1, KeptRedemptions(s, Minute(es[n].now)), u)
  {
    hide HoldsLock, KeyAt;
    OutdatedGrows(cfg, es, n);
    var kept := KeptRedemptions(s, Minute(es[n].now));
    forall k | k in u && k !in kept ensures Outdated(cfg, es, n + 1, u[k].minute) {
      if k in s {
        assert HoldsLock(cfg, es[n]) && Minute(es[n].now) >= u[k].minute + 3;
      }
    }
  }

  lemma OutdatedGrows(cfg: Config, es: seq<Event>, n: nat)
    requires n < |es|
    ensures forall minute | Outdated(cfg, es, n, minute) :: Outdated(cfg, es, n + 1, minute)
    ensures forall key, minute | StartedBy(cfg, es, n, key, minute) :: StartedBy(cfg, es, n + 1, key, minute)
  {
    hide HoldsLock, KeyAt;
  }

  lemma CountingKeepsRelation(cfg: Config, es: seq<Event>, n: nat, s: map<string, Redemption>, u: map<string, Redemption>)
    requires n < |es| && HoldsLock(cfg, es[n]) && CountersRelated(cfg, es, n + 1, s, u)
    requires KeyAt(cfg, es[n]) in s <==> KeyAt(cfg, es[n]) in u
    ensures CountersRelated(cfg, es, n + 1,
              CountOne(s, KeyAt(cfg, es[n]), Minute(es[n].now)), CountOne(u, KeyAt(cfg, es[n]), Minute(es[n].now)))
  {
    hide HoldsLock, KeyAt, StartedBy, Outdated;
    HolderStarts(cfg, es, n);
    var key := KeyAt(cfg, es[n]);
    var s', u' := CountOne(s, key, Minute(es[n].now)), CountOne(u, key, Minute(es[n].now));
    forall k | k in u' ensures StartedBy(cfg, es, n + 1, k, u'[k].minute) {
      assert k != key ==> u'[k] == u[k];
    }
    forall k | k in u' && k !in s' ensures Outdated(cfg, es, n + 1, u'[k].minute) {
      assert k != key && u'[k] == u[k];
    }
    forall k | k in s' ensures k in u' && u'[k] == s'[k] {
      assert k != key ==> s'[k] == s[k];
    }
  }

  lemma HolderStarts(cfg: Config, es: seq<Event>, n: nat)
    requires n < |es| && HoldsLock(cfg, es[n])
    ensures StartedBy(cfg, es, n + 1, KeyAt(cfg, es[n]), Minute(es[n].now))
  {
    hide HoldsLock, KeyAt;
  }

  ghost predicate Related(cfg: Config, es: seq<Event>, n: nat, s: State, u: State)
    requires n <= |es|
  {
    VisitsRelated(s, u) && CountersRelated(cfg, es, n, s.redemptions, u.redemptions)
  }

  lemma RelatedVisitsAreOpenTogether(s: State, u: State, now: Instant)
    requires VisitsRelated(s, u)
    ensures OpenVisits(KeptVisits(s.visits, now)) == OpenVisits(u.visits)
    ensures VisitsRelated(s.(visits := KeptVisits(s.visits, now)), u)
  {
  }

  /** The two services' answers and states for a lock holder, case by case. */
  lemma HolderCases(cfg: Config, s: State, u: State, e: Event)
    requires HoldsLock(cfg, e)
    ensures var key, minute := KeyAt(cfg, e), Minute(e.now);
      var kept, visits := KeptRedemptions(s.redemptions, minute), KeptVisits(s.visits, e.now);
      var visit := Visit(ReceiptTag(cfg, ReceiptOf(e.draws)), Some(Trim(e.entry.displayName)), None);
      && Apply(cfg, s, e) == (
           if Exhausted(kept, key) then Outcome(State(s.visits, kept), Refused(RateLimited))
           else if |OpenVisits(visits)| >= MAX_ACTIVE_VISITS then Outcome(State(visits, kept), Refused(CapacityReached))
           else Outcome(State(visits[e.draws.visitId := visit], CountOne(kept, key, minute)),
                        CheckedIn(e.draws.visitId, ReceiptOf(e.draws), e.now)))
      && KeepingApply(cfg, u, e) == (
           if Exhausted(u.redemptions, key) then Outcome(u, Refused(RateLimited))
           else if |OpenVisits(u.visits)| >= MAX_ACTIVE_VISITS then Outcome(u, Refused(CapacityReached))
           else Outcome(State(u.visits[e.draws.visitId := visit], CountOne(u.redemptions, key, minute)),
                        CheckedIn(e.draws.visitId, ReceiptOf(e.draws), e.now)))
  {
    hide Verify, RedemptionKey, Trim, ReceiptTag, ValidBoundedText;
  }

  lemma HolderKeepsRelation(cfg: Config, es: seq<Event>, n: nat, s: State, u: State)
    requires cfg.Valid() && NoCollisions(cfg, es) && LagAtMost(cfg, es, 104)
    requires n < |es| && HoldsLock(cfg, es[n]) && Related(cfg, es, n, s, u)
    ensures Related(cfg, es, n + 1, Apply(cfg, s, es[n]).state, KeepingApply(cfg, u, es[n]).state)
    ensures Apply(cfg, s, es[n]).response == KeepingApply(cfg, u, es[n]).response
  {
    hide HoldsLock, KeyAt, NoCollisions, LagAtMost, Apply, KeepingApply, CountersRelated, Trim, ReceiptTag, OpenVisits, CountOne, KeptRedemptions, KeptVisits;
    HolderCases(cfg, s, u, es[n]);
    var key, minute := KeyAt(cfg, es[n]), Minute(es[n].now);
    var kept := KeptRedemptions(s.redemptions, minute);
    DiscardingKeepsRelation(cfg, es, n, s.redemptions, u.redemptions);
    if key in u.redemptions {
      NeededCounterIsKept(cfg, es, n, s.redemptions, u.redemptions);
    }
    KeptIsRelated(cfg, es, n + 1, kept, u.redemptions, key);
    RelatedVisitsAreOpenTogether(s, u, es[n].now);
    CountingKeepsRelation(cfg, es, n, kept, u.redemptions);
  }

  lemma KeptIsRelated(cfg: Config, es: seq<Event>, n: nat, s: map<string, Redemption>, u: map<string, Redemption>, key: string)
    requires n <= |es| && CountersRelated(cfg, es, n, s, u)
    ensures key in s ==> key in u && u[key] == s[key]
  {
  }

  /** Events that are not lock holders of `check_in` touch no counter, and only an open
      visit can change. */
  lemma OtherEffect(cfg: Config, s: State, u: State, e: Event)
    requires !HoldsLock(cfg, e) && VisitsRelated(s, u)
    ensures Apply(cfg, s, e).state.redemptions == s.redemptions
    ensures KeepingApply(cfg, u, e).state.redemptions == u.redemptions
    ensures VisitsRelated(Apply(cfg, s, e).state, KeepingApply(cfg, u, e).state)
    ensures SameAnswer(Apply(cfg, s, e).response, KeepingApply(cfg, u, e).response)
    ensures e.Entry? ==> Apply(cfg, s, e).response == KeepingApply(cfg, u, e).response
  {
    hide Verify, VerifyReceipt, ByteLen, ValidBoundedText, Trim, RedemptionKey;
  }

  lemma OtherKeepsRelation(cfg: Config, es: seq<Event>, n: nat, s: State, u: State)
    requires n < |es| && !HoldsLock(cfg, es[n]) && Related(cfg, es, n, s, u)
    ensures Related(cfg, es, n + 1, Apply(cfg, s, es[n]).state, KeepingApply(cfg, u, es[n]).state)
    ensures SameAnswer(Apply(cfg, s, es[n]).response, KeepingApply(cfg, u, es[n]).response)
    ensures es[n].Entry? ==> Apply(cfg, s, es[n]).response == KeepingApply(cfg, u, es[n]).response
  {
    hide HoldsLock, Apply, KeepingApply, Outdated, StartedBy, VisitsRelated;
    OtherEffect(cfg, s, u, es[n]);
    OutdatedGrows(cfg, es, n);
  }

  /** Under a lag of at most 104 seconds and without MAC collisions, discarding counters and
      closed visits never shows: check-ins answer exactly as if nothing was discarded. */
  lemma {:induction false} DiscardingIsInvisible(cfg: Config, es: seq<Event>, ss: seq<State>, us: seq<State>, n: nat)
    requires cfg.Valid() && NoCollisions(cfg, es) && LagAtMost(cfg, es, 104)
    requires IsRun(cfg, es, ss) && IsKeepingRun(cfg, es, us) && n <= |es|
    ensures Related(cfg, es, n, ss[n], us[n])
    ensures forall i | 0 <= i < n :: SameAnswer(Apply(cfg, ss[i], es[i]).response, KeepingApply(cfg, us[i], es[i]).response)
    ensures forall i | 0 <= i < n && es[i].Entry? ::
              Apply(cfg, ss[i], es[i]).response == KeepingApply(cfg, us[i], es[i]).response
  {
    if n > 0 {
      hide Apply, KeepingApply, HoldsLock, NoCollisions, LagAtMost, Related, SameAnswer;
      DiscardingIsInvisible(cfg, es, ss, us, n - 1);
      if HoldsLock(cfg, es[n - 1]) {
        HolderKeepsRelation(cfg, es, n - 1, ss[n - 1], us[n - 1]);
      } else {
        OtherKeepsRelation(cfg, es, n - 1, ss[n - 1], us[n - 1]);
      }
    }
  }

  // ----- the limit

  predicate Redeems(cfg: Config, s: State, e: Event, token: string) {
    Opens(cfg, s, e) && e.entry.qrToken == token
  }

  /** How often `token` was redeemed by the first `n` events. */
  ghost function RedeemedCount(cfg: Config, es: seq<Event>, ss: seq<State>, n: nat, token: string): nat
    requires n <= |es| <= |ss|
  {
    if n == 0 then 0
    else RedeemedCount(cfg, es, ss, n - 1, token) + if Redeems(cfg, ss[n - 1], es[n - 1], token) then 1 else 0
  }

  ghost predicate WithinLimit(cfg: Config, es: seq<Event>, ss: seq<State>)
    requires |es| <= |ss|
  {
    forall token :: RedeemedCount(cfg, es, ss, |es|, token) <= MAX_REDEMPTIONS_PER_CODE
  }

  ghost function CounterOf(s: State, key: string): nat {
    if key in s.redemptions then s.redemptions[key].count else 0
  }

  /** Without discarding, each counter bounds the redemptions of its codes, and is capped. */
  lemma {:induction false} KeptCountersBound(cfg: Config, es: seq<Event>, ss: seq<State>, us: seq<State>, n: nat, token: string, key: string)
    requires IsKeepingRun(cfg, es, us) && |ss| == |us| && n <= |es|
    requires forall i | 0 <= i < n && es[i].Entry? ::
               Apply(cfg, ss[i], es[i]).response == KeepingApply(cfg, us[i], es[i]).response
    requires RedemptionKey(token) == Some(key)
    ensures RedeemedCount(cfg, es, ss, n, token) <= CounterOf(us[n], key) <= MAX_REDEMPTIONS_PER_CODE
  {
    if n > 0 {
      KeptCountersBound(cfg, es, ss, us, n - 1, token, key);
      KeptCounterStep(cfg, us[n - 1], es[n - 1], key);
      hide KeepingApply, Apply, RedemptionKey, HoldsLock;
    }
  }

  lemma KeptCounterStep(cfg: Config, u: State, e: Event, key: string)
    requires CounterOf(u, key) <= MAX_REDEMPTIONS_PER_CODE
    ensures CounterOf(u, key) <= CounterOf(KeepingApply(cfg, u, e).state, key) <= MAX_REDEMPTIONS_PER_CODE
    ensures e.Entry? && KeepingApply(cfg, u, e).response.CheckedIn? && RedemptionKey(e.entry.qrToken) == Some(key) ==>
              CounterOf(KeepingApply(cfg, u, e).state, key) == CounterOf(u, key) + 1
  {
    hide Verify, VerifyReceipt, ByteLen, ValidBoundedText, Trim, RedemptionKey;
  }

  lemma {:induction false} KeylessTokenIsNeverRedeemed(cfg: Config, es: seq<Event>, ss: seq<State>, n: nat, token: string)
    requires IsRun(cfg, es, ss) && n <= |es| && RedemptionKey(token).None?
    ensures RedeemedCount(cfg, es, ss, n, token) == 0
  {
    hide Verify, ValidBoundedText, Trim, RedemptionKey;
    if n > 0 {
      KeylessTokenIsNeverRedeemed(cfg, es, ss, n - 1, token);
    }
  }

  /** Running the service that never discards on the same events. */
  lemma {:induction false} KeepingRunExists(cfg: Config, es: seq<Event>) returns (us: seq<State>)
    ensures IsKeepingRun(cfg, es, us)
  {
    if es == [] {
      us := [EMPTY_STATE];
    } else {
      var last := |es| - 1;
      var before := KeepingRunExists(cfg, es[..last]);
      us := before + [KeepingApply(cfg, before[last], es[last]).state];
      hide KeepingApply;
      forall i | 0 <= i < |es| ensures us[i + 1] == KeepingApply(cfg, us[i], es[i]).state {
        if i < last {
          assert es[..last][i] == es[i];
        }
      }
    }
  }

  /** The redemption limit: at most 128 successful redemptions of any token, over any run. */
  lemma RedemptionLimitHolds(cfg: Config, es: seq<Event>, ss: seq<State>)
    requires cfg.Valid() && NoCollisions(cfg, es) && LagAtMost(cfg, es, 104)
    requires IsRun(cfg, es, ss)
    ensures WithinLimit(cfg, es, ss)
  {
    var us := KeepingRunExists(cfg, es);
    DiscardingIsInvisible(cfg, es, ss, us, |es|);
    forall token ensures RedeemedCount(cfg, es, ss, |es|, token) <= MAX_REDEMPTIONS_PER_CODE {
      if RedemptionKey(token).Some? {
        KeptCountersBound(cfg, es, ss, us, |es|, token, RedemptionKey(token).value);
      } else {
        KeylessTokenIsNeverRedeemed(cfg, es, ss, |es|, token);
      }
    }
  }
}
