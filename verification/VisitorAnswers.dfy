/** What `check_in` and `check_out` answer, told by the events before: when a closed visit is
    still known, when a code is used up, and which refusal a request gets. */
module VisitorAnswers {
  import opened Wrappers
  import opened Text
  import opened VisitorClaims
  import opened VisitorToken
  import opened VisitorLedger
  import opened VisitorRuns
  import opened RedemptionLimit

  // ----- how long a closed visit is known

  const DAY: int := 24 * 3600 * 1_000_000_000

  /** A check-in that got past the redemption limit, whether or not there was room for it. */
  predicate PassesLimit(cfg: Config, s: State, e: Event) {
    e.Entry? && (Apply(cfg, s, e).response.CheckedIn? || Apply(cfg, s, e).response == Refused(CapacityReached))
  }

  /** Since event `c`, which closed a visit, a check-in more than 24 hours later passed the limit. */
  ghost predicate Forgotten(cfg: Config, es: seq<Event>, ss: seq<State>, c: nat, n: nat)
    requires n <= |es| <= |ss| && c < |es|
  {
    exists k :: c < k < n && PassesLimit(cfg, ss[k], es[k]) && es[k].now > es[c].now + DAY
  }

  /** What one event does to a visit closed before. */
  lemma ClosedVisitFate(cfg: Config, s: State, e: Event, id: Uuid)
    requires id in s.visits && !IsOpen(s.visits[id])
    requires e.Entry? ==> e.draws.visitId != id
    ensures var after := Apply(cfg, s, e).state.visits;
      && (id in after <==> !(PassesLimit(cfg, s, e) && e.now > s.visits[id].checkedOutAt.value + DAY))
      && (id in after ==> after[id] == s.visits[id])
  {
    if e.Entry? {
      VerifyReadsClaims(cfg, e.entry.qrToken, e.entry.doorId, Action.CheckIn, e.now);
    }
    hide Verify, ValidBoundedText, Trim, RedemptionKey, VerifyReceipt, ByteLen, ReceiptTag, KeptRedemptions, OpenVisits;
    hide AuthenticClaims, MeantFor, InWindow;
  }

  lemma ForgottenNext(cfg: Config, es: seq<Event>, ss: seq<State>, c: nat, n: nat)
    requires c < n < |es| <= |ss|
    ensures Forgotten(cfg, es, ss, c, n + 1)
       <==> Forgotten(cfg, es, ss, c, n) || (PassesLimit(cfg, ss[n], es[n]) && es[n].now > es[c].now + DAY)
  {
    hide PassesLimit;
  }

  lemma ClosingIsRecorded(cfg: Config, s: State, e: Event, id: Uuid)
    requires ClosesVisit(cfg, s, e, id)
    ensures StillOpen(s, id)
    ensures id in Apply(cfg, s, e).state.visits
    ensures Apply(cfg, s, e).state.visits[id].checkedOutAt == Some(e.now)
  {
    VisitsEffect(cfg, s, e);
    hide Apply;
  }

  /** A closed visit is known until a check-in that passes the redemption limit comes more
      than 24 hours after the closing, and never again. */
  lemma {:induction false} ClosedVisitIsKeptExactly(cfg: Config, es: seq<Event>, ss: seq<State>, c: nat, n: nat, id: Uuid)
    requires IsRun(cfg, es, ss) && FreshVisits(es) && c < n <= |es|
    requires ClosesVisit(cfg, ss[c], es[c], id)
    ensures id in ss[n].visits <==> !Forgotten(cfg, es, ss, c, n)
    ensures id in ss[n].visits ==> ss[n].visits[id].checkedOutAt == Some(es[c].now)
  {
    hide Apply, FreshVisits, ClosesVisit, PassesLimit, Forgotten, Opens;
    ClosingIsRecorded(cfg, ss[c], es[c], id);
    if n == c + 1 {
      assert !Forgotten(cfg, es, ss, c, n) by { NothingForgottenYet(cfg, es, ss, c); }
    } else {
      ClosedVisitIsKeptExactly(cfg, es, ss, c, n - 1, id);
      ForgottenNext(cfg, es, ss, c, n - 1);
      StaysNew(cfg, es, ss, c, n - 1, id);
      VisitEffect(cfg, ss[n - 1], es[n - 1], id);
      ClosedStaysClosed(cfg, es, ss, c, n - 1, id);
      if id in ss[n - 1].visits {
        ClosedVisitFate(cfg, ss[n - 1], es[n - 1], id);
      }
    }
  }

  lemma NothingForgottenYet(cfg: Config, es: seq<Event>, ss: seq<State>, c: nat)
    requires c < |es| <= |ss|
    ensures !Forgotten(cfg, es, ss, c, c + 1)
  {
  }

  // ----- check_out

  ghost predicate OpensVisit(cfg: Config, s: State, e: Event, id: Uuid) {
    Opens(cfg, s, e) && e.draws.visitId == id
  }

  /** Every visit on record was opened by a check-in that succeeded. */
  lemma {:induction false} RecordedVisitWasOpened(cfg: Config, es: seq<Event>, ss: seq<State>, n: nat, id: Uuid) returns (i: nat)
    requires IsRun(cfg, es, ss) && n <= |es| && id in ss[n].visits
    ensures i < n && OpensVisit(cfg, ss[i], es[i], id)
  {
    hide Apply, Opens, ClosesVisit;
    VisitEffect(cfg, ss[n - 1], es[n - 1], id);
    if OpensVisit(cfg, ss[n - 1], es[n - 1], id) {
      i := n - 1;
    } else {
      i := RecordedVisitWasOpened(cfg, es, ss, n - 1, id);
    }
  }

  /** The MAC of a receipt. */
  function TagOf(cfg: Config, receipt: string): seq<Byte> {
    cfg.mac("hhm.visitor-checkout-receipt.v1\0" + receipt)
  }

  /** The check-out at `n` is of the visit that event `i` opened. */
  ghost predicate IsOfVisit(cfg: Config, es: seq<Event>, ss: seq<State>, i: nat, n: nat)
    requires n < |es| <= |ss| && es[n].Exit?
  {
    i < n && OpensVisit(cfg, ss[i], es[i], es[n].exit.visitId)
  }

  /** Event `c` closed the visit of the check-out at `n` before. */
  ghost predicate WasClosedBy(cfg: Config, es: seq<Event>, ss: seq<State>, c: nat, n: nat)
    requires n < |es| <= |ss| && es[n].Exit?
  {
    c < n && ClosesVisit(cfg, ss[c], es[c], es[n].exit.visitId)
  }

  /** A check-out refused before the lock, by its code or the length of its receipt. */
  lemma EarlyCheckOutRefusal(cfg: Config, s: State, e: Event)
    requires e.Exit?
    ensures var r, verdict := e.exit, Verify(cfg, e.exit.qrToken, e.exit.doorId, Action.CheckOut, e.now);
      && (verdict.Some? ==> Apply(cfg, s, e) == Outcome(s, Refused(verdict.value)))
      && (verdict.None? && (r.checkoutReceipt == "" || ByteLen(r.checkoutReceipt) > 256) ==>
            Apply(cfg, s, e) == Outcome(s, Refused(InvalidReceipt)))
  {
    hide Verify, ByteLen, VerifyReceipt;
  }

  /** The check-out carries a verified exit code and a receipt of allowed length. */
  predicate ReachesVisits(cfg: Config, e: Event) {
    && e.Exit?
    && Verify(cfg, e.exit.qrToken, e.exit.doorId, Action.CheckOut, e.now) == None
    && e.exit.checkoutReceipt != "" && ByteLen(e.exit.checkoutReceipt) <= 256
  }

  lemma VisitsAnswer(cfg: Config, s: State, e: Event)
    requires ReachesVisits(cfg, e)
    ensures var id, receipt := e.exit.visitId, e.exit.checkoutReceipt;
      Apply(cfg, s, e).response ==
        if id !in s.visits then Refused(VisitNotFound)
        else if s.visits[id].checkedOutAt.Some? then Refused(AlreadyCheckedOut)
        else if HasControl(receipt) || TagOf(cfg, receipt) != s.visits[id].receiptTag then Refused(InvalidReceipt)
        else CheckedOut(id, e.now)
  {
    hide Verify, ByteLen, HasControl;
  }

  /** A check-out again of a closed visit answers that it was checked out already, until the
      visit is forgotten. */
  lemma RepeatedCheckOutAnswersExactly(cfg: Config, es: seq<Event>, ss: seq<State>, c: nat, n: nat)
    requires IsRun(cfg, es, ss) && FreshVisits(es) && n < |es| && ReachesVisits(cfg, es[n])
    requires WasClosedBy(cfg, es, ss, c, n)
    ensures Apply(cfg, ss[n], es[n]).response
         == Refused(if Forgotten(cfg, es, ss, c, n) then VisitNotFound else AlreadyCheckedOut)
  {
    hide Apply, FreshVisits, Verify, ByteLen, ClosesVisit, Forgotten, HasControl, TagOf;
    VisitsAnswer(cfg, ss[n], es[n]);
    ClosedVisitIsKeptExactly(cfg, es, ss, c, n, es[n].exit.visitId);
  }

  /** What a check-out with a verified code answers: a visit never opened is unknown, a closed
      one is closed until forgotten, and an open one closes for its receipt alone. */
  lemma CheckOutAnswersExactly(cfg: Config, es: seq<Event>, ss: seq<State>, n: nat)
    requires IsRun(cfg, es, ss) && FreshVisits(es) && n < |es| && ReachesVisits(cfg, es[n])
    ensures var answer, receipt := Apply(cfg, ss[n], es[n]).response, es[n].exit.checkoutReceipt;
      && (!(exists i: nat :: IsOfVisit(cfg, es, ss, i, n)) ==> answer == Refused(VisitNotFound))
      && (forall c: nat | c < n && WasClosedBy(cfg, es, ss, c, n) ::
            answer == Refused(if Forgotten(cfg, es, ss, c, n) then VisitNotFound else AlreadyCheckedOut))
      && (forall i: nat | IsOfVisit(cfg, es, ss, i, n) && !(exists c: nat :: WasClosedBy(cfg, es, ss, c, n)) ::
            answer == if !HasControl(receipt)
                         && TagOf(cfg, receipt) == TagOf(cfg, es[i].draws.first + "." + es[i].draws.second)
                      then CheckedOut(es[n].exit.visitId, es[n].now)
                      else Refused(InvalidReceipt))
  {
    assert |ss| == |es| + 1;
    hide Apply, FreshVisits, IsRun, Verify, ByteLen, WasClosedBy, Opens, Forgotten, HasControl, TagOf;
    VisitsAnswer(cfg, ss[n], es[n]);
    if es[n].exit.visitId in ss[n].visits {
      var i := RecordedVisitWasOpened(cfg, es, ss, n, es[n].exit.visitId);
      assert IsOfVisit(cfg, es, ss, i, n);
    }
    forall c: nat | c < n && WasClosedBy(cfg, es, ss, c, n)
      ensures Apply(cfg, ss[n], es[n]).response
           == Refused(if Forgotten(cfg, es, ss, c, n) then VisitNotFound else AlreadyCheckedOut)
    {
      RepeatedCheckOutAnswersExactly(cfg, es, ss, c, n);
    }
    forall i: nat | IsOfVisit(cfg, es, ss, i, n) && !(exists c: nat :: WasClosedBy(cfg, es, ss, c, n))
      ensures StillOpen(ss[n], es[n].exit.visitId)
      ensures ss[n].visits[es[n].exit.visitId].receiptTag == TagOf(cfg, es[i].draws.first + "." + es[i].draws.second)
    {
      UnclosedVisitKeepsItsTag(cfg, es, ss, i, n);
    }
  }

  lemma UnclosedVisitKeepsItsTag(cfg: Config, es: seq<Event>, ss: seq<State>, i: nat, n: nat)
    requires IsRun(cfg, es, ss) && FreshVisits(es) && n < |es| && es[n].Exit?
    requires IsOfVisit(cfg, es, ss, i, n) && !(exists c: nat :: WasClosedBy(cfg, es, ss, c, n))
    ensures StillOpen(ss[n], es[n].exit.visitId)
    ensures ss[n].visits[es[n].exit.visitId].receiptTag == TagOf(cfg, es[i].draws.first + "." + es[i].draws.second)
  {
    assert es[i].Entry?;
    hide Apply, FreshVisits, Opens, ClosesVisit;
    forall k | i < k < n ensures !ClosesVisit(cfg, ss[k], es[k], es[i].draws.visitId) {
      assert !WasClosedBy(cfg, es, ss, k, n);
    }
    OpenVisitKeepsItsTag(cfg, es, ss, i, n);
  }

  // ----- redemption counters

  /** How many of the events from `i` up to `n` redeemed a code with this key. */
  ghost function RedeemedSince(cfg: Config, es: seq<Event>, ss: seq<State>, i: nat, n: nat, key: string): nat
    requires n <= |es| <= |ss|
  {
    if n <= i then 0
    else RedeemedSince(cfg, es, ss, i, n - 1, key) + if RedeemsKey(cfg, ss[n - 1], es[n - 1], key) then 1 else 0
  }

  predicate RedeemsKey(cfg: Config, s: State, e: Event, key: string) {
    HoldsLock(cfg, e) && KeyAt(cfg, e) == key && Opens(cfg, s, e)
  }

  /** The event discards a counter started in minute `minute`: any check-in that reaches the
      lock does, admitted or not, when its own minute is more than two later. */
  predicate Discards(cfg: Config, e: Event, minute: int) {
    HoldsLock(cfg, e) && Minute(e.now) > minute + 2
  }

  /** Event `i` redeemed a code when its counter was missing or old, and no event between
      `i` and `n` discarded the counter that it started. */
  ghost predicate CountsFrom(cfg: Config, es: seq<Event>, ss: seq<State>, i: nat, n: nat, key: string)
    requires n <= |es| <= |ss|
  {
    && i < n
    && RedeemsKey(cfg, ss[i], es[i], key)
    && (key in ss[i].redemptions ==> Discards(cfg, es[i], ss[i].redemptions[key].minute))
    && forall k | i < k < n :: !Discards(cfg, es[k], Minute(es[i].now))
  }

  /** What one event does to one counter. */
  lemma CounterEffect(cfg: Config, s: State, e: Event, key: string)
    ensures var after, live := Apply(cfg, s, e).state.redemptions,
                               key in s.redemptions && !Discards(cfg, e, s.redemptions[key].minute);
      if RedeemsKey(cfg, s, e, key) then
        && key in after
        && after[key] == if live then Redemption(s.redemptions[key].minute, s.redemptions[key].count + 1)
                         else Redemption(Minute(e.now), 1)
      else
        && (key in after <==> live)
        && (live ==> after[key] == s.redemptions[key])
  {
    hide Verify, VerifyReceipt, ByteLen, ValidBoundedText, Trim, RedemptionKey, KeptVisits, OpenVisits, ReceiptTag;
  }

  /** The counter on record is the one that event `i` started. */
  ghost predicate IsCounted(cfg: Config, es: seq<Event>, ss: seq<State>, i: nat, n: nat, key: string)
    requires i < n <= |es| < |ss|
  {
    && key in ss[n].redemptions
    && ss[n].redemptions[key] == Redemption(Minute(es[i].now), RedeemedSince(cfg, es, ss, i, n, key))
  }

  ghost predicate CountersExplained(cfg: Config, es: seq<Event>, ss: seq<State>, n: nat, key: string)
    requires n <= |es| < |ss|
  {
    && (key in ss[n].redemptions <==> exists i: nat :: CountsFrom(cfg, es, ss, i, n, key))
    && (forall i: nat | CountsFrom(cfg, es, ss, i, n, key) :: i < n && IsCounted(cfg, es, ss, i, n, key))
  }

  /** Whatever the clocks, a counter on record was started by one redemption, holds that
      redemption's minute and counts the redemptions since; and every counter started and
      not discarded is on record. */
  lemma CounterExactly(cfg: Config, es: seq<Event>, ss: seq<State>, n: nat, key: string)
    requires IsRun(cfg, es, ss) && n <= |es| < |ss|
    ensures key in ss[n].redemptions <==> exists i: nat :: CountsFrom(cfg, es, ss, i, n, key)
    ensures forall i: nat | CountsFrom(cfg, es, ss, i, n, key) :: i < n && IsCounted(cfg, es, ss, i, n, key)
  {
    hide IsRun, CountsFrom, IsCounted;
    EventsExplain(cfg, es, ss, n, key);
  }

  lemma {:induction false} EventsExplain(cfg: Config, es: seq<Event>, ss: seq<State>, n: nat, key: string)
    requires IsRun(cfg, es, ss) && n <= |es| < |ss|
    ensures CountersExplained(cfg, es, ss, n, key)
  {
    hide Apply, CountersExplained;
    if n == 0 {
      NothingToExplain(cfg, es, ss, key);
    } else {
      EventsExplain(cfg, es, ss, n - 1, key);
      EventExplains(cfg, es, ss, n - 1, key);
    }
  }

  lemma NothingToExplain(cfg: Config, es: seq<Event>, ss: seq<State>, key: string)
    requires |es| < |ss| && ss[0] == EMPTY_STATE
    ensures CountersExplained(cfg, es, ss, 0, key)
  {
    hide RedeemsKey, Discards;
  }

  lemma EventExplains(cfg: Config, es: seq<Event>, ss: seq<State>, n: nat, key: string)
    requires n < |es| < |ss| && ss[n + 1].redemptions == Apply(cfg, ss[n], es[n]).state.redemptions
    requires CountersExplained(cfg, es, ss, n, key)
    ensures CountersExplained(cfg, es, ss, n + 1, key)
  {
    CounterEffect(cfg, ss[n], es[n], key);
    hide Apply, CountsFrom, IsCounted, RedeemsKey, Discards;
    var next := n + 1;
    forall i: nat | CountsFrom(cfg, es, ss, i, next, key) ensures i < next && IsCounted(cfg, es, ss, i, next, key) {
      StillCounted(cfg, es, ss, i, n, key);
    }
    if key in ss[n + 1].redemptions {
      var i := n;
      if key in ss[n].redemptions && !Discards(cfg, es[n], ss[n].redemptions[key].minute) {
        i :| CountsFrom(cfg, es, ss, i, n, key);
        assert ss[n].redemptions[key].minute == Minute(es[i].now) by { StartIsItsMinute(cfg, es, ss, i, n, key); }
      }
      CountsFromNext(cfg, es, ss, i, n, key);
    }
  }

  lemma StartIsItsMinute(cfg: Config, es: seq<Event>, ss: seq<State>, i: nat, n: nat, key: string)
    requires i < n <= |es| < |ss| && IsCounted(cfg, es, ss, i, n, key)
    ensures key in ss[n].redemptions && ss[n].redemptions[key].minute == Minute(es[i].now)
  {
  }

  lemma StillCounted(cfg: Config, es: seq<Event>, ss: seq<State>, i: nat, n: nat, key: string)
    requires n < |es| < |ss| && ss[n + 1].redemptions == Apply(cfg, ss[n], es[n]).state.redemptions
    requires CountsFrom(cfg, es, ss, i, n, key) ==> i < n && IsCounted(cfg, es, ss, i, n, key)
    requires CountsFrom(cfg, es, ss, i, n + 1, key)
    ensures i < n + 1 && IsCounted(cfg, es, ss, i, n + 1, key)
  {
    CountsFromNext(cfg, es, ss, i, n, key);
    CounterEffect(cfg, ss[n], es[n], key);
    hide Apply, CountsFrom, RedeemsKey, Discards;
    if i == n {
      assert RedeemedSince(cfg, es, ss, i, i, key) == 0;
    }
  }

  lemma CountsFromNext(cfg: Config, es: seq<Event>, ss: seq<State>, i: nat, n: nat, key: string)
    requires n < |es| <= |ss|
    ensures CountsFrom(cfg, es, ss, i, n + 1, key) <==>
              if i < n then CountsFrom(cfg, es, ss, i, n, key) && !Discards(cfg, es[n], Minute(es[i].now))
              else i == n && RedeemsKey(cfg, ss[i], es[i], key)
                   && (key in ss[i].redemptions ==> Discards(cfg, es[i], ss[i].redemptions[key].minute))
  {
    hide RedeemsKey, Discards;
  }

  // ----- check_in

  /** A check-in refused before the lock: by its code, the notice or the name, in that order. */
  lemma EarlyCheckInRefusal(cfg: Config, s: State, e: Event)
    requires cfg.Valid() && e.Entry?
    ensures var name, verdict := Trim(e.entry.displayName), Verify(cfg, e.entry.qrToken, e.entry.doorId, Action.CheckIn, e.now);
      if verdict.Some? then Apply(cfg, s, e) == Outcome(s, Refused(verdict.value))
      else if e.entry.noticeVersion != cfg.noticeVersion then Apply(cfg, s, e) == Outcome(s, Refused(NoticeNotAccepted))
      else if name == "" || |name| > 120 || HasControl(name) then Apply(cfg, s, e) == Outcome(s, Refused(InvalidVisitorName))
      else HoldsLock(cfg, e)
  {
    if Verify(cfg, e.entry.qrToken, e.entry.doorId, Action.CheckIn, e.now).None? {
      VerifyReadsClaims(cfg, e.entry.qrToken, e.entry.doorId, Action.CheckIn, e.now);
      AcceptedTokenHasKey(cfg, e.entry.qrToken);
    }
    hide Verify, AuthenticClaims, RedemptionKey, Trim, HasControl, ReceiptTag;
  }

  /** Lock holders with one key hold one code. */
  lemma SameKeySameToken(cfg: Config, es: seq<Event>, i: nat, j: nat)
    requires cfg.Valid() && NoCollisions(cfg, es) && i < |es| && j < |es|
    requires HoldsLock(cfg, es[i]) && HoldsLock(cfg, es[j])
    ensures KeyAt(cfg, es[i]) == KeyAt(cfg, es[j]) <==> es[i].entry.qrToken == es[j].entry.qrToken
  {
    if KeyAt(cfg, es[i]) == KeyAt(cfg, es[j]) {
      OneKeyOneToken(cfg, es, i, j);
    }
  }

  /** Without discarding, the counter of a code is the number of its redemptions. */
  lemma {:induction false} KeptCounterCounts(cfg: Config, es: seq<Event>, ss: seq<State>, us: seq<State>, m: nat, n: nat)
    requires cfg.Valid() && NoCollisions(cfg, es) && IsKeepingRun(cfg, es, us) && |ss| == |us|
    requires m <= n < |es| && HoldsLock(cfg, es[n])
    requires forall i | 0 <= i < n && es[i].Entry? ::
               Apply(cfg, ss[i], es[i]).response == KeepingApply(cfg, us[i], es[i]).response
    ensures CounterOf(us[m], KeyAt(cfg, es[n])) == RedeemedCount(cfg, es, ss, m, es[n].entry.qrToken)
  {
    hide KeepingApply, Apply, HoldsLock, KeyAt, NoCollisions, CounterOf, Opens;
    if m == 0 {
      NoCounters(KeyAt(cfg, es[n]));
    } else {
      KeptCounterCounts(cfg, es, ss, us, m - 1, n);
      CounterAdvances(cfg, ss[m - 1], us[m - 1], es[m - 1], KeyAt(cfg, es[n]));
      if HoldsLock(cfg, es[m - 1]) {
        SameKeySameToken(cfg, es, m - 1, n);
      }
    }
  }

  lemma NoCounters(key: string)
    ensures CounterOf(EMPTY_STATE, key) == 0
  {
  }

  lemma CounterAdvances(cfg: Config, s: State, u: State, e: Event, key: string)
    requires e.Entry? ==> Apply(cfg, s, e).response == KeepingApply(cfg, u, e).response
    ensures Opens(cfg, s, e) ==> HoldsLock(cfg, e)
    ensures CounterOf(KeepingApply(cfg, u, e).state, key)
         == CounterOf(u, key) + if Opens(cfg, s, e) && HoldsLock(cfg, e) && KeyAt(cfg, e) == key then 1 else 0
  {
    hide Verify, VerifyReceipt, ByteLen, ValidBoundedText, Trim, RedemptionKey, KeptRedemptions, KeptVisits, OpenVisits;
  }

  /** What a check-in that reaches the lock answers. */
  lemma HolderAnswersExactly(cfg: Config, es: seq<Event>, ss: seq<State>, n: nat)
    requires cfg.Valid() && NoCollisions(cfg, es) && LagAtMost(cfg, es, 104)
    requires IsRun(cfg, es, ss) && FreshVisits(es) && n < |es| < |ss| && HoldsLock(cfg, es[n])
    ensures es[n].Entry?
    ensures Apply(cfg, ss[n], es[n]).response ==
              if RedeemedCount(cfg, es, ss, n, es[n].entry.qrToken) >= 128 then Refused(RateLimited)
              else if OpenedCount(cfg, es, ss, n) - ClosedCount(cfg, es, ss, n) >= 4_096 then Refused(CapacityReached)
              else CheckedIn(es[n].draws.visitId, es[n].draws.first + "." + es[n].draws.second, es[n].now)
  {
    var us := KeepingRunExists(cfg, es);
    assert |us| == |ss| == |es| + 1;
    hide Apply, KeepingApply, HoldsLock, NoCollisions, LagAtMost, FreshVisits, IsRun, IsKeepingRun, KeyAt, CountersRelated;
    DiscardingIsInvisible(cfg, es, ss, us, |es|);
    DiscardingIsInvisible(cfg, es, ss, us, n);
    KeptCounterCounts(cfg, es, ss, us, n, n);
    VisitConservation(cfg, es, ss, n);
    RelatedVisitsAreOpenTogether(ss[n], us[n], 0);
    OpenAfterDiscarding(ss[n].visits, 0);
    KeepingAnswer(cfg, us[n], es[n]);
  }

  /** What any check-in answers: refused by its code, the notice or the name, in this order;
      else its code is used up exactly after 128 redemptions and the house is full exactly
      at 4,096 open visits; else it is let in. */
  lemma CheckInAnswersExactly(cfg: Config, es: seq<Event>, ss: seq<State>, n: nat)
    requires cfg.Valid() && NoCollisions(cfg, es) && LagAtMost(cfg, es, 104)
    requires IsRun(cfg, es, ss) && FreshVisits(es) && n < |es| < |ss| && es[n].Entry?
    ensures var r, d, now, name := es[n].entry, es[n].draws, es[n].now, Trim(es[n].entry.displayName);
      Apply(cfg, ss[n], es[n]).response ==
        if Verify(cfg, r.qrToken, r.doorId, Action.CheckIn, now).Some? then
          Refused(Verify(cfg, r.qrToken, r.doorId, Action.CheckIn, now).value)
        else if r.noticeVersion != cfg.noticeVersion then Refused(NoticeNotAccepted)
        else if name == "" || |name| > 120 || HasControl(name) then Refused(InvalidVisitorName)
        else if RedeemedCount(cfg, es, ss, n, r.qrToken) >= 128 then Refused(RateLimited)
        else if OpenedCount(cfg, es, ss, n) - ClosedCount(cfg, es, ss, n) >= 4_096 then Refused(CapacityReached)
        else CheckedIn(d.visitId, d.first + "." + d.second, now)
  {
    hide Apply, HoldsLock, NoCollisions, LagAtMost, FreshVisits, IsRun, Verify, Trim, HasControl, RedeemedCount, OpenedCount, ClosedCount;
    EarlyCheckInRefusal(cfg, ss[n], es[n]);
    if HoldsLock(cfg, es[n]) {
      HolderAnswersExactly(cfg, es, ss, n);
      HolderWasNotRefused(cfg, es[n]);
    }
  }

  lemma HolderWasNotRefused(cfg: Config, e: Event)
    requires HoldsLock(cfg, e)
    ensures Verify(cfg, e.entry.qrToken, e.entry.doorId, Action.CheckIn, e.now).None?
    ensures e.entry.noticeVersion == cfg.noticeVersion
    ensures var name := Trim(e.entry.displayName); name != "" && |name| <= 120 && !HasControl(name)
  {
    hide Verify, Trim, HasControl, RedemptionKey;
  }

  lemma KeepingAnswer(cfg: Config, u: State, e: Event)
    requires HoldsLock(cfg, e)
    ensures e.Entry?
    ensures KeepingApply(cfg, u, e).response ==
              if CounterOf(u, KeyAt(cfg, e)) >= 128 then Refused(RateLimited)
              else if |OpenVisits(u.visits)| >= 4_096 then Refused(CapacityReached)
              else CheckedIn(e.draws.visitId, e.draws.first + "." + e.draws.second, e.now)
  {
    hide Verify, ValidBoundedText, Trim, RedemptionKey, ReceiptTag, OpenVisits;
  }
}
