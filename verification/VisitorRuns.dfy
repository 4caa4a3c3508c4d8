/** Any sequence of check-ins and check-outs, in the order they take the lock. Each carries
    the time it was stamped with before, so times can be out of order. */
module VisitorRuns {
  import opened Wrappers
  import opened Text
  import opened VisitorClaims
  import opened VisitorToken
  import opened VisitorLedger

  datatype Event =
    | Entry(entry: CheckInRequest, now: Instant, draws: Draws)
    | Exit(exit: CheckOutRequest, now: Instant)

  function Apply(cfg: Config, s: State, e: Event): Outcome {
    match e
    case Entry(r, now, d) => VisitorLedger.CheckIn(cfg, s, r, now, d)
    case Exit(r, now) => VisitorLedger.CheckOut(cfg, s, r, now)
  }

  /** `ss[i]` is the state that event `es[i]` finds. */
  ghost predicate IsRun(cfg: Config, es: seq<Event>, ss: seq<State>) {
    && |ss| == |es| + 1
    && ss[0] == EMPTY_STATE
    && forall i | 0 <= i < |es| :: ss[i + 1] == Apply(cfg, ss[i], es[i]).state
  }

  /** Drawn visit ids never repeat. */
  ghost predicate FreshVisits(es: seq<Event>) {
    forall i, j | 0 <= i < j < |es| && es[i].Entry? && es[j].Entry? :: es[i].draws.visitId != es[j].draws.visitId
  }

  predicate Opens(cfg: Config, s: State, e: Event) {
    e.Entry? && Apply(cfg, s, e).response.CheckedIn?
  }

  predicate Closes(cfg: Config, s: State, e: Event) {
    e.Exit? && Apply(cfg, s, e).response.CheckedOut?
  }

  predicate ClosesVisit(cfg: Config, s: State, e: Event, id: Uuid) {
    Closes(cfg, s, e) && e.exit.visitId == id
  }

  /** What an event can do to the visits. */
  lemma VisitsEffect(cfg: Config, s: State, e: Event)
    ensures var after := Apply(cfg, s, e).state.visits;
      if Opens(cfg, s, e) then
        && |OpenVisits(s.visits)| < MAX_ACTIVE_VISITS
        && after == KeptVisits(s.visits, e.now)
             [e.draws.visitId := Visit(ReceiptTag(cfg, ReceiptOf(e.draws)), Some(Trim(e.entry.displayName)), None)]
      else if Closes(cfg, s, e) then
        && e.exit.visitId in s.visits
        && IsOpen(s.visits[e.exit.visitId])
        && after == s.visits[e.exit.visitId := Visit(s.visits[e.exit.visitId].receiptTag, None, Some(e.now))]
      else
        after == s.visits || after == KeptVisits(s.visits, e.now)
  {
    hide Verify, ValidBoundedText, Trim, RedemptionKey, VerifyReceipt, ByteLen;
    assert e.Entry? ==> OpenVisits(KeptVisits(s.visits, e.now)) == OpenVisits(s.visits);
  }

  predicate StillOpen(s: State, id: Uuid) {
    id in s.visits && IsOpen(s.visits[id])
  }

  /** What an event can do to one visit: open it, close it, or leave it alone; and only
      closed visits are ever discarded. */
  lemma VisitEffect(cfg: Config, s: State, e: Event, id: Uuid)
    ensures var after := Apply(cfg, s, e).state;
      if ClosesVisit(cfg, s, e, id) then
        StillOpen(s, id) && !StillOpen(after, id)
      else if Opens(cfg, s, e) && e.draws.visitId == id then
        e.Entry? && StillOpen(after, id) && after.visits[id].receiptTag == ReceiptTag(cfg, ReceiptOf(e.draws))
      else
        && (id in after.visits ==> id in s.visits && after.visits[id] == s.visits[id])
        && (StillOpen(s, id) ==> id in after.visits)
  {
    VisitsEffect(cfg, s, e);
    hide Apply, ReceiptTag, ReceiptOf, Trim;
  }

  // ----- visits

  /** Every visit on record was opened by an earlier check-in. */
  lemma {:induction false} VisitHasItsEntry(cfg: Config, es: seq<Event>, ss: seq<State>, n: nat, id: Uuid)
    requires IsRun(cfg, es, ss) && n <= |es| && id in ss[n].visits
    ensures exists i :: 0 <= i < n && es[i].Entry? && es[i].draws.visitId == id
  {
    hide Apply, ClosesVisit;
    VisitEffect(cfg, ss[n - 1], es[n - 1], id);
    if id in ss[n - 1].visits {
      VisitHasItsEntry(cfg, es, ss, n - 1, id);
    }
  }

  ghost function OpenedCount(cfg: Config, es: seq<Event>, ss: seq<State>, n: nat): nat
    requires n <= |es| <= |ss|
  {
    if n == 0 then 0 else OpenedCount(cfg, es, ss, n - 1) + if Opens(cfg, ss[n - 1], es[n - 1]) then 1 else 0
  }

  ghost function ClosedCount(cfg: Config, es: seq<Event>, ss: seq<State>, n: nat): nat
    requires n <= |es| <= |ss|
  {
    if n == 0 then 0 else ClosedCount(cfg, es, ss, n - 1) + if Closes(cfg, ss[n - 1], es[n - 1]) then 1 else 0
  }

  /** The number of open visits is capped, and a name is kept exactly while a visit is open. */
  ghost predicate Tidy(visits: map<Uuid, Visit>) {
    && |OpenVisits(visits)| <= MAX_ACTIVE_VISITS
    && forall id | id in visits :: visits[id].displayName.Some? <==> IsOpen(visits[id])
  }

  lemma OpenAfterOpening(visits: map<Uuid, Visit>, id: Uuid, v: Visit)
    requires id !in visits && IsOpen(v)
    ensures OpenVisits(visits[id := v]) == OpenVisits(visits) + {id} && id !in OpenVisits(visits)
  {
  }

  lemma OpenAfterClosing(visits: map<Uuid, Visit>, id: Uuid, v: Visit)
    requires id in visits && IsOpen(visits[id]) && !IsOpen(v)
    ensures OpenVisits(visits[id := v]) == OpenVisits(visits) - {id} && id in OpenVisits(visits)
  {
  }

  lemma OpenAfterDiscarding(visits: map<Uuid, Visit>, now: Instant)
    ensures OpenVisits(KeptVisits(visits, now)) == OpenVisits(visits)
  {
  }

  lemma EventKeepsTidy(cfg: Config, s: State, e: Event)
    requires Tidy(s.visits)
    requires e.Entry? ==> e.draws.visitId !in s.visits
    ensures Tidy(Apply(cfg, s, e).state.visits)
    ensures |OpenVisits(Apply(cfg, s, e).state.visits)|
         == |OpenVisits(s.visits)| + (if Opens(cfg, s, e) then 1 else 0) - (if Closes(cfg, s, e) then 1 else 0)
  {
    hide Apply, ReceiptTag, Trim, OpenVisits;
    VisitsEffect(cfg, s, e);
    OpenAfterDiscarding(s.visits, e.now);
    var after := Apply(cfg, s, e).state.visits;
    if Opens(cfg, s, e) {
      OpenAfterOpening(KeptVisits(s.visits, e.now), e.draws.visitId, after[e.draws.visitId]);
    } else if Closes(cfg, s, e) {
      OpenAfterClosing(s.visits, e.exit.visitId, after[e.exit.visitId]);
    }
  }

  /** Conservation of visits: open visits are check-ins less check-outs. */
  lemma {:induction false} VisitConservation(cfg: Config, es: seq<Event>, ss: seq<State>, n: nat)
    requires IsRun(cfg, es, ss) && FreshVisits(es) && n <= |es|
    ensures Tidy(ss[n].visits)
    ensures |OpenVisits(ss[n].visits)| == OpenedCount(cfg, es, ss, n) - ClosedCount(cfg, es, ss, n)
  {
    if n == 0 {
      assert OpenVisits(map[]) == {};
    } else {
      VisitConservation(cfg, es, ss, n - 1);
      NewVisitIsNew(cfg, es, ss, n - 1);
      hide Apply, Opens, Closes;
      EventKeepsTidy(cfg, ss[n - 1], es[n - 1]);
    }
  }

  lemma NewVisitIsNew(cfg: Config, es: seq<Event>, ss: seq<State>, n: nat)
    requires IsRun(cfg, es, ss) && FreshVisits(es) && n < |es|
    ensures es[n].Entry? ==> es[n].draws.visitId !in ss[n].visits
  {
    hide Apply;
    if es[n].Entry? && es[n].draws.visitId in ss[n].visits {
      VisitHasItsEntry(cfg, es, ss, n, es[n].draws.visitId);
    }
  }

  /** A closed visit stays closed, also after its record is discarded. */
  lemma {:induction false} ClosedStaysClosed(cfg: Config, es: seq<Event>, ss: seq<State>, i: nat, n: nat, id: Uuid)
    requires IsRun(cfg, es, ss) && FreshVisits(es) && i < n <= |es|
    requires ClosesVisit(cfg, ss[i], es[i], id)
    ensures !StillOpen(ss[n], id)
  {
    hide Apply, Opens, ClosesVisit, FreshVisits;
    VisitEffect(cfg, ss[n - 1], es[n - 1], id);
    VisitEffect(cfg, ss[i], es[i], id);
    if i < n - 1 {
      ClosedStaysClosed(cfg, es, ss, i, n - 1, id);
      StaysNew(cfg, es, ss, i, n - 1, id);
    }
  }

  /** A later check-in never draws the id of a visit that was open. */
  lemma StaysNew(cfg: Config, es: seq<Event>, ss: seq<State>, i: nat, n: nat, id: Uuid)
    requires IsRun(cfg, es, ss) && FreshVisits(es) && i <= n < |es|
    requires StillOpen(ss[i], id)
    ensures es[n].Entry? ==> es[n].draws.visitId != id
  {
    hide Apply;
    VisitHasItsEntry(cfg, es, ss, i, id);
  }

  /** No visit is checked out twice. */
  lemma CheckedOutOnce(cfg: Config, es: seq<Event>, ss: seq<State>, i: nat, j: nat, id: Uuid)
    requires IsRun(cfg, es, ss) && FreshVisits(es) && i < |es| && j < |es|
    requires ClosesVisit(cfg, ss[i], es[i], id) && ClosesVisit(cfg, ss[j], es[j], id)
    ensures i == j
  {
    VisitEffect(cfg, ss[i], es[i], id);
    VisitEffect(cfg, ss[j], es[j], id);
    hide Apply, ClosesVisit, StillOpen, Opens;
    if i < j {
      ClosedStaysClosed(cfg, es, ss, i, j, id);
    } else if j < i {
      ClosedStaysClosed(cfg, es, ss, j, i, id);
    }
  }

  // ----- closing an open visit

  /** The text of a drawn identifier: 36 hexadecimal digits and hyphens. */
  predicate IsUuidText(s: string) {
    |s| == 36 && forall i | 0 <= i < |s| :: '0' <= s[i] <= '9' || 'a' <= s[i] <= 'f' || s[i] == '-'
  }

  predicate WellDrawn(d: Draws) {
    IsUuidText(d.first) && IsUuidText(d.second)
  }

  lemma ReceiptIsPresentable(d: Draws)
    requires WellDrawn(d)
    ensures ReceiptOf(d) != "" && ByteLen(ReceiptOf(d)) == 73 && !HasControl(ReceiptOf(d))
  {
    var r := ReceiptOf(d);
    assert forall i | 0 <= i < |r| :: r[i] == '.' || '0' <= r[i] <= '9' || 'a' <= r[i] <= 'f' || r[i] == '-';
    AsciiByteLen(r);
  }

  /** An open visit keeps the tag of its receipt until a check-out closes it. */
  lemma {:induction false} OpenVisitKeepsItsTag(cfg: Config, es: seq<Event>, ss: seq<State>, i: nat, n: nat)
    requires IsRun(cfg, es, ss) && FreshVisits(es) && i < n <= |es|
    requires Opens(cfg, ss[i], es[i])
    requires forall k | i < k < n :: !ClosesVisit(cfg, ss[k], es[k], es[i].draws.visitId)
    ensures StillOpen(ss[n], es[i].draws.visitId)
    ensures ss[n].visits[es[i].draws.visitId].receiptTag == ReceiptTag(cfg, ReceiptOf(es[i].draws))
  {
    hide Apply, ReceiptTag, ReceiptOf;
    VisitEffect(cfg, ss[n - 1], es[n - 1], es[i].draws.visitId);
    if i < n - 1 {
      OpenVisitKeepsItsTag(cfg, es, ss, i, n - 1);
    }
  }

  /** Whatever happened in between, the receipt of an open visit and any exit code that
      verifies close it. */
  lemma OpenVisitCanBeClosed(cfg: Config, es: seq<Event>, ss: seq<State>, i: nat, n: nat, door: string, token: string, now: Instant)
    requires IsRun(cfg, es, ss) && FreshVisits(es) && i < n <= |es|
    requires Opens(cfg, ss[i], es[i]) && WellDrawn(es[i].draws)
    requires forall k | i < k < n :: !ClosesVisit(cfg, ss[k], es[k], es[i].draws.visitId)
    requires Verify(cfg, token, door, Action.CheckOut, now) == None
    ensures var receipt := Apply(cfg, ss[i], es[i]).response;
            var r := CheckOutRequest(door, token, receipt.visitId, receipt.checkoutReceipt);
            Apply(cfg, ss[n], Exit(r, now)).response == CheckedOut(receipt.visitId, now)
  {
    OpenVisitKeepsItsTag(cfg, es, ss, i, n);
    ReceiptIsPresentable(es[i].draws);
    OpenedWith(cfg, ss[i], es[i]);
    hide Verify, ByteLen, HasControl, ReceiptTag, ReceiptOf, Opens;
  }

  lemma OpenedWith(cfg: Config, s: State, e: Event)
    requires Opens(cfg, s, e)
    ensures Apply(cfg, s, e).response == CheckedIn(e.draws.visitId, ReceiptOf(e.draws), e.now)
  {
  }

  /** A visit closes only with a receipt of the same tag as the one handed out for it: the
      receipt itself, when the MAC tells the two apart. */
  lemma OnlyItsReceiptCloses(cfg: Config, es: seq<Event>, ss: seq<State>, i: nat, n: nat)
    requires IsRun(cfg, es, ss) && FreshVisits(es) && i < n < |es|
    requires Opens(cfg, ss[i], es[i]) && ClosesVisit(cfg, ss[n], es[n], es[i].draws.visitId)
    ensures ReceiptTag(cfg, es[n].exit.checkoutReceipt) == ReceiptTag(cfg, ReceiptOf(es[i].draws))
    ensures Verify(cfg, es[n].exit.qrToken, es[n].exit.doorId, Action.CheckOut, es[n].now) == None
  {
    var id := es[i].draws.visitId;
    ClosingChecks(cfg, ss[n], es[n]);
    hide Apply, ReceiptTag, ReceiptOf, Verify, VerifyReceipt, ClosesVisit, Opens;
    forall k | i < k < n ensures !ClosesVisit(cfg, ss[k], es[k], id) {
      if ClosesVisit(cfg, ss[k], es[k], id) {
        CheckedOutOnce(cfg, es, ss, k, n, id);
      }
    }
    OpenVisitKeepsItsTag(cfg, es, ss, i, n);
  }

  lemma ClosingChecks(cfg: Config, s: State, e: Event)
    requires Closes(cfg, s, e)
    ensures e.exit.visitId in s.visits
    ensures ReceiptTag(cfg, e.exit.checkoutReceipt) == s.visits[e.exit.visitId].receiptTag
    ensures Verify(cfg, e.exit.qrToken, e.exit.doorId, Action.CheckOut, e.now) == None
  {
    hide Verify, ByteLen, HasControl;
  }

  /** A check-in succeeds only with a verified entry code and the current privacy notice,
      and what it keeps of the visitor is a bounded name: 1 to 120 characters, no control
      characters, no whitespace at either end. */
  lemma CheckInKeepsBoundedName(cfg: Config, s: State, e: Event)
    requires Opens(cfg, s, e)
    ensures Verify(cfg, e.entry.qrToken, e.entry.doorId, Action.CheckIn, e.now) == None
    ensures e.entry.noticeVersion == cfg.noticeVersion
    ensures e.draws.visitId in Apply(cfg, s, e).state.visits
    ensures var visit := Apply(cfg, s, e).state.visits[e.draws.visitId];
      && IsOpen(visit) && visit.displayName.Some?
      && var name := visit.displayName.value;
      && 1 <= |name| <= 120 && !HasControl(name)
      && !IsWhitespace(name[0]) && !IsWhitespace(name[|name| - 1])
      && exists a, b :: e.entry.displayName == a + name + b && AllWhitespace(a) && AllWhitespace(b)
  {
    VisitsEffect(cfg, s, e);
    var a, b := TrimIsTight(e.entry.displayName);
    OpeningChecks(cfg, s, e);
    hide Apply, Verify, Trim, HasControl, ReceiptTag, ReceiptOf, IsWhitespace, AllWhitespace;
  }

  lemma OpeningChecks(cfg: Config, s: State, e: Event)
    requires Opens(cfg, s, e)
    ensures Verify(cfg, e.entry.qrToken, e.entry.doorId, Action.CheckIn, e.now) == None
    ensures e.entry.noticeVersion == cfg.noticeVersion
    ensures ValidBoundedText(Trim(e.entry.displayName), MAX_VISITOR_NAME_CHARS)
  {
    hide Verify, ValidBoundedText, Trim, RedemptionKey;
  }
}
