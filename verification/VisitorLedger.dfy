/** Visits and redemption counters of src/visitor.rs as a value, and what `check_in` and
    `check_out` do to it. VisitorService.dfy updates the same state in place. */
module VisitorLedger {
  import opened Wrappers
  import opened Text
  import opened VisitorClaims
  import opened VisitorToken

  const MAX_RECEIPT_BYTES := 256
  const MAX_VISITOR_NAME_CHARS := 120
  const MAX_ACTIVE_VISITS := 4_096
  const MAX_REDEMPTIONS_PER_CODE := 128
  const CLOSED_VISIT_RETENTION: int := 24 * 3600 * SECOND
  const RECEIPT_DOMAIN := "hhm.visitor-checkout-receipt.v1\0"

  type Uuid = nat

  datatype Visit = Visit(receiptTag: seq<Byte>, displayName: Option<string>, checkedOutAt: Option<Instant>)

  /** The minute a code was first redeemed in, and how often it was. */
  datatype Redemption = Redemption(minute: int, count: nat)

  datatype State = State(visits: map<Uuid, Visit>, redemptions: map<string, Redemption>)

  const EMPTY_STATE := State(map[], map[])

  datatype CheckInRequest = CheckInRequest(doorId: string, qrToken: string, displayName: string, noticeVersion: string)

  datatype CheckOutRequest = CheckOutRequest(doorId: string, qrToken: string, visitId: Uuid, checkoutReceipt: string)

  /** The random identifiers a check-in draws: the visit id, and two more whose text makes
      the checkout receipt. */
  datatype Draws = Draws(visitId: Uuid, first: string, second: string)

  function ReceiptOf(d: Draws): string {
    d.first + "." + d.second
  }

  datatype Response =
    | CheckedIn(visitId: Uuid, checkoutReceipt: string, checkedInAt: Instant)
    | CheckedOut(closedVisitId: Uuid, checkedOutAt: Instant)
    | Refused(error: VisitorError)

  datatype Outcome = Outcome(state: State, response: Response)

  predicate ValidBoundedText(s: string, maximum: nat) {
    s != "" && |s| <= maximum && !HasControl(s)
  }

  function ReceiptTag(cfg: Config, receipt: string): seq<Byte> {
    cfg.mac(RECEIPT_DOMAIN + receipt)
  }

  predicate VerifyReceipt(cfg: Config, receipt: string, tag: seq<Byte>) {
    ByteLen(receipt) <= MAX_RECEIPT_BYTES && !HasControl(receipt) && ReceiptTag(cfg, receipt) == tag
  }

  // ----- check_in

  /** Why a check-in is refused before it takes the lock, if it is. */
  function CheckInRefusal(cfg: Config, r: CheckInRequest, now: Instant): Option<VisitorError> {
    var refusal := Verify(cfg, r.qrToken, r.doorId, Action.CheckIn, now);
    if refusal.Some? then refusal
    else if r.noticeVersion != cfg.noticeVersion then Some(NoticeNotAccepted)
    else if !ValidBoundedText(Trim(r.displayName), MAX_VISITOR_NAME_CHARS) then Some(InvalidVisitorName)
    else if RedemptionKey(r.qrToken).None? then Some(InvalidQr)
    else None
  }

  function KeptRedemptions(redemptions: map<string, Redemption>, minute: int): map<string, Redemption> {
    map k | k in redemptions && redemptions[k].minute >= minute - 2 :: redemptions[k]
  }

  predicate IsOpen(v: Visit) {
    v.checkedOutAt.None?
  }

  function KeptVisits(visits: map<Uuid, Visit>, now: Instant): map<Uuid, Visit> {
    map id | id in visits && (IsOpen(visits[id]) || visits[id].checkedOutAt.value >= now - CLOSED_VISIT_RETENTION) ::
      visits[id]
  }

  function OpenVisits(visits: map<Uuid, Visit>): set<Uuid> {
    set id | id in visits && IsOpen(visits[id])
  }

  predicate Exhausted(redemptions: map<string, Redemption>, key: string) {
    key in redemptions && redemptions[key].count >= MAX_REDEMPTIONS_PER_CODE
  }

  function CountOne(redemptions: map<string, Redemption>, key: string, minute: int): map<string, Redemption> {
    redemptions[key := if key in redemptions
                       then Redemption(redemptions[key].minute, redemptions[key].count + 1)
                       else Redemption(minute, 1)]
  }

  /** The lock section of `check_in`: discard old counters, check the limit, discard old
      visits, check the capacity, then count the redemption and open the visit. */
  function CheckInLocked(cfg: Config, s: State, key: string, name: string, now: Instant, d: Draws): Outcome {
    var redemptions := KeptRedemptions(s.redemptions, Minute(now));
    if Exhausted(redemptions, key) then
      Outcome(s.(redemptions := redemptions), Refused(RateLimited))
    else
      var visits := KeptVisits(s.visits, now);
      if |OpenVisits(visits)| >= MAX_ACTIVE_VISITS then
        Outcome(State(visits, redemptions), Refused(CapacityReached))
      else
        var visit := Visit(ReceiptTag(cfg, ReceiptOf(d)), Some(name), None);
        Outcome(
          State(visits[d.visitId := visit], CountOne(redemptions, key, Minute(now))),
          CheckedIn(d.visitId, ReceiptOf(d), now))
  }

  function CheckIn(cfg: Config, s: State, r: CheckInRequest, now: Instant, d: Draws): Outcome {
    var refusal := CheckInRefusal(cfg, r, now);
    if refusal.Some? then Outcome(s, Refused(refusal.value))
    else CheckInLocked(cfg, s, RedemptionKey(r.qrToken).value, Trim(r.displayName), now, d)
  }

  // ----- check_out

  /** Why a check-out is refused before it takes the lock, if it is. */
  function CheckOutRefusal(cfg: Config, r: CheckOutRequest, now: Instant): Option<VisitorError> {
    var refusal := Verify(cfg, r.qrToken, r.doorId, Action.CheckOut, now);
    if refusal.Some? then refusal
    else if r.checkoutReceipt == "" || ByteLen(r.checkoutReceipt) > MAX_RECEIPT_BYTES then Some(InvalidReceipt)
    else None
  }

  /** The lock section of `check_out`: closing a visit erases the display name. */
  function CheckOutLocked(cfg: Config, s: State, id: Uuid, receipt: string, now: Instant): Outcome {
    if id !in s.visits then Outcome(s, Refused(VisitNotFound))
    else if !IsOpen(s.visits[id]) then Outcome(s, Refused(AlreadyCheckedOut))
    else if !VerifyReceipt(cfg, receipt, s.visits[id].receiptTag) then Outcome(s, Refused(InvalidReceipt))
    else
      Outcome(
        s.(visits := s.visits[id := Visit(s.visits[id].receiptTag, None, Some(now))]),
        CheckedOut(id, now))
  }

  function CheckOut(cfg: Config, s: State, r: CheckOutRequest, now: Instant): Outcome {
    var refusal := CheckOutRefusal(cfg, r, now);
    if refusal.Some? then Outcome(s, Refused(refusal.value))
    else CheckOutLocked(cfg, s, r.visitId, r.checkoutReceipt, now)
  }
}
