/** The visitor service itself: visits and redemption counters as fields that `CheckIn` and
    `CheckOut` update in place. */
module VisitorService {
  import opened Wrappers
  import opened Text
  import opened VisitorClaims
  import opened VisitorToken
  import opened VisitorLedger

  class Service {
    const config: Config
    var visits: map<Uuid, Visit>
    var redemptions: map<string, Redemption>

    /** The state as a value. */
    ghost function Contents(): State
      reads this
    {
      State(visits, redemptions)
    }

    constructor (config: Config)
      ensures this.config == config && Contents() == EMPTY_STATE
    {
      this.config := config;
      visits, redemptions := map[], map[];
    }

    /** The visits that are still open. */
    method ActiveVisitCount() returns (count: nat)
      ensures count == |OpenVisits(visits)|
    {
      var open := set id | id in visits && visits[id].checkedOutAt.None?;
      assert open == OpenVisits(visits);
      return |open|;
    }

    method CheckIn(r: CheckInRequest, now: Instant, d: Draws) returns (response: Response)
      modifies this
      ensures Outcome(Contents(), response) == VisitorLedger.CheckIn(config, old(Contents()), r, now, d)
    {
      var refusal := Verify(config, r.qrToken, r.doorId, Action.CheckIn, now);
      if refusal.Some? {
        return Refused(refusal.value);
      }
      if r.noticeVersion != config.noticeVersion {
        return Refused(NoticeNotAccepted);
      }
      var name := Trim(r.displayName);
      if !ValidBoundedText(name, MAX_VISITOR_NAME_CHARS) {
        return Refused(InvalidVisitorName);
      }
      var key := RedemptionKey(r.qrToken);
      if key.None? {
        return Refused(InvalidQr);
      }
      hide Verify, ValidBoundedText, Trim, RedemptionKey;
      response := CheckInUnderLock(key.value, name, now, d);
    }

    method CheckInUnderLock(key: string, name: string, now: Instant, d: Draws) returns (response: Response)
      modifies this
      ensures Outcome(Contents(), response) == CheckInLocked(config, old(Contents()), key, name, now, d)
    {
      var minute := Minute(now);
      redemptions := map k | k in redemptions && redemptions[k].minute >= minute - 2 :: redemptions[k];
      assert redemptions == KeptRedemptions(old(redemptions), minute);
      hide KeptRedemptions, ReceiptTag;
      if key in redemptions && redemptions[key].count >= MAX_REDEMPTIONS_PER_CODE {
        return Refused(RateLimited);
      }
      var closedBefore := now - CLOSED_VISIT_RETENTION;
      visits := map id | id in visits && (visits[id].checkedOutAt.None? || visits[id].checkedOutAt.value >= closedBefore) ::
        visits[id];
      assert visits == KeptVisits(old(visits), now);
      hide KeptVisits, OpenVisits;
      var active := ActiveVisitCount();
      if active >= MAX_ACTIVE_VISITS {
        return Refused(CapacityReached);
      }
      if key in redemptions {
        redemptions := redemptions[key := Redemption(redemptions[key].minute, redemptions[key].count + 1)];
      } else {
        redemptions := redemptions[key := Redemption(minute, 1)];
      }
      var receipt := d.first + "." + d.second;
      visits := visits[d.visitId := Visit(ReceiptTag(config, receipt), Some(name), None)];
      return CheckedIn(d.visitId, receipt, now);
    }

    method CheckOut(r: CheckOutRequest, now: Instant) returns (response: Response)
      modifies this
      ensures Outcome(Contents(), response) == VisitorLedger.CheckOut(config, old(Contents()), r, now)
    {
      var refusal := Verify(config, r.qrToken, r.doorId, Action.CheckOut, now);
      if refusal.Some? {
        return Refused(refusal.value);
      }
      if r.checkoutReceipt == "" || ByteLen(r.checkoutReceipt) > MAX_RECEIPT_BYTES {
        return Refused(InvalidReceipt);
      }
      hide Verify, ByteLen, HasControl;
      if r.visitId !in visits {
        return Refused(VisitNotFound);
      }
      var visit := visits[r.visitId];
      if visit.checkedOutAt.Some? {
        return Refused(AlreadyCheckedOut);
      }
      if !VerifyReceipt(config, r.checkoutReceipt, visit.receiptTag) {
        return Refused(InvalidReceipt);
      }
      visits := visits[r.visitId := Visit(visit.receiptTag, None, Some(now))];
      return CheckedOut(r.visitId, now);
    }
  }
}
