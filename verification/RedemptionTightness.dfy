/** The 104 seconds of RedemptionLimit.dfy cannot be improved: at 105 seconds a run exists
    in which one code is redeemed 129 times. */
module RedemptionTightness {
  import opened Text
  import opened Base64Url
  import opened VisitorClaims
  import opened VisitorToken
  import opened VisitorLedger
  import opened VisitorRuns
  import opened RedemptionLimit
  import opened SetFacts

  /** The check-in code of `door` for minute `minute`. */
  function Code(cfg: Config, door: string, minute: int): string
    requires IsDoorId(door)
  {
    IssueForMinute(cfg, door, Action.CheckIn, minute)
  }

  /** The text of a version 4 UUID whose last three digits are those of `n`. */
  function DrawnText(n: nat): string {
    "00000000-0000-4000-8000-000000000" + [Digit(n / 100 % 10), Digit(n / 10 % 10), Digit(n % 10)]
  }

  function Visitor(cfg: Config, door: string, minute: int, second: int, id: Uuid): Event
    requires IsDoorId(door)
  {
    Entry(CheckInRequest(door, Code(cfg, door, minute), "A", cfg.noticeVersion), second * SECOND,
          Draws(id, DrawnText(2 * id), DrawnText(2 * id + 1)))
  }

  lemma VisitorDraws(cfg: Config, door: string, minute: int, second: int, id: Uuid)
    requires IsDoorId(door)
    ensures var e := Visitor(cfg, door, minute, second, id); e.Entry? && e.draws.visitId == id && WellDrawn(e.draws)
  {
    hide Code, IsDoorId;
  }

  /** Everyone presenting a code in its window reaches the lock. */
  lemma VisitorHoldsLock(cfg: Config, door: string, minute: int, second: int, id: Uuid)
    requires cfg.Valid() && door in cfg.doorIds && 0 <= minute <= 3
    requires 60 * minute <= second <= 60 * minute + 75
    ensures HoldsLock(cfg, Visitor(cfg, door, minute, second, id))
    ensures Seconds(Visitor(cfg, door, minute, second, id).now) == second
    ensures PayloadSegment(Visitor(cfg, door, minute, second, id)) == Encode(AsciiBytes(ClaimsText(door, Action.CheckIn, minute)))
  {
    var payload := AsciiBytes(ClaimsText(door, Action.CheckIn, minute));
    var token := Code(cfg, door, minute);
    var now := second * SECOND;
    IssuedPayloadFits(door, Action.CheckIn, minute);
    TokenIsAuthentic(cfg, payload);
    TokenSegments(cfg, payload);
    assert ReadsBack(cfg.parse, door, Action.CheckIn, minute);
    AcceptedTokenHasKey(cfg, token);
    NameIsValid();
    hide AuthenticClaims, TokenFor, ClaimsText, IsDoorId, RedemptionKey, Split, Trim, ValidBoundedText, ByteLen, Encode, DrawnText;
    VerifyOfIssued(cfg, token, door, Action.CheckIn, minute, door, Action.CheckIn, now);
    hide Verify;
  }

  lemma NameIsValid()
    ensures Trim("A") == "A" && ValidBoundedText("A", MAX_VISITOR_NAME_CHARS)
  {
    assert "A"[0] == 'A' && !IsWhitespace('A') && !IsControl('A');
    assert forall c | c in "A" :: c == 'A';
  }

  /** One more redemption, when the counter the lock section is left with allows it. */
  lemma VisitorIsAdmitted(cfg: Config, s: State, e: Event)
    requires HoldsLock(cfg, e) && |s.visits| < MAX_ACTIVE_VISITS
    requires !Exhausted(KeptRedemptions(s.redemptions, Minute(e.now)), KeyAt(cfg, e))
    ensures Opens(cfg, s, e)
    ensures Apply(cfg, s, e).state.redemptions
         == CountOne(KeptRedemptions(s.redemptions, Minute(e.now)), KeyAt(cfg, e), Minute(e.now))
    ensures |Apply(cfg, s, e).state.visits| <= |s.visits| + 1
  {
    hide Verify, ValidBoundedText, Trim, RedemptionKey, ReceiptTag;
    FewVisits(s.visits, e.now);
  }

  lemma FewVisits(visits: map<Uuid, Visit>, now: Instant)
    ensures |KeptVisits(visits, now)| <= |visits|
    ensures |OpenVisits(KeptVisits(visits, now))| <= |visits|
  {
    assert KeptVisits(visits, now).Keys <= visits.Keys;
    assert OpenVisits(KeptVisits(visits, now)) <= visits.Keys;
    SubsetIsSmaller(KeptVisits(visits, now).Keys, visits.Keys);
    SubsetIsSmaller(OpenVisits(KeptVisits(visits, now)), visits.Keys);
  }

  // ----- extending runs

  lemma RunExtends(cfg: Config, es: seq<Event>, ss: seq<State>, e: Event)
    requires IsRun(cfg, es, ss)
    ensures IsRun(cfg, es + [e], ss + [Apply(cfg, ss[|es|], e).state])
  {
    hide Apply;
  }

  lemma {:induction false} CountOfExtension(cfg: Config, es: seq<Event>, ss: seq<State>, e: Event, s: State, n: nat, token: string)
    requires n <= |es| < |ss|
    ensures RedeemedCount(cfg, es + [e], ss + [s], n, token) == RedeemedCount(cfg, es, ss, n, token)
  {
    hide Redeems;
    if n > 0 {
      CountOfExtension(cfg, es, ss, e, s, n - 1, token);
    }
  }

  /** A run so far, and how often the code of minute 0 was redeemed in it. */
  ghost predicate Reaches(cfg: Config, door: string, es: seq<Event>, ss: seq<State>, count: nat)
    requires IsDoorId(door)
  {
    && IsRun(cfg, es, ss)
    && RedeemedCount(cfg, es, ss, |es|, Code(cfg, door, 0)) == count
    && |ss[|es|].visits| <= |es|
  }

  lemma ReachesFurther(cfg: Config, door: string, es: seq<Event>, ss: seq<State>, count: nat, e: Event)
    returns (es': seq<Event>, ss': seq<State>)
    requires IsDoorId(door) && Reaches(cfg, door, es, ss, count)
    requires HoldsLock(cfg, e) && |es| < MAX_ACTIVE_VISITS
    requires !Exhausted(KeptRedemptions(ss[|es|].redemptions, Minute(e.now)), KeyAt(cfg, e))
    ensures es' == es + [e] && |ss'| == |es'| + 1
    ensures Reaches(cfg, door, es', ss', count + if e.entry.qrToken == Code(cfg, door, 0) then 1 else 0)
    ensures ss'[|es'|].redemptions
         == CountOne(KeptRedemptions(ss[|es|].redemptions, Minute(e.now)), KeyAt(cfg, e), Minute(e.now))
  {
    hide Apply, HoldsLock, KeyAt, Code, KeptRedemptions, CountOne, Exhausted, Redeems;
    VisitorIsAdmitted(cfg, ss[|es|], e);
    var s := Apply(cfg, ss[|es|], e).state;
    RunExtends(cfg, es, ss, e);
    CountOfExtension(cfg, es, ss, e, s, |es|, Code(cfg, door, 0));
    es', ss' := es + [e], ss + [s];
    RedeemsWhenOpen(cfg, ss[|es|], e, Code(cfg, door, 0));
  }

  lemma RedeemsWhenOpen(cfg: Config, s: State, e: Event, token: string)
    requires Opens(cfg, s, e)
    ensures Redeems(cfg, s, e, token) <==> e.entry.qrToken == token
  {
  }

  // ----- the run

  /** The MAC tells the door's codes for minutes 0 and 3 apart. */
  ghost predicate Distinguishes(cfg: Config, door: string)
    requires IsDoorId(door)
  {
    Signature(cfg, SegmentOf(door, 0)) != Signature(cfg, SegmentOf(door, 3))
  }

  /** Every check-in draws texts of the kind that UUIDs print. */
  ghost predicate AllWellDrawn(es: seq<Event>) {
    forall e | e in es && e.Entry? :: WellDrawn(e.draws)
  }

  function SegmentOf(door: string, minute: int): string
    requires IsDoorId(door)
  {
    Encode(AsciiBytes(ClaimsText(door, Action.CheckIn, minute)))
  }

  /** The hypotheses of the two results below can be met, at every door. */
  lemma DistinguishingConfigExists(doorIds: set<string>, noticeVersion: string, door: string) returns (cfg: Config)
    requires forall d | d in doorIds :: IsDoorId(d)
    requires door in doorIds
    ensures cfg.Valid() && cfg.doorIds == doorIds && cfg.noticeVersion == noticeVersion
    ensures Distinguishes(cfg, door)
  {
    SegmentsDiffer(door);
    hide SegmentOf, ReadsOwnClaims, IsDoorId, QR_DOMAIN;
    var first := QR_DOMAIN + SegmentOf(door, 0);
    cfg := ValidConfigExists(doorIds, noticeVersion, (m: string) => if m == first then ONES else ZEROS);
    assert (QR_DOMAIN + SegmentOf(door, 3))[|QR_DOMAIN|..] == SegmentOf(door, 3);
    assert first[|QR_DOMAIN|..] == SegmentOf(door, 0);
    assert ONES[0] != ZEROS[0];
  }

  const ZEROS: seq<Byte> := seq(32, i => 0)
  const ONES: seq<Byte> := seq(32, i => 1)

  lemma SegmentsDiffer(door: string)
    requires IsDoorId(door)
    ensures SegmentOf(door, 0) != SegmentOf(door, 3)
  {
    var first, fourth := AsciiBytes(ClaimsText(door, Action.CheckIn, 0)), AsciiBytes(ClaimsText(door, Action.CheckIn, 3));
    ReadCompactBack(door, Action.CheckIn, 0);
    ReadCompactBack(door, Action.CheckIn, 3);
    hide ReadCompact, ClaimsText, Encode, IsDoorId;
    if Encode(first) == Encode(fourth) {
      EncodeIsInjective(first, fourth);
    }
  }

  /** 128 visitors at second 0. */
  lemma {:induction false} FirstVisitors(cfg: Config, door: string, k: nat) returns (es: seq<Event>, ss: seq<State>)
    requires cfg.Valid() && door in cfg.doorIds && k <= MAX_REDEMPTIONS_PER_CODE
    ensures |es| == k && |ss| == k + 1 && Reaches(cfg, door, es, ss, k)
    ensures forall i | 0 <= i < k :: es[i] == Visitor(cfg, door, 0, 0, i)
    ensures HoldsLock(cfg, Visitor(cfg, door, 0, 0, 0))
    ensures ss[k].redemptions
         == if k == 0 then map[] else map[KeyAt(cfg, Visitor(cfg, door, 0, 0, 0)) := Redemption(0, k)]
  {
    hide HoldsLock, KeyAt, Code, IsDoorId, IsRun, DrawnText;
    VisitorHoldsLock(cfg, door, 0, 0, 0);
    if k == 0 {
      es, ss := [], [EMPTY_STATE];
      assert IsRun(cfg, es, ss) by { EmptyRun(cfg); }
    } else {
      es, ss := FirstVisitors(cfg, door, k - 1);
      var e := Visitor(cfg, door, 0, 0, k - 1);
      VisitorHoldsLock(cfg, door, 0, 0, k - 1);
      SameCodeSameKey(cfg, e, Visitor(cfg, door, 0, 0, 0));
      hide Visitor, Reaches;
      assert KeptRedemptions(ss[k - 1].redemptions, 0) == ss[k - 1].redemptions;
      es, ss := ReachesFurther(cfg, door, es, ss, k - 1, e);
    }
  }

  lemma EmptyRun(cfg: Config)
    ensures IsRun(cfg, [], [EMPTY_STATE])
  {
  }

  lemma SameCodeSameKey(cfg: Config, a: Event, b: Event)
    requires HoldsLock(cfg, a) && HoldsLock(cfg, b) && a.entry.qrToken == b.entry.qrToken
    ensures KeyAt(cfg, a) == KeyAt(cfg, b)
  {
    hide HoldsLock;
  }

  /** Then one visitor at second 180 discards the counter, and a last one whose clock
      shows second 75 redeems the old code once more. */
  lemma OneRedemptionTooMany(cfg: Config, door: string) returns (es: seq<Event>, ss: seq<State>)
    requires cfg.Valid() && door in cfg.doorIds && Distinguishes(cfg, door)
    ensures IsRun(cfg, es, ss) && NoCollisions(cfg, es) && LagAtMost(cfg, es, 105)
    ensures FreshVisits(es) && AllWellDrawn(es)
    ensures RedeemedCount(cfg, es, ss, |es|, Code(cfg, door, 0)) == 129
  {
    hide HoldsLock, KeyAt, Code, IsDoorId, IsRun, NoCollisions, LagAtMost, AllWellDrawn, FreshVisits, Reaches, Distinguishes, Visitor;
    es, ss := FirstVisitors(cfg, door, 128);
    var late, last := Visitor(cfg, door, 3, 180, 128), Visitor(cfg, door, 0, 75, 129);
    VisitorHoldsLock(cfg, door, 3, 180, 128);
    VisitorHoldsLock(cfg, door, 0, 75, 129);
    VisitorCarries(cfg, door, 3, 180, 128);
    VisitorCarries(cfg, door, 0, 75, 129);
    CodesDiffer(cfg, door);
    StoryIsWellBehaved(cfg, door, es + [late] + [last]);
    hide StoryEvent, KeptRedemptions, Exhausted, CountOne;
    CountersOfStory(KeyAt(cfg, Visitor(cfg, door, 0, 0, 0)), KeyAt(cfg, late), KeyAt(cfg, last));
    es, ss := ReachesFurther(cfg, door, es, ss, 128, late);
    es, ss := ReachesFurther(cfg, door, es, ss, 128, last);
    ReachedRun(cfg, door, es, ss, 129);
  }

  /** The late visitor discards the full counter; the last one finds only a young counter. */
  lemma CountersOfStory(first: string, late: string, last: string)
    ensures var started := CountOne(KeptRedemptions(map[first := Redemption(0, 128)], 3), late, 3);
      && !Exhausted(KeptRedemptions(map[first := Redemption(0, 128)], 3), late)
      && !Exhausted(KeptRedemptions(started, 1), last)
  {
    assert KeptRedemptions(map[first := Redemption(0, 128)], 3) == map[];
  }

  lemma VisitorCarries(cfg: Config, door: string, minute: int, second: int, id: Uuid)
    requires IsDoorId(door)
    ensures var e := Visitor(cfg, door, minute, second, id);
      e.Entry? && e.entry.qrToken == Code(cfg, door, minute) && Minute(e.now) == second / 60
  {
    hide Code, IsDoorId, DrawnText;
  }

  lemma ReachedRun(cfg: Config, door: string, es: seq<Event>, ss: seq<State>, count: nat)
    requires IsDoorId(door) && Reaches(cfg, door, es, ss, count)
    ensures IsRun(cfg, es, ss) && RedeemedCount(cfg, es, ss, |es|, Code(cfg, door, 0)) == count
  {
  }

  lemma CodesDiffer(cfg: Config, door: string)
    requires cfg.Valid() && door in cfg.doorIds && Distinguishes(cfg, door)
    ensures Code(cfg, door, 0) != Code(cfg, door, 3)
  {
    TokenSegments(cfg, AsciiBytes(ClaimsText(door, Action.CheckIn, 0)));
    TokenSegments(cfg, AsciiBytes(ClaimsText(door, Action.CheckIn, 3)));
    hide TokenFor, Split, Encode;
  }

  /** Event `i` of the run. */
  function StoryEvent(cfg: Config, door: string, i: nat): Event
    requires IsDoorId(door)
  {
    if i < 128 then Visitor(cfg, door, 0, 0, i)
    else if i == 128 then Visitor(cfg, door, 3, 180, i)
    else Visitor(cfg, door, 0, 75, i)
  }

  lemma StoryEventFacts(cfg: Config, door: string, i: nat)
    requires cfg.Valid() && door in cfg.doorIds
    ensures var e := StoryEvent(cfg, door, i);
      && e.Entry? && e.draws.visitId == i && WellDrawn(e.draws)
      && Seconds(e.now) == (if i < 128 then 0 else if i == 128 then 180 else 75)
      && PayloadSegment(e) == SegmentOf(door, if i == 128 then 3 else 0)
  {
    hide HoldsLock, PayloadSegment, IsDoorId, Visitor, WellDrawn;
    if i < 128 {
      VisitorHoldsLock(cfg, door, 0, 0, i);
      VisitorDraws(cfg, door, 0, 0, i);
    } else if i == 128 {
      VisitorHoldsLock(cfg, door, 3, 180, i);
      VisitorDraws(cfg, door, 3, 180, i);
    } else {
      VisitorHoldsLock(cfg, door, 0, 75, i);
      VisitorDraws(cfg, door, 0, 75, i);
    }
  }

  lemma StoryIsWellBehaved(cfg: Config, door: string, es: seq<Event>)
    requires cfg.Valid() && door in cfg.doorIds && Distinguishes(cfg, door)
    requires |es| == 130 && forall i | 0 <= i < |es| :: es[i] == StoryEvent(cfg, door, i)
    ensures NoCollisions(cfg, es) && LagAtMost(cfg, es, 105) && FreshVisits(es) && AllWellDrawn(es)
  {
    hide HoldsLock, StoryEvent, PayloadSegment, SegmentOf, Signature, IsDoorId, Seconds, WellDrawn;
    forall i | 0 <= i < |es|
      ensures es[i].Entry? && es[i].draws.visitId == i && WellDrawn(es[i].draws)
      ensures Seconds(es[i].now) == if i < 128 then 0 else if i == 128 then 180 else 75
      ensures PayloadSegment(es[i]) == SegmentOf(door, if i == 128 then 3 else 0)
    {
      StoryEventFacts(cfg, door, i);
    }
  }

  /** The limit holds over all runs whose clocks lag by at most `lag` seconds if and only
      if `lag` is at most 104. */
  lemma RedemptionLimitExactly(cfg: Config, door: string, lag: nat)
    requires cfg.Valid() && door in cfg.doorIds && Distinguishes(cfg, door)
    ensures (forall es, ss | IsRun(cfg, es, ss) && NoCollisions(cfg, es) && LagAtMost(cfg, es, lag) :: WithinLimit(cfg, es, ss))
       <==> lag <= 104
  {
    if lag <= 104 {
      forall es, ss | IsRun(cfg, es, ss) && NoCollisions(cfg, es) && LagAtMost(cfg, es, lag) ensures WithinLimit(cfg, es, ss) {
        assert LagAtMost(cfg, es, 104) by { hide HoldsLock; }
        RedemptionLimitHolds(cfg, es, ss);
      }
    } else {
      var es, ss := OneRedemptionTooMany(cfg, door);
      assert LagAtMost(cfg, es, lag) by { hide HoldsLock; }
      assert !WithinLimit(cfg, es, ss);
    }
  }
}
