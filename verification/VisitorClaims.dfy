/** What a visitor service is configured with and what its QR tokens claim: door ids, the
    claims as JSON, times and errors of src/visitor.rs. */
module VisitorClaims {
  import opened Wrappers
  import opened Text

  const QR_SCHEMA := "hhm.visitor-qr.v1"
  const QR_AUDIENCE := "hhm-visitor-access"
  const TOKEN_PREFIX := "hhm1"
  const QR_DOMAIN := "hhm.visitor-qr.signature.v1\0"
  const QR_GRACE_SECONDS: int := 15
  const MAX_TOKEN_BYTES := 1_024
  const MAX_PAYLOAD_BYTES := 512
  const MAX_DOOR_BYTES := 64
  const I64_MAX: int := 0x7FFF_FFFF_FFFF_FFFF
  const I64_MIN: int := -0x8000_0000_0000_0000

  predicate IsI64(n: int) {
    I64_MIN <= n <= I64_MAX
  }

  /** Points in time, in nanoseconds since the epoch. */
  type Instant = int
  const SECOND: int := 1_000_000_000

  function Seconds(now: Instant): int {
    now / SECOND
  }

  /** `div_euclid(60)` of the whole seconds. */
  function Minute(now: Instant): int {
    Seconds(now) / 60
  }

  datatype Action = CheckIn | CheckOut

  datatype VisitorError =
    | InvalidDoor
    | InvalidQr
    | ExpiredQr
    | NoticeNotAccepted
    | InvalidVisitorName
    | CapacityReached
    | RateLimited
    | VisitNotFound
    | InvalidReceipt
    | AlreadyCheckedOut

  datatype Claims = Claims(schema: string, audience: string, doorId: string, action: Action, issuedMinute: int)

  /** What a deployment fixes. `mac` is HMAC-SHA-256 (RFC 2104) under the signing key,
      `parse` is the JSON reader at the claims type, and `lastSecond` is the last whole
      second the calendar library represents. */
  datatype Config = Config(
    doorIds: set<string>,
    noticeVersion: string,
    mac: string -> seq<Byte>,
    parse: seq<Byte> -> Option<Claims>,
    lastSecond: int)
  {
    ghost predicate Valid() {
      && (forall d | d in doorIds :: IsDoorId(d))
      && (forall m :: |mac(m)| == 32)
      && ReadsOwnClaims(parse)
      && lastSecond <= I64_MAX
    }
  }

  // ----- door ids

  predicate IsDoorChar(c: char) {
    'a' <= c <= 'z' || '0' <= c <= '9' || c == '-' || c == '_'
  }

  predicate IsDoorId(d: string) {
    && d != ""
    && ByteLen(d) <= MAX_DOOR_BYTES
    && forall i | 0 <= i < |d| :: IsDoorChar(d[i])
  }

  const DOOR_LETTERS := "abcdefghijklmnopqrstuvwxyz"
  const DOOR_OTHERS := "0123456789-_"

  /** Door ids are 1 to 64 characters from a fixed set. */
  lemma DoorIdExactly(d: string)
    ensures IsDoorId(d) <==> 1 <= |d| <= 64 && forall c | c in d :: c in DOOR_LETTERS || c in DOOR_OTHERS
  {
    forall c ensures IsDoorChar(c) <==> c in DOOR_LETTERS || c in DOOR_OTHERS {
      DoorLetterExactly(c);
      DoorOtherExactly(c);
    }
    hide IsDoorChar, DOOR_LETTERS, DOOR_OTHERS;
    assert forall i | 0 <= i < |d| :: d[i] in d;
    if forall i | 0 <= i < |d| :: IsDoorChar(d[i]) {
      DoorCharsAreAscii(d);
      AsciiByteLen(d);
    }
  }

  lemma DoorLetterExactly(c: char)
    ensures 'a' <= c <= 'z' <==> c in DOOR_LETTERS
  {
    if 'a' <= c <= 'z' {
      assert DOOR_LETTERS[c as int - 'a' as int] == c;
    }
  }

  lemma DoorOtherExactly(c: char)
    ensures '0' <= c <= '9' || c == '-' || c == '_' <==> c in DOOR_OTHERS
  {
    if '0' <= c <= '9' {
      assert DOOR_OTHERS[c as int - '0' as int] == c;
    } else {
      assert DOOR_OTHERS[10] == '-' && DOOR_OTHERS[11] == '_';
    }
  }

  lemma DoorCharsAreAscii(d: string)
    requires forall i | 0 <= i < |d| :: IsDoorChar(d[i])
    ensures IsAscii(d)
  {
  }

  /** The door ids that a configuration value lists. */
  ghost function ListedDoors(raw: string): set<string> {
    set piece | piece in Split(raw, ',') && Trim(piece) != "" :: Trim(piece)
  }

  /** `parse_door_ids`: all the listed doors, or a refusal when one of them has the wrong
      shape or there is none. */
  method ParseDoorIds(raw: string) returns (result: Option<set<string>>)
    ensures result.Some? <==> ListedDoors(raw) != {} && forall d | d in ListedDoors(raw) :: IsDoorId(d)
    ensures result.Some? ==> result.value == ListedDoors(raw)
  {
    var pieces := Split(raw, ',');
    var doors := {};
    for i := 0 to |pieces|
      invariant doors == set piece | piece in pieces[..i] && Trim(piece) != "" :: Trim(piece)
      invariant forall d | d in doors :: IsDoorId(d)
    {
      assert pieces[..i + 1] == pieces[..i] + [pieces[i]];
      var door := Trim(pieces[i]);
      if door != "" {
        if !(ByteLen(door) <= MAX_DOOR_BYTES && forall k | 0 <= k < |door| :: IsDoorChar(door[k])) {
          assert door in ListedDoors(raw);
          return None;
        }
        doors := doors + {door};
      }
    }
    assert pieces[..|pieces|] == pieces;
    if doors == {} {
      return None;
    }
    return Some(doors);
  }

  // ----- claims

  function ActionName(a: Action): string {
    match a case CheckIn => "check_in" case CheckOut => "check_out"
  }

  const SCHEMA_KEY := "{\"schema\":\""
  const AUDIENCE_KEY := "\",\"audience\":\""
  const DOOR_KEY := "\",\"door_id\":\""
  const ACTION_KEY := "\",\"action\":\""
  const MINUTE_KEY := "\",\"issued_minute\":"

  function ClaimsHead(): string {
    SCHEMA_KEY + QR_SCHEMA + AUDIENCE_KEY + QR_AUDIENCE + DOOR_KEY
  }

  function ActionLead(action: Action): string {
    ACTION_KEY + ActionName(action) + MINUTE_KEY
  }

  /** The claims as compact JSON, fields in declaration order. Door ids need no escaping. */
  function ClaimsText(door: string, action: Action, minute: int): (text: string)
    requires IsDoorId(door)
    ensures IsAscii(text)
  {
    DoorIsPlain(door);
    ClaimsFrameIsPlain(action);
    DecimalRoundTrip(minute);
    ClaimsHead() + door + ActionLead(action) + Decimal(minute) + "}"
  }

  lemma DoorIsPlain(d: string)
    requires IsDoorId(d)
    ensures IsAscii(d) && |d| <= MAX_DOOR_BYTES && '\"' !in d
  {
    AsciiByteLen(d);
  }

  lemma KeysArePlain()
    ensures IsAscii(SCHEMA_KEY) && IsAscii(AUDIENCE_KEY) && IsAscii(DOOR_KEY)
    ensures IsAscii(ACTION_KEY) && IsAscii(MINUTE_KEY)
  {
  }

  lemma SchemaIsPlain()
    ensures IsAscii(QR_SCHEMA) && IsAscii(QR_AUDIENCE)
  {
  }

  lemma ValuesArePlain(action: Action, minute: int)
    ensures IsAscii(ActionName(action)) && IsAscii(Decimal(minute))
  {
    DecimalRoundTrip(minute);
    hide Decimal;
  }

  /** The fixed text before a door id, and between it and the minute, is short and plain. */
  lemma ClaimsFrameIsPlain(action: Action)
    ensures IsAscii(ClaimsHead()) && |ClaimsHead()| == 73
    ensures IsAscii(ActionLead(action)) && |ActionLead(action)| <= 40
  {
    KeysArePlain();
    SchemaIsPlain();
    ValuesArePlain(action, 0);
    hide IsAscii;
    AsciiConcat(SCHEMA_KEY, QR_SCHEMA);
    AsciiConcat(SCHEMA_KEY + QR_SCHEMA, AUDIENCE_KEY);
    AsciiConcat(SCHEMA_KEY + QR_SCHEMA + AUDIENCE_KEY, QR_AUDIENCE);
    AsciiConcat(SCHEMA_KEY + QR_SCHEMA + AUDIENCE_KEY + QR_AUDIENCE, DOOR_KEY);
    AsciiConcat(ACTION_KEY, ActionName(action));
    AsciiConcat(ACTION_KEY + ActionName(action), MINUTE_KEY);
  }

  lemma AsciiConcat(a: string, b: string)
    requires IsAscii(a) && IsAscii(b)
    ensures IsAscii(a + b)
  {
  }

  /** The JSON reader understands what the service prints: claims for a 64-bit minute. What
      else it accepts is open. */
  ghost predicate ReadsOwnClaims(parse: seq<Byte> -> Option<Claims>) {
    forall door, action, minute | IsDoorId(door) && IsI64(minute) :: ReadsBack(parse, door, action, minute)
  }

  ghost predicate ReadsBack(parse: seq<Byte> -> Option<Claims>, door: string, action: Action, minute: int)
    requires IsDoorId(door)
  {
    parse(AsciiBytes(ClaimsText(door, action, minute)))
    == Some(Claims(QR_SCHEMA, QR_AUDIENCE, door, action, minute))
  }

  /** The text before the first `stop`, or all of it. */
  function UpTo(s: string, stop: char): string {
    if s == "" || s[0] == stop then "" else [s[0]] + UpTo(s[1..], stop)
  }

  lemma {:induction false} UpToFirst(a: string, b: string, stop: char)
    requires stop !in a && b != "" && b[0] == stop
    ensures UpTo(a + b, stop) == a
  {
    if a == "" {
      assert a + b == b;
    } else {
      assert (a + b)[1..] == a[1..] + b;
      UpToFirst(a[1..], b, stop);
    }
  }

  /** Numbers that do not fit in 64 bits are refused. */
  function ReadMinute(rest: string, lead: string): Option<int> {
    if lead <= rest && |rest| > |lead| && rest[|rest| - 1] == '}' then
      var minute := ReadDecimal(rest[|lead|..|rest| - 1]);
      if minute.Some? && IsI64(minute.value) then minute else None
    else
      None
  }

  /** The text after the opening of the claims. */
  function ReadTail(tail: string): Option<Claims> {
    var door := UpTo(tail, '\"');
    if |door| > |tail| then None
    else
      var minuteIn := ReadMinute(tail[|door|..], ActionLead(CheckIn));
      var minuteOut := ReadMinute(tail[|door|..], ActionLead(CheckOut));
      if minuteIn.Some? then Some(Claims(QR_SCHEMA, QR_AUDIENCE, door, CheckIn, minuteIn.value))
      else if minuteOut.Some? then Some(Claims(QR_SCHEMA, QR_AUDIENCE, door, CheckOut, minuteOut.value))
      else None
  }

  /** A reader for exactly the compact form: `ReadsOwnClaims` can be met. */
  function ReadCompact(b: seq<Byte>): (claims: Option<Claims>)
    ensures claims.Some? ==> IsI64(claims.value.issuedMinute)
  {
    if ClaimsHead() <= CharsOf(b) then ReadTail(CharsOf(b)[|ClaimsHead()|..]) else None
  }

  lemma LeadShape(action: Action)
    ensures |ActionLead(action)| > 18 && ActionLead(action)[0] == '\"'
    ensures ActionLead(action)[18] == if action == CheckIn then 'i' else 'o'
  {
    var name := ActionName(action);
    assert |ACTION_KEY| == 12;
    assert name[6] == if action == CheckIn then 'i' else 'o';
    assert ActionLead(action)[18] == (ACTION_KEY + name)[18] == name[6];
  }

  lemma ReadMinuteBack(action: Action, other: Action, minute: int)
    ensures ReadMinute(ActionLead(action) + Decimal(minute) + "}", ActionLead(other))
         == if action == other && IsI64(minute) then Some(minute) else None
  {
    var rest := ActionLead(action) + Decimal(minute) + "}";
    LeadShape(action);
    LeadShape(other);
    DecimalRoundTrip(minute);
    hide ActionLead, Decimal, ReadDecimal;
    if action == other {
      assert rest[|ActionLead(action)|..|rest| - 1] == Decimal(minute);
    } else {
      assert ActionLead(other)[18] != rest[18];
    }
  }

  lemma ReadTailBack(door: string, action: Action, minute: int)
    requires IsDoorId(door)
    ensures ReadTail(door + (ActionLead(action) + Decimal(minute) + "}"))
         == if IsI64(minute) then Some(Claims(QR_SCHEMA, QR_AUDIENCE, door, action, minute)) else None
  {
    var rest := ActionLead(action) + Decimal(minute) + "}";
    ReadMinuteBack(action, CheckIn, minute);
    ReadMinuteBack(action, CheckOut, minute);
    LeadShape(action);
    DoorIsPlain(door);
    hide ActionLead, ReadMinute, IsDoorId, Decimal, QR_SCHEMA, QR_AUDIENCE;
    UpToFirst(door, rest, '\"');
    assert (door + rest)[|door|..] == rest;
  }

  /** What the compact reader makes of printed claims, whatever their minute. */
  lemma ReadCompactBack(door: string, action: Action, minute: int)
    requires IsDoorId(door)
    ensures ReadCompact(AsciiBytes(ClaimsText(door, action, minute)))
         == if IsI64(minute) then Some(Claims(QR_SCHEMA, QR_AUDIENCE, door, action, minute)) else None
  {
    hide ReadTail, ClaimsHead, ActionLead, IsDoorId, Decimal;
    var text := ClaimsText(door, action, minute);
    CharsOfAsciiBytes(text);
    assert text == ClaimsHead() + (door + (ActionLead(action) + Decimal(minute) + "}"));
    assert text[|ClaimsHead()|..] == door + (ActionLead(action) + Decimal(minute) + "}");
    ReadTailBack(door, action, minute);
  }

  lemma CompactReaderReadsOwnClaims()
    ensures ReadsOwnClaims(ReadCompact)
    ensures forall b | ReadCompact(b).Some? :: IsI64(ReadCompact(b).value.issuedMinute)
  {
    forall door, action, minute | IsDoorId(door) && IsI64(minute) ensures ReadsBack(ReadCompact, door, action, minute) {
      ReadCompactBack(door, action, minute);
    }
  }
}
