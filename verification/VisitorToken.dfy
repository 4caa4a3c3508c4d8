/** Visitor QR tokens of src/visitor.rs: issuing, and verification on every text. */
module VisitorToken {
  import opened Wrappers
  import opened Text
  import opened Base64Url
  import opened VisitorClaims

  /** Checked 64-bit arithmetic: the value when it fits. */
  function Checked(n: int): Option<int> {
    if IsI64(n) then Some(n) else None
  }

  /** Times the calendar library represents. */
  predicate InCalendar(cfg: Config, now: Instant) {
    I64_MIN + 60 <= Seconds(now) <= cfg.lastSecond
  }

  // ----- issuing

  function Signature(cfg: Config, encodedPayload: string): seq<Byte> {
    cfg.mac(QR_DOMAIN + encodedPayload)
  }

  /** The token whose payload bytes are `payload`. */
  function TokenFor(cfg: Config, payload: seq<Byte>): string {
    TOKEN_PREFIX + "." + Encode(payload) + "." + Encode(Signature(cfg, Encode(payload)))
  }

  /** `issue_for_minute`. */
  function IssueForMinute(cfg: Config, door: string, action: Action, minute: int): string
    requires IsDoorId(door)
  {
    TokenFor(cfg, AsciiBytes(ClaimsText(door, action, minute)))
  }

  const QR_SCHEME := "hhm-visitor:"

  datatype IssuedQr = IssuedQr(action: Action, doorId: string, qrPayload: string, expiresAt: int)

  function Issue(cfg: Config, door: string, action: Action, now: Instant): Result<IssuedQr, VisitorError>
    requires forall d | d in cfg.doorIds :: IsDoorId(d)
  {
    if door !in cfg.doorIds then Err(InvalidDoor)
    else
      var minute := Minute(now);
      var token := IssueForMinute(cfg, door, action, minute);
      match Checked(minute + 1)
      case None => Err(InvalidQr)
      case Some(next) =>
        match Checked(next * 60)
        case None => Err(InvalidQr)
        case Some(end) =>
          match Checked(end + QR_GRACE_SECONDS)
          case None => Err(InvalidQr)
          case Some(expiry) =>
            if expiry > cfg.lastSecond then Err(InvalidQr)
            else Ok(IssuedQr(action, door, QR_SCHEME + token, expiry))
  }

  // ----- verification

  /** The claims of a token whose segments, signature and JSON are all in order. */
  function AuthenticClaims(cfg: Config, token: string): Option<Claims> {
    var segments := Split(token, '.');
    if |segments| != 3 || segments[0] != TOKEN_PREFIX || ByteLen(segments[1]) > MAX_PAYLOAD_BYTES * 2 then None
    else
      match Decode(segments[2])
      case None => None
      case Some(signature) =>
        if signature != Signature(cfg, segments[1]) then None
        else
          match Decode(segments[1])
          case None => None
          case Some(payload) => if |payload| > MAX_PAYLOAD_BYTES then None else cfg.parse(payload)
  }

  predicate ClaimsMatch(cfg: Config, claims: Claims, door: string, action: Action) {
    && claims.schema == QR_SCHEMA
    && claims.audience == QR_AUDIENCE
    && claims.doorId == door
    && claims.action == action
    && claims.doorId in cfg.doorIds
  }

  /** Why a token is refused, or None when it is accepted. */
  function Verify(cfg: Config, token: string, door: string, action: Action, now: Instant): Option<VisitorError> {
    if ByteLen(token) > MAX_TOKEN_BYTES then Some(InvalidQr)
    else if door !in cfg.doorIds then Some(InvalidDoor)
    else
      match AuthenticClaims(cfg, token)
      case None => Some(InvalidQr)
      case Some(claims) =>
        if !ClaimsMatch(cfg, claims, door, action) then Some(InvalidQr)
        else
          match Checked(claims.issuedMinute * 60)
          case None => Some(InvalidQr)
          case Some(issuedAt) =>
            match Checked(issuedAt + 60 + QR_GRACE_SECONDS)
            case None => Some(InvalidQr)
            case Some(expiresAt) =>
              if Seconds(now) < issuedAt || Seconds(now) > expiresAt then Some(ExpiredQr) else None
  }

  /** Configurations of the kind the service starts with exist, for every MAC of 32 bytes:
      nothing below is vacuous. */
  lemma ValidConfigExists(doorIds: set<string>, noticeVersion: string, mac: string -> seq<Byte>) returns (cfg: Config)
    requires forall d | d in doorIds :: IsDoorId(d)
    requires forall m :: |mac(m)| == 32
    ensures cfg.Valid() && cfg == Config(doorIds, noticeVersion, mac, ReadCompact, I64_MAX)
  {
    cfg := Config(doorIds, noticeVersion, mac, ReadCompact, I64_MAX);
    CompactReaderReadsOwnClaims();
  }

  // ----- what an accepted token is

  /** Three plain segments: how the text splits, and how long it is. */
  lemma PlainSegments(e: string, signature: string)
    requires InAlphabet(e) && InAlphabet(signature)
    ensures Split(TOKEN_PREFIX + "." + e + "." + signature, '.') == [TOKEN_PREFIX, e, signature]
    ensures ByteLen(TOKEN_PREFIX + "." + e + "." + signature) == 6 + |e| + |signature|
    ensures ByteLen(e) == |e| && ByteLen(signature) == |signature|
  {
    AlphabetIsPlain(e);
    AlphabetIsPlain(signature);
    assert IsAscii(TOKEN_PREFIX + ".") && IsAscii(".") && '.' !in TOKEN_PREFIX;
    ThreePieces(TOKEN_PREFIX, e, signature);
    AsciiByteLen(e);
    AsciiByteLen(signature);
    hide Split, ByteLen, InAlphabet;
    AsciiByteLen(TOKEN_PREFIX + "." + e + "." + signature) by {
      AsciiConcat(TOKEN_PREFIX + ".", e);
      AsciiConcat(TOKEN_PREFIX + "." + e, ".");
      AsciiConcat(TOKEN_PREFIX + "." + e + ".", signature);
    }
  }

  lemma TokenSegments(cfg: Config, payload: seq<Byte>)
    requires cfg.Valid()
    ensures var e := Encode(payload);
      && Split(TokenFor(cfg, payload), '.') == [TOKEN_PREFIX, e, Encode(Signature(cfg, e))]
      && ByteLen(e) == |e| == (4 * |payload| + 2) / 3
      && |Encode(Signature(cfg, e))| == 43
      && ByteLen(TokenFor(cfg, payload)) == 49 + |e|
  {
    var e := Encode(payload);
    EncodedShape(payload);
    EncodedShape(Signature(cfg, e));
    assert |Signature(cfg, e)| == 32;
    hide Encode, Split, ByteLen, InAlphabet, ReadsOwnClaims;
    PlainSegments(e, Encode(Signature(cfg, e)));
  }

  /** The claims in a token made from a payload that is not too long. */
  lemma TokenIsAuthentic(cfg: Config, payload: seq<Byte>)
    requires cfg.Valid() && |payload| <= MAX_PAYLOAD_BYTES
    ensures AuthenticClaims(cfg, TokenFor(cfg, payload)) == cfg.parse(payload)
    ensures ByteLen(TokenFor(cfg, payload)) <= MAX_TOKEN_BYTES
  {
    TokenSegments(cfg, payload);
    DecodeEncode(payload);
    DecodeEncode(Signature(cfg, Encode(payload)));
  }

  /** The payload bytes of a token, when its middle segment decodes. */
  function PayloadOf(token: string): Option<seq<Byte>> {
    var segments := Split(token, '.');
    if |segments| == 3 then Decode(segments[1]) else None
  }

  /** Only tokens of the service's own making carry authentic claims. */
  lemma AuthenticTokenIsCanonical(cfg: Config, token: string)
    requires cfg.Valid() && AuthenticClaims(cfg, token).Some?
    ensures PayloadOf(token).Some?
    ensures var payload := PayloadOf(token).value;
      && |payload| <= MAX_PAYLOAD_BYTES
      && token == TokenFor(cfg, payload)
      && AuthenticClaims(cfg, token) == cfg.parse(payload)
  {
    var segments := Split(token, '.');
    FromThreePieces(token);
    EncodeDecode(segments[1]);
    EncodeDecode(segments[2]);
    hide Split, Encode, Decode, ByteLen;
  }

  /** The claims are this service's, for this door and action, at a time that 64-bit
      seconds can tell. */
  predicate MeantFor(cfg: Config, claims: Claims, door: string, action: Action) {
    && claims == Claims("hhm.visitor-qr.v1", "hhm-visitor-access", door, action, claims.issuedMinute)
    && door in cfg.doorIds
    && IsI64(claims.issuedMinute * 60) && IsI64(claims.issuedMinute * 60 + 75)
  }

  /** The token is the canonical signed encoding of `payload`, whose claims are meant for
      this door and action. */
  ghost predicate Carries(cfg: Config, token: string, payload: seq<Byte>, door: string, action: Action) {
    && token == TokenFor(cfg, payload)
    && |payload| <= 512
    && cfg.parse(payload).Some?
    && MeantFor(cfg, cfg.parse(payload).value, door, action)
  }

  /** The minute and the 15 seconds after it. */
  predicate InWindow(minute: int, now: Instant) {
    60 * minute <= Seconds(now) <= 60 * minute + 75
  }

  /** Verification accepts exactly the signed, canonically encoded tokens with acceptable
      claims; the caps on the token and on its encoded payload never decide. */
  lemma VerifyAcceptsExactly(cfg: Config, token: string, door: string, action: Action, now: Instant)
    requires cfg.Valid()
    ensures Verify(cfg, token, door, action, now) == None <==>
      exists payload :: Carries(cfg, token, payload, door, action) && InWindow(cfg.parse(payload).value.issuedMinute, now)
  {
    VerifyReadsClaims(cfg, token, door, action, now);
    hide Verify, InWindow, Carries, AuthenticClaims, ByteLen;
    ClaimsAreCarried(cfg, token, door, action);
  }

  /** Which error a refused token gets: an unknown door comes first unless the text is over
      1,024 bytes, an otherwise acceptable token outside its window has expired, and all
      others are invalid. */
  lemma VerifyRefusesExactly(cfg: Config, token: string, door: string, action: Action, now: Instant)
    requires cfg.Valid() && Verify(cfg, token, door, action, now).Some?
    ensures Verify(cfg, token, door, action, now).value
         == if ByteLen(token) <= 1_024 && door !in cfg.doorIds then InvalidDoor
            else if exists payload :: Carries(cfg, token, payload, door, action) then ExpiredQr
            else InvalidQr
  {
    VerifyReadsClaims(cfg, token, door, action, now);
    hide Verify, MeantFor, InWindow, Carries, AuthenticClaims, ByteLen;
    ClaimsAreCarried(cfg, token, door, action);
  }

  /** What a token carries are its authentic claims. */
  lemma ClaimsAreCarried(cfg: Config, token: string, door: string, action: Action)
    requires cfg.Valid()
    ensures forall payload | Carries(cfg, token, payload, door, action) ::
              AuthenticClaims(cfg, token) == cfg.parse(payload)
    ensures (exists payload :: Carries(cfg, token, payload, door, action))
       <==> AuthenticClaims(cfg, token).Some? && MeantFor(cfg, AuthenticClaims(cfg, token).value, door, action)
            && ByteLen(token) <= 1_024
  {
    hide MeantFor, AuthenticClaims, ByteLen, TokenFor;
    forall payload | Carries(cfg, token, payload, door, action)
      ensures ByteLen(token) <= 1_024 && AuthenticClaims(cfg, token) == cfg.parse(payload)
    {
      TokenIsAuthentic(cfg, payload);
    }
    if AuthenticClaims(cfg, token).Some? && MeantFor(cfg, AuthenticClaims(cfg, token).value, door, action) {
      AuthenticTokenIsCanonical(cfg, token);
      assert Carries(cfg, token, PayloadOf(token).value, door, action);
    }
  }

  /** The answer, in terms of the authentic claims. */
  lemma VerifyReadsClaims(cfg: Config, token: string, door: string, action: Action, now: Instant)
    ensures var claims := AuthenticClaims(cfg, token);
      Verify(cfg, token, door, action, now)
      == if ByteLen(token) <= 1_024 && door !in cfg.doorIds then Some(InvalidDoor)
         else if ByteLen(token) > 1_024 || claims.None? || !MeantFor(cfg, claims.value, door, action) then Some(InvalidQr)
         else if InWindow(claims.value.issuedMinute, now) then None
         else Some(ExpiredQr)
  {
    hide AuthenticClaims, ByteLen;
  }

  // ----- the redemption key

  /** `rsplit_once('.')`: the text after the last dot, if there is a dot. */
  function AfterLastDot(token: string): Option<string> {
    if token == "" then None
    else
      var later := AfterLastDot(token[1..]);
      if later.Some? then later else if token[0] == '.' then Some(token[1..]) else None
  }

  /** `qr_redemption_key`. */
  function RedemptionKey(token: string): Option<string> {
    match AfterLastDot(token)
    case None => None
    case Some(signature) => if signature != "" && ByteLen(signature) <= 64 then Some(signature) else None
  }

  lemma {:induction false} AfterLastDotIs(a: string, b: string)
    requires '.' !in b
    ensures AfterLastDot(a + "." + b) == Some(b)
  {
    var s := a + "." + b;
    NoDotAfter(b);
    if a == "" {
      assert s[1..] == b;
    } else {
      assert s[1..] == a[1..] + "." + b;
      AfterLastDotIs(a[1..], b);
    }
  }

  lemma {:induction false} NoDotAfter(b: string)
    requires '.' !in b
    ensures AfterLastDot(b) == None
  {
    if b != "" {
      NoDotAfter(b[1..]);
    }
  }

  /** An accepted token always has a redemption key: the 43 characters of its signature. */
  lemma AcceptedTokenHasKey(cfg: Config, token: string)
    requires cfg.Valid() && AuthenticClaims(cfg, token).Some?
    ensures RedemptionKey(token) == Some(Encode(Signature(cfg, Split(token, '.')[1])))
    ensures |RedemptionKey(token).value| == 43
  {
    AuthenticTokenIsCanonical(cfg, token);
    var payload := PayloadOf(token).value;
    TokenSegments(cfg, payload);
    var signature := Encode(Signature(cfg, Encode(payload)));
    EncodedShape(Signature(cfg, Encode(payload)));
    AlphabetIsPlain(signature);
    AsciiByteLen(signature);
    AfterLastDotIs(TOKEN_PREFIX + "." + Encode(payload), signature);
    assert token == TOKEN_PREFIX + "." + Encode(payload) + "." + signature;
  }

  /** Tokens with the same payload segment are the same token, so every use of a code
      counts against one key. */
  lemma AcceptedTokensAreCanonical(cfg: Config, a: string, b: string)
    requires cfg.Valid() && AuthenticClaims(cfg, a).Some? && AuthenticClaims(cfg, b).Some?
    requires Split(a, '.')[1] == Split(b, '.')[1]
    ensures a == b
  {
    AuthenticTokenIsCanonical(cfg, a);
    AuthenticTokenIsCanonical(cfg, b);
  }

  // ----- round trip

  /** A minute of 64-bit seconds prints in at most 20 characters. */
  lemma MinuteWidth(minute: int)
    requires I64_MIN <= minute <= I64_MAX
    ensures |Decimal(minute)| <= 20
  {
    DigitsOf64Bits(if minute < 0 then -minute else minute);
  }

  lemma IssuedPayloadFits(door: string, action: Action, minute: int)
    requires IsDoorId(door) && I64_MIN <= minute <= I64_MAX
    ensures |ClaimsText(door, action, minute)| <= 198 < MAX_PAYLOAD_BYTES
  {
    ClaimsFrameIsPlain(action);
    DoorIsPlain(door);
    MinuteWidth(minute);
  }

  /** Issuing succeeds for configured doors, as long as the expiry can be represented. */
  lemma IssueSucceedsExactly(cfg: Config, door: string, action: Action, now: Instant)
    requires forall d | d in cfg.doorIds :: IsDoorId(d)
    requires cfg.lastSecond <= I64_MAX && InCalendar(cfg, now)
    ensures Issue(cfg, door, action, now).Ok? <==> door in cfg.doorIds && 60 * Minute(now) + 75 <= cfg.lastSecond
    ensures Issue(cfg, door, action, now).Err? ==>
              Issue(cfg, door, action, now).error == if door in cfg.doorIds then InvalidQr else InvalidDoor
  {
    assert I64_MIN <= 60 * Minute(now) <= Seconds(now) < 60 * Minute(now) + 60;
  }

  /** What is issued, character by character: the claims as JSON in base64url, signed under
      the QR domain, for the door and action that were asked for. */
  lemma IssuedTextIs(cfg: Config, door: string, action: Action, now: Instant)
    requires forall d | d in cfg.doorIds :: IsDoorId(d)
    requires Issue(cfg, door, action, now).Ok?
    ensures var q := Issue(cfg, door, action, now).value;
      var claims := ClaimsText(door, action, now / 1_000_000_000 / 60);
      var e := Encode(AsciiBytes(claims));
      && q.action == action && q.doorId == door
      && q.qrPayload == "hhm-visitor:hhm1." + e + "." + Encode(cfg.mac("hhm.visitor-qr.signature.v1\0" + e))
      && claims
         == ("{\"schema\":\"" + "hhm.visitor-qr.v1" + "\",\"audience\":\"" + "hhm-visitor-access" + "\",\"door_id\":\"") + door
            + ("\",\"action\":\"" + (if action == CheckIn then "check_in" else "check_out") + "\",\"issued_minute\":")
            + Decimal(now / 1_000_000_000 / 60) + "}"
  {
    hide Decimal, Encode, IsDoorId;
    assert QR_SCHEME + (TOKEN_PREFIX + ".") == "hhm-visitor:hhm1.";
  }

  /** A token works from the moment it is issued, and for 15 to 75 seconds more. */
  lemma FreshTokenWorks(cfg: Config, door: string, action: Action, now: Instant)
    requires cfg.Valid() && InCalendar(cfg, now) && Issue(cfg, door, action, now).Ok?
    ensures var q := Issue(cfg, door, action, now).value;
      && Verify(cfg, q.qrPayload[12..], door, action, now) == None
      && now + 15 * 1_000_000_000 < q.expiresAt * 1_000_000_000 <= now + 75 * 1_000_000_000
  {
    TokenRoundTrip(cfg, door, action, now, door, action, now);
    assert |QR_SCHEME| == 12;
    hide Verify, IssueForMinute;
  }

  /** An issued token is accepted for its own door and action in exactly the 76 whole
      seconds from the start of its minute to the advertised expiry, and nowhere else. */
  lemma TokenRoundTrip(cfg: Config, door: string, action: Action, now: Instant,
                       atDoor: string, forAction: Action, later: Instant)
    requires cfg.Valid() && InCalendar(cfg, now)
    requires Issue(cfg, door, action, now).Ok?
    ensures var q := Issue(cfg, door, action, now).value;
      && q.expiresAt == 60 * Minute(now) + 75
      && QR_SCHEME <= q.qrPayload
      && var token := q.qrPayload[|QR_SCHEME|..];
      && |Split(token, '.')| == 3
      && ByteLen(token) <= 314
      && Verify(cfg, token, atDoor, forAction, later)
         == if atDoor !in cfg.doorIds then Some(InvalidDoor)
            else if atDoor != door || forAction != action then Some(InvalidQr)
            else if 60 * Minute(now) <= Seconds(later) <= q.expiresAt then None
            else Some(ExpiredQr)
  {
    hide Verify, TokenFor, AuthenticClaims, ClaimsText, IsDoorId, Split, ByteLen, Encode;
    var minute := Minute(now);
    var payload := AsciiBytes(ClaimsText(door, action, minute));
    assert I64_MIN <= 60 * minute <= Seconds(now) < 60 * minute + 60;
    IssuedPayloadFits(door, action, minute);
    TokenIsAuthentic(cfg, payload);
    TokenSegments(cfg, payload);
    assert ReadsBack(cfg.parse, door, action, minute);
    assert (QR_SCHEME + TokenFor(cfg, payload))[|QR_SCHEME|..] == TokenFor(cfg, payload);
    VerifyOfIssued(cfg, TokenFor(cfg, payload), door, action, minute, atDoor, forAction, later);
  }

  lemma VerifyOfIssued(cfg: Config, token: string, door: string, action: Action, minute: int,
                       atDoor: string, forAction: Action, later: Instant)
    requires AuthenticClaims(cfg, token) == Some(Claims(QR_SCHEMA, QR_AUDIENCE, door, action, minute))
    requires ByteLen(token) <= MAX_TOKEN_BYTES && door in cfg.doorIds
    requires I64_MIN <= 60 * minute && 60 * minute + 75 <= I64_MAX
    ensures Verify(cfg, token, atDoor, forAction, later)
         == if atDoor !in cfg.doorIds then Some(InvalidDoor)
            else if atDoor != door || forAction != action then Some(InvalidQr)
            else if 60 * minute <= Seconds(later) <= 60 * minute + 75 then None
            else Some(ExpiredQr)
  {
    hide AuthenticClaims, ByteLen, QR_SCHEMA, QR_AUDIENCE;
  }
}
