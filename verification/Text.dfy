/** Text as the two programs handle it: sequences of Unicode scalar values. */
module Text {
  import opened Wrappers

  type Byte = n: nat | n < 256

  // ----- sizes and character classes

  function Utf8Width(c: char): nat {
    if c as int < 0x80 then 1 else if c as int < 0x800 then 2 else if c as int < 0x1_0000 then 3 else 4
  }

  /** The length of the UTF-8 encoding. */
  function ByteLen(s: string): nat {
    if s == "" then 0 else Utf8Width(s[0]) + ByteLen(s[1..])
  }

  predicate IsAscii(s: string) {
    forall i | 0 <= i < |s| :: s[i] as int < 0x80
  }

  lemma {:induction false} AsciiByteLen(s: string)
    requires IsAscii(s)
    ensures ByteLen(s) == |s|
  {
    if s != "" {
      AsciiByteLen(s[1..]);
    }
  }

  predicate IsControl(c: char) {
    c as int < 0x20 || 0x7F <= c as int <= 0x9F
  }

  predicate HasControl(s: string) {
    exists c | c in s :: IsControl(c)
  }

  /** The Unicode White_Space property. */
  predicate IsWhitespace(c: char) {
    var n := c as int;
    || 0x9 <= n <= 0xD || n == 0x20 || n == 0x85 || n == 0xA0 || n == 0x1680
    || 0x2000 <= n <= 0x200A || n == 0x2028 || n == 0x2029 || n == 0x202F || n == 0x205F || n == 0x3000
  }

  function TrimStart(s: string): string {
    if s != "" && IsWhitespace(s[0]) then TrimStart(s[1..]) else s
  }

  function TrimEnd(s: string): string {
    if s != "" && IsWhitespace(s[|s| - 1]) then TrimEnd(s[..|s| - 1]) else s
  }

  function Trim(s: string): string {
    TrimEnd(TrimStart(s))
  }

  predicate AllWhitespace(s: string) {
    forall i | 0 <= i < |s| :: IsWhitespace(s[i])
  }

  lemma {:induction false} TrimStartTakesWhitespace(s: string) returns (a: string)
    ensures s == a + TrimStart(s) && AllWhitespace(a)
    ensures TrimStart(s) != "" ==> !IsWhitespace(TrimStart(s)[0])
  {
    a := "";
    if s != "" && IsWhitespace(s[0]) {
      a := TrimStartTakesWhitespace(s[1..]);
      a := [s[0]] + a;
      assert s == [s[0]] + s[1..];
    }
  }

  lemma {:induction false} TrimEndTakesWhitespace(s: string) returns (b: string)
    ensures s == TrimEnd(s) + b && AllWhitespace(b)
    ensures TrimEnd(s) != "" ==> !IsWhitespace(TrimEnd(s)[|TrimEnd(s)| - 1])
  {
    b := "";
    if s != "" && IsWhitespace(s[|s| - 1]) {
      b := TrimEndTakesWhitespace(s[..|s| - 1]);
      b := b + [s[|s| - 1]];
      assert s == s[..|s| - 1] + [s[|s| - 1]];
    }
  }

  /** Trimming takes whitespace from both ends, all of it, and nothing else. */
  lemma TrimIsTight(s: string) returns (a: string, b: string)
    ensures s == a + Trim(s) + b && AllWhitespace(a) && AllWhitespace(b)
    ensures Trim(s) != "" ==> !IsWhitespace(Trim(s)[0]) && !IsWhitespace(Trim(s)[|Trim(s)| - 1])
  {
    a := TrimStartTakesWhitespace(s);
    b := TrimEndTakesWhitespace(TrimStart(s));
    assert s == a + (Trim(s) + b);
  }

  function AsciiBytes(s: string): (b: seq<Byte>)
    requires IsAscii(s)
    ensures |b| == |s|
  {
    seq(|s|, i requires 0 <= i < |s| => var b: Byte := s[i] as int; b)
  }

  function CharsOf(b: seq<Byte>): (s: string)
    ensures |s| == |b|
  {
    seq(|b|, i requires 0 <= i < |b| => b[i] as char)
  }

  lemma CharsOfAsciiBytes(s: string)
    requires IsAscii(s)
    ensures CharsOf(AsciiBytes(s)) == s
  {
  }

  // ----- splitting

  /** The pieces between separators: always at least one. */
  function Split(s: string, separator: char): (pieces: seq<string>)
    ensures |pieces| >= 1
  {
    if s == "" then [""]
    else if s[0] == separator then [""] + Split(s[1..], separator)
    else
      var rest := Split(s[1..], separator);
      [[s[0]] + rest[0]] + rest[1..]
  }

  lemma {:induction false} SplitAtFirst(a: string, b: string, separator: char)
    requires separator !in a
    ensures Split(a + [separator] + b, separator) == [a] + Split(b, separator)
  {
    var s := a + [separator] + b;
    if a == "" {
      assert s[1..] == b;
    } else {
      assert s[1..] == a[1..] + [separator] + b;
      SplitAtFirst(a[1..], b, separator);
      assert [a[0]] + a[1..] == a;
    }
  }

  lemma {:induction false} SplitWhole(a: string, separator: char)
    requires separator !in a
    ensures Split(a, separator) == [a]
  {
    if a != "" {
      SplitWhole(a[1..], separator);
      assert [a[0]] + a[1..] == a;
    }
  }

  function Join(pieces: seq<string>, separator: char): string {
    if |pieces| == 0 then ""
    else if |pieces| == 1 then pieces[0]
    else pieces[0] + [separator] + Join(pieces[1..], separator)
  }

  /** Splitting loses nothing, and no piece contains the separator. */
  lemma {:induction false} JoinSplit(s: string, separator: char)
    ensures Join(Split(s, separator), separator) == s
    ensures forall p | p in Split(s, separator) :: separator !in p
  {
    if s != "" {
      JoinSplit(s[1..], separator);
      JoinLonger(s[0], Split(s[1..], separator), separator);
      hide Join;
    }
  }

  lemma JoinLonger(c: char, rest: seq<string>, separator: char)
    requires |rest| >= 1
    ensures Join([""] + rest, separator) == [separator] + Join(rest, separator)
    ensures Join([[c] + rest[0]] + rest[1..], separator) == [c] + Join(rest, separator)
  {
    assert ([""] + rest)[1..] == rest;
    assert ([[c] + rest[0]] + rest[1..])[1..] == rest[1..];
    if |rest| > 1 {
      assert [c] + rest[0] + [separator] + Join(rest[1..], separator) == [c] + (rest[0] + [separator] + Join(rest[1..], separator));
    }
  }

  /** Text of three pieces splits into them, and only such text does. */
  lemma ThreePieces(a: string, b: string, c: string)
    requires '.' !in a && '.' !in b && '.' !in c
    ensures Split(a + "." + b + "." + c, '.') == [a, b, c]
  {
    assert a + "." + b + "." + c == a + ['.'] + (b + ['.'] + c);
    SplitAtFirst(a, b + ['.'] + c, '.');
    SplitAtFirst(b, c, '.');
    SplitWhole(c, '.');
  }

  lemma FromThreePieces(s: string)
    requires |Split(s, '.')| == 3
    ensures var p := Split(s, '.'); s == p[0] + "." + p[1] + "." + p[2]
  {
    JoinSplit(s, '.');
    JoinThree(Split(s, '.'));
  }

  lemma JoinThree(p: seq<string>)
    requires |p| == 3
    ensures Join(p, '.') == p[0] + "." + p[1] + "." + p[2]
  {
    assert Join(p[1..], '.') == p[1] + ['.'] + p[2];
    assert p[0] + ['.'] + (p[1] + ['.'] + p[2]) == p[0] + "." + p[1] + "." + p[2];
  }

  // ----- decimal numbers

  function Digit(d: nat): char
    requires d < 10
  {
    ('0' as int + d) as char
  }

  function Digits(n: nat): string {
    if n < 10 then [Digit(n)] else Digits(n / 10) + [Digit(n % 10)]
  }

  function Decimal(n: int): string {
    if n < 0 then "-" + Digits(-n) else Digits(n)
  }

  predicate IsDigit(c: char) {
    '0' <= c <= '9'
  }

  predicate IsDigits(s: string) {
    forall i | 0 <= i < |s| :: IsDigit(s[i])
  }

  function DigitValue(c: char): nat
    requires IsDigit(c)
  {
    c as int - '0' as int
  }

  function DigitsValue(s: string): nat
    requires IsDigits(s)
  {
    if s == "" then 0
    else 10 * DigitsValue(s[..|s| - 1]) + DigitValue(s[|s| - 1])
  }

  /** A number back from its decimal text, leading zeros and all. */
  function ReadDecimal(s: string): Option<int> {
    if s != "" && IsDigits(s) then Some(DigitsValue(s))
    else if |s| > 1 && s[0] == '-' && IsDigits(s[1..]) then Some(-(DigitsValue(s[1..]) as int))
    else None
  }

  lemma {:induction false} DigitsRoundTrip(n: nat)
    ensures Digits(n) != "" && IsDigits(Digits(n)) && DigitsValue(Digits(n)) == n
  {
    if n >= 10 {
      DigitsRoundTrip(n / 10);
      assert Digits(n)[..|Digits(n)| - 1] == Digits(n / 10);
    } else {
      assert Digits(n)[..0] == "";
    }
  }

  lemma DecimalRoundTrip(n: int)
    ensures ReadDecimal(Decimal(n)) == Some(n)
    ensures IsAscii(Decimal(n)) && '}' !in Decimal(n)
  {
    DigitsRoundTrip(if n < 0 then -n else n);
    if n < 0 {
      assert Decimal(n)[0] == '-' && Decimal(n)[1..] == Digits(-n);
      assert !IsDigit(Decimal(n)[0]);
    }
  }

  /** A number below 10 to the power `width` has at most `width` digits. */
  lemma {:induction false} DigitsWidth(n: nat, width: nat)
    requires width >= 1 && n < PowerOfTen(width)
    ensures |Digits(n)| <= width
  {
    if n >= 10 {
      DigitsWidth(n / 10, width - 1);
    }
  }

  function PowerOfTen(width: nat): nat {
    if width == 0 then 1 else 10 * PowerOfTen(width - 1)
  }

  /** 64-bit numbers have at most 19 digits. */
  lemma DigitsOf64Bits(n: nat)
    requires n <= 0x8000_0000_0000_0000
    ensures |Digits(n)| <= 19
  {
    assert PowerOfTen(3) == 1_000;
    assert PowerOfTen(6) == 1_000_000;
    assert PowerOfTen(9) == 1_000_000_000;
    assert PowerOfTen(12) == 1_000_000_000_000;
    assert PowerOfTen(15) == 1_000_000_000_000_000;
    assert PowerOfTen(17) == 100_000_000_000_000_000;
    assert PowerOfTen(19) == 10_000_000_000_000_000_000;
    DigitsWidth(n, 19);
  }
}
