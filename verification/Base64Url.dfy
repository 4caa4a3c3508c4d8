/** Unpadded base64url, section 5 of RFC 4648, with canonical decoding as section 3.5 of
    RFC 4648 allows a decoder to demand. */
module Base64Url {
  import opened Wrappers
  import opened Text

  type Sextet = n: nat | n < 64

  function Symbol(v: Sextet): char {
    if v < 26 then ('A' as int + v) as char
    else if v < 52 then ('a' as int + v - 26) as char
    else if v < 62 then ('0' as int + v - 52) as char
    else if v == 62 then '-'
    else '_'
  }

  function ValueOf(c: char): Option<Sextet> {
    if 'A' <= c <= 'Z' then Some(c as int - 'A' as int)
    else if 'a' <= c <= 'z' then Some(c as int - 'a' as int + 26)
    else if '0' <= c <= '9' then Some(c as int - '0' as int + 52)
    else if c == '-' then Some(62)
    else if c == '_' then Some(63)
    else None
  }

  /** Each symbol stands for one value and each value for one symbol. */
  lemma SymbolsAreOneToOne(v: Sextet, c: char)
    ensures ValueOf(c) == Some(v) <==> Symbol(v) == c
  {
  }

  function Encode(b: seq<Byte>): string {
    if |b| == 0 then ""
    else if |b| == 1 then [Symbol(b[0] / 4), Symbol(b[0] % 4 * 16)]
    else if |b| == 2 then [Symbol(b[0] / 4), Symbol(b[0] % 4 * 16 + b[1] / 16), Symbol(b[1] % 16 * 4)]
    else
      [Symbol(b[0] / 4), Symbol(b[0] % 4 * 16 + b[1] / 16), Symbol(b[1] % 16 * 4 + b[2] / 64), Symbol(b[2] % 64)]
      + Encode(b[3..])
  }

  /** A symbol outside the alphabet, a lone last symbol or a non-zero spare bit is refused. */
  function Decode(s: string): Option<seq<Byte>> {
    if |s| == 0 then Some([])
    else if |s| == 1 then None
    else
      match (ValueOf(s[0]), ValueOf(s[1]))
      case (Some(v), Some(w)) =>
        if |s| == 2 then
          if w % 16 == 0 then Some([v * 4 + w / 16]) else None
        else (
          match ValueOf(s[2])
          case None => None
          case Some(x) =>
            if |s| == 3 then
              if x % 4 == 0 then Some([v * 4 + w / 16, w % 16 * 16 + x / 4]) else None
            else (
              match (ValueOf(s[3]), Decode(s[4..]))
              case (Some(y), Some(rest)) =>
                Some([v * 4 + w / 16, w % 16 * 16 + x / 4, x % 4 * 64 + y] + rest)
              case (_, _) => None
            )
        )
      case (_, _) => None
  }

  /** Three bytes and their four sextets hold the same 24 bits. */
  lemma BytesToSextets(a: Byte, b: Byte, c: Byte)
    ensures a / 4 * 4 + (a % 4 * 16 + b / 16) / 16 == a
    ensures (a % 4 * 16 + b / 16) % 16 * 16 + (b % 16 * 4 + c / 64) / 4 == b
    ensures (b % 16 * 4 + c / 64) % 4 * 64 + c % 64 == c
  {
  }

  lemma SextetsToBytes(v: Sextet, w: Sextet, x: Sextet, y: Sextet)
    ensures (v * 4 + w / 16) / 4 == v
    ensures (v * 4 + w / 16) % 4 * 16 + (w % 16 * 16 + x / 4) / 16 == w
    ensures (w % 16 * 16 + x / 4) % 16 * 4 + (x % 4 * 64 + y) / 64 == x
    ensures (x % 4 * 64 + y) % 64 == y
  {
  }

  lemma ValueOfSymbol()
    ensures forall v: Sextet :: ValueOf(Symbol(v)) == Some(v)
  {
    forall v: Sextet ensures ValueOf(Symbol(v)) == Some(v) {
      SymbolsAreOneToOne(v, Symbol(v));
    }
  }

  lemma SymbolOfValue()
    ensures forall c | ValueOf(c).Some? :: Symbol(ValueOf(c).value) == c
  {
  }

  lemma {:induction false} DecodeEncode(b: seq<Byte>)
    ensures Decode(Encode(b)) == Some(b)
  {
    ValueOfSymbol();
    hide Symbol, ValueOf;
    if |b| >= 3 {
      DecodeEncode(b[3..]);
      assert Encode(b)[4..] == Encode(b[3..]);
      BytesToSextets(b[0], b[1], b[2]);
      assert [b[0], b[1], b[2]] + b[3..] == b;
    } else if |b| == 2 {
      BytesToSextets(b[0], b[1], 0);
      assert [b[0], b[1]] == b;
    } else if |b| == 1 {
      BytesToSextets(b[0], 0, 0);
      assert [b[0]] == b;
    }
  }

  /** Decoding is canonical: only the encoder's own text decodes. */
  lemma {:induction false} EncodeDecode(s: string)
    requires Decode(s).Some?
    ensures Encode(Decode(s).value) == s
  {
    SymbolOfValue();
    hide Symbol, ValueOf;
    if |s| >= 4 {
      EncodeDecode(s[4..]);
      assert Decode(s).value[3..] == Decode(s[4..]).value;
      SextetsToBytes(ValueOf(s[0]).value, ValueOf(s[1]).value, ValueOf(s[2]).value, ValueOf(s[3]).value);
      assert s == [s[0], s[1], s[2], s[3]] + s[4..];
    } else if |s| == 3 {
      SextetsToBytes(ValueOf(s[0]).value, ValueOf(s[1]).value, ValueOf(s[2]).value, 0);
    } else if |s| == 2 {
      SextetsToBytes(ValueOf(s[0]).value, ValueOf(s[1]).value, 0, 0);
    }
  }

  predicate InAlphabet(s: string) {
    forall i | 0 <= i < |s| :: ValueOf(s[i]).Some?
  }

  lemma AlphabetIsPlain(s: string)
    requires InAlphabet(s)
    ensures IsAscii(s) && '.' !in s
  {
  }

  /** Encoded text is 4/3 as long, rounded up, and uses the alphabet only. */
  lemma {:induction false} EncodedShape(b: seq<Byte>)
    ensures |Encode(b)| == (4 * |b| + 2) / 3
    ensures InAlphabet(Encode(b))
  {
    ValueOfSymbol();
    hide Symbol, ValueOf;
    if |b| >= 3 {
      EncodedShape(b[3..]);
      assert |Encode(b)| == 4 + |Encode(b[3..])|;
    }
  }

  const UPPER := "ABCDEFGHIJKLMNOPQRSTUVWXYZ"
  const LOWER := "abcdefghijklmnopqrstuvwxyz"
  const OTHERS := "0123456789-_"
  const ALPHABET := UPPER + LOWER + OTHERS

  lemma SymbolIsInTable(v: Sextet)
    ensures |ALPHABET| == 64 && Symbol(v) == ALPHABET[v]
  {
    assert v < 26 ==> |UPPER| == 26 && Symbol(v) == UPPER[v];
    assert 26 <= v < 52 ==> |LOWER| == 26 && Symbol(v) == LOWER[v - 26];
    assert 52 <= v ==> |OTHERS| == 12 && Symbol(v) == OTHERS[v - 52];
    hide UPPER, LOWER, OTHERS, Symbol;
  }

  /** The bytes with zeros after their end. */
  function ByteAt(b: seq<Byte>, i: nat): Byte {
    if i < |b| then b[i] else 0
  }

  /** The `i`-th group of six bits, of all bytes read as one string of bits. */
  function SixBits(b: seq<Byte>, i: nat): int {
    var q := i / 4 * 3;
    match i % 4
    case 0 => ByteAt(b, q) / 4
    case 1 => ByteAt(b, q) % 4 * 16 + ByteAt(b, q + 1) / 16
    case 2 => ByteAt(b, q + 1) % 16 * 4 + ByteAt(b, q + 2) / 64
    case _ => ByteAt(b, q + 2) % 64
  }

  /** Each character stands for its six bits in the table of section 5 of RFC 4648. */
  lemma {:induction false} EncodedCharacter(b: seq<Byte>, i: nat)
    requires i < |Encode(b)|
    ensures 0 <= SixBits(b, i) < |ALPHABET| && Encode(b)[i] == ALPHABET[SixBits(b, i)]
  {
    if |b| >= 3 && i >= 4 {
      EncodedCharacter(b[3..], i - 4);
      LaterSixBits(b, i);
      hide Symbol, SixBits;
    } else {
      FirstSixBits(b, i);
      SymbolIsInTable(SixBits(b, i));
    }
  }

  lemma LaterSixBits(b: seq<Byte>, i: nat)
    requires |b| >= 3 && i >= 4
    ensures SixBits(b, i) == SixBits(b[3..], i - 4)
  {
    assert (i - 4) / 4 == i / 4 - 1 && (i - 4) % 4 == i % 4;
  }

  lemma FirstSixBits(b: seq<Byte>, i: nat)
    requires i < |Encode(b)| && (i < 4 || |b| < 3)
    ensures 0 <= SixBits(b, i) < 64 && Encode(b)[i] == Symbol(SixBits(b, i))
  {
    hide Symbol;
    assert i < 4;
  }

  lemma EncodeIsInjective(a: seq<Byte>, b: seq<Byte>)
    requires Encode(a) == Encode(b)
    ensures a == b
  {
    DecodeEncode(a);
    DecodeEncode(b);
  }
}
