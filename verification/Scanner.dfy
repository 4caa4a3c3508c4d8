/** The balanced-delimiter scanners of scripts/check-route-sync.py against a grammar of
    balanced text in which quoted strings are opaque. */
module Scanner {
  import opened Wrappers

  predicate IsQuote(c: char) {
    c == '\"' || c == '\''
  }

  /** A pair of delimiters, distinct from each other, from the quotes and from the escape. */
  datatype Delimiters = Delimiters(opener: char, closer: char) {
    predicate Valid() {
      && opener != closer
      && !IsQuote(opener) && !IsQuote(closer)
    }
  }

  const PARENTHESES := Delimiters('(', ')')
  const BRACES := Delimiters('{', '}')

  // ----- the grammar

  /** One character of a quoted string, or an escape with whatever it escapes. */
  datatype Piece = Raw(c: char) | Escaped(c: char)

  /** Balanced text, left to right. */
  datatype Balanced =
    | Empty
    | Plain(c: char, rest: Balanced)
    | Quoted(quote: char, body: seq<Piece>, rest: Balanced)
    | Group(inside: Balanced, rest: Balanced)

  predicate PiecesValid(body: seq<Piece>, quote: char) {
    forall i | 0 <= i < |body| && body[i].Raw? :: body[i].c != quote && body[i].c != '\\'
  }

  predicate WellFormed(b: Balanced, d: Delimiters) {
    match b
    case Empty => true
    case Plain(c, rest) => !IsQuote(c) && c != d.opener && c != d.closer && WellFormed(rest, d)
    case Quoted(quote, body, rest) => IsQuote(quote) && PiecesValid(body, quote) && WellFormed(rest, d)
    case Group(inside, rest) => WellFormed(inside, d) && WellFormed(rest, d)
  }

  function PrintPieces(body: seq<Piece>): string {
    if body == [] then ""
    else (match body[0] case Raw(c) => [c] case Escaped(c) => ['\\', c]) + PrintPieces(body[1..])
  }

  function Print(b: Balanced, d: Delimiters): string {
    match b
    case Empty => ""
    case Plain(c, rest) => [c] + Print(rest, d)
    case Quoted(quote, body, rest) => [quote] + PrintPieces(body) + [quote] + Print(rest, d)
    case Group(inside, rest) => [d.opener] + Print(inside, d) + [d.closer] + Print(rest, d)
  }

  /** The delimiter at `open` is closed at `k`: what is between them is balanced text. */
  ghost predicate Closes(text: string, open: nat, k: nat, d: Delimiters) {
    && open < k < |text|
    && text[open] == d.opener && text[k] == d.closer
    && exists b :: WellFormed(b, d) && Print(b, d) == text[open + 1..k]
  }

  // ----- the scan

  /** The scanner is in code, or in a string opened by `quote`. */
  datatype Mode = InCode | InString(quote: char, escaped: bool)

  /** Where a scan that is at `i` with this depth and mode finds the closer it returns at. */
  function Scan(text: string, i: nat, depth: int, mode: Mode, d: Delimiters): (k: Option<nat>)
    ensures k.Some? ==> i <= k.value < |text| && text[k.value] == d.closer
    ensures k.Some? && depth <= 0 ==> i < k.value
    decreases |text| - i
  {
    if i >= |text| then None
    else
      match mode
      case InString(quote, escaped) =>
        if escaped then Scan(text, i + 1, depth, InString(quote, false), d)
        else if text[i] == '\\' then Scan(text, i + 1, depth, InString(quote, true), d)
        else if text[i] == quote then Scan(text, i + 1, depth, InCode, d)
        else Scan(text, i + 1, depth, mode, d)
      case InCode =>
        if IsQuote(text[i]) then Scan(text, i + 1, depth, InString(text[i], false), d)
        else if text[i] == d.opener then Scan(text, i + 1, depth + 1, InCode, d)
        else if text[i] == d.closer then
          if depth - 1 == 0 then Some(i) else Scan(text, i + 1, depth - 1, InCode, d)
        else Scan(text, i + 1, depth, InCode, d)
  }

  /** `_balanced`: the text inside the parentheses opened at `open` and the index past the
      closing one, or the rest of the text when nothing closes them. */
  method ScanParentheses(text: string, open: nat) returns (inner: string, next: nat)
    ensures forall k: nat | Closes(text, open, k, PARENTHESES) :: inner == text[open + 1..k] && next == k + 1
    ensures open < |text| && text[open] == '(' && (forall k: nat :: !Closes(text, open, k, PARENTHESES)) ==>
              inner == text[open + 1..] && next == |text|
    ensures open >= |text| ==> inner == "" && next == |text|
  {
    ghost var found := Scan(text, open, 0, InCode, PARENTHESES);
    ScanFindsTheCloser(text, open, PARENTHESES);
    var depth: int, i, inStr: Option<char>, escaped := 0, open, None, false;
    var start := open + 1;
    while i < |text|
      invariant open <= i
      invariant inStr.None? ==> !escaped
      invariant found == Scan(text, i, depth, if inStr.Some? then InString(inStr.value, escaped) else InCode, PARENTHESES)
    {
      var ch := text[i];
      if inStr.Some? {
        if escaped {
          escaped := false;
        } else if ch == '\\' {
          escaped := true;
        } else if ch == inStr.value {
          inStr := None;
        }
        i := i + 1;
        continue;
      }
      if ch == '\"' || ch == '\'' {
        inStr := Some(ch);
      } else if ch == '(' {
        depth := depth + 1;
      } else if ch == ')' {
        depth := depth - 1;
        if depth == 0 {
          assert found == Some(i);
          return text[start..i], i + 1;
        }
      }
      i := i + 1;
    }
    return if start <= |text| then text[start..] else "", |text|;
  }

  /** `_balanced_braces`: the same for braces, except that text which nothing closes is
      returned with its opening brace. */
  method ScanBraces(text: string, open: nat) returns (inner: string, next: nat)
    ensures forall k: nat | Closes(text, open, k, BRACES) :: inner == text[open + 1..k] && next == k + 1
    ensures open < |text| && text[open] == '{' && (forall k: nat :: !Closes(text, open, k, BRACES)) ==>
              inner == text[open..] && next == |text|
    ensures open >= |text| ==> inner == "" && next == |text|
  {
    ghost var found := Scan(text, open, 0, InCode, BRACES);
    ScanFindsTheCloser(text, open, BRACES);
    var depth: int, i, inStr: Option<char>, escaped := 0, open, None, false;
    while i < |text|
      invariant open <= i
      invariant inStr.None? ==> !escaped
      invariant found == Scan(text, i, depth, if inStr.Some? then InString(inStr.value, escaped) else InCode, BRACES)
    {
      var ch := text[i];
      if inStr.Some? {
        if escaped {
          escaped := false;
        } else if ch == '\\' {
          escaped := true;
        } else if ch == inStr.value {
          inStr := None;
        }
        i := i + 1;
        continue;
      }
      if ch == '\"' || ch == '\'' {
        inStr := Some(ch);
      } else if ch == '{' {
        depth := depth + 1;
      } else if ch == '}' {
        depth := depth - 1;
        if depth == 0 {
          assert found == Some(i);
          return text[open + 1..i], i + 1;
        }
      }
      i := i + 1;
    }
    return if open <= |text| then text[open..] else "", |text|;
  }

  // ----- balanced text is scanned over

  /** `w` stands in `text` at index `i`. */
  predicate StandsAt(text: string, i: nat, w: string) {
    i + |w| <= |text| && text[i..i + |w|] == w
  }

  lemma StandsInParts(text: string, i: nat, v: string, w: string)
    requires StandsAt(text, i, v + w)
    ensures StandsAt(text, i, v) && StandsAt(text, i + |v|, w)
  {
    assert (v + w)[..|v|] == v && (v + w)[|v|..] == w;
    assert text[i..i + |v|] == text[i..i + |v + w|][..|v|];
    assert text[i + |v|..i + |v| + |w|] == text[i..i + |v + w|][|v|..];
  }

  lemma StandsHead(text: string, i: nat, c: char, w: string)
    requires StandsAt(text, i, [c] + w)
    ensures i < |text| && text[i] == c && StandsAt(text, i + 1, w)
  {
    StandsInParts(text, i, [c], w);
    assert text[i..i + 1][0] == c;
  }

  lemma {:induction false} ScanOverPieces(text: string, i: nat, depth: int, body: seq<Piece>, quote: char, d: Delimiters)
    requires PiecesValid(body, quote) && IsQuote(quote)
    requires StandsAt(text, i, PrintPieces(body))
    ensures Scan(text, i, depth, InString(quote, false), d)
         == Scan(text, i + |PrintPieces(body)|, depth, InString(quote, false), d)
    decreases |body|
  {
    if body != [] {
      hide StandsAt;
      var rest := PrintPieces(body[1..]);
      match body[0]
      case Raw(c) =>
        StandsHead(text, i, c, rest);
        ScanOverPieces(text, i + 1, depth, body[1..], quote, d);
      case Escaped(c) =>
        assert PrintPieces(body) == ['\\'] + ([c] + rest);
        StandsHead(text, i, '\\', [c] + rest);
        StandsHead(text, i + 1, c, rest);
        ScanOverPieces(text, i + 2, depth, body[1..], quote, d);
    }
  }

  /** One step of the scan over each kind of character. */
  lemma ScanStep(text: string, i: nat, depth: int, d: Delimiters)
    requires d.Valid() && i < |text|
    ensures IsQuote(text[i]) ==>
              && Scan(text, i, depth, InCode, d) == Scan(text, i + 1, depth, InString(text[i], false), d)
              && Scan(text, i, depth, InString(text[i], false), d) == Scan(text, i + 1, depth, InCode, d)
    ensures text[i] == d.opener ==> Scan(text, i, depth, InCode, d) == Scan(text, i + 1, depth + 1, InCode, d)
    ensures text[i] == d.closer && depth != 1 ==>
              Scan(text, i, depth, InCode, d) == Scan(text, i + 1, depth - 1, InCode, d)
    ensures !IsQuote(text[i]) && text[i] != d.opener && text[i] != d.closer ==>
              Scan(text, i, depth, InCode, d) == Scan(text, i + 1, depth, InCode, d)
  {
  }

  /** A piece of text between two delimiters, with more text after. */
  lemma StandsDelimited(text: string, i: nat, open: char, p: string, close: char, w: string)
    requires StandsAt(text, i, [open] + p + [close] + w)
    ensures i + |p| + 1 < |text| && text[i] == open && StandsAt(text, i + 1, p)
    ensures text[i + 1 + |p|] == close && StandsAt(text, i + |p| + 2, w)
  {
    hide StandsAt;
    assert [open] + p + [close] + w == [open] + (p + ([close] + w));
    StandsHead(text, i, open, p + ([close] + w));
    StandsInParts(text, i + 1, p, [close] + w);
    StandsHead(text, i + 1 + |p|, close, w);
  }

  lemma ScanOverQuoted(text: string, i: nat, depth: int, quote: char, body: seq<Piece>, w: string, d: Delimiters)
    requires d.Valid() && IsQuote(quote) && PiecesValid(body, quote)
    requires StandsAt(text, i, [quote] + PrintPieces(body) + [quote] + w)
    ensures var next := i + |PrintPieces(body)| + 2;
            StandsAt(text, next, w) && Scan(text, i, depth, InCode, d) == Scan(text, next, depth, InCode, d)
  {
    hide Scan, StandsAt, PrintPieces, PiecesValid;
    StandsDelimited(text, i, quote, PrintPieces(body), quote, w);
    ScanStep(text, i, depth, d);
    ScanOverPieces(text, i + 1, depth, body, quote, d);
    ScanStep(text, i + 1 + |PrintPieces(body)|, depth, d);
  }

  lemma {:induction false} ScanOverBalanced(text: string, i: nat, depth: int, b: Balanced, d: Delimiters)
    requires d.Valid() && WellFormed(b, d) && depth >= 1
    requires StandsAt(text, i, Print(b, d))
    ensures Scan(text, i, depth, InCode, d) == Scan(text, i + |Print(b, d)|, depth, InCode, d)
    decreases b
  {
    hide Scan, StandsAt, PrintPieces, PiecesValid;
    match b
    case Empty =>
    case Plain(c, rest) =>
      StandsHead(text, i, c, Print(rest, d));
      ScanStep(text, i, depth, d);
      ScanOverBalanced(text, i + 1, depth, rest, d);
    case Quoted(quote, body, rest) =>
      ScanOverQuoted(text, i, depth, quote, body, Print(rest, d), d);
      ScanOverBalanced(text, i + |PrintPieces(body)| + 2, depth, rest, d);
    case Group(inside, rest) =>
      var n := |Print(inside, d)|;
      StandsDelimited(text, i, d.opener, Print(inside, d), d.closer, Print(rest, d));
      ScanStep(text, i, depth, d);
      ScanOverBalanced(text, i + 1, depth + 1, inside, d);
      ScanStep(text, i + 1 + n, depth + 1, d);
      ScanOverBalanced(text, i + n + 2, depth, rest, d);
  }

  // ----- what is scanned over is balanced text

  /** Balanced texts, each but the last followed by a closer. */
  function PrintAll(bs: seq<Balanced>, d: Delimiters): string
    requires |bs| >= 1
  {
    if |bs| == 1 then Print(bs[0], d) else Print(bs[0], d) + [d.closer] + PrintAll(bs[1..], d)
  }

  predicate AllWellFormed(bs: seq<Balanced>, d: Delimiters) {
    forall n | 0 <= n < |bs| :: WellFormed(bs[n], d)
  }

  /** Text put before the first balanced text stands before all of them. */
  lemma PrintAllAfter(w: string, bs: seq<Balanced>, b: Balanced, d: Delimiters)
    requires |bs| >= 1 && Print(b, d) == w + Print(bs[0], d)
    ensures PrintAll([b] + bs[1..], d) == w + PrintAll(bs, d)
  {
    assert ([b] + bs[1..])[1..] == bs[1..];
    hide Print;
  }

  /** A group takes in the first balanced text and its closer. */
  lemma PrintAllGrouped(bs: seq<Balanced>, d: Delimiters)
    requires |bs| >= 2
    ensures PrintAll([Group(bs[0], bs[1])] + bs[2..], d) == [d.opener] + PrintAll(bs, d)
  {
    var w := [d.opener] + Print(bs[0], d) + [d.closer];
    assert Print(Group(bs[0], bs[1]), d) == w + Print(bs[1], d);
    PrintAllAfter(w, bs[1..], Group(bs[0], bs[1]), d);
    assert bs[1..][1..] == bs[2..];
    hide Print;
    assert PrintAll(bs, d) == Print(bs[0], d) + [d.closer] + PrintAll(bs[1..], d);
  }

  /** From depth `n`, the scan read `n` balanced texts separated by closers. */
  lemma {:induction false} ScannedIsBalanced(text: string, i: nat, depth: nat, d: Delimiters) returns (bs: seq<Balanced>)
    requires d.Valid() && depth >= 1 && Scan(text, i, depth, InCode, d).Some?
    ensures |bs| == depth && AllWellFormed(bs, d)
    ensures text[i..Scan(text, i, depth, InCode, d).value] == PrintAll(bs, d)
    decreases |text| - i
  {
    var k := Scan(text, i, depth, InCode, d).value;
    var c := text[i];
    assert k > i ==> text[i..k] == [c] + text[i + 1..k];
    ScanStep(text, i, depth, d);
    assert c == d.closer && depth == 1 ==> k == i;
    hide Scan, PrintAll, AllWellFormed, Print, PrintPieces, PiecesValid, WellFormed;
    if c == d.closer && depth == 1 {
      bs := [Empty];
      OneEmpty(d);
    } else if c == d.closer {
      var rest := ScannedIsBalanced(text, i + 1, depth - 1, d);
      bs := [Empty] + rest;
      EmptyFirst(rest, d);
    } else if IsQuote(c) {
      var body, rest := ScannedString(text, i + 1, depth, c, d);
      bs := [Quoted(c, body, rest[0])] + rest[1..];
      QuotedFirst(rest, c, body, d);
    } else if c == d.opener {
      var rest := ScannedIsBalanced(text, i + 1, depth + 1, d);
      bs := [Group(rest[0], rest[1])] + rest[2..];
      GroupIsWellFormed(rest, d);
      PrintAllGrouped(rest, d);
    } else {
      var rest := ScannedIsBalanced(text, i + 1, depth, d);
      bs := [Plain(c, rest[0])] + rest[1..];
      PlainFirst(rest, c, d);
    }
  }

  lemma QuotedFirst(bs: seq<Balanced>, c: char, body: seq<Piece>, d: Delimiters)
    requires |bs| >= 1 && AllWellFormed(bs, d) && IsQuote(c) && PiecesValid(body, c)
    ensures AllWellFormed([Quoted(c, body, bs[0])] + bs[1..], d)
    ensures PrintAll([Quoted(c, body, bs[0])] + bs[1..], d) == [c] + (PrintPieces(body) + [c] + PrintAll(bs, d))
  {
    var b := Quoted(c, body, bs[0]);
    var w := [c] + PrintPieces(body) + [c];
    HeadIsWellFormed(bs, d);
    assert WellFormed(b, d) && Print(b, d) == w + Print(bs[0], d);
    hide Print, PrintPieces, PrintAll, AllWellFormed, WellFormed;
    HeadReplaced(bs, b, d);
    PrintAllAfter(w, bs, b, d);
    assert w + PrintAll(bs, d) == [c] + (PrintPieces(body) + [c] + PrintAll(bs, d));
  }

  lemma PlainFirst(bs: seq<Balanced>, c: char, d: Delimiters)
    requires |bs| >= 1 && AllWellFormed(bs, d) && !IsQuote(c) && c != d.opener && c != d.closer
    ensures AllWellFormed([Plain(c, bs[0])] + bs[1..], d)
    ensures PrintAll([Plain(c, bs[0])] + bs[1..], d) == [c] + PrintAll(bs, d)
  {
    HeadIsWellFormed(bs, d);
    var b := Plain(c, bs[0]);
    assert WellFormed(b, d) && Print(b, d) == [c] + Print(bs[0], d);
    hide Print, PrintAll, AllWellFormed, WellFormed;
    HeadReplaced(bs, b, d);
    PrintAllAfter([c], bs, b, d);
  }

  lemma OneEmpty(d: Delimiters)
    ensures AllWellFormed([Empty], d) && PrintAll([Empty], d) == ""
  {
  }

  lemma EmptyFirst(bs: seq<Balanced>, d: Delimiters)
    requires |bs| >= 1 && AllWellFormed(bs, d)
    ensures AllWellFormed([Empty] + bs, d) && PrintAll([Empty] + bs, d) == [d.closer] + PrintAll(bs, d)
  {
    assert ([Empty] + bs)[1..] == bs;
  }

  lemma HeadIsWellFormed(bs: seq<Balanced>, d: Delimiters)
    requires |bs| >= 1 && AllWellFormed(bs, d)
    ensures WellFormed(bs[0], d)
  {
  }

  lemma HeadReplaced(bs: seq<Balanced>, b: Balanced, d: Delimiters)
    requires |bs| >= 1 && AllWellFormed(bs, d) && WellFormed(b, d)
    ensures AllWellFormed([b] + bs[1..], d)
  {
    hide WellFormed;
  }

  lemma GroupIsWellFormed(bs: seq<Balanced>, d: Delimiters)
    requires |bs| >= 2 && AllWellFormed(bs, d)
    ensures AllWellFormed([Group(bs[0], bs[1])] + bs[2..], d)
  {
    assert WellFormed(Group(bs[0], bs[1]), d);
    hide WellFormed;
  }

  /** Inside a string: the rest of its body, then balanced texts. */
  lemma {:induction false} ScannedString(text: string, i: nat, depth: nat, quote: char, d: Delimiters)
    returns (body: seq<Piece>, bs: seq<Balanced>)
    requires d.Valid() && depth >= 1 && IsQuote(quote) && Scan(text, i, depth, InString(quote, false), d).Some?
    ensures PiecesValid(body, quote) && |bs| == depth && AllWellFormed(bs, d)
    ensures text[i..Scan(text, i, depth, InString(quote, false), d).value]
         == PrintPieces(body) + [quote] + PrintAll(bs, d)
    decreases |text| - i
  {
    var k := Scan(text, i, depth, InString(quote, false), d).value;
    StringStep(text, i, depth, quote, d);
    ScanStep(text, i, depth, d);
    hide Scan, PrintAll, AllWellFormed, PrintPieces, PiecesValid;
    if text[i] == '\\' {
      var rest;
      rest, bs := ScannedString(text, i + 2, depth, quote, d);
      body := [Escaped(text[i + 1])] + rest;
      PieceFirst(Escaped(text[i + 1]), rest, quote);
      assert text[i..k] == ['\\', text[i + 1]] + text[i + 2..k];
      Regroup(['\\', text[i + 1]], PrintPieces(rest), quote, PrintAll(bs, d));
    } else if text[i] == quote {
      bs := ScannedIsBalanced(text, i + 1, depth, d);
      body := [];
      NoPieces(quote);
      assert text[i..k] == [text[i]] + text[i + 1..k];
    } else {
      var rest;
      rest, bs := ScannedString(text, i + 1, depth, quote, d);
      body := [Raw(text[i])] + rest;
      PieceFirst(Raw(text[i]), rest, quote);
      assert text[i..k] == [text[i]] + text[i + 1..k];
      Regroup([text[i]], PrintPieces(rest), quote, PrintAll(bs, d));
    }
  }

  lemma Regroup(a: string, b: string, quote: char, c: string)
    ensures a + (b + [quote] + c) == a + b + [quote] + c
  {
  }

  lemma NoPieces(quote: char)
    ensures PrintPieces([]) == "" && PiecesValid([], quote)
  {
  }

  lemma PieceFirst(p: Piece, rest: seq<Piece>, quote: char)
    requires PiecesValid(rest, quote) && (p.Raw? ==> p.c != quote && p.c != '\\')
    ensures PiecesValid([p] + rest, quote)
    ensures PrintPieces([p] + rest) == (match p case Raw(c) => [c] case Escaped(c) => ['\\', c]) + PrintPieces(rest)
  {
    assert ([p] + rest)[1..] == rest;
  }

  /** One character of a quoted string, with what it escapes. */
  lemma StringStep(text: string, i: nat, depth: int, quote: char, d: Delimiters)
    requires Scan(text, i, depth, InString(quote, false), d).Some?
    ensures i < |text|
    ensures text[i] == '\\' ==>
              && i + 1 < |text|
              && Scan(text, i, depth, InString(quote, false), d) == Scan(text, i + 2, depth, InString(quote, false), d)
    ensures text[i] != '\\' && text[i] != quote ==>
              Scan(text, i, depth, InString(quote, false), d) == Scan(text, i + 1, depth, InString(quote, false), d)
  {
    if text[i] == '\\' {
      assert Scan(text, i, depth, InString(quote, false), d) == Scan(text, i + 1, depth, InString(quote, true), d);
    }
  }

  /** The scan from an opener finds the closer of the grammar, and nothing else. */
  lemma ScanFindsTheCloser(text: string, open: nat, d: Delimiters)
    requires d.Valid()
    ensures forall k: nat | open < |text| && text[open] == d.opener ::
              Scan(text, open, 0, InCode, d) == Some(k) <==> Closes(text, open, k, d)
  {
    if open < |text| && text[open] == d.opener {
      var found := Scan(text, open, 0, InCode, d);
      assert found == Scan(text, open + 1, 1, InCode, d);
      if found.Some? {
        var bs := ScannedIsBalanced(text, open + 1, 1, d);
        assert Print(bs[0], d) == text[open + 1..found.value];
        assert Closes(text, open, found.value, d);
      }
      forall k: nat | Closes(text, open, k, d) ensures found == Some(k) {
        var b :| WellFormed(b, d) && Print(b, d) == text[open + 1..k];
        ScanOverBalanced(text, open + 1, 1, b, d);
      }
    }
  }
}
