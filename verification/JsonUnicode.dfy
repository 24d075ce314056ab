/**
 What the escapes of a JSON string stand for. The bytes the decoder writes are read back by a reader
 of UTF-8 that follows the byte patterns of section 3 of RFC 3629, and a string is spelled piece by
 piece as in section 7 of RFC 8259: a plain character, a two-character escape, a code point as four
 hexadecimal digits, or a code point from 0x10000 on as a surrogate pair.
 */
module JsonUnicode {
  import opened Json
  import opened JsonText
  import opened JsonParse
  import opened JsonTreeRoundTrip
  import opened JsonTokens

  // ----- a reader of UTF-8

  /** 10xxxxxx */
  predicate Trailing(byte: char) { 0x80 <= byte as int < 0xC0 }

  /** How many bytes follow a first byte: 0xxxxxxx, 110xxxxx, 1110xxxx, 11110xxx */
  function Following(byte: char): Option<nat>
  {
    var b := byte as int;
    if b < 0x80 then Some(0)
    else if 0xC0 <= b < 0xE0 then Some(1)
    else if 0xE0 <= b < 0xF0 then Some(2)
    else if 0xF0 <= b < 0xF8 then Some(3)
    else None
  }

  /** Six more bits from each of the next `k` bytes. */
  function Accumulate(bits: nat, s: string, k: nat): Option<nat>
    decreases k
  {
    if k == 0 then Some(bits)
    else if s == "" || !Trailing(s[0]) then None
    else Accumulate(64 * bits + (s[0] as int - 0x80), s[1..], k - 1)
  }

  /** The first code point that needs `k` more bytes. */
  function Least(k: nat): nat
  {
    match k
    case 0 => 0
    case 1 => 0x80
    case 2 => 0x800
    case _ => 0x10000
  }

  /** The bits x of a first byte followed by `k` more. */
  function FirstBits(byte: char, k: nat): nat
    requires Following(byte) == Some(k)
  {
    match k
    case 0 => byte as int
    case 1 => byte as int - 0xC0
    case 2 => byte as int - 0xE0
    case _ => byte as int - 0xF0
  }

  /** The first code point of a text and the bytes it takes; None if they are not its shortest form. */
  function ReadCode(s: string): Option<(nat, nat)>
  {
    if s == "" then None
    else
      var k := Following(s[0]);
      if k.None? then None
      else
        var code := Accumulate(FirstBits(s[0], k.value), s[1..], k.value);
        if code.None? || !(Least(k.value) <= code.value <= 0x10FFFF) then None else Some((code.value, k.value + 1))
  }

  lemma Trail(bits: nat, low: nat, s: string, k: nat)
    requires low < 64 && k > 0 && s != "" && s[0] == (0x80 + low) as char
    ensures Accumulate(bits, s, k) == Accumulate(64 * bits + low, s[1..], k - 1)
  {
  }

  lemma Digits64(code: nat)
    ensures code == 64 * (code / 64) + code % 64
    ensures code / 64 == 64 * (code / 4096) + code / 64 % 64
    ensures code / 4096 == 64 * (code / 262144) + code / 4096 % 64
  {
  }

  /** The reader undoes the encoder, whatever follows. */
  lemma Utf8ReadsBack(code: nat, rest: string)
    requires code <= 0x10FFFF
    ensures ReadCode(Utf8(code) + rest) == Some((code, |Utf8(code)|))
  {
    var u := Utf8(code);
    var s := u + rest;
    Digits64(code);
    assert forall i | 0 <= i < |u| :: s[i] == u[i];
    if code < 0x80 {
    } else if code < 0x800 {
      Trail(code / 64, code % 64, s[1..], 1);
    } else if code < 0x10000 {
      Trail(code / 4096, code / 64 % 64, s[1..], 2);
      Trail(code / 64, code % 64, s[1..][1..], 1);
    } else {
      Trail(code / 262144, code / 4096 % 64, s[1..], 3);
      Trail(code / 4096, code / 64 % 64, s[1..][1..], 2);
      Trail(code / 64, code % 64, s[1..][1..][1..], 1);
    }
  }

  lemma Quotient(high: nat, low: nat)
    requires low < 64
    ensures (64 * high + low) / 64 == high && (64 * high + low) % 64 == low
  {
  }

  /** What Accumulate read: one more byte in front of the others. */
  lemma Untrail(bits: nat, s: string, k: nat)
    requires k > 0 && Accumulate(bits, s, k).Some?
    ensures s != "" && Trailing(s[0])
    ensures Accumulate(bits, s, k) == Accumulate(64 * bits + (s[0] as int - 0x80), s[1..], k - 1)
  {
  }

  /** The bytes of a code point are the only ones that read as it. */
  lemma Utf8IsUnique(s: string)
    requires ReadCode(s).Some?
    ensures
      var (code, n) := ReadCode(s).value;
      code <= 0x10FFFF && n <= |s| && s[..n] == Utf8(code)
  {
    var (code, n) := ReadCode(s).value;
    var first := FirstBits(s[0], n - 1);
    if n == 2 {
      Untrail(first, s[1..], 1);
      var b := s[1] as int - 0x80;
      assert code == 64 * first + b;
      Quotient(first, b);
    } else if n == 3 {
      Untrail(first, s[1..], 2);
      var b := s[1] as int - 0x80;
      Untrail(64 * first + b, s[1..][1..], 1);
      var d := s[2] as int - 0x80;
      assert code == 64 * (64 * first + b) + d;
      Quotient(64 * first + b, d);
      Quotient(first, b);
      DivideTwice(code);
    } else if n == 4 {
      ReadFour(s, first, code);
    }
  }

  lemma ReadFour(s: string, first: nat, code: nat)
    requires s != "" && Following(s[0]) == Some(3) && first == FirstBits(s[0], 3)
    requires Accumulate(first, s[1..], 3) == Some(code) && 0x10000 <= code <= 0x10FFFF
    ensures 4 <= |s| && s[..4] == Utf8(code)
  {
    Untrail(first, s[1..], 3);
    var b := s[1] as int - 0x80;
    Untrail(64 * first + b, s[1..][1..], 2);
    var d := s[2] as int - 0x80;
    Untrail(64 * (64 * first + b) + d, s[1..][1..][1..], 1);
    var e := s[3] as int - 0x80;
    assert code == 64 * (64 * (64 * first + b) + d) + e;
    Quotient(64 * (64 * first + b) + d, e);
    Quotient(64 * first + b, d);
    Quotient(first, b);
    DivideTwice(code);
  }

  // ----- the pieces a string is spelled with

  /** A hexadecimal digit and its case. */
  datatype Digit = Digit(value: nat, upper: bool)

  function DigitChar(d: Digit): char
    requires d.value < 16
  {
    if d.upper then "0123456789ABCDEF"[d.value] else "0123456789abcdef"[d.value]
  }

  /** Four digits of either case. */
  predicate Four(ds: seq<Digit>)
  {
    |ds| == 4 && forall i | 0 <= i < 4 :: ds[i].value < 16
  }

  function DigitText(ds: seq<Digit>): string
    requires Four(ds)
  {
    [DigitChar(ds[0]), DigitChar(ds[1]), DigitChar(ds[2]), DigitChar(ds[3])]
  }

  function Number(ds: seq<Digit>): nat
    requires Four(ds)
  {
    ((ds[0].value * 16 + ds[1].value) * 16 + ds[2].value) * 16 + ds[3].value
  }

  datatype Piece =
    | Plain(ch: char)
    | Short(ch: char)
    | Unit(code: nat, digits: seq<Digit>)
    | Pair(code: nat, high: seq<Digit>, low: seq<Digit>)

  /** The letter after the backslash of each two-character escape. */
  const SHORT_ESCAPES: map<char, char> :=
    map['\"' := '\"', '\\' := '\\', '/' := '/', '\U{8}' := 'b', '\U{C}' := 'f', '\n' := 'n', '\r' := 'r', '\t' := 't']

  predicate Spellable(p: Piece)
  {
    match p
    case Plain(ch) => ch != '\"' && ch != '\\'
    case Short(ch) => ch in SHORT_ESCAPES
    case Unit(code, digits) => Four(digits) && Number(digits) == code && !(0xD800 <= code <= 0xDFFF)
    case Pair(code, high, low) =>
      && 0x10000 <= code <= 0x10FFFF && Four(high) && Four(low)
      && Number(high) == 0xD800 + (code - 0x10000) / 0x400
      && Number(low) == 0xDC00 + (code - 0x10000) % 0x400
  }

  function Spelling(p: Piece): (s: string)
    requires Spellable(p)
    ensures s != ""
  {
    match p
    case Plain(ch) => [ch]
    case Short(ch) => ['\\', SHORT_ESCAPES[ch]]
    case Unit(_, digits) => "\\u" + DigitText(digits)
    case Pair(_, high, low) => "\\u" + DigitText(high) + "\\u" + DigitText(low)
  }

  lemma UnitInRange(ds: seq<Digit>)
    requires Four(ds)
    ensures Number(ds) < 0x10000
  {
  }

  /** The bytes a piece stands for: its character, or the UTF-8 of its code point. */
  function Bytes(p: Piece): string
    requires Spellable(p)
  {
    match p
    case Plain(ch) => [ch]
    case Short(ch) => [ch]
    case Unit(code, digits) => UnitInRange(digits); Utf8(code)
    case Pair(code, _, _) => Utf8(code)
  }

  predicate AllSpellable(ps: seq<Piece>) { forall i | 0 <= i < |ps| :: Spellable(ps[i]) }

  function Spelled(ps: seq<Piece>): string
    requires AllSpellable(ps)
  {
    if ps == [] then "" else Spelling(ps[0]) + Spelled(ps[1..])
  }

  function AllBytes(ps: seq<Piece>): string
    requires AllSpellable(ps)
  {
    if ps == [] then "" else Bytes(ps[0]) + AllBytes(ps[1..])
  }

  // ----- decoding the pieces

  lemma DigitReads(d: Digit)
    requires d.value < 16
    ensures HexValue(DigitChar(d)) == d.value && DigitChar(d) != '\"' && DigitChar(d) != '\\'
  {
    assert DigitChar(d) == if d.value < 10 then '0' + d.value as char
                           else if d.upper then 'A' + (d.value - 10) as char else 'a' + (d.value - 10) as char;
  }

  /** Four digits read as their number. */
  lemma DigitsRead(c: string, p: nat, ds: seq<Digit>)
    requires Four(ds) && StartsWith(c, p, DigitText(ds))
    ensures Hex4(c, p) == Number(ds)
    ensures ClosingQuote(c, p) == ClosingQuote(c, p + 4)
  {
    var t := DigitText(ds);
    Char(c, p, t, 0);
    Char(c, p, t, 1);
    Char(c, p, t, 2);
    Char(c, p, t, 3);
    DigitReads(ds[0]);
    DigitReads(ds[1]);
    DigitReads(ds[2]);
    DigitReads(ds[3]);
    assert ClosingQuote(c, p) == ClosingQuote(c, p + 1);
    assert ClosingQuote(c, p + 1) == ClosingQuote(c, p + 2);
    assert ClosingQuote(c, p + 2) == ClosingQuote(c, p + 3);
  }

  /** A code point spelled with four digits, found by both passes. */
  lemma UnitReads(c: string, p: nat, ds: seq<Digit>)
    requires Four(ds) && StartsWith(c, p, "\\u" + DigitText(ds))
    ensures p + 6 <= |c| && c[p] == '\\' && c[p + 1] == 'u' && Hex4(c, p + 2) == Number(ds)
    ensures ClosingQuote(c, p) == ClosingQuote(c, p + 6)
  {
    Split(c, p, "\\u", p + 2, DigitText(ds));
    Char(c, p, "\\u", 0);
    Char(c, p, "\\u", 1);
    DigitsRead(c, p + 2, ds);
  }

  /** The arithmetic of a surrogate pair. */
  lemma PairOf(code: nat)
    requires 0x10000 <= code <= 0x10FFFF
    ensures
      var high, low := (code - 0x10000) / 0x400, (code - 0x10000) % 0x400;
      high < 0x400 && low < 0x400 && 0x10000 + 1024 * high + low == code
  {
  }

  lemma PairDecodes(c: string, p: nat, code: nat, end: nat)
    requires p + 12 <= end < |c| && 0x10000 <= code <= 0x10FFFF
    requires c[p + 6] == '\\' && c[p + 7] == 'u'
    requires Hex4(c, p + 2) == 0xD800 + (code - 0x10000) / 0x400
    requires Hex4(c, p + 8) == 0xDC00 + (code - 0x10000) % 0x400
    ensures Utf16(c, p, end) == (12, Utf8(code))
  {
    PairOf(code);
  }

  lemma PairReads(c: string, p: nat, piece: Piece, end: nat)
    requires piece.Pair? && Spellable(piece) && StartsWith(c, p, Spelling(piece)) && p + 12 <= end < |c|
    ensures ClosingQuote(c, p) == ClosingQuote(c, p + 12)
    ensures DecodeStep(c, p, end) == (12, Bytes(piece))
  {
    var first, second := "\\u" + DigitText(piece.high), "\\u" + DigitText(piece.low);
    assert Spelling(piece) == first + second;
    Split(c, p, first, p + 6, second);
    UnitReads(c, p, piece.high);
    UnitReads(c, p + 6, piece.low);
    PairDecodes(c, p, piece.code, end);
  }

  /** Both passes take one piece: the first goes over it, the second writes its bytes. */
  lemma PieceReads(c: string, p: nat, piece: Piece, end: nat)
    requires Spellable(piece) && StartsWith(c, p, Spelling(piece)) && p + |Spelling(piece)| <= end < |c|
    ensures ClosingQuote(c, p) == ClosingQuote(c, p + |Spelling(piece)|)
    ensures DecodeStep(c, p, end) == (|Spelling(piece)|, Bytes(piece))
  {
    var s := Spelling(piece);
    match piece
    case Plain(_) =>
      Char(c, p, s, 0);
    case Short(_) =>
      Char(c, p, s, 0);
      Char(c, p, s, 1);
    case Unit(_, digits) =>
      UnitReads(c, p, digits);
      UnitInRange(digits);
    case Pair(_, _, _) =>
      PairReads(c, p, piece, end);
  }

  lemma DecodeOne(c: string, p: nat, n: nat, end: nat, bytes: string)
    requires p < n <= end < |c| && DecodeStep(c, p, end) == (n - p, bytes)
    ensures Decode(c, p, end) == Prepend(bytes, Decode(c, n, end))
  {
  }

  lemma {:induction false} PiecesDecode(c: string, p: nat, ps: seq<Piece>, end: nat)
    requires AllSpellable(ps) && StartsWith(c, p, Spelled(ps)) && end == p + |Spelled(ps)| < |c|
    ensures Decode(c, p, end) == Some(AllBytes(ps))
    decreases |ps|
  {
    if ps == [] {
      assert end == p;
    } else {
      var n, rest := p + |Spelling(ps[0])|, ps[1..];
      Split(c, p, Spelling(ps[0]), n, Spelled(rest));
      PieceReads(c, p, ps[0], end);
      PiecesDecode(c, n, rest, end);
      DecodeOne(c, p, n, end, Bytes(ps[0]));
      PrependBytes(ps);
    }
  }

  lemma PrependBytes(ps: seq<Piece>)
    requires ps != [] && AllSpellable(ps)
    ensures Prepend(Bytes(ps[0]), Some(AllBytes(ps[1..]))) == Some(AllBytes(ps))
  {
  }

  lemma {:induction false} PiecesScanned(c: string, p: nat, ps: seq<Piece>, end: nat)
    requires AllSpellable(ps) && StartsWith(c, p, Spelled(ps)) && end == p + |Spelled(ps)| < |c|
    ensures ClosingQuote(c, p) == ClosingQuote(c, end)
    decreases |ps|
  {
    if ps == [] {
      assert end == p;
    } else {
      var n, rest := p + |Spelling(ps[0])|, ps[1..];
      Split(c, p, Spelling(ps[0]), n, Spelled(rest));
      PieceReads(c, p, ps[0], end);
      PiecesScanned(c, n, rest, end);
    }
  }

  /** parse_string reads a string spelled with any pieces as their bytes, up to the first NUL. */
  lemma SpelledStringReads(c: string, o: nat, ps: seq<Piece>)
    requires AllSpellable(ps) && StartsWith(c, o, "\"" + Spelled(ps) + "\"")
    ensures ReadString(c, o) == Parsed(CString(AllBytes(ps)), o + |Spelled(ps)| + 2)
  {
    var s := Spelled(ps);
    var end := o + 1 + |s|;
    assert "\"" + s + "\"" == "\"" + (s + "\"");
    Split(c, o, "\"", o + 1, s + "\"");
    Split(c, o + 1, s, end, "\"");
    Char(c, o, "\"", 0);
    Char(c, end, "\"", 0);
    PiecesScanned(c, o + 1, ps, end);
    PiecesDecode(c, o + 1, ps, end);
    assert ClosingQuote(c, end) == Some(end);
  }

  /** The bytes of a piece that spells a code point read as that code point. */
  lemma PieceMeansItsCode(p: Piece, rest: string)
    requires Spellable(p) && (p.Unit? || p.Pair?)
    ensures ReadCode(Bytes(p) + rest) == Some((p.code, |Bytes(p)|))
  {
    if p.Unit? {
      UnitInRange(p.digits);
    }
    Utf8ReadsBack(p.code, rest);
  }

  // ----- what is refused, and what is not

  /** A surrogate pair's second half stands at `p`. */
  ghost predicate LowHalfAt(c: string, p: nat, end: nat)
  {
    exists low :: Four(low) && 0xDC00 <= Number(low) <= 0xDFFF && p + 6 <= end && StartsWith(c, p, "\\u" + DigitText(low))
  }

  /** The digit a character spells. */
  lemma DigitOfChar(ch: char) returns (d: Digit)
    requires HexValue(ch) >= 0
    ensures d.value < 16 && DigitChar(d) == ch && d.value == HexValue(ch)
  {
    d := Digit(HexValue(ch), 'A' <= ch <= 'F');
    DigitReads(d);
  }

  lemma DigitsOfText(c: string, p: nat) returns (ds: seq<Digit>)
    requires p + 4 <= |c| && Hex4(c, p) > 0
    ensures Four(ds) && DigitText(ds) == c[p..p + 4] && Number(ds) == Hex4(c, p)
  {
    var a := DigitOfChar(c[p]);
    var b := DigitOfChar(c[p + 1]);
    var d := DigitOfChar(c[p + 2]);
    var e := DigitOfChar(c[p + 3]);
    ds := [a, b, d, e];
  }

  /** The second half is there exactly when its escape and its number are. */
  lemma LowHalfIff(c: string, p: nat, end: nat)
    requires end < |c|
    ensures LowHalfAt(c, p, end) <==>
            p + 6 <= end && c[p] == '\\' && c[p + 1] == 'u' && 0xDC00 <= Hex4(c, p + 2) <= 0xDFFF
  {
    if LowHalfAt(c, p, end) {
      var low :| Four(low) && 0xDC00 <= Number(low) <= 0xDFFF && p + 6 <= end && StartsWith(c, p, "\\u" + DigitText(low));
      UnitReads(c, p, low);
    } else if p + 6 <= end && c[p] == '\\' && c[p + 1] == 'u' && 0xDC00 <= Hex4(c, p + 2) <= 0xDFFF {
      var low := DigitsOfText(c, p + 2);
      assert c[p..p + 6] == "\\u" + DigitText(low);
      SliceStarts(c, p, "\\u" + DigitText(low));
      assert false;
    }
  }

  /** A surrogate is refused unless it is a first half that a second half follows at once. */
  lemma LoneSurrogateRefused(c: string, p: nat, ds: seq<Digit>, end: nat)
    requires Four(ds) && 0xD800 <= Number(ds) <= 0xDFFF && StartsWith(c, p, "\\u" + DigitText(ds)) && p + 6 <= end < |c|
    ensures DecodeStep(c, p, end).0 == 0 <==> (Number(ds) >= 0xDC00 || !LowHalfAt(c, p + 6, end))
  {
    UnitReads(c, p, ds);
    LowHalfIff(c, p + 6, end);
  }

  /** Four characters that are not all hexadecimal digits are not refused: they read as NUL. */
  lemma BadDigitsReadAsNul(c: string, p: nat, end: nat)
    requires p + 6 <= end < |c| && c[p] == '\\' && c[p + 1] == 'u'
    requires exists i :: p + 2 <= i < p + 6 && HexValue(c[i]) < 0
    ensures DecodeStep(c, p, end) == (6, "\0")
  {
    assert Hex4(c, p + 2) == 0;
  }

  /** A backslash is refused before every character but those of an escape. */
  lemma UnknownEscapeRefused(c: string, p: nat, end: nat)
    requires p < end < |c| && c[p] == '\\' && c[p + 1] != 'u'
    ensures DecodeStep(c, p, end).0 == 0 <==> forall ch | ch in SHORT_ESCAPES :: SHORT_ESCAPES[ch] != c[p + 1]
  {
    var ch := Unescaped(c[p + 1]);
    if ch.Some? {
      assert ch.value in SHORT_ESCAPES && SHORT_ESCAPES[ch.value] == c[p + 1];
    }
  }

  // ----- what the printer chooses

  /** The piece a character is printed as: a short escape where there is one, except for '/', the four
      digits with small letters for other control characters, and the character itself otherwise. */
  function Choice(ch: char): (p: Piece)
    ensures Spellable(p)
  {
    if ch in SHORT_ESCAPES && ch != '/' then Short(ch)
    else if ch < ' ' then
      var n := ch as int;
      Unit(n, [Digit(0, false), Digit(0, false), Digit(n / 16, false), Digit(n % 16, false)])
    else Plain(ch)
  }

  lemma PrintedAsChosen(ch: char)
    ensures EscapeChar(ch) == Spelling(Choice(ch)) && Bytes(Choice(ch)) == [ch]
  {
    if ch < ' ' && ch !in SHORT_ESCAPES {
      var n := ch as int;
      SameDigit(n / 16);
      SameDigit(n % 16);
      SameDigit(0);
    }
  }

  lemma SameDigit(n: nat)
    requires n < 16
    ensures DigitChar(Digit(n, false)) == HexDigit(n)
  {
  }
}
