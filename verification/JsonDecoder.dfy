/**
 parse_string as the library runs it: a first pass over the buffer that finds the closing quote
 and reserves memory, and a second pass that writes the decoded bytes into it.
 */
module JsonDecoder {
  import opened Json
  import opened JsonParse
  import opened JsonTokens

  // ----- what the first pass skips

  /** Position p is the character after a backslash, for a first pass that started at `start`. */
  predicate InEscape(c: string, start: nat, p: nat)
    requires start <= p <= |c|
    decreases p
  {
    p > start && !InEscape(c, start, p - 1) && c[p - 1] == '\\'
  }

  /** The number of backslashes the first pass skipped before p. */
  function Skipped(c: string, start: nat, p: nat): (n: nat)
    requires start <= p <= |c|
    decreases p
  {
    if p == start then 0
    else Skipped(c, start, p - 1) + if !InEscape(c, start, p - 1) && c[p - 1] == '\\' then 1 else 0
  }

  lemma SkippedStep(c: string, start: nat, p: nat)
    requires start <= p < |c|
    ensures Skipped(c, start, p) <= Skipped(c, start, p + 1) <= Skipped(c, start, p) + 1
    ensures c[p] != '\\' ==> Skipped(c, start, p + 1) == Skipped(c, start, p)
  {
  }

  /** Of two neighbouring characters at most one is a skipped backslash. */
  lemma SkippedTwo(c: string, start: nat, p: nat)
    requires start <= p && p + 2 <= |c|
    ensures Skipped(c, start, p + 2) <= Skipped(c, start, p) + 1
  {
    SkippedStep(c, start, p);
    SkippedStep(c, start, p + 1);
    assert InEscape(c, start, p + 1) <==> !InEscape(c, start, p) && c[p] == '\\';
  }

  lemma {:induction false} SkippedMany(c: string, start: nat, p: nat, n: nat)
    requires start <= p && p + 2 * n <= |c|
    ensures Skipped(c, start, p + 2 * n) <= Skipped(c, start, p) + n
    decreases n
  {
    if n > 0 {
      SkippedMany(c, start, p, n - 1);
      SkippedTwo(c, start, p + 2 * (n - 1));
    }
  }

  /** The memory parse_string reserves, apart from the terminator, for a string from the opening
      quote at o to the closing one at `end`. */
  function Reserved(c: string, o: nat, end: nat): int
    requires o < end < |c|
  {
    end - o - Skipped(c, o + 1, end)
  }

  /** The first pass: the closing quote, and how many backslashes it skipped. */
  method FindQuote(c: string, o: nat) returns (ok: bool, end: nat, skipped: nat)
    requires o < |c|
    ensures ok <==> ClosingQuote(c, o + 1).Some?
    ensures ok ==> ClosingQuote(c, o + 1) == Some(end) && o < end < |c| && c[end] == '\"'
    ensures ok ==> skipped == Skipped(c, o + 1, end)
  {
    end, skipped := o + 1, 0;
    while end < |c| && c[end] != '\"'
      invariant o < end <= |c|
      invariant ClosingQuote(c, o + 1) == ClosingQuote(c, end)
      invariant !InEscape(c, o + 1, end) && skipped == Skipped(c, o + 1, end)
    {
      if c[end] == '\\' {
        if end + 1 >= |c| { return false, end, skipped; }
        assert InEscape(c, o + 1, end + 1);
        skipped := skipped + 1;
        end := end + 1;
      }
      end := end + 1;
    }
    ok := end < |c|;
  }

  /** The number that n hexadecimal digits make. */
  function HexPrefix(c: string, p: nat, n: nat): int
    requires p + n <= |c|
  {
    if n == 0 then 0 else 16 * HexPrefix(c, p, n - 1) + HexValue(c[p + n - 1])
  }

  lemma HexPrefixIsHex4(c: string, p: nat)
    requires p + 4 <= |c| && forall j | p <= j < p + 4 :: HexValue(c[j]) >= 0
    ensures HexPrefix(c, p, 4) == Hex4(c, p)
  {
    assert HexPrefix(c, p, 1) == HexValue(c[p]);
    assert HexPrefix(c, p, 2) == 16 * HexValue(c[p]) + HexValue(c[p + 1]);
    assert HexPrefix(c, p, 3) == 256 * HexValue(c[p]) + 16 * HexValue(c[p + 1]) + HexValue(c[p + 2]);
  }

  /** parse_hex4 */
  method ParseHex4(c: string, p: nat) returns (h: nat)
    requires p + 4 <= |c|
    ensures h == Hex4(c, p)
  {
    var sum, i := 0, 0;
    while i < 4
      invariant 0 <= i <= 4
      invariant forall j | p <= j < p + i :: HexValue(c[j]) >= 0
      invariant sum == if i < 4 then 16 * HexPrefix(c, p, i) else HexPrefix(c, p, i)
    {
      if HexValue(c[p + i]) < 0 { return 0; }
      sum := sum + HexValue(c[p + i]);
      if i < 3 { sum := 16 * sum; }
      i := i + 1;
    }
    HexPrefixIsHex4(c, p);
    h := sum;
  }

  /** The encoding loop of utf16_literal_to_utf8: the last byte first, six bits at a time. */
  method WriteUtf8(code: nat, output: array<char>, w: nat) returns (n: nat)
    requires code <= 0x10FFFF && w + |Utf8(code)| <= output.Length
    modifies output
    ensures n == |Utf8(code)| && output[w..w + n] == Utf8(code)
    ensures output[..w] == old(output[..w])
  {
    var rest, mark := code, 0;
    if code < 0x80 {
      n := 1;
    } else if code < 0x800 {
      n, mark := 2, 0xC0;
    } else if code < 0x10000 {
      n, mark := 3, 0xE0;
    } else {
      n, mark := 4, 0xF0;
    }
    DivideTwice(code);
    var i := n - 1;
    while i > 0
      invariant 0 <= i < n
      invariant rest == match n - 1 - i case 0 => code case 1 => code / 64 case 2 => code / 64 / 64 case _ => code / 64 / 64 / 64
      invariant forall j | i < j < n :: output[w + j] == Utf8(code)[j]
      invariant output[..w] == old(output[..w])
    {
      output[w + i] := (0x80 + rest % 64) as char;
      rest := rest / 64;
      i := i - 1;
    }
    output[w] := (mark + rest) as char;
    assert output[w] == Utf8(code)[0];
  }

  /** utf16_literal_to_utf8 */
  method WriteUtf16(c: string, p: nat, end: nat, output: array<char>, w: nat) returns (length: nat, n: nat)
    requires p < end <= |c| && w + |Utf16(c, p, end).1| <= output.Length
    modifies output
    ensures length == Utf16(c, p, end).0 && (length > 0 ==> n == |Utf16(c, p, end).1|)
    ensures length > 0 ==> output[w..w + n] == Utf16(c, p, end).1
    ensures output[..w] == old(output[..w])
  {
    if end - p < 6 { return 0, 0; }
    var first := ParseHex4(c, p + 2);
    if 0xDC00 <= first <= 0xDFFF { return 0, 0; }
    if 0xD800 <= first <= 0xDBFF {
      if end - (p + 6) < 6 { return 0, 0; }
      if c[p + 6] != '\\' || c[p + 7] != 'u' { return 0, 0; }
      var second := ParseHex4(c, p + 8);
      if second < 0xDC00 || second > 0xDFFF { return 0, 0; }
      n := WriteUtf8(0x10000 + 1024 * (first - 0xD800) + (second - 0xDC00), output, w);
      length := 12;
    } else {
      n := WriteUtf8(first, output, w);
      length := 6;
    }
  }

  // ----- the second pass stays within the memory

  lemma {:induction false} RoomGrows(c: string, start: nat, p: nat, q: nat)
    requires start <= p <= q <= |c|
    ensures p - Skipped(c, start, p) <= q - Skipped(c, start, q)
    decreases q - p
  {
    if p < q {
      SkippedStep(c, start, p);
      RoomGrows(c, start, p + 1, q);
    }
  }

  /** One step of the second pass keeps what is written within what the first pass reserved. */
  lemma StepFits(c: string, o: nat, end: nat, p: nat, w: nat)
    requires o < end < |c| && c[end] == '\"' && o < p < end
    requires w + Skipped(c, o + 1, p) <= p - (o + 1) && DecodeStep(c, p, end).0 > 0
    ensures
      var (n, bytes) := DecodeStep(c, p, end);
      && w + |bytes| + Skipped(c, o + 1, p + n) <= p + n - (o + 1)
      && w + |bytes| <= Reserved(c, o, end)
  {
    var (n, bytes) := DecodeStep(c, p, end);
    if n == 1 {
      SkippedStep(c, o + 1, p);
    } else {
      SkippedMany(c, o + 1, p, n / 2);
    }
    RoomGrows(c, o + 1, p + n, end + 1);
    SkippedStep(c, o + 1, end);
  }

  /** Whatever the bytes, also where the two passes split escapes differently, the decoded string
      fits in the memory that was reserved. */
  lemma {:induction false} DecodedFits(c: string, o: nat, end: nat, p: nat, w: nat)
    requires o < end < |c| && c[end] == '\"' && o < p <= end + 1
    requires w + Skipped(c, o + 1, p) <= p - (o + 1)
    ensures Decode(c, p, end).Some? ==> w + |Decode(c, p, end).value| <= Reserved(c, o, end)
    decreases end + 1 - p
  {
    if p < end {
      var (n, bytes) := DecodeStep(c, p, end);
      if n > 0 {
        StepFits(c, o, end, p, w);
        DecodedFits(c, o, end, p + n, w + |bytes|);
      }
    } else {
      RoomGrows(c, o + 1, p, end + 1);
      SkippedStep(c, o + 1, end);
    }
  }

  /** Nothing after the closing quote has a say in what is decoded. */
  lemma {:induction false} DecodeIsLocal(c: string, d: string, p: nat, end: nat)
    requires end < |c| && end < |d| && p <= end + 1
    requires forall i | 0 <= i <= end :: c[i] == d[i]
    ensures Decode(c, p, end) == Decode(d, p, end)
    decreases end + 1 - p
  {
    if p < end {
      StepIsLocal(c, d, p, end);
      var n := DecodeStep(c, p, end).0;
      if n > 0 { DecodeIsLocal(c, d, p + n, end); }
    }
  }

  lemma StepIsLocal(c: string, d: string, p: nat, end: nat)
    requires p < end < |c| && end < |d|
    requires forall i | 0 <= i <= end :: c[i] == d[i]
    ensures DecodeStep(c, p, end) == DecodeStep(d, p, end)
  {
    if c[p] == '\\' && c[p + 1] == 'u' && end - p >= 6 {
      assert Hex4(c, p + 2) == Hex4(d, p + 2);
      if end - p >= 12 { assert Hex4(c, p + 8) == Hex4(d, p + 8); }
    }
  }

  method WriteStep(c: string, p: nat, end: nat, output: array<char>, w: nat) returns (n: nat, k: nat)
    requires p < end < |c| && (DecodeStep(c, p, end).0 > 0 ==> w + |DecodeStep(c, p, end).1| <= output.Length)
    requires w <= output.Length
    modifies output
    ensures n == DecodeStep(c, p, end).0
    ensures n > 0 ==> k == |DecodeStep(c, p, end).1| && output[w..w + k] == DecodeStep(c, p, end).1
    ensures output[..w] == old(output[..w])
  {
    if c[p] != '\\' {
      output[w] := c[p];
      n, k := 1, 1;
    } else if c[p + 1] == 'u' {
      n, k := WriteUtf16(c, p, end, output, w);
    } else {
      var ch := Unescaped(c[p + 1]);
      if ch.None? { return 0, 0; }
      output[w] := ch.value;
      n, k := 2, 1;
    }
  }

  lemma PrependTwice(a: string, b: string, x: Option<string>)
    ensures Prepend(a, Prepend(b, x)) == Prepend(a + b, x)
    ensures Prepend("", x) == x
  {
    if x.Some? {
      assert (a + b) + x.value == a + (b + x.value);
      assert "" + x.value == x.value;
    }
  }

  /** The second pass, into an array of the size that the first pass computed: every store is within
      it, no character after the closing quote is read, and there is room for the terminator. */
  method WriteDecoded(c: string, o: nat, end: nat, output: array<char>) returns (ok: bool, w: nat)
    requires o < end < |c| && c[end] == '\"' && output.Length == Reserved(c, o, end) + 1
    modifies output
    ensures ok == Decode(c, o + 1, end).Some?
    ensures ok ==> w < output.Length && output[..w] == Decode(c, o + 1, end).value && output[w] == '\0'
  {
    RoomGrows(c, o + 1, o + 1, end);
    var p := o + 1;
    w := 0;
    PrependTwice("", "", Decode(c, p, end));
    assert output[..w] == "";
    while p < end
      invariant o < p <= end + 1 && 0 <= w <= Reserved(c, o, end)
      invariant w + Skipped(c, o + 1, p) <= p - (o + 1)
      invariant Decode(c, o + 1, end) == Prepend(output[..w], Decode(c, p, end))
      decreases end + 1 - p
    {
      ghost var done := output[..w];
      if DecodeStep(c, p, end).0 > 0 { StepFits(c, o, end, p, w); }
      PrependTwice(done, DecodeStep(c, p, end).1, Decode(c, p + DecodeStep(c, p, end).0, end));
      var n, k := WriteStep(c, p, end, output, w);
      if n == 0 { return false, w; }
      assert output[..w + k] == done + DecodeStep(c, p, end).1;
      p, w := p + n, w + k;
    }
    output[w] := '\0';
    assert Decode(c, p, end) == Some("");
    assert output[..w] + "" == output[..w];
    ok := true;
  }

  /** parse_string */
  method DecodeString(c: string, o: nat) returns (ok: bool, s: string, offset: nat)
    requires o < |c|
    ensures var r := ReadString(c, o);
            ok == r.Parsed? && (ok ==> s == r.value && offset == r.offset)
  {
    s, offset := "", o;
    if c[o] != '\"' { return false, s, offset; }
    var found, end, skipped := FindQuote(c, o);
    if !found { return false, s, offset; }
    RoomGrows(c, o + 1, o + 1, end);
    var output := new char[end - o - skipped + 1];
    var w;
    ok, w := WriteDecoded(c, o, end, output);
    if ok {
      s, offset := CString(output[..w]), end + 1;
    }
  }
}
