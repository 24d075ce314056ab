/**
 The variable byte integer of section 1.5.5 of MQTT 5.0: packet__write_varint, packet__read_varint
 and packet__varint_bytes.
 */
module VarInt {

  type Byte = n: nat | n < 256

  const MAXIMUM: nat := 268435455

  datatype Read = Malformed | Read(word: nat, bytes: nat)

  /** Seven bits a byte, the lowest first, the top bit set on all but the last. */
  function Encode(word: nat): seq<Byte>
  {
    if word < 128 then [word] else [word % 128 + 128] + Encode(word / 128)
  }

  /** Decoding at most k bytes; a final zero after other bytes is overlong. */
  function Decode(s: seq<Byte>, k: nat, first: bool): (r: Read)
    ensures r.Read? ==> 1 <= r.bytes <= k && r.bytes <= |s|
    decreases k
  {
    if k == 0 || s == [] then Malformed
    else if s[0] < 128 then (if !first && s[0] == 0 then Malformed else Read(s[0], 1))
    else
      var rest := Decode(s[1..], k - 1, false);
      if rest.Malformed? then Malformed else Read(s[0] - 128 + 128 * rest.word, rest.bytes + 1)
  }

  /** The largest number of k bytes, plus one. */
  function Limit(k: nat): nat { if k == 0 then 1 else 128 * Limit(k - 1) }

  lemma {:induction false} EncodeLength(word: nat, k: nat)
    ensures |Encode(word)| >= 1
    ensures k >= 1 ==> (|Encode(word)| <= k <==> word < Limit(k))
    decreases word
  {
    if word >= 128 {
      EncodeLength(word / 128, if k > 0 then k - 1 else 0);
      if k == 1 { assert Limit(1) == 128 * Limit(0) == 128; }
    } else if k >= 1 {
      LimitGrows(k);
    }
  }

  lemma {:induction false} LimitGrows(k: nat)
    requires k >= 1
    ensures Limit(k) >= 128
  {
    if k > 1 { LimitGrows(k - 1); } else { assert Limit(0) == 1; }
  }

  /** packet__varint_bytes */
  function VarintBytes(word: nat): (n: nat)
  {
    if word < 128 then 1 else if word < 16384 then 2 else if word < 2097152 then 3
    else if word < 268435456 then 4 else 5
  }

  lemma LimitValues()
    ensures Limit(1) == 128 && Limit(2) == 16384 && Limit(3) == 2097152 && Limit(4) == 268435456
  {
    assert Limit(0) == 1;
    assert Limit(1) == 128;
    assert Limit(2) == 16384;
    assert Limit(3) == 2097152;
  }

  lemma BytesIsLength(word: nat)
    requires word <= MAXIMUM
    ensures VarintBytes(word) == |Encode(word)|
  {
    LimitValues();
    EncodeLength(word, 1);
    EncodeLength(word, 2);
    EncodeLength(word, 3);
    EncodeLength(word, 4);
  }

  lemma {:induction false} DecodeEncoded(word: nat, rest: seq<Byte>, k: nat, first: bool)
    requires |Encode(word)| <= k && (first || word > 0)
    ensures Decode(Encode(word) + rest, k, first) == Read(word, |Encode(word)|)
    decreases word
  {
    var s := Encode(word) + rest;
    EncodeLength(word, 0);
    if word >= 128 {
      assert s[1..] == Encode(word / 128) + rest;
      DecodeEncoded(word / 128, rest, k - 1, false);
    }
  }

  /** Every accepted byte string is the encoding of its value. */
  lemma {:induction false} DecodedIsCanonical(s: seq<Byte>, k: nat, first: bool)
    requires Decode(s, k, first).Read?
    ensures
      var r := Decode(s, k, first);
      s[..r.bytes] == Encode(r.word) && (!first ==> r.word > 0) && r.word < Limit(k)
    decreases k
  {
    var r := Decode(s, k, first);
    if s[0] < 128 {
      LimitGrows(k);
    } else {
      DecodedIsCanonical(s[1..], k - 1, false);
      var rest := Decode(s[1..], k - 1, false);
      assert r.word % 128 == s[0] - 128 && r.word / 128 == rest.word;
      assert s[..r.bytes] == [s[0]] + s[1..][..rest.bytes];
    }
  }

  /** Write then read gives the value and the number of bytes that packet__varint_bytes promises, for
      every value that can be written; and what is read is exactly what write produces. */
  lemma VarintRoundTrip(word: nat, rest: seq<Byte>)
    requires word <= MAXIMUM
    ensures Decode(Encode(word) + rest, 4, true) == Read(word, VarintBytes(word))
  {
    LimitValues();
    EncodeLength(word, 4);
    BytesIsLength(word);
    DecodeEncoded(word, rest, 4, true);
  }

  lemma VarintCanonical(s: seq<Byte>)
    ensures
      var r := Decode(s, 4, true);
      r.Read? ==> r.word <= MAXIMUM && r.bytes == VarintBytes(r.word) && s[..r.bytes] == Encode(r.word)
  {
    if Decode(s, 4, true).Read? {
      DecodedIsCanonical(s, 4, true);
      LimitValues();
      BytesIsLength(Decode(s, 4, true).word);
    }
  }

  // ----- as the library runs them

  /** Product by repeated addition. */
  function Scaled(m: nat, w: nat): nat { if w == 0 then 0 else m + Scaled(m, w - 1) }

  lemma {:induction false} ScaledIsProduct(m: nat, w: nat)
    ensures Scaled(m, w) == m * w
  {
    if w > 0 {
      ScaledIsProduct(m, w - 1);
      assert m * w == m + m * (w - 1);
    }
  }

  /** What reading gives once i bytes have been added up to `word` and `rest` is still to come. */
  function Joined(word: nat, mult: nat, i: nat, rest: Read): Read
  {
    if rest.Malformed? then Malformed else Read(word + Scaled(mult, rest.word), i + rest.bytes)
  }

  /** One byte of the decoder, added to what was read before. */
  lemma JoinTurn(word: nat, mult: nat, i: nat, s: seq<Byte>, k: nat, first: bool)
    requires s != [] && k > 0
    ensures
      Joined(word, mult, i, Decode(s, k, first)) ==
        if s[0] >= 128 then Joined(word + Scaled(mult, s[0] - 128), mult * 128, i + 1, Decode(s[1..], k - 1, false))
        else if !first && s[0] == 0 then Malformed
        else Read(word + Scaled(mult, s[0]), i + 1)
  {
    var rest := Decode(s[1..], k - 1, false);
    if s[0] >= 128 && rest.Read? {
      var b := s[0] - 128;
      ScaledIsProduct(mult, b);
      ScaledIsProduct(mult, b + 128 * rest.word);
      ScaledIsProduct(mult * 128, rest.word);
      assert mult * (b + 128 * rest.word) == b * mult + mult * 128 * rest.word;
    }
  }

  /** The byte written for the lowest seven bits; the top bit says that more follow. */
  function NextByte(word: nat): Byte { if word / 128 > 0 then word % 128 + 128 else word % 128 }

  /** The bytes that at most k turns of the writing loop produce. */
  function Written(word: nat, k: nat): seq<Byte>
  {
    if k == 0 then [] else [NextByte(word)] + if word / 128 > 0 then Written(word / 128, k - 1) else []
  }

  lemma {:induction false} WrittenIsEncoded(word: nat, k: nat)
    ensures |Encode(word)| <= k ==> Written(word, k) == Encode(word)
    ensures |Encode(word)| > k ==> |Written(word, k)| == k
    decreases k
  {
    EncodeLength(word, 0);
    if k > 0 && word >= 128 { WrittenIsEncoded(word / 128, k - 1); }
  }

  /** The writing loop from here on: the bytes so far and what is left of the value. */
  function Writing(out: seq<Byte>, word: nat, k: nat, more: bool): seq<Byte>
    decreases k
  {
    if !more || k == 0 then out else Writing(out + [NextByte(word)], word / 128, k - 1, word / 128 > 0)
  }

  lemma {:induction false} WritingIsWritten(out: seq<Byte>, word: nat, k: nat)
    ensures Writing(out, word, k, true) == out + Written(word, k)
    decreases k
  {
    if k == 0 {
      assert out + [] == out;
    } else {
      var next := out + [NextByte(word)];
      if word / 128 > 0 {
        WritingIsWritten(next, word / 128, k - 1);
        assert next + Written(word / 128, k - 1) == out + ([NextByte(word)] + Written(word / 128, k - 1));
      } else {
        assert next + [] == next;
      }
    }
  }

  lemma WrittenLength(value: nat)
    ensures value <= MAXIMUM ==> Written(value, 5) == Encode(value) && |Encode(value)| < 5
    ensures |Written(value, 5)| == VarintBytes(value)
  {
    WrittenIsEncoded(value, 5);
    LimitValues();
    EncodeLength(value, 4);
    if value <= MAXIMUM {
      BytesIsLength(value);
    } else {
      EncodeLength(value, 5);
    }
  }

  /** A turn that is still to come writes at least one byte. */
  lemma {:induction false} WritingGrows(out: seq<Byte>, word: nat, k: nat, more: bool)
    ensures |Writing(out, word, k, more)| >= |out| + if more && k > 0 then 1 else 0
    decreases k
  {
    if more && k > 0 { WritingGrows(out + [NextByte(word)], word / 128, k - 1, word / 128 > 0); }
  }

  /** One digit added to the value read so far. */
  method AddDigit(word: nat, low: nat, mult: nat) returns (r: nat)
    ensures r == word + Scaled(mult, low)
  {
    ScaledIsProduct(mult, low);
    r := word + low * mult;
  }

  class Packet {
    var payload: array<Byte>
    var pos: nat

    constructor (size: nat)
      ensures fresh(payload) && payload.Length == size && pos == 0
    {
      payload := new Byte[size](i => 0);
      pos := 0;
    }

    /** packet__write_byte */
    method WriteByte(byte: Byte)
      requires pos < payload.Length
      modifies this`pos, payload
      ensures pos == old(pos) + 1 && payload[..pos] == old(payload[..pos]) + [byte]
    {
      payload[pos] := byte;
      pos := pos + 1;
    }

    /** packet__write_varint: five bytes are written before the value is refused */
    method WriteVarint(value: nat) returns (ok: bool)
      requires value < 0x1_0000_0000 && pos + VarintBytes(value) <= payload.Length
      modifies this`pos, payload
      ensures ok <==> value <= MAXIMUM
      ensures pos == old(pos) + VarintBytes(value)
      ensures ok ==> pos == old(pos) + |Encode(value)| <= payload.Length && payload[..pos] == old(payload[..pos]) + Encode(value)
    {
      WrittenLength(value);
      WritingIsWritten([], value, 5);
      assert [] + Written(value, 5) == Written(value, 5);
      var word: nat, count: nat, more := value, 0, true;
      ghost var before := payload[..pos];
      ghost var out: seq<Byte> := [];
      while more
        invariant count == |out| <= 5 && pos == old(pos) + count && (more ==> count < 5)
        invariant Writing(out, word, 5 - count, more) == Writing([], value, 5, true) && payload[..pos] == before + out
        decreases 5 - count, more
      {
        WritingGrows(out, word, 5 - count, more);
        Regroup(before, out, [NextByte(word)]);
        out := out + [NextByte(word)];
        word := WriteNext(word);
        count := count + 1;
        more := word > 0 && count < 5;
      }
      ok := count != 5;
    }

    /** One turn of the writing loop. */
    method WriteNext(word: nat) returns (left: nat)
      requires pos < payload.Length
      modifies this`pos, payload
      ensures left == word / 128 && pos == old(pos) + 1 && payload[..pos] == old(payload[..pos]) + [NextByte(word)]
    {
      var byte: Byte := word % 128;
      left := word / 128;
      if left > 0 { byte := byte + 128; }
      WriteByte(byte);
    }

    static lemma Regroup(a: seq<Byte>, b: seq<Byte>, c: seq<Byte>)
      ensures (a + b) + c == a + (b + c)
    {
    }

    /** packet__read_varint over the remaining bytes */
    method ReadVarint(remaining: nat) returns (r: Read)
      requires pos <= remaining <= payload.Length
      modifies this`pos
      ensures r == Decode(payload[old(pos)..remaining], 4, true)
      ensures pos == old(pos) + Consumed(payload[old(pos)..remaining], 4)
      ensures r.Read? ==> pos == old(pos) + r.bytes
    {
      var n;
      ConsumedIsBytes(payload[pos..remaining], 4, true);
      r, n := ReadBytes(payload[pos..remaining]);
      pos := pos + n;
    }
  }

  /** How many bytes the reading loop takes, whether or not they are well formed. */
  function Consumed(s: seq<Byte>, k: nat): nat
    decreases k
  {
    if k == 0 || s == [] then 0 else if s[0] < 128 then 1 else 1 + Consumed(s[1..], k - 1)
  }

  lemma {:induction false} ConsumedIsBytes(s: seq<Byte>, k: nat, first: bool)
    ensures Decode(s, k, first).Read? ==> Decode(s, k, first).bytes == Consumed(s, k)
    decreases k
  {
    if k > 0 && s != [] { ConsumedIsBytes(s[1..], k - 1, false); }
  }

  /** The reading loop from here on. */
  function Reading(s: seq<Byte>, k: nat, word: nat, mult: nat, i: nat): Read
    decreases k
  {
    if k == 0 || s == [] then Malformed
    else if s[0] < 128 then (if i > 0 && s[0] == 0 then Malformed else Read(word + Scaled(mult, s[0]), i + 1))
    else Reading(s[1..], k - 1, word + Scaled(mult, s[0] - 128), mult * 128, i + 1)
  }

  lemma {:induction false} ReadingIsDecode(s: seq<Byte>, k: nat, word: nat, mult: nat, i: nat)
    ensures Reading(s, k, word, mult, i) == Joined(word, mult, i, Decode(s, k, i == 0))
    decreases k
  {
    if k > 0 && s != [] {
      JoinTurn(word, mult, i, s, k, i == 0);
      if s[0] >= 128 { ReadingIsDecode(s[1..], k - 1, word + Scaled(mult, s[0] - 128), mult * 128, i + 1); }
    }
  }

  /** The loop of packet__read_varint over the bytes that remain. */
  method ReadBytes(s: seq<Byte>) returns (r: Read, n: nat)
    ensures r == Decode(s, 4, true) && n == Consumed(s, 4)
  {
    var word: nat, mult: nat, i: nat, rest := 0, 1, 0, s;
    ReadingIsDecode(s, 4, 0, 1, 0);
    if Decode(s, 4, true).Read? { ScaledIsProduct(1, Decode(s, 4, true).word); }
    ghost var goal := Decode(s, 4, true);
    while i < 4
      invariant 0 <= i <= 4 && goal == Reading(rest, 4 - i, word, mult, i)
      invariant Consumed(s, 4) == i + Consumed(rest, 4 - i)
    {
      if rest == [] { return Malformed, i; }
      var byte := rest[0];
      word := AddDigit(word, if byte >= 128 then byte - 128 else byte, mult);
      mult := mult * 128;
      rest := rest[1..];
      i := i + 1;
      if byte < 128 {
        if i > 1 && byte == 0 { return Malformed, i; }
        return Read(word, i), i;
      }
    }
    r, n := Malformed, 4;
  }
}
