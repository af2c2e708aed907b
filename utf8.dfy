/** UTF-8 as Python's `str.encode('utf-8')` writes it and `bytes.decode()`
    (strict) reads it: the well-formed byte sequences of Table 3-7 of the
    Unicode Standard, chapter 3, and nothing else. */
module Utf8 {
  import opened Text

  predicate IsContinuation(b: byte) { 0x80 <= b < 0xC0 }

  /** Characters below 0x80 are one byte, equal to the code point. */
  predicate IsAscii(s: string) { forall i :: 0 <= i < |s| ==> s[i] as int < 0x80 }

  /** The bytes of one character: a lead byte that tells the length, then
      continuation bytes carrying six bits each. */
  function EncodeChar(c: char): (bs: seq<byte>)
    ensures 1 <= |bs| <= 4
    ensures |bs| == 1 <==> c as int < 0x80
    ensures |bs| == 1 ==> bs[0] as int == c as int
    ensures |bs| > 1 ==> 0xC2 <= bs[0] <= 0xF4
    ensures forall i :: 1 <= i < |bs| ==> IsContinuation(bs[i])
  {
    var cp := c as int;
    if cp < 0x80 then [cp as byte]
    else if cp < 0x800 then
      [(0xC0 + cp / 64) as byte, (0x80 + cp % 64) as byte]
    else if cp < 0x10000 then
      [(0xE0 + cp / 4096) as byte, (0x80 + cp / 64 % 64) as byte, (0x80 + cp % 64) as byte]
    else
      [(0xF0 + cp / 262144) as byte, (0x80 + cp / 4096 % 64) as byte,
       (0x80 + cp / 64 % 64) as byte, (0x80 + cp % 64) as byte]
  }

  function Encode(s: string): (bs: seq<byte>)
    ensures |bs| >= |s|
    decreases |s|
  {
    if |s| == 0 then [] else EncodeChar(s[0]) + Encode(s[1..])
  }

  /** The first character of bs and the number of bytes it takes, or None
      when bs does not start with a well-formed sequence: a stray
      continuation byte, a lead byte C0, C1 or F5..FF, a truncated
      sequence, an overlong form, a surrogate, or a value above 0x10FFFF. */
  function DecodeFirst(bs: seq<byte>): (r: Option<(char, nat)>)
    requires |bs| > 0
    ensures r.Some? ==> 1 <= r.value.1 <= |bs| && r.value.1 <= 4
  {
    var b0 := bs[0] as int;
    if b0 < 0x80 then Some((b0 as char, 1))
    else if 0xC2 <= b0 < 0xE0 then
      if |bs| >= 2 && IsContinuation(bs[1]) then
        Some((((b0 - 0xC0) * 64 + (bs[1] as int - 0x80)) as char, 2))
      else None
    else if 0xE0 <= b0 < 0xF0 then
      if |bs| >= 3 && IsContinuation(bs[1]) && IsContinuation(bs[2]) then
        var cp := (b0 - 0xE0) * 4096 + (bs[1] as int - 0x80) * 64 + (bs[2] as int - 0x80);
        if 0x800 <= cp && !(0xD800 <= cp < 0xE000) then Some((cp as char, 3)) else None
      else None
    else if 0xF0 <= b0 <= 0xF4 then
      if |bs| >= 4 && IsContinuation(bs[1]) && IsContinuation(bs[2]) && IsContinuation(bs[3]) then
        var cp := (b0 - 0xF0) * 262144 + (bs[1] as int - 0x80) * 4096
                  + (bs[2] as int - 0x80) * 64 + (bs[3] as int - 0x80);
        if 0x10000 <= cp < 0x110000 then Some((cp as char, 4)) else None
      else None
    else None
  }

  /** Strict decoding: the whole input must be well formed. */
  function Decode(bs: seq<byte>): Option<string>
    decreases |bs|
  {
    if |bs| == 0 then Some("")
    else match DecodeFirst(bs)
      case None => None
      case Some((c, n)) =>
        match Decode(bs[n..])
        case None => None
        case Some(s) => Some([c] + s)
  }

  // ---------------------------------------------------------------------------
  // Encoding facts
  // ---------------------------------------------------------------------------

  lemma {:induction false} EncodeAppend(a: string, b: string)
    ensures Encode(a + b) == Encode(a) + Encode(b)
    decreases |a|
  {
    if |a| == 0 {
      assert a + b == b;
    } else {
      assert (a + b)[1..] == a[1..] + b;
      EncodeAppend(a[1..], b);
    }
  }

  /** ASCII text is encoded one byte per character, each equal to its code point. */
  lemma {:induction false} EncodeAscii(s: string)
    requires IsAscii(s)
    ensures |Encode(s)| == |s|
    ensures forall i :: 0 <= i < |s| ==> Encode(s)[i] as int == s[i] as int
    decreases |s|
  {
    if |s| > 0 {
      EncodeAscii(s[1..]);
    }
  }

  lemma AsciiAppend(a: string, b: string)
    requires IsAscii(a) && IsAscii(b)
    ensures IsAscii(a + b)
  {
  }

  lemma DigitsAscii(s: string)
    requires AllDigits(s)
    ensures IsAscii(s)
  {
  }

  /** So for ASCII text, a byte range of the encoding is the encoding of the
      same range of characters. */
  lemma EncodeAsciiSlice(s: string, i: nat, j: nat)
    requires IsAscii(s) && i <= j <= |s|
    ensures |Encode(s)| == |s|
    ensures Encode(s)[i..j] == Encode(s[i..j])
  {
    EncodeAscii(s);
    assert IsAscii(s[i..j]);
    EncodeAscii(s[i..j]);
  }

  /** The byte 0x7C appears in the encoding exactly where '|' appears in the text:
      every byte of a multi-byte character is 0x80 or above. */
  lemma {:induction false} BarInEncode(s: string)
    ensures Bar in Encode(s) <==> '|' in s
    decreases |s|
  {
    if |s| > 0 {
      BarInEncode(s[1..]);
      var e := EncodeChar(s[0]);
      assert Bar in e <==> s[0] == '|';
      assert s == [s[0]] + s[1..];
    }
  }

  // ---------------------------------------------------------------------------
  // Decoding facts
  // ---------------------------------------------------------------------------

  lemma TwoByteArithmetic(cp: int)
    requires 0x80 <= cp < 0x800
    ensures 0xC2 <= 0xC0 + cp / 64 < 0xE0
    ensures ((0xC0 + cp / 64) - 0xC0) * 64 + ((0x80 + cp % 64) - 0x80) == cp
  {
  }

  lemma ThreeByteArithmetic(cp: int)
    requires 0x800 <= cp < 0x10000
    ensures 0xE0 <= 0xE0 + cp / 4096 < 0xF0
    ensures cp / 4096 * 4096 + cp / 64 % 64 * 64 + cp % 64 == cp
  {
    var q := cp / 64;
    assert cp == q * 64 + cp % 64;
    assert q == (q / 64) * 64 + q % 64;
    assert q / 64 == cp / 4096;
  }

  lemma FourByteArithmetic(cp: int)
    requires 0x10000 <= cp < 0x110000
    ensures 0xF0 <= 0xF0 + cp / 262144 <= 0xF4
    ensures cp / 262144 * 262144 + cp / 4096 % 64 * 4096 + cp / 64 % 64 * 64 + cp % 64 == cp
  {
    var q := cp / 64;
    var q2 := q / 64;
    assert cp == q * 64 + cp % 64;
    assert q == q2 * 64 + q % 64;
    assert q2 == cp / 4096;
    assert q2 == (q2 / 64) * 64 + q2 % 64;
    assert q2 / 64 == cp / 262144;
  }

  /** A character's bytes decode back to it, whatever follows them. */
  lemma DecodeFirstEncodeChar(c: char, rest: seq<byte>)
    ensures DecodeFirst(EncodeChar(c) + rest) == Some((c, |EncodeChar(c)|))
  {
    var cp := c as int;
    var e := EncodeChar(c);
    var bs := e + rest;
    assert forall i :: 0 <= i < |e| ==> bs[i] == e[i];
    if cp < 0x80 {
    } else if cp < 0x800 {
      TwoByteArithmetic(cp);
    } else if cp < 0x10000 {
      ThreeByteArithmetic(cp);
    } else {
      FourByteArithmetic(cp);
    }
  }

  /** Decoding is the inverse of encoding: every string survives the round trip. */
  lemma {:induction false} DecodeEncode(s: string)
    ensures Decode(Encode(s)) == Some(s)
    decreases |s|
  {
    if |s| > 0 {
      var e := EncodeChar(s[0]);
      DecodeFirstEncodeChar(s[0], Encode(s[1..]));
      assert (e + Encode(s[1..]))[|e|..] == Encode(s[1..]);
      DecodeEncode(s[1..]);
      assert [s[0]] + s[1..] == s;
    }
  }

  /** Decoding the first character reads no byte beyond it. */
  lemma DecodeFirstPrefix(a: seq<byte>, b: seq<byte>)
    requires |a| > 0 && DecodeFirst(a).Some?
    ensures DecodeFirst(a + b) == DecodeFirst(a)
  {
    var n := DecodeFirst(a).value.1;
    assert forall i :: 0 <= i < n ==> (a + b)[i] == a[i];
  }

  /** The first character of well-formed text, the bytes it takes, and the
      well-formed rest. */
  lemma DecodeHead(bs: seq<byte>) returns (c: char, n: nat)
    requires |bs| > 0 && Decode(bs).Some?
    ensures 1 <= n <= |bs| && DecodeFirst(bs) == Some((c, n))
    ensures Decode(bs[n..]).Some? && Decode(bs).value == [c] + Decode(bs[n..]).value
  {
    c, n := DecodeFirst(bs).value.0, DecodeFirst(bs).value.1;
  }

  /** Decoding after a first character that is known to be well formed. */
  lemma DecodeCons(bs: seq<byte>, c: char, n: nat)
    requires |bs| > 0 && DecodeFirst(bs) == Some((c, n))
    ensures Decode(bs[n..]).None? ==> Decode(bs).None?
    ensures Decode(bs[n..]).Some? ==> Decode(bs) == Some([c] + Decode(bs[n..]).value)
  {
  }

  /** Well-formed text followed by more bytes decodes as the text followed by
      the decoding of the rest; the whole fails exactly when the rest does. */
  lemma {:induction false} DecodeAppend(a: seq<byte>, b: seq<byte>)
    requires Decode(a).Some?
    ensures Decode(b).None? ==> Decode(a + b).None?
    ensures Decode(b).Some? ==> Decode(a + b) == Some(Decode(a).value + Decode(b).value)
    decreases |a|
  {
    if |a| == 0 {
      assert a + b == b;
      assert Decode(a) == Some("");
      if Decode(b).Some? {
        assert "" + Decode(b).value == Decode(b).value;
      }
    } else {
      var c, n := DecodeHead(a);
      DecodeFirstPrefix(a, b);
      assert (a + b)[n..] == a[n..] + b;
      DecodeAppend(a[n..], b);
      DecodeCons(a + b, c, n);
      if Decode(b).Some? {
        var t := Decode(b).value;
        assert [c] + (Decode(a[n..]).value + t) == ([c] + Decode(a[n..]).value) + t;
      }
    }
  }

  /** A lead byte of a multi-byte sequence with nothing after it cannot be decoded. */
  lemma DecodeLoneLead(a: seq<byte>, lead: byte)
    requires Decode(a).Some?
    requires 0xC2 <= lead <= 0xF4
    ensures Decode(a + [lead]) == None
  {
    DecodeAppend(a, [lead]);
  }
}
