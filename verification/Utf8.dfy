/** UTF-8 (RFC 3629, section 4): encoding a character and recognising well-formed text; one char per byte. */
module Utf8 {

  /** Bytes on the wire or in memory, one char per byte. */
  type Bytes = string

  function Byte(b: int): char
    requires 0 <= b < 256
  {
    b as char
  }

  function EncodeChar(c: char): (bytes: Bytes)
    ensures 1 <= |bytes| <= 4
  {
    var u := c as int;
    if u < 0x80 then [c]
    else if u < 0x800 then [Byte(0xC0 + u / 64), Byte(0x80 + u % 64)]
    else if u < 0x1_0000 then [Byte(0xE0 + u / 4096), Byte(0x80 + u / 64 % 64), Byte(0x80 + u % 64)]
    else [Byte(0xF0 + u / 262144), Byte(0x80 + u / 4096 % 64), Byte(0x80 + u / 64 % 64), Byte(0x80 + u % 64)]
  }

  function Encode(text: string): Bytes
  {
    if text == [] then [] else EncodeChar(text[0]) + Encode(text[1..])
  }

  predicate IsTail(c: char) { 0x80 <= c as int <= 0xBF }

  predicate In(c: char, low: int, high: int) { low <= c as int <= high }

  /** The width of the well-formed sequence at the start of `s`, or 0. */
  function SequenceWidth(s: Bytes): (width: nat)
    ensures width <= |s|
  {
    if s == [] then 0
    else
      var c := s[0];
      if In(c, 0, 0x7F) then 1
      else if |s| >= 2 && In(c, 0xC2, 0xDF) && IsTail(s[1]) then 2
      else if |s| >= 3 && IsTail(s[2])
              && (|| (In(c, 0xE0, 0xE0) && In(s[1], 0xA0, 0xBF))
                  || ((In(c, 0xE1, 0xEC) || In(c, 0xEE, 0xEF)) && IsTail(s[1]))
                  || (In(c, 0xED, 0xED) && In(s[1], 0x80, 0x9F))) then 3
      else if |s| >= 4 && IsTail(s[2]) && IsTail(s[3])
              && (|| (In(c, 0xF0, 0xF0) && In(s[1], 0x90, 0xBF))
                  || (In(c, 0xF1, 0xF3) && IsTail(s[1]))
                  || (In(c, 0xF4, 0xF4) && In(s[1], 0x80, 0x8F))) then 4
      else 0
  }

  predicate IsUtf8(s: Bytes)
    decreases |s|
  {
    s == [] || (SequenceWidth(s) > 0 && IsUtf8(s[SequenceWidth(s)..]))
  }

  /** The width of a sequence is settled by its own bytes. */
  lemma WidthIgnoresRest(bytes: Bytes, rest: Bytes)
    requires SequenceWidth(bytes) == |bytes| > 0
    ensures SequenceWidth(bytes + rest) == |bytes|
  {
    hide IsTail, In;
    assert forall i :: 0 <= i < |bytes| ==> (bytes + rest)[i] == bytes[i];
  }

  lemma EncodedWidth(c: char)
    ensures SequenceWidth(EncodeChar(c)) == |EncodeChar(c)|
  {
    var u := c as int;
    if u < 0x800 {
      ShortWidth(c);
    } else if u < 0x1_0000 {
      ThreeWide(c);
    } else {
      FourWide(c);
    }
  }

  lemma ShortWidth(c: char)
    requires c as int < 0x800
    ensures SequenceWidth(EncodeChar(c)) == |EncodeChar(c)|
  {
  }

  lemma ThreeWide(c: char)
    requires 0x800 <= c as int < 0x1_0000
    ensures SequenceWidth(EncodeChar(c)) == 3 == |EncodeChar(c)|
  {
    var u := c as int;
    assert 0 <= u / 64 % 64 < 64 && u / 4096 < 16;
    assert u < 0x1000 ==> u / 64 % 64 >= 32;
    assert 0xD000 <= u < 0xE000 ==> u / 64 % 64 < 32;
  }

  lemma FourWide(c: char)
    requires c as int >= 0x1_0000
    ensures SequenceWidth(EncodeChar(c)) == 4 == |EncodeChar(c)|
  {
    var u := c as int;
    assert 0 <= u / 64 % 64 < 64 && 0 <= u / 4096 % 64 < 64 && u / 262144 < 5;
    assert u < 0x4_0000 ==> u / 4096 % 64 >= 16;
    assert u >= 0x10_0000 ==> u / 4096 % 64 < 16;
  }

  lemma SequenceOfChar(c: char, rest: Bytes)
    ensures SequenceWidth(EncodeChar(c) + rest) == |EncodeChar(c)|
  {
    hide SequenceWidth, EncodeChar;
    EncodedWidth(c);
    WidthIgnoresRest(EncodeChar(c), rest);
  }

  /** Everything encoded is well formed. */
  lemma {:induction false} EncodedIsUtf8(text: string)
    ensures IsUtf8(Encode(text))
  {
    hide EncodeChar, SequenceWidth;
    if text != [] {
      EncodedIsUtf8(text[1..]);
      SequenceOfChar(text[0], Encode(text[1..]));
      var bytes := Encode(text);
      assert bytes[|EncodeChar(text[0])|..] == Encode(text[1..]);
    }
  }

  /** The bytes of a code point: the leading byte carries its highest bits, each other byte six more. */
  predicate Encodes(bytes: Bytes, u: int)
  {
    && (forall i :: 1 <= i < |bytes| ==> 0x80 <= bytes[i] as int < 0xC0)
    && match |bytes|
       case 1 => u == bytes[0] as int && 0 <= u < 0x80
       case 2 => u == (bytes[0] as int - 0xC0) * 0x40 + (bytes[1] as int - 0x80) && 0x80 <= u < 0x800
       case 3 =>
         && u == (bytes[0] as int - 0xE0) * 0x1000 + (bytes[1] as int - 0x80) * 0x40 + (bytes[2] as int - 0x80)
         && 0x800 <= u < 0x1_0000 && !(0xD800 <= u < 0xE000)
       case 4 =>
         && u == (bytes[0] as int - 0xF0) * 0x4_0000 + (bytes[1] as int - 0x80) * 0x1000 + (bytes[2] as int - 0x80) * 0x40
               + (bytes[3] as int - 0x80)
         && 0x1_0000 <= u < 0x11_0000
       case _ => false
  }

  lemma SixBits(high: nat, low: nat)
    requires low < 64
    ensures (high * 64 + low) / 64 == high && (high * 64 + low) % 64 == low
  {
  }

  lemma NestedSixBits(u: nat)
    ensures u / 4096 == u / 64 / 64 && u / 262144 == u / 64 / 64 / 64
    ensures u == u / 64 * 64 + u % 64
  {
  }

  /** The bytes from the bits above and the bits below. */
  lemma BytesOf(c: char)
    ensures var u, bytes := c as int, EncodeChar(c);
            var a, b := u / 64, u / 64 / 64;
            if u < 0x80 then bytes == [c]
            else if u < 0x800 then bytes == [Byte(0xC0 + a), Byte(0x80 + u % 64)]
            else if u < 0x1_0000 then bytes == [Byte(0xE0 + b), Byte(0x80 + a % 64), Byte(0x80 + u % 64)]
            else bytes == [Byte(0xF0 + b / 64), Byte(0x80 + b % 64), Byte(0x80 + a % 64), Byte(0x80 + u % 64)]
  {
    NestedSixBits(c as int);
  }

  lemma EncodedIs(c: char)
    ensures Encodes(EncodeChar(c), c as int)
  {
    hide EncodeChar;
    BytesOf(c);
    var u := c as int;
    NestedSixBits(u);
    NestedSixBits(u / 64);
    NestedSixBits(u / 64 / 64);
  }

  lemma ThreeParts(u: nat, high: nat, middle: nat, low: nat)
    requires middle < 64 && low < 64 && u == high * 0x1000 + middle * 0x40 + low
    ensures u / 64 / 64 == high && u / 64 % 64 == middle && u % 64 == low
  {
    SixBits(high * 64 + middle, low);
    SixBits(high, middle);
  }

  lemma FourParts(u: nat, top: nat, high: nat, middle: nat, low: nat)
    requires high < 64 && middle < 64 && low < 64 && u == top * 0x4_0000 + high * 0x1000 + middle * 0x40 + low
    ensures u / 64 / 64 / 64 == top && u / 64 / 64 % 64 == high && u / 64 % 64 == middle && u % 64 == low
  {
    ThreeParts(u, top * 64 + high, middle, low);
    SixBits(top, high);
  }

  /** A code point has no other bytes. */
  lemma EncodingIsUnique(bytes: Bytes, c: char)
    requires Encodes(bytes, c as int)
    ensures bytes == EncodeChar(c)
  {
    hide EncodeChar;
    BytesOf(c);
    match |bytes| {
      case 1 =>
      case 2 => SixBits(bytes[0] as int - 0xC0, bytes[1] as int - 0x80);
      case 3 => ThreeParts(c as int, bytes[0] as int - 0xE0, bytes[1] as int - 0x80, bytes[2] as int - 0x80);
      case 4 =>
        FourParts(c as int, bytes[0] as int - 0xF0, bytes[1] as int - 0x80, bytes[2] as int - 0x80, bytes[3] as int - 0x80);
    }
  }

  lemma WidthIsEncoding(s: Bytes) returns (c: char)
    requires SequenceWidth(s) > 0
    ensures Encodes(s[..SequenceWidth(s)], c as int)
  {
    var n := SequenceWidth(s);
    var bytes := s[..n];
    var u := if n == 1 then bytes[0] as int
             else if n == 2 then (bytes[0] as int - 0xC0) * 0x40 + (bytes[1] as int - 0x80)
             else if n == 3 then (bytes[0] as int - 0xE0) * 0x1000 + (bytes[1] as int - 0x80) * 0x40 + (bytes[2] as int - 0x80)
             else (bytes[0] as int - 0xF0) * 0x4_0000 + (bytes[1] as int - 0x80) * 0x1000 + (bytes[2] as int - 0x80) * 0x40
                  + (bytes[3] as int - 0x80);
    c := u as char;
  }

  lemma {:induction false} WellFormedIsEncoded(s: Bytes) returns (text: string)
    requires IsUtf8(s)
    ensures Encode(text) == s
    decreases |s|
  {
    hide EncodeChar, SequenceWidth, Encodes;
    text := [];
    if s != [] {
      var n := SequenceWidth(s);
      var c := WidthIsEncoding(s);
      EncodingIsUnique(s[..n], c);
      var rest := WellFormedIsEncoded(s[n..]);
      text := [c] + rest;
      assert text[1..] == rest && s == s[..n] + s[n..];
    }
  }

  /** The bytes of some characters. */
  ghost predicate IsText(s: Bytes) { exists text :: Encode(text) == s }

  /** Bytes are well formed exactly when they encode characters. */
  lemma Utf8Exactly(s: Bytes)
    ensures IsUtf8(s) <==> IsText(s)
  {
    hide IsUtf8, Encode;
    if IsUtf8(s) {
      var text := WellFormedIsEncoded(s);
    }
    if IsText(s) {
      var text :| Encode(text) == s;
      EncodedIsUtf8(text);
    }
  }
}
