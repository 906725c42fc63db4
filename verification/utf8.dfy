/** UTF-8, as `TextEncoder.encode` produces it. Dafny characters are Unicode scalar
    values, so every character has an encoding (there are no lone surrogates). */
module Utf8 {
  import opened Bytes
  import opened Wrappers

  /** The one- to four-byte UTF-8 sequence of one scalar value. */
  function EncodeChar(c: char): (r: seq<Byte>)
    ensures 1 <= |r| <= 4
    ensures |r| == 1 <==> c as int < 0x80
  {
    var x := c as int;
    var y := x / 64;
    var z := y / 64;
    if x < 0x80 then [x]
    else if x < 0x800 then [0xC0 + y, 0x80 + x % 64]
    else if x < 0x1_0000 then [0xE0 + z, 0x80 + y % 64, 0x80 + x % 64]
    else [0xF0 + z / 64, 0x80 + z % 64, 0x80 + y % 64, 0x80 + x % 64]
  }

  /** `TextEncoder.encode`: the concatenated encodings of the characters. */
  function Encode(s: string): (r: seq<Byte>)
    ensures |s| <= |r| <= 4 * |s|
  {
    if s == [] then [] else EncodeChar(s[0]) + Encode(s[1..])
  }

  predicate IsAscii(s: string)
  {
    forall i :: 0 <= i < |s| ==> s[i] as int < 0x80
  }

  /** ASCII text encodes to one byte per character, each byte the character code. */
  lemma {:induction false} EncodeAscii(s: string)
    requires IsAscii(s)
    ensures |Encode(s)| == |s|
    ensures forall i :: 0 <= i < |s| ==> Encode(s)[i] == s[i] as int
  {
    if s != [] {
      EncodeAscii(s[1..]);
    }
  }

  /** Encoding distributes over concatenation. */
  lemma {:induction false} EncodeAppend(s: string, t: string)
    ensures Encode(s + t) == Encode(s) + Encode(t)
  {
    if s == [] {
      assert s + t == t;
    } else {
      assert (s + t)[1..] == s[1..] + t;
      EncodeAppend(s[1..], t);
    }
  }

  predicate IsCont(b: Byte) { 0x80 <= b < 0xC0 }

  /** The scalar value `x` as a character, when it is one. */
  function ToChar(x: int): Option<char>
  {
    if 0 <= x < 0xD800 || 0xE000 <= x < 0x11_0000 then Some(x as char) else None
  }

  /** The value carried by the payload bits of a sequence's bytes, six bits per
      continuation byte, most significant group first. */
  function Payload(groups: seq<int>): int
  {
    if groups == [] then 0 else Payload(groups[..|groups| - 1]) * 64 + groups[|groups| - 1]
  }

  /** Decodes the first character of `b` and reports how many bytes it took; rejects
      overlong forms, surrogates and values beyond U+10FFFF. */
  function DecodeChar(b: seq<Byte>): (r: Option<(char, nat)>)
    requires b != []
    ensures r.Some? ==> 1 <= r.value.1 <= |b|
  {
    var b0 := b[0] as int;
    if b0 < 0x80 then Some((b0 as char, 1))
    else if 0xC2 <= b0 < 0xE0 && |b| >= 2 && IsCont(b[1]) then
      var x := Payload([b0 - 0xC0, b[1] - 0x80]);
      match ToChar(x) case Some(c) => Some((c, 2)) case None => None
    else if 0xE0 <= b0 < 0xF0 && |b| >= 3 && IsCont(b[1]) && IsCont(b[2]) then
      var x := Payload([b0 - 0xE0, b[1] - 0x80, b[2] - 0x80]);
      if x < 0x800 then None
      else match ToChar(x) case Some(c) => Some((c, 3)) case None => None
    else if 0xF0 <= b0 < 0xF5 && |b| >= 4 && IsCont(b[1]) && IsCont(b[2]) && IsCont(b[3]) then
      var x := Payload([b0 - 0xF0, b[1] - 0x80, b[2] - 0x80, b[3] - 0x80]);
      if x < 0x1_0000 then None
      else match ToChar(x) case Some(c) => Some((c, 4)) case None => None
    else None
  }

  /** `TextDecoder` in fatal mode: the text `b` encodes, or None for ill-formed input. */
  function Decode(b: seq<Byte>): Option<string>
    decreases |b|
  {
    if b == [] then Some("")
    else match DecodeChar(b)
      case None => None
      case Some((c, n)) =>
        match Decode(b[n..])
        case None => None
        case Some(rest) => Some([c] + rest)
  }

  /** The decoder reads back the character the encoder wrote, whatever follows it. */
  lemma DecodeEncodeChar(c: char, rest: seq<Byte>)
    ensures DecodeChar(EncodeChar(c) + rest) == Some((c, |EncodeChar(c)|))
  {
    var x := c as int;
    if x < 0x80 {
    } else if x < 0x800 {
      DecodeTwo(c, rest);
    } else if x < 0x1_0000 {
      DecodeThree(c, rest);
    } else {
      DecodeFour(c, rest);
    }
  }

  lemma Payload1(a: int)
    ensures Payload([a]) == a
  {
    assert [a][..0] == [];
  }

  lemma Payload2(a: int, b: int)
    ensures Payload([a, b]) == a * 64 + b
  {
    assert [a, b][..1] == [a];
    Payload1(a);
  }

  lemma Payload3(a: int, b: int, c: int)
    ensures Payload([a, b, c]) == (a * 64 + b) * 64 + c
  {
    assert [a, b, c][..2] == [a, b];
    Payload2(a, b);
  }

  lemma Payload4(a: int, b: int, c: int, d: int)
    ensures Payload([a, b, c, d]) == ((a * 64 + b) * 64 + c) * 64 + d
  {
    assert [a, b, c, d][..3] == [a, b, c];
    Payload3(a, b, c);
  }

  lemma DecodeTwo(c: char, rest: seq<Byte>)
    requires 0x80 <= c as int < 0x800
    ensures |EncodeChar(c)| == 2 && DecodeChar(EncodeChar(c) + rest) == Some((c, 2))
  {
    var x := c as int;
    var y := x / 64;
    Payload2(y, x % 64);
    assert ToChar(x) == Some(c);
  }

  lemma DecodeThree(c: char, rest: seq<Byte>)
    requires 0x800 <= c as int < 0x1_0000
    ensures |EncodeChar(c)| == 3 && DecodeChar(EncodeChar(c) + rest) == Some((c, 3))
  {
    var x := c as int;
    var y := x / 64;
    var z := y / 64;
    Payload3(z, y % 64, x % 64);
    assert (z * 64 + y % 64) * 64 + x % 64 == x;
    assert ToChar(x) == Some(c);
  }

  lemma DecodeFour(c: char, rest: seq<Byte>)
    requires 0x1_0000 <= c as int
    ensures |EncodeChar(c)| == 4 && DecodeChar(EncodeChar(c) + rest) == Some((c, 4))
  {
    var x := c as int;
    var y := x / 64;
    var z := y / 64;
    Payload4(z / 64, z % 64, y % 64, x % 64);
    assert ((z / 64 * 64 + z % 64) * 64 + y % 64) * 64 + x % 64 == x;
    assert ToChar(x) == Some(c);
  }

  /** Round trip: decoding the encoding of a text gives the text back. */
  lemma {:induction false} DecodeEncode(s: string)
    ensures Decode(Encode(s)) == Some(s)
  {
    if s != [] {
      var e := EncodeChar(s[0]);
      DecodeEncodeChar(s[0], Encode(s[1..]));
      assert (e + Encode(s[1..]))[|e|..] == Encode(s[1..]);
      DecodeEncode(s[1..]);
      assert [s[0]] + s[1..] == s;
    }
  }
}
