/**
 * UTF-8 validation of the received buffer (`str::from_utf8`): a byte
 * sequence is accepted exactly when it is a concatenation of the well-formed
 * byte sequences of Table 3-7 of the Unicode Standard (section 3.9), and the
 * accepted text is the sequence of scalar values those byte sequences encode.
 */
module Utf8 {
  import opened Wrappers

  newtype byte = x: int | 0 <= x < 0x100

  /** The failure `str::from_utf8` reports; the parser only ever notes that it happened. */
  datatype Utf8Error = Utf8Error

  /** Every character is in the ASCII range, where a character is its own one-byte encoding. */
  predicate IsAscii(s: string)
  {
    forall k :: 0 <= k < |s| ==> s[k] as int < 0x80
  }

  predicate IsContinuation(b: byte) { 0x80 <= b <= 0xBF }

  /** The UTF-8 encoding of one Unicode scalar value: one to four bytes. */
  function EncodeChar(c: char): (bs: seq<byte>)
    ensures 1 <= |bs| <= 4
    ensures (|bs| == 1) <==> (c as int < 0x80)
  {
    var cp := c as int;
    if cp < 0x80 then
      [cp as byte]
    else if cp < 0x800 then
      [(0xC0 + cp / 0x40) as byte, (0x80 + cp % 0x40) as byte]
    else if cp < 0x1_0000 then
      [(0xE0 + cp / 0x1000) as byte, (0x80 + cp / 0x40 % 0x40) as byte, (0x80 + cp % 0x40) as byte]
    else
      [(0xF0 + cp / 0x4_0000) as byte, (0x80 + cp / 0x1000 % 0x40) as byte,
       (0x80 + cp / 0x40 % 0x40) as byte, (0x80 + cp % 0x40) as byte]
  }

  /** The UTF-8 encoding of a text: the encodings of its characters, in order. */
  function Encode(s: string): seq<byte>
  {
    if s == [] then [] else EncodeChar(s[0]) + Encode(s[1..])
  }

  /**
   * The scalar value at the head of `b` and the number of bytes it occupies,
   * or None when `b` does not start with a well-formed byte sequence
   * (overlong forms, surrogates, values above U+10FFFF, stray continuation
   * bytes and truncated sequences are all refused).
   */
  function DecodeChar(b: seq<byte>): (r: Option<(char, nat)>)
    requires |b| > 0
    ensures r.Some? ==> 1 <= r.value.1 <= |b|
  {
    var b0 := b[0] as int;
    if b0 < 0x80 then
      Some((b0 as char, 1))
    else if 0xC2 <= b0 <= 0xDF then
      if |b| >= 2 && IsContinuation(b[1]) then
        var cp := (b0 - 0xC0) * 0x40 + (b[1] as int - 0x80);
        Some((cp as char, 2))
      else None
    else if 0xE0 <= b0 <= 0xEF then
      var lo := if b0 == 0xE0 then 0xA0 else 0x80;
      var hi := if b0 == 0xED then 0x9F else 0xBF;
      if |b| >= 3 && lo <= b[1] as int <= hi && IsContinuation(b[2]) then
        var cp := (b0 - 0xE0) * 0x1000 + (b[1] as int - 0x80) * 0x40 + (b[2] as int - 0x80);
        Some((cp as char, 3))
      else None
    else if 0xF0 <= b0 <= 0xF4 then
      var lo := if b0 == 0xF0 then 0x90 else 0x80;
      var hi := if b0 == 0xF4 then 0x8F else 0xBF;
      if |b| >= 4 && lo <= b[1] as int <= hi && IsContinuation(b[2]) && IsContinuation(b[3]) then
        var cp := (b0 - 0xF0) * 0x4_0000 + (b[1] as int - 0x80) * 0x1000
                  + (b[2] as int - 0x80) * 0x40 + (b[3] as int - 0x80);
        Some((cp as char, 4))
      else None
    else
      None
  }

  /**
   * `str::from_utf8`: the text a buffer encodes, or None when it is not
   * well-formed UTF-8. Whatever it accepts re-encodes to the same bytes.
   */
  function Decode(b: seq<byte>): (r: Result<string, Utf8Error>)
    ensures r.Ok? ==> Encode(r.value) == b
    ensures r.Ok? ==> |r.value| <= |b|
    decreases |b|
  {
    if b == [] then Ok([])
    else match DecodeChar(b)
      case None => Err(Utf8Error)
      case Some((c, n)) =>
        match Decode(b[n..])
        case Err(e) => Err(e)
        case Ok(s) =>
          EncodeFirstChar(b, c, n, s);
          Ok([c] + s)
  }

  /** A decoded head character followed by a text encoding the remaining bytes encodes the whole buffer. */
  lemma EncodeFirstChar(b: seq<byte>, c: char, n: nat, s: string)
    requires |b| > 0 && DecodeChar(b) == Some((c, n)) && Encode(s) == b[n..]
    ensures Encode([c] + s) == b && |[c] + s| <= |b| - n + 1
  {
    EncodeDecodeChar(b);
    assert ([c] + s)[1..] == s;
    assert b == b[..n] + b[n..];
    EncodeLength(s);
  }

  lemma DivMod64(q: int, r: int)
    requires 0 <= q && 0 <= r < 0x40
    ensures (q * 0x40 + r) / 0x40 == q && (q * 0x40 + r) % 0x40 == r
  {}

  lemma DivMod4096(q: int, r: int)
    requires 0 <= q && 0 <= r < 0x1000
    ensures (q * 0x1000 + r) / 0x1000 == q
  {}

  lemma DivMod262144(q: int, r: int)
    requires 0 <= q && 0 <= r < 0x4_0000
    ensures (q * 0x4_0000 + r) / 0x4_0000 == q
  {}

  /** What DecodeChar accepts is exactly the encoding of the character it returns. */
  lemma EncodeDecodeChar(b: seq<byte>)
    requires |b| > 0 && DecodeChar(b).Some?
    ensures EncodeChar(DecodeChar(b).value.0) == b[..DecodeChar(b).value.1]
  {
    var n := DecodeChar(b).value.1;
    if n == 2 {
      EncodeDecodeTwo(b);
    } else if n == 3 {
      EncodeDecodeThree(b);
    } else if n == 4 {
      EncodeDecodeFour(b);
    }
  }

  lemma EncodeDecodeTwo(b: seq<byte>)
    requires |b| > 0 && DecodeChar(b).Some? && DecodeChar(b).value.1 == 2
    ensures EncodeChar(DecodeChar(b).value.0) == b[..2]
  {
    DivMod64(b[0] as int - 0xC0, b[1] as int - 0x80);
  }

  lemma EncodeDecodeThree(b: seq<byte>)
    requires |b| > 0 && DecodeChar(b).Some? && DecodeChar(b).value.1 == 3
    ensures EncodeChar(DecodeChar(b).value.0) == b[..3]
  {
    var cp := DecodeChar(b).value.0 as int;
    var x, y, z := b[0] as int - 0xE0, b[1] as int - 0x80, b[2] as int - 0x80;
    assert cp == (x * 0x40 + y) * 0x40 + z;
    DivMod64(x * 0x40 + y, z);
    DivMod64(x, y);
    DivMod4096(x, y * 0x40 + z);
  }

  lemma EncodeDecodeFour(b: seq<byte>)
    requires |b| > 0 && DecodeChar(b).Some? && DecodeChar(b).value.1 == 4
    ensures EncodeChar(DecodeChar(b).value.0) == b[..4]
  {
    var cp := DecodeChar(b).value.0 as int;
    var w, x, y, z := b[0] as int - 0xF0, b[1] as int - 0x80, b[2] as int - 0x80, b[3] as int - 0x80;
    assert cp == ((w * 0x40 + x) * 0x40 + y) * 0x40 + z;
    DivMod64((w * 0x40 + x) * 0x40 + y, z);
    DivMod64(w * 0x40 + x, y);
    DivMod64(w, x);
    assert cp == (w * 0x40 + x) * 0x1000 + (y * 0x40 + z);
    DivMod4096(w * 0x40 + x, y * 0x40 + z);
    DivMod262144(w, (x * 0x40 + y) * 0x40 + z);
  }

  /** The base-64 digits of a code point: dividing by 64 twice is dividing by 4096, and so on. */
  lemma Digits(cp: int)
    requires 0 <= cp
    ensures cp == cp / 0x40 * 0x40 + cp % 0x40
    ensures cp / 0x40 == cp / 0x1000 * 0x40 + cp / 0x40 % 0x40
    ensures cp / 0x1000 == cp / 0x4_0000 * 0x40 + cp / 0x1000 % 0x40
  {
    var m, z := cp / 0x40, cp % 0x40;
    var q, y := m / 0x40, m % 0x40;
    assert cp == q * 0x1000 + (y * 0x40 + z);
    DivMod4096(q, y * 0x40 + z);
    var p, x := q / 0x40, q % 0x40;
    assert cp == p * 0x4_0000 + ((x * 0x40 + y) * 0x40 + z);
    DivMod262144(p, (x * 0x40 + y) * 0x40 + z);
  }

  /** Decoding a character's encoding, followed by anything, gives back that character. */
  lemma DecodeEncodeChar(c: char, rest: seq<byte>)
    ensures DecodeChar(EncodeChar(c) + rest) == Some((c, |EncodeChar(c)|))
  {
    var cp := c as int;
    if cp < 0x80 {
    } else if cp < 0x800 {
      DecodeEncodeTwo(c, rest);
    } else if cp < 0x1_0000 {
      DecodeEncodeThree(c, rest);
    } else {
      DecodeEncodeFour(c, rest);
    }
  }

  lemma DecodeEncodeTwo(c: char, rest: seq<byte>)
    requires 0x80 <= c as int < 0x800
    ensures DecodeChar(EncodeChar(c) + rest) == Some((c, 2))
  {
    var cp := c as int;
    var b := EncodeChar(c) + rest;
    Digits(cp);
    assert b[0] as int == 0xC0 + cp / 0x40 && b[1] as int == 0x80 + cp % 0x40;
  }

  lemma DecodeEncodeThree(c: char, rest: seq<byte>)
    requires 0x800 <= c as int < 0x1_0000
    ensures DecodeChar(EncodeChar(c) + rest) == Some((c, 3))
  {
    var cp := c as int;
    var b := EncodeChar(c) + rest;
    Digits(cp);
    assert b[0] as int == 0xE0 + cp / 0x1000 && b[1] as int == 0x80 + cp / 0x40 % 0x40;
    assert b[2] as int == 0x80 + cp % 0x40;
  }

  lemma DecodeEncodeFour(c: char, rest: seq<byte>)
    requires 0x1_0000 <= c as int
    ensures DecodeChar(EncodeChar(c) + rest) == Some((c, 4))
  {
    var cp := c as int;
    var b := EncodeChar(c) + rest;
    Digits(cp);
    assert b[0] as int == 0xF0 + cp / 0x4_0000 && b[1] as int == 0x80 + cp / 0x1000 % 0x40;
    assert b[2] as int == 0x80 + cp / 0x40 % 0x40 && b[3] as int == 0x80 + cp % 0x40;
  }

  /** Every text is accepted when encoded, and decodes to itself. */
  lemma {:induction false} DecodeEncode(s: string)
    ensures Decode(Encode(s)) == Ok(s)
  {
    if s != [] {
      var b := Encode(s);
      DecodeEncodeChar(s[0], Encode(s[1..]));
      assert b[|EncodeChar(s[0])|..] == Encode(s[1..]);
      DecodeEncode(s[1..]);
      assert [s[0]] + s[1..] == s;
    }
  }

  /** Encoding distributes over concatenation. */
  lemma {:induction false} EncodeConcat(a: string, b: string)
    ensures Encode(a + b) == Encode(a) + Encode(b)
  {
    if a != [] {
      assert (a + b)[0] == a[0] && (a + b)[1..] == a[1..] + b;
      EncodeConcat(a[1..], b);
    } else {
      assert a + b == b;
    }
  }

  /** An ASCII text is encoded one byte per character, each byte the character's code. */
  lemma {:induction false} EncodeAscii(s: string)
    requires IsAscii(s)
    ensures |Encode(s)| == |s|
    ensures forall k :: 0 <= k < |s| ==> Encode(s)[k] as int == s[k] as int
  {
    if s != [] {
      EncodeAscii(s[1..]);
      assert Encode(s) == [s[0] as int as byte] + Encode(s[1..]);
    }
  }

  /**
   * A text takes at least one byte per character, and exactly one per
   * character only when it is ASCII.
   */
  lemma {:induction false} EncodeLength(s: string)
    ensures |Encode(s)| >= |s|
    ensures |Encode(s)| == |s| <==> IsAscii(s)
  {
    if s != [] {
      EncodeLength(s[1..]);
      if IsAscii(s) {
        assert IsAscii(s[1..]) by {
          forall k | 0 <= k < |s| - 1
            ensures s[1..][k] as int < 0x80
          {
            assert s[1..][k] == s[k + 1];
          }
        }
      } else if s[0] as int < 0x80 {
        var k :| 0 <= k < |s| && s[k] as int >= 0x80;
        assert s[1..][k - 1] == s[k];
      }
    }
  }

  /** The encoding of a non-empty text starts with a lead byte, never a continuation byte. */
  lemma EncodeLead(s: string)
    requires s != []
    ensures |Encode(s)| > 0 && !IsContinuation(Encode(s)[0])
  {
    assert Encode(s)[0] == EncodeChar(s[0])[0];
  }

  /** A byte-string literal written in ASCII: each character is one byte, so it is also the UTF-8 encoding of the text. */
  function AsciiBytes(s: string): (b: seq<byte>)
    requires IsAscii(s)
    ensures b == Encode(s)
  {
    EncodeAscii(s);
    seq(|s|, k requires 0 <= k < |s| => s[k] as int as byte)
  }

  /** Malformed input is refused: stray continuation bytes, overlong forms, surrogates, truncation. */
  lemma RejectsMalformed()
    ensures Decode([0x80]).Err? && Decode([0xFF]).Err?
    ensures Decode([0xC0, 0xAF]).Err? && Decode([0xE0, 0x80, 0xAF]).Err?
    ensures Decode([0xED, 0xA0, 0x80]).Err? && Decode([0xF4, 0x90, 0x80, 0x80]).Err?
    ensures Decode([0x61, 0xC3]).Err?
  {
    assert [0x61, 0xC3][1..] == [0xC3 as byte];
  }
}
