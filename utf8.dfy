/** UTF-8 as `Buffer.from(text, "utf8")` produces it: each Unicode scalar
    value becomes one to four bytes, as in section 3 of RFC 3629. The
    decoder reads what the encoder writes; it does not reject overlong
    forms. */
module Utf8 {
  import opened Wrappers

  type Byte = x: int | 0 <= x < 256

  /** A continuation byte, `10xxxxxx`. */
  predicate Continuation(b: Byte) {
    0x80 <= b < 0xC0
  }

  /** The bytes of one scalar value: its bits split into 6-bit groups,
      behind a lead byte that gives the length. */
  function EncodeChar(c: char): (r: seq<Byte>)
    ensures 1 <= |r| <= 4
    ensures |r| == 1 <==> (c as int) < 0x80
    ensures forall k :: 1 <= k < |r| ==> Continuation(r[k])
  {
    var n := c as int;
    var d0, n1 := n % 64, n / 64;
    var d1, n2 := n1 % 64, n1 / 64;
    var d2, n3 := n2 % 64, n2 / 64;
    if n < 0x80 then [n]
    else if n < 0x800 then [0xC0 + n1, 0x80 + d0]
    else if n < 0x10000 then [0xE0 + n2, 0x80 + d1, 0x80 + d0]
    else [0xF0 + n3, 0x80 + d2, 0x80 + d1, 0x80 + d0]
  }

  function Encode(s: string): (r: seq<Byte>)
    ensures |r| >= |s|
  {
    if s == [] then [] else EncodeChar(s[0]) + Encode(s[1..])
  }

  /** The scalar value `n`, read from `len` bytes. */
  function ScalarOf(n: int, len: nat): Option<(char, nat)> {
    if 0 <= n < 0xD800 || 0xE000 <= n < 0x11_0000 then Some((n as char, len)) else None
  }

  /** The scalar value at the front of `b` and the number of bytes it
      takes, or `None` when the front is not a UTF-8 sequence. */
  function DecodeChar(b: seq<Byte>): Option<(char, nat)> {
    if |b| == 0 then None
    else
      var b0: int := b[0];
      if b0 < 0x80 then ScalarOf(b0, 1)
      else if b0 < 0xC0 then None
      else if b0 < 0xE0 then
        if |b| < 2 || !Continuation(b[1]) then None
        else ScalarOf((b0 - 0xC0) * 64 + (b[1] as int - 0x80), 2)
      else if b0 < 0xF0 then
        if |b| < 3 || !Continuation(b[1]) || !Continuation(b[2]) then None
        else ScalarOf(((b0 - 0xE0) * 64 + (b[1] as int - 0x80)) * 64 + (b[2] as int - 0x80), 3)
      else if b0 < 0xF8 then
        if |b| < 4 || !Continuation(b[1]) || !Continuation(b[2]) || !Continuation(b[3]) then None
        else ScalarOf((((b0 - 0xF0) * 64 + (b[1] as int - 0x80)) * 64 + (b[2] as int - 0x80)) * 64 + (b[3] as int - 0x80), 4)
      else None
  }

  function Decode(b: seq<Byte>): Option<string>
    decreases |b|
  {
    if b == [] then Some([])
    else match DecodeChar(b)
      case None => None
      case Some((c, len)) =>
        if len == 0 || len > |b| then None
        else match Decode(b[len..])
          case None => None
          case Some(rest) => Some([c] + rest)
  }

  /** The decoder reads back one encoded scalar value, whatever follows it. */
  lemma DecodeEncodeChar(c: char, rest: seq<Byte>)
    ensures DecodeChar(EncodeChar(c) + rest) == Some((c, |EncodeChar(c)|))
  {
    var n := c as int;
    var d0, n1 := n % 64, n / 64;
    var d1, n2 := n1 % 64, n1 / 64;
    var d2, n3 := n2 % 64, n2 / 64;
    assert n == 64 * n1 + d0 && n1 == 64 * n2 + d1 && n2 == 64 * n3 + d2;
    var b := EncodeChar(c) + rest;
    if n < 0x80 {
      assert b[0] == n;
    } else if n < 0x800 {
      assert b[0] == 0xC0 + n1 && b[1] == 0x80 + d0;
    } else if n < 0x10000 {
      assert b[0] == 0xE0 + n2 && b[1] == 0x80 + d1 && b[2] == 0x80 + d0;
    } else {
      assert b[0] == 0xF0 + n3 && b[1] == 0x80 + d2 && b[2] == 0x80 + d1 && b[3] == 0x80 + d0;
    }
  }

  /** Decoding undoes encoding. */
  lemma {:induction false} DecodeEncode(s: string)
    ensures Decode(Encode(s)) == Some(s)
  {
    if s != [] {
      var e := EncodeChar(s[0]);
      var b := Encode(s);
      assert b == e + Encode(s[1..]);
      DecodeEncodeChar(s[0], Encode(s[1..]));
      assert b[|e|..] == Encode(s[1..]);
      DecodeEncode(s[1..]);
      assert s == [s[0]] + s[1..];
    }
  }

  /** Text of characters below 128 encodes to one byte per character, the
      character's code. */
  lemma {:induction false} AsciiBytes(s: string)
    requires forall i :: 0 <= i < |s| ==> (s[i] as int) < 0x80
    ensures |Encode(s)| == |s|
    ensures forall i :: 0 <= i < |s| ==> Encode(s)[i] == s[i] as int
  {
    if s != [] {
      AsciiBytes(s[1..]);
      assert Encode(s) == [s[0] as int] + Encode(s[1..]);
    }
  }
}
