/** Base 64 as in section 4 of RFC 4648: every three bytes become four
    characters of the alphabet of Table 1, and a final group of one or two
    bytes is padded with `=` to four characters. */
module Base64 {
  import opened Wrappers
  import opened Utf8

  /** The character of Table 1 for a 6-bit value. */
  function Symbol(i: int): (c: char)
    requires 0 <= i < 64
  {
    if i < 26 then ('A' as int + i) as char
    else if i < 52 then ('a' as int + i - 26) as char
    else if i < 62 then ('0' as int + i - 52) as char
    else if i == 62 then '+'
    else '/'
  }

  /** The 6-bit value a character of Table 1 stands for. */
  function Value(c: char): (r: Option<int>)
    ensures r.Some? ==> 0 <= r.value < 64
  {
    if 'A' <= c <= 'Z' then Some(c as int - 'A' as int)
    else if 'a' <= c <= 'z' then Some(c as int - 'a' as int + 26)
    else if '0' <= c <= '9' then Some(c as int - '0' as int + 52)
    else if c == '+' then Some(62)
    else if c == '/' then Some(63)
    else None
  }

  lemma ValueOfSymbol(i: int)
    requires 0 <= i < 64
    ensures Value(Symbol(i)) == Some(i) && Symbol(i) != '='
  {
  }

  /** Three bytes as four characters. */
  function Quad(a: Byte, b: Byte, c: Byte): string {
    [Symbol(a / 4), Symbol((a % 4) * 16 + b / 16), Symbol((b % 16) * 4 + c / 64), Symbol(c % 64)]
  }

  function Encode(b: seq<Byte>): (r: string)
    decreases |b|
  {
    if |b| == 0 then ""
    else if |b| == 1 then [Symbol(b[0] / 4), Symbol((b[0] % 4) * 16), '=', '=']
    else if |b| == 2 then [Symbol(b[0] / 4), Symbol((b[0] % 4) * 16 + b[1] / 16), Symbol((b[1] % 16) * 4), '=']
    else Quad(b[0], b[1], b[2]) + Encode(b[3..])
  }

  /** Four characters back to bytes: three, or fewer when the group ends
      in padding, which only the last group may do. */
  function Decode(s: string): Option<seq<Byte>>
    decreases |s|
  {
    if |s| == 0 then Some([])
    else if |s| < 4 then None
    else
      var v0, v1, v2, v3 := Value(s[0]), Value(s[1]), Value(s[2]), Value(s[3]);
      if v0.None? || v1.None? then None
      else if |s| == 4 && s[2] == '=' && s[3] == '=' then
        Some([v0.value * 4 + v1.value / 16])
      else if v2.None? then None
      else if |s| == 4 && s[3] == '=' then
        Some([v0.value * 4 + v1.value / 16, (v1.value % 16) * 16 + v2.value / 4])
      else if v3.None? then None
      else match Decode(s[4..])
        case None => None
        case Some(rest) =>
          Some([v0.value * 4 + v1.value / 16, (v1.value % 16) * 16 + v2.value / 4, (v2.value % 4) * 64 + v3.value] + rest)
  }

  /** Four characters per started group of three bytes. */
  lemma {:induction false} EncodedLength(b: seq<Byte>)
    ensures |Encode(b)| == 4 * ((|b| + 2) / 3)
    decreases |b|
  {
    if |b| > 2 {
      EncodedLength(b[3..]);
      var k := (|b| - 1) / 3;
      assert (|b| + 2) / 3 == k + 1;
      assert |Encode(b)| == 4 + 4 * k;
    }
  }

  /** Whole groups of four characters. */
  lemma {:induction false} EncodedGroups(b: seq<Byte>)
    ensures |Encode(b)| % 4 == 0
    decreases |b|
  {
    if |b| > 2 {
      EncodedGroups(b[3..]);
      assert |Encode(b)| == 4 + |Encode(b[3..])|;
    }
  }

  /** Only characters of Table 1 and the padding character appear, and
      padding only at the end. */
  lemma {:induction false} EncodedAlphabet(b: seq<Byte>)
    ensures forall i :: 0 <= i < |Encode(b)| ==> Value(Encode(b)[i]).Some? || (Encode(b)[i] == '=' && i >= |Encode(b)| - 2)
    decreases |b|
  {
    if |b| > 2 {
      EncodedAlphabet(b[3..]);
      var q := Quad(b[0], b[1], b[2]);
      ValueOfSymbol(b[0] / 4);
      ValueOfSymbol((b[0] % 4) * 16 + b[1] / 16);
      ValueOfSymbol((b[1] % 16) * 4 + b[2] / 64);
      ValueOfSymbol(b[2] % 64);
      forall i | 0 <= i < |Encode(b)|
        ensures Value(Encode(b)[i]).Some? || (Encode(b)[i] == '=' && i >= |Encode(b)| - 2)
      {
        if i >= 4 {
          assert Encode(b)[i] == Encode(b[3..])[i - 4];
        }
      }
    } else if |b| == 1 {
      ValueOfSymbol(b[0] / 4);
      ValueOfSymbol((b[0] % 4) * 16);
    } else if |b| == 2 {
      ValueOfSymbol(b[0] / 4);
      ValueOfSymbol((b[0] % 4) * 16 + b[1] / 16);
      ValueOfSymbol((b[1] % 16) * 4);
    }
  }

  /** The 6-bit groups of a byte group read back as its bytes. */
  lemma Regroup(a: Byte, b: Byte, c: Byte)
    ensures (a / 4) * 4 + ((a % 4) * 16 + b / 16) / 16 == a
    ensures ((a % 4) * 16 + b / 16) % 16 == b / 16
    ensures ((b % 16) * 4 + c / 64) / 4 == b % 16
    ensures ((b % 16) * 4 + c / 64) % 4 == c / 64
    ensures (b / 16) * 16 + b % 16 == b
    ensures (c / 64) * 64 + c % 64 == c
  {
  }

  /** A final group of one byte reads back. */
  lemma DecodeOne(a: Byte)
    ensures Decode(Encode([a])) == Some([a])
  {
    Regroup(a, 0, 0);
    ValueOfSymbol(a / 4);
    ValueOfSymbol((a % 4) * 16);
    assert Encode([a]) == [Symbol(a / 4), Symbol((a % 4) * 16), '=', '='];
  }

  /** A final group of two bytes reads back. */
  lemma DecodeTwo(a: Byte, b: Byte)
    ensures Decode(Encode([a, b])) == Some([a, b])
  {
    Regroup(a, b, 0);
    ValueOfSymbol(a / 4);
    ValueOfSymbol((a % 4) * 16 + b / 16);
    ValueOfSymbol((b % 16) * 4);
    assert Encode([a, b]) == [Symbol(a / 4), Symbol((a % 4) * 16 + b / 16), Symbol((b % 16) * 4), '='];
  }

  /** A group of four characters of Table 1 decodes to its three bytes,
      ahead of what the rest decodes to. */
  lemma DecodeGroup(s: string, v0: int, v1: int, v2: int, v3: int)
    requires |s| >= 4
    requires Value(s[0]) == Some(v0) && Value(s[1]) == Some(v1) && Value(s[2]) == Some(v2) && Value(s[3]) == Some(v3)
    requires Decode(s[4..]).Some?
    ensures Decode(s) == Some([v0 * 4 + v1 / 16, (v1 % 16) * 16 + v2 / 4, (v2 % 4) * 64 + v3] + Decode(s[4..]).value)
  {
    assert s[2] != '=' && s[3] != '=';
  }

  /** The values of a group's four characters give back its three bytes. */
  lemma GroupBytes(a: Byte, b: Byte, c: Byte)
    ensures var v0, v1, v2, v3 := a / 4, (a % 4) * 16 + b / 16, (b % 16) * 4 + c / 64, c % 64;
      v0 * 4 + v1 / 16 == a && (v1 % 16) * 16 + v2 / 4 == b && (v2 % 4) * 64 + v3 == c
  {
    Regroup(a, b, c);
  }

  /** A full group reads back as its three bytes, ahead of whatever the
      rest reads back as. */
  lemma DecodeQuad(a: Byte, b: Byte, c: Byte, rest: string)
    requires Decode(rest).Some?
    ensures Decode(Quad(a, b, c) + rest) == Some([a, b, c] + Decode(rest).value)
  {
    var s := Quad(a, b, c) + rest;
    var v0, v1, v2, v3 := a / 4, (a % 4) * 16 + b / 16, (b % 16) * 4 + c / 64, c % 64;
    ValueOfSymbol(v0);
    ValueOfSymbol(v1);
    ValueOfSymbol(v2);
    ValueOfSymbol(v3);
    assert s[0] == Symbol(v0) && s[1] == Symbol(v1) && s[2] == Symbol(v2) && s[3] == Symbol(v3);
    assert s[4..] == rest;
    DecodeGroup(s, v0, v1, v2, v3);
    GroupBytes(a, b, c);
    var bytes: seq<Byte> := [v0 * 4 + v1 / 16, (v1 % 16) * 16 + v2 / 4, (v2 % 4) * 64 + v3];
    assert bytes == [a, b, c];
  }

  /** A final group of one or two bytes, or none, reads back. */
  lemma DecodeShort(b: seq<Byte>)
    requires |b| <= 2
    ensures Decode(Encode(b)) == Some(b)
  {
    if |b| == 1 {
      DecodeOne(b[0]);
      assert b == [b[0]];
    } else if |b| == 2 {
      DecodeTwo(b[0], b[1]);
      assert b == [b[0], b[1]];
    }
  }

  /** Decoding undoes encoding. */
  lemma {:induction false} DecodeEncode(b: seq<Byte>)
    ensures Decode(Encode(b)) == Some(b)
    decreases |b|
  {
    if |b| <= 2 {
      DecodeShort(b);
    } else {
      var rest := Encode(b[3..]);
      assert Encode(b) == Quad(b[0], b[1], b[2]) + rest;
      DecodeEncode(b[3..]);
      DecodeQuad(b[0], b[1], b[2], rest);
      assert b == [b[0], b[1], b[2]] + b[3..];
    }
  }
}
