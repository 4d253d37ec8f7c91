/**
 * Base 64 encoding with the alphabet of table 1 in section 4 of RFC 4648 and `=`
 * padding, which is what `Buffer.prototype.toString("base64")` produces, together
 * with the decoder that inverts it.
 */
module Base64 {
  import opened Wrappers

  type byte = x: int | 0 <= x < 256
  type sextet = x: int | 0 <= x < 64

  /** The character that encodes the 6-bit value `v`. */
  function Char(v: sextet): (c: char)
    ensures IsAlphabet(c)
  {
    if v < 26 then ('A' as int + v) as char
    else if v < 52 then ('a' as int + (v - 26)) as char
    else if v < 62 then ('0' as int + (v - 52)) as char
    else if v == 62 then '+'
    else '/'
  }

  predicate IsAlphabet(c: char) {
    ('A' <= c <= 'Z') || ('a' <= c <= 'z') || ('0' <= c <= '9') || c == '+' || c == '/'
  }

  /** The 6-bit value an alphabet character encodes. */
  function Value(c: char): (v: sextet)
    requires IsAlphabet(c)
    ensures Char(v) == c
  {
    if 'A' <= c <= 'Z' then c as int - 'A' as int
    else if 'a' <= c <= 'z' then c as int - 'a' as int + 26
    else if '0' <= c <= '9' then c as int - '0' as int + 52
    else if c == '+' then 62
    else 63
  }

  /** Every 6-bit value is recovered from its alphabet character. */
  lemma ValueOfChar(v: sextet)
    ensures Value(Char(v)) == v
  {
  }

  /** Three bytes become four characters, six bits each, most significant first. */
  function Quantum(a: byte, b: byte, c: byte): (r: string)
    ensures |r| == 4 && forall i :: 0 <= i < 4 ==> IsAlphabet(r[i])
  {
    [Char(a / 4), Char((a % 4) * 16 + b / 16), Char((b % 16) * 4 + c / 64), Char(c % 64)]
  }

  /** The padded base 64 text of `bs`. */
  function Encode(bs: seq<byte>): string
    decreases |bs|
  {
    if |bs| == 0 then ""
    else if |bs| == 1 then [Char(bs[0] / 4), Char((bs[0] % 4) * 16), '=', '=']
    else if |bs| == 2 then [Char(bs[0] / 4), Char((bs[0] % 4) * 16 + bs[1] / 16), Char((bs[1] % 16) * 4), '=']
    else Quantum(bs[0], bs[1], bs[2]) + Encode(bs[3..])
  }

  /** The encoding has four characters per started group of three bytes. */
  lemma {:induction false} EncodeLength(bs: seq<byte>)
    ensures |Encode(bs)| == (|bs| + 2) / 3 * 4
    decreases |bs|
  {
    if |bs| >= 3 {
      EncodeLength(bs[3..]);
      assert Encode(bs) == Quantum(bs[0], bs[1], bs[2]) + Encode(bs[3..]);
      assert (|bs| + 2) / 3 == (|bs[3..]| + 2) / 3 + 1;
    }
  }

  /** Every character of the encoding is from the alphabet or is the pad. */
  lemma {:induction false} EncodeAlphabet(bs: seq<byte>)
    ensures forall i :: 0 <= i < |Encode(bs)| ==> IsAlphabet(Encode(bs)[i]) || Encode(bs)[i] == '='
    decreases |bs|
  {
    if |bs| >= 3 {
      var q, e := Quantum(bs[0], bs[1], bs[2]), Encode(bs[3..]);
      EncodeAlphabet(bs[3..]);
      assert Encode(bs) == q + e;
      forall i | 0 <= i < |q + e|
        ensures IsAlphabet((q + e)[i]) || (q + e)[i] == '='
      {
        if i >= 4 {
          assert (q + e)[i] == e[i - 4];
        }
      }
    }
  }

  /** The bytes of a padded base 64 text, or None when the text is not one. */
  function Decode(s: string): Option<seq<byte>>
    decreases |s|
  {
    if |s| == 0 then Some([])
    else if |s| < 4 || !IsAlphabet(s[0]) || !IsAlphabet(s[1]) then None
    else
      var v0, v1 := Value(s[0]), Value(s[1]);
      if |s| == 4 && s[2] == '=' && s[3] == '=' then Some(Bytes(v0, v1, 0, 0)[..1])
      else if !IsAlphabet(s[2]) then None
      else
        var v2 := Value(s[2]);
        if |s| == 4 && s[3] == '=' then Some(Bytes(v0, v1, v2, 0)[..2])
        else if !IsAlphabet(s[3]) then None
        else
          var v3 := Value(s[3]);
          match Decode(s[4..])
          case None => None
          case Some(rest) => Some(Bytes(v0, v1, v2, v3) + rest)
  }

  /** Four 6-bit values become three bytes, most significant first. */
  function Bytes(v0: sextet, v1: sextet, v2: sextet, v3: sextet): (r: seq<byte>)
    ensures |r| == 3
  {
    [v0 * 4 + v1 / 16, (v1 % 16) * 16 + v2 / 4, (v2 % 4) * 64 + v3]
  }

  /** The bit arithmetic of one quantum is invertible. */
  lemma QuantumBits(a: byte, b: byte, c: byte)
    ensures Bytes(a / 4, (a % 4) * 16 + b / 16, (b % 16) * 4 + c / 64, c % 64) == [a, b, c]
  {
    var v0, v1, v2, v3 := a / 4, (a % 4) * 16 + b / 16, (b % 16) * 4 + c / 64, c % 64;
    var r := Bytes(v0, v1, v2, v3);
    assert r[0] == a by {
      assert v1 / 16 == a % 4;
    }
    assert r[1] == b by {
      assert v1 % 16 == b / 16;
      assert v2 / 4 == b % 16;
    }
    assert r[2] == c by {
      assert v2 % 4 == c / 64;
    }
  }

  /** A single byte, encoded with two pad characters, decodes back to itself. */
  lemma DecodeOneByte(bs: seq<byte>)
    requires |bs| == 1
    ensures Decode(Encode(bs)) == Some(bs)
  {
    var a := bs[0];
    var v0, v1 := a / 4, (a % 4) * 16;
    var s := [Char(v0), Char(v1), '=', '='];
    assert Encode(bs) == s;
    ValueOfChar(v0);
    ValueOfChar(v1);
    assert Decode(s) == Some(Bytes(v0, v1, 0, 0)[..1]);
    var r := Bytes(v0, v1, 0, 0);
    assert r[0] == a;
    assert r[..1] == [a] == bs;
  }

  /** Two bytes, encoded with one pad character, decode back to themselves. */
  lemma DecodeTwoBytes(bs: seq<byte>)
    requires |bs| == 2
    ensures Decode(Encode(bs)) == Some(bs)
  {
    var a, b := bs[0], bs[1];
    var v0, v1, v2 := a / 4, (a % 4) * 16 + b / 16, (b % 16) * 4;
    var s := [Char(v0), Char(v1), Char(v2), '='];
    assert Encode(bs) == s;
    ValueOfChar(v0);
    ValueOfChar(v1);
    ValueOfChar(v2);
    assert s[2] != '=';
    assert Decode(s) == Some(Bytes(v0, v1, v2, 0)[..2]);
    var r := Bytes(v0, v1, v2, 0);
    assert r[0] == a by {
      assert v1 / 16 == a % 4;
    }
    assert r[1] == b by {
      assert v1 % 16 == b / 16;
    }
    assert r[..2] == [a, b] == bs;
  }

  /** A full quantum in front of decodable text decodes to its three bytes in front of the rest. */
  lemma DecodeQuantum(a: byte, b: byte, c: byte, t: string)
    requires Decode(t).Some?
    ensures Decode(Quantum(a, b, c) + t) == Some([a, b, c] + Decode(t).value)
  {
    var s := Quantum(a, b, c) + t;
    var v0, v1, v2, v3 := a / 4, (a % 4) * 16 + b / 16, (b % 16) * 4 + c / 64, c % 64;
    ValueOfChar(v0);
    ValueOfChar(v1);
    ValueOfChar(v2);
    ValueOfChar(v3);
    QuantumBits(a, b, c);
    assert s[4..] == t;
  }

  /** Encoding three bytes and more is the quantum of the three followed by the encoding of the rest. */
  lemma EncodeQuantum(head: seq<byte>, rest: seq<byte>)
    requires |head| == 3
    ensures Encode(head + rest) == Quantum(head[0], head[1], head[2]) + Encode(rest)
  {
    assert (head + rest)[3..] == rest;
  }

  /** A sequence of three or more bytes is its first three followed by the rest. */
  lemma HeadAndRest(bs: seq<byte>)
    requires |bs| >= 3
    ensures [bs[0], bs[1], bs[2]] + bs[3..] == bs
  {
    assert bs == bs[..3] + bs[3..];
  }

  /** One more leading quantum of input adds its three bytes in front of the decoded rest. */
  lemma DecodeEncodeStep(bs: seq<byte>)
    requires |bs| >= 3 && Decode(Encode(bs[3..])) == Some(bs[3..])
    ensures Decode(Encode(bs)) == Some(bs)
  {
    var rest := bs[3..];
    var head := [bs[0], bs[1], bs[2]];
    var e := Encode(rest);
    var q := Quantum(bs[0], bs[1], bs[2]);
    HeadAndRest(bs);
    EncodeQuantum(head, rest);
    assert Encode(bs) == q + e;
    DecodeQuantum(bs[0], bs[1], bs[2], e);
    assert Decode(q + e) == Some(head + rest);
  }

  /** Decoding recovers every byte sequence from its encoding. */
  lemma {:induction false} DecodeEncode(bs: seq<byte>)
    ensures Decode(Encode(bs)) == Some(bs)
    decreases |bs|
  {
    if |bs| == 1 {
      DecodeOneByte(bs);
    } else if |bs| == 2 {
      DecodeTwoBytes(bs);
    } else if |bs| >= 3 {
      DecodeEncode(bs[3..]);
      DecodeEncodeStep(bs);
    }
  }
}
