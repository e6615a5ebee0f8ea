/**
  UTF-8 as `quote_plus` applies it before percent-escaping: every character
  (a Unicode scalar value, as Dafny's `char` is) becomes one to four bytes.
  `Decode` is the partner of `Encode`; `DecodeEncode` proves the round trip.
 */
module Utf8 {
  import opened Wrappers

  newtype byte = x: int | 0 <= x < 0x100

  /** The values a Dafny `char` can take. */
  predicate IsScalar(n: int) {
    0 <= n < 0xD800 || 0xE000 <= n < 0x11_0000
  }

  /** A continuation byte 10xxxxxx carrying the low six bits of n. */
  function Continuation(n: nat): (b: byte)
    ensures 0x80 <= b < 0xC0
  {
    (0x80 + n % 0x40) as byte
  }

  predicate IsContinuation(b: byte) {
    0x80 <= b < 0xC0
  }

  /** The UTF-8 bytes of one character, shortest form. */
  function EncodeChar(c: char): (r: seq<byte>)
    ensures 1 <= |r| <= 4
    ensures (|r| == 1) <==> (c as int < 0x80)
    ensures |r| == 1 ==> r[0] as int == c as int
  {
    var n := c as int;
    if n < 0x80 then [n as byte]
    else if n < 0x800 then [(0xC0 + n / 0x40) as byte, Continuation(n)]
    else if n < 0x1_0000 then [(0xE0 + n / 0x1000) as byte, Continuation(n / 0x40), Continuation(n)]
    else [(0xF0 + n / 0x4_0000) as byte, Continuation(n / 0x1000), Continuation(n / 0x40), Continuation(n)]
  }

  /** The UTF-8 bytes of a string: the characters' encodings, concatenated. */
  function Encode(s: string): seq<byte>
  {
    if s == [] then [] else EncodeChar(s[0]) + Encode(s[1..])
  }

  /**
    Decodes the character at the head of bs, returning it with the number of
    bytes it occupies; None for a truncated, overlong or surrogate sequence.
   */
  function DecodeChar(bs: seq<byte>): (r: Option<(char, nat)>)
    ensures r.Some? ==> 1 <= r.value.1 <= 4 && r.value.1 <= |bs|
  {
    if |bs| == 0 then None
    else
      var b0 := bs[0] as int;
      if b0 < 0x80 then Some((b0 as char, 1))
      else if 0xC0 <= b0 < 0xE0 then
        if |bs| < 2 || !IsContinuation(bs[1]) then None
        else
          var n := (b0 - 0xC0) * 0x40 + (bs[1] as int - 0x80);
          if 0x80 <= n then Some((n as char, 2)) else None
      else if 0xE0 <= b0 < 0xF0 then
        if |bs| < 3 || !IsContinuation(bs[1]) || !IsContinuation(bs[2]) then None
        else
          var n := (b0 - 0xE0) * 0x1000 + (bs[1] as int - 0x80) * 0x40 + (bs[2] as int - 0x80);
          if 0x800 <= n && IsScalar(n) then Some((n as char, 3)) else None
      else if 0xF0 <= b0 < 0xF8 then
        if |bs| < 4 || !IsContinuation(bs[1]) || !IsContinuation(bs[2]) || !IsContinuation(bs[3]) then None
        else
          var n := (b0 - 0xF0) * 0x4_0000 + (bs[1] as int - 0x80) * 0x1000
                   + (bs[2] as int - 0x80) * 0x40 + (bs[3] as int - 0x80);
          if 0x1_0000 <= n < 0x11_0000 then Some((n as char, 4)) else None
      else None
  }

  /** Decodes a whole byte sequence; None if any character is malformed. */
  function Decode(bs: seq<byte>): Option<string>
    decreases |bs|
  {
    if bs == [] then Some([])
    else
      match DecodeChar(bs)
      case None => None
      case Some((c, k)) =>
        match Decode(bs[k..])
        case None => None
        case Some(s) => Some([c] + s)
  }

  /** Decoding the encoding of c, whatever follows it, gives back c and its length. */
  lemma DecodeEncodeChar(c: char, rest: seq<byte>)
    ensures DecodeChar(EncodeChar(c) + rest) == Some((c, |EncodeChar(c)|))
  {
    var n := c as int;
    var q1 := n / 0x40;
    var q2 := q1 / 0x40;
    assert n == q1 * 0x40 + n % 0x40;
    assert q1 == q2 * 0x40 + q1 % 0x40;
    if 0x800 <= n < 0x1_0000 {
      assert n / 0x1000 == q2;
    } else if 0x1_0000 <= n {
      var q3 := q2 / 0x40;
      assert q2 == q3 * 0x40 + q2 % 0x40;
      assert n / 0x1000 == q2;
      assert n / 0x4_0000 == q3;
    }
  }

  /** Decode inverts Encode on every string. */
  lemma {:induction false} DecodeEncode(s: string)
    ensures Decode(Encode(s)) == Some(s)
  {
    if s != [] {
      var e := EncodeChar(s[0]);
      DecodeEncodeChar(s[0], Encode(s[1..]));
      assert (e + Encode(s[1..]))[|e|..] == Encode(s[1..]);
      DecodeEncode(s[1..]);
      assert [s[0]] + s[1..] == s;
    }
  }

  /** The encoding of a string of code points below 0x80 is those code points, byte for byte. */
  lemma {:induction false} EncodeAscii(s: string)
    requires forall i :: 0 <= i < |s| ==> s[i] as int < 0x80
    ensures |Encode(s)| == |s|
    ensures forall i :: 0 <= i < |s| ==> Encode(s)[i] as int == s[i] as int
  {
    if s != [] {
      EncodeAscii(s[1..]);
    }
  }
}
