/**
  `quote_plus` with an empty `safe` set, as `urlencode` applies it to every
  key and value: the string is UTF-8 encoded; bytes of the unreserved set of
  section 2.3 of RFC 3986 (ALPHA, DIGIT, '-', '.', '_', '~') stay literal,
  the space byte becomes '+' (HTML form encoding), and every other byte
  becomes '%' and two upper-case hexadecimal digits (section 2.1 of RFC 3986).
 */
module PercentEncoding {
  import opened Wrappers
  import opened Utf8

  /** The unreserved characters of section 2.3 of RFC 3986. */
  predicate IsUnreservedChar(c: char) {
    ('A' <= c <= 'Z') || ('a' <= c <= 'z') || ('0' <= c <= '9')
    || c == '-' || c == '.' || c == '_' || c == '~'
  }

  /** Every character of s is unreserved. */
  predicate AllUnreserved(s: string)
  {
    forall i :: 0 <= i < |s| ==> IsUnreservedChar(s[i])
  }

  predicate IsUnreserved(b: byte) {
    IsUnreservedChar(b as int as char)
  }

  predicate IsUpperHexDigit(c: char) {
    ('0' <= c <= '9') || ('A' <= c <= 'F')
  }

  function HexDigit(d: int): (c: char)
    requires 0 <= d < 16
    ensures IsUpperHexDigit(c)
  {
    "0123456789ABCDEF"[d]
  }

  /** The value of a hexadecimal digit of either case. */
  function HexValue(c: char): (r: Option<int>)
    ensures r.Some? ==> 0 <= r.value < 16
  {
    if '0' <= c <= '9' then Some(c as int - '0' as int)
    else if 'A' <= c <= 'F' then Some(c as int - 'A' as int + 10)
    else if 'a' <= c <= 'f' then Some(c as int - 'a' as int + 10)
    else None
  }

  /** The escaped form of one byte. */
  function QuoteByte(b: byte): string
  {
    if IsUnreserved(b) then [b as int as char]
    else if b == 0x20 then "+"
    else ['%', HexDigit(b as int / 16), HexDigit(b as int % 16)]
  }

  function QuoteBytes(bs: seq<byte>): string
  {
    if bs == [] then "" else QuoteByte(bs[0]) + QuoteBytes(bs[1..])
  }

  /** `quote_plus(s, safe='')` of Python's urllib.parse, for a str argument. */
  function QuotePlus(s: string): string
  {
    QuoteBytes(Utf8.Encode(s))
  }

  /**
    The inverse of QuoteBytes: '+' stands for a space, '%' and two hex digits
    for a byte, an unreserved character for itself; anything else is None.
   */
  function UnquoteBytes(s: string): Option<seq<byte>>
    decreases |s|
  {
    if s == [] then Some([])
    else if s[0] == '+' then Prepend(0x20, UnquoteBytes(s[1..]))
    else if s[0] == '%' then
      if |s| < 3 then None
      else
        match (HexValue(s[1]), HexValue(s[2]))
        case (Some(h), Some(l)) => Prepend((h * 16 + l) as byte, UnquoteBytes(s[3..]))
        case _ => None
    else if IsUnreservedChar(s[0]) then Prepend(s[0] as int as byte, UnquoteBytes(s[1..]))
    else None
  }

  function Prepend(b: byte, r: Option<seq<byte>>): Option<seq<byte>>
  {
    match r
    case None => None
    case Some(bs) => Some([b] + bs)
  }

  /** `unquote_plus`: unescape, then decode the bytes as UTF-8. */
  function UnquotePlus(s: string): Option<string>
  {
    match UnquoteBytes(s)
    case None => None
    case Some(bs) => Utf8.Decode(bs)
  }

  /**
    The shape of an escaped component: unreserved characters, '+', and '%'
    followed by two upper-case hex digits, and nothing else.
   */
  predicate IsEscaped(s: string)
    decreases |s|
  {
    if s == [] then true
    else if IsUnreservedChar(s[0]) || s[0] == '+' then IsEscaped(s[1..])
    else s[0] == '%' && |s| >= 3 && IsUpperHexDigit(s[1]) && IsUpperHexDigit(s[2]) && IsEscaped(s[3..])
  }

  lemma UnquoteQuoteByte(b: byte, rest: string)
    ensures UnquoteBytes(QuoteByte(b) + rest) == Prepend(b, UnquoteBytes(rest))
  {
    var q := QuoteByte(b) + rest;
    if IsUnreserved(b) {
      assert q[1..] == rest;
    } else if b == 0x20 {
      assert q[1..] == rest;
    } else {
      assert q[3..] == rest;
      var h, l := b as int / 16, b as int % 16;
      assert HexValue(HexDigit(h)) == Some(h);
      assert HexValue(HexDigit(l)) == Some(l);
    }
  }

  /** Unescaping inverts escaping on every byte sequence. */
  lemma {:induction false} UnquoteQuoteBytes(bs: seq<byte>)
    ensures UnquoteBytes(QuoteBytes(bs)) == Some(bs)
  {
    if bs != [] {
      UnquoteQuoteByte(bs[0], QuoteBytes(bs[1..]));
      UnquoteQuoteBytes(bs[1..]);
      assert [bs[0]] + bs[1..] == bs;
    }
  }

  /** Decoding a component recovers the original string. */
  lemma UnquotePlusQuotePlus(s: string)
    ensures UnquotePlus(QuotePlus(s)) == Some(s)
  {
    UnquoteQuoteBytes(Utf8.Encode(s));
    Utf8.DecodeEncode(s);
  }

  lemma {:induction false} EscapedConcat(a: string, b: string)
    requires IsEscaped(a) && IsEscaped(b)
    ensures IsEscaped(a + b)
    decreases |a|
  {
    if a == [] {
      assert a + b == b;
    } else {
      assert (a + b)[0] == a[0];
      if IsUnreservedChar(a[0]) || a[0] == '+' {
        assert (a + b)[1..] == a[1..] + b;
        EscapedConcat(a[1..], b);
      } else {
        assert (a + b)[1] == a[1] && (a + b)[2] == a[2];
        assert (a + b)[3..] == a[3..] + b;
        EscapedConcat(a[3..], b);
      }
    }
  }

  /** Every escaped component has the shape IsEscaped. */
  lemma {:induction false} QuoteBytesEscaped(bs: seq<byte>)
    ensures IsEscaped(QuoteBytes(bs))
  {
    if bs != [] {
      var q := QuoteByte(bs[0]);
      assert IsEscaped(q) by {
        assert q[1..] == [] || q[3..] == [];
      }
      QuoteBytesEscaped(bs[1..]);
      EscapedConcat(q, QuoteBytes(bs[1..]));
    }
  }

  /** An escaped component never holds a raw '&', '=' or space. */
  lemma {:induction false} EscapedHasNoDelimiters(s: string)
    requires IsEscaped(s)
    ensures '&' !in s && '=' !in s && ' ' !in s
    decreases |s|
  {
    if s != [] {
      var k := if IsUnreservedChar(s[0]) || s[0] == '+' then 1 else 3;
      EscapedHasNoDelimiters(s[k..]);
      assert s == s[..k] + s[k..];
    }
  }

  /** The shape of `quote_plus`'s output, and what it leaves out. */
  lemma QuotePlusShape(s: string)
    ensures IsEscaped(QuotePlus(s))
    ensures '&' !in QuotePlus(s) && '=' !in QuotePlus(s) && ' ' !in QuotePlus(s)
  {
    QuoteBytesEscaped(Utf8.Encode(s));
    EscapedHasNoDelimiters(QuotePlus(s));
  }

  lemma {:induction false} QuoteBytesUnreserved(bs: seq<byte>)
    requires forall i :: 0 <= i < |bs| ==> IsUnreserved(bs[i])
    ensures |QuoteBytes(bs)| == |bs|
    ensures forall i :: 0 <= i < |bs| ==> QuoteBytes(bs)[i] as int == bs[i] as int
  {
    if bs != [] {
      QuoteBytesUnreserved(bs[1..]);
    }
  }

  /** Unreserved characters pass through `quote_plus` literally. */
  lemma QuotePlusUnreserved(s: string)
    requires AllUnreserved(s)
    ensures QuotePlus(s) == s
  {
    Utf8.EncodeAscii(s);
    var bs := Utf8.Encode(s);
    assert forall i :: 0 <= i < |bs| ==> bs[i] as int == s[i] as int;
    QuoteBytesUnreserved(bs);
  }
}
