/**
  `urlencode` of Python's urllib.parse over a parameter map, with its default
  `quote_via=quote_plus` and `safe=''`: each pair becomes
  `quote_plus(key) + '=' + quote_plus(value)`, in the map's order, and the
  pairs are joined with '&'. `ParseQuery` is its partner: it splits on '&'
  and on '=', then unescapes each component.
 */
module QueryString {
  import opened Wrappers
  import opened PercentEncoding

  type Pair = (string, string)

  /** One `k=v` segment of the query. */
  function EncodePair(p: Pair): string
  {
    QuotePlus(p.0) + "=" + QuotePlus(p.1)
  }

  /** The query string of a parameter map, pairs joined by '&'. */
  function UrlEncode(ps: seq<Pair>): string
  {
    if |ps| == 0 then ""
    else if |ps| == 1 then EncodePair(ps[0])
    else EncodePair(ps[0]) + "&" + UrlEncode(ps[1..])
  }

  /** The same serialisation, built the way `urlencode` does: one pair after another. */
  method EncodeQuery(ps: seq<Pair>) returns (q: string)
    ensures q == UrlEncode(ps)
  {
    q := "";
    var i := 0;
    while i < |ps|
      invariant 0 <= i <= |ps|
      invariant q == UrlEncode(ps[..i])
    {
      var segment := EncodePair(ps[i]);
      assert ps[..i + 1] == ps[..i] + [ps[i]];
      UrlEncodeSnoc(ps[..i], ps[i]);
      if i == 0 {
        q := segment;
      } else {
        q := q + "&" + segment;
      }
      i := i + 1;
    }
    assert ps[..|ps|] == ps;
  }

  lemma {:induction false} UrlEncodeSnoc(ps: seq<Pair>, p: Pair)
    ensures UrlEncode(ps + [p]) == if ps == [] then EncodePair(p) else UrlEncode(ps) + "&" + EncodePair(p)
  {
    if |ps| == 1 {
      assert (ps + [p])[1..] == [p];
    } else if |ps| > 1 {
      assert (ps + [p])[1..] == ps[1..] + [p];
      UrlEncodeSnoc(ps[1..], p);
    }
  }

  /** The query of a concatenation joins the two queries with '&'. */
  lemma {:induction false} UrlEncodeAppend(ps: seq<Pair>, qs: seq<Pair>)
    requires ps != [] && qs != []
    ensures UrlEncode(ps + qs) == UrlEncode(ps) + "&" + UrlEncode(qs)
  {
    if |ps| == 1 {
      assert (ps + qs)[1..] == qs;
    } else {
      assert (ps + qs)[1..] == ps[1..] + qs;
      UrlEncodeAppend(ps[1..], qs);
    }
  }

  /** The pieces of s between occurrences of d; always at least one piece. */
  function Split(s: string, d: char): (r: seq<string>)
    ensures |r| >= 1
    decreases |s|
  {
    if s == [] then [""]
    else
      var rest := Split(s[1..], d);
      if s[0] == d then [""] + rest else [[s[0]] + rest[0]] + rest[1..]
  }

  lemma {:induction false} SplitWithout(a: string, d: char)
    requires d !in a
    ensures Split(a, d) == [a]
  {
    if a != [] {
      SplitWithout(a[1..], d);
      assert [a[0]] + a[1..] == a;
    }
  }

  lemma {:induction false} SplitAt(a: string, b: string, d: char)
    requires d !in a
    ensures Split(a + [d] + b, d) == [a] + Split(b, d)
  {
    var s := a + [d] + b;
    if a == [] {
      assert s[1..] == b;
    } else {
      assert s[1..] == a[1..] + [d] + b;
      SplitAt(a[1..], b, d);
      assert [a[0]] + a[1..] == a;
    }
  }

  /** A segment `k=v` with exactly one '=', both sides unescaped. */
  function ParsePair(seg: string): Option<Pair>
  {
    var parts := Split(seg, '=');
    if |parts| != 2 then None
    else
      match (UnquotePlus(parts[0]), UnquotePlus(parts[1]))
      case (Some(k), Some(v)) => Some((k, v))
      case _ => None
  }

  function ParseSegments(segs: seq<string>): Option<seq<Pair>>
  {
    if segs == [] then Some([])
    else
      match (ParsePair(segs[0]), ParseSegments(segs[1..]))
      case (Some(p), Some(ps)) => Some([p] + ps)
      case _ => None
  }

  /** The parameter map a query string stands for; None if it is malformed. */
  function ParseQuery(q: string): Option<seq<Pair>>
  {
    if q == "" then Some([]) else ParseSegments(Split(q, '&'))
  }

  /** The segments of the query, one per pair. */
  function Segments(ps: seq<Pair>): (r: seq<string>)
  {
    if ps == [] then [] else [EncodePair(ps[0])] + Segments(ps[1..])
  }

  lemma EncodePairShape(p: Pair)
    ensures '&' !in EncodePair(p)
    ensures Split(EncodePair(p), '=') == [QuotePlus(p.0), QuotePlus(p.1)]
    ensures ParsePair(EncodePair(p)) == Some(p)
  {
    QuotePlusShape(p.0);
    QuotePlusShape(p.1);
    SplitAt(QuotePlus(p.0), QuotePlus(p.1), '=');
    SplitWithout(QuotePlus(p.1), '=');
    UnquotePlusQuotePlus(p.0);
    UnquotePlusQuotePlus(p.1);
  }

  /**
    Splitting the query on '&' gives exactly one segment per pair, in order,
    each `quote_plus(k)=quote_plus(v)`.
   */
  lemma {:induction false} SplitUrlEncode(ps: seq<Pair>)
    requires ps != []
    ensures Split(UrlEncode(ps), '&') == Segments(ps)
    ensures |Split(UrlEncode(ps), '&')| == |ps|
  {
    EncodePairShape(ps[0]);
    if |ps| == 1 {
      SplitWithout(EncodePair(ps[0]), '&');
    } else {
      SplitAt(EncodePair(ps[0]), UrlEncode(ps[1..]), '&');
      SplitUrlEncode(ps[1..]);
    }
    SegmentsLength(ps);
  }

  lemma {:induction false} SegmentsLength(ps: seq<Pair>)
    ensures |Segments(ps)| == |ps|
    ensures forall i :: 0 <= i < |ps| ==> Segments(ps)[i] == EncodePair(ps[i])
  {
    if ps != [] {
      SegmentsLength(ps[1..]);
    }
  }

  /** A pair of unreserved characters is its own segment, `k=v` verbatim. */
  lemma UnreservedSegments(ps: seq<Pair>)
    requires forall i :: 0 <= i < |ps| ==> AllUnreserved(ps[i].0) && AllUnreserved(ps[i].1)
    ensures |Segments(ps)| == |ps|
    ensures forall i :: 0 <= i < |ps| ==> Segments(ps)[i] == ps[i].0 + "=" + ps[i].1
  {
    SegmentsLength(ps);
    forall i | 0 <= i < |ps|
      ensures EncodePair(ps[i]) == ps[i].0 + "=" + ps[i].1
    {
      QuotePlusUnreserved(ps[i].0);
      QuotePlusUnreserved(ps[i].1);
    }
  }

  lemma {:induction false} ParseSegmentsOf(ps: seq<Pair>)
    ensures ParseSegments(Segments(ps)) == Some(ps)
  {
    if ps != [] {
      EncodePairShape(ps[0]);
      ParseSegmentsOf(ps[1..]);
      assert Segments(ps)[1..] == Segments(ps[1..]);
      assert [ps[0]] + ps[1..] == ps;
    }
  }

  /** Decoding the query recovers the parameter map, pairs and order. */
  lemma ParseUrlEncode(ps: seq<Pair>)
    ensures ParseQuery(UrlEncode(ps)) == Some(ps)
  {
    if ps != [] {
      EncodePairShape(ps[0]);
      assert EncodePair(ps[0]) != "" by {
        assert |Split(EncodePair(ps[0]), '=')| == 2;
      }
      assert UrlEncode(ps) != "";
      SplitUrlEncode(ps);
      ParseSegmentsOf(ps);
    }
  }
}
