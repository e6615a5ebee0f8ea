/**
  The Alpha Vantage URL builder and its director. The builder owns an
  ordered parameter map seeded with the credential under "apikey", merges
  caller parameters into it, and serialises it after the fixed endpoint.
  The credential is passed in; reading it from the environment is not part
  of this model.
 */
module UrlBuilder {
  import opened Wrappers
  import opened ParamMap
  import QueryString
  import PercentEncoding

  const BaseUrl: string := "https://www.alphavantage.co/query"
  const ApiKeyName: string := "apikey"
  const FunctionKey: string := "function"

  /** The two `ValueError`s the builder raises. */
  datatype Error = MissingApiKey | MissingFunction
  {
    function Message(): string
    {
      match this
      case MissingApiKey => "ALPHA_VANTAGE_API_KEY environment variable not set"
      case MissingFunction => "Alpha Vantage requires 'function' parameter"
    }
  }

  /** The URL that `build` produces for a parameter map. */
  function UrlFor(params: Params): string
  {
    BaseUrl + "?" + QueryString.UrlEncode(params)
  }

  /** The invariant of every builder's map: unique keys, the credential first. */
  predicate WellSeeded(params: Params)
  {
    UniqueKeys(params) && params != [] && params[0].0 == ApiKeyName
  }

  class AlphaVantageUrlBuilder {
    var params: Params
    var lastUrl: Option<string>
    /** The map the last URL was built from. */
    ghost var builtFrom: Params

    ghost predicate Valid()
      reads this
    {
      WellSeeded(params)
      && (lastUrl.Some? ==> WellSeeded(builtFrom) && lastUrl.value == UrlFor(builtFrom))
    }

    /** The seeding by `_init_params` once the credential has passed its check. */
    constructor (apiKey: string)
      requires apiKey != ""
      ensures Valid()
      ensures params == [(ApiKeyName, apiKey)] && lastUrl == None
    {
      params := [(ApiKeyName, apiKey)];
      lastUrl := None;
      builtFrom := [];
    }

    /**
      The `url` property: the last URL built, never building one itself. Any
      URL it returns is `build`'s output for a map whose first key is the
      credential.
     */
    function Url(): (u: Option<string>)
      reads this
      requires Valid()
      ensures u == lastUrl
      ensures u.Some? ==> u.value == UrlFor(builtFrom) && builtFrom[0].0 == ApiKeyName
    {
      lastUrl
    }

    /**
      `add_params`: without a "function" key it fails and changes nothing;
      otherwise the argument is merged into the map as `dict.update` does.
     */
    method AddParams(p: Params) returns (r: Outcome<Error>)
      requires Valid()
      modifies this`params
      ensures Valid()
      ensures r.Fail? <==> FunctionKey !in KeysOf(p)
      ensures r.Fail? ==> r.error == MissingFunction && params == old(params)
      ensures r.Pass? ==> params == Update(old(params), p)
    {
      if FunctionKey !in KeysOf(p) {
        return Fail(MissingFunction);
      }
      var i := 0;
      while i < |p|
        invariant 0 <= i <= |p|
        invariant params == Update(old(params), p[..i])
        invariant WellSeeded(params)
      {
        UpdateSnoc(old(params), p[..i], p[i]);
        assert p[..i + 1] == p[..i] + [p[i]];
        PutUnique(params, p[i].0, p[i].1);
        PutHead(params, p[i].0, p[i].1);
        params := Put(params, p[i].0, p[i].1);
        i := i + 1;
      }
      assert p[..|p|] == p;
      r := Pass;
    }

    /** `build`: serialise the map after the endpoint, store and return it. */
    method Build() returns (u: string)
      requires Valid()
      modifies this`lastUrl, this`builtFrom
      ensures Valid()
      ensures u == UrlFor(params) && lastUrl == Some(u)
      ensures params == old(params)
    {
      var q := QueryString.EncodeQuery(params);
      u := BaseUrl + "?" + q;
      lastUrl := Some(u);
      builtFrom := params;
    }
  }

  /**
    Construction of a builder from the credential the environment holds:
    fails when it is absent or empty, otherwise seeds `{"apikey": key}`
    and no URL yet.
   */
  method NewBuilder(credential: Option<string>) returns (r: Result<AlphaVantageUrlBuilder, Error>)
    ensures r.Failure? <==> (credential == None || credential == Some(""))
    ensures r.Failure? ==> r.error == MissingApiKey
    ensures r.Success? ==> fresh(r.value) && r.value.Valid()
    ensures r.Success? ==> r.value.params == [(ApiKeyName, credential.value)] && r.value.lastUrl == None
  {
    if credential == None || credential == Some("") {
      return Failure(MissingApiKey);
    }
    var b := new AlphaVantageUrlBuilder(credential.value);
    r := Success(b);
  }

  /** Two builds with nothing in between give the same URL. */
  method BuildTwice(b: AlphaVantageUrlBuilder) returns (u1: string, u2: string)
    requires b.Valid()
    modifies b`lastUrl, b`builtFrom
    ensures u1 == u2 && b.lastUrl == Some(u2)
  {
    u1 := b.Build();
    u2 := b.Build();
  }

  class UrlDirector {
    const builder: AlphaVantageUrlBuilder

    constructor (builder: AlphaVantageUrlBuilder)
      ensures this.builder == builder
    {
      this.builder := builder;
    }

    /**
      `construct_url`: `add_params` then `build`. A failure of `add_params`
      propagates before `build` runs, so the map and the URL stay as they were.
     */
    method ConstructUrl(p: Params) returns (r: Result<string, Error>)
      requires builder.Valid()
      modifies builder`params, builder`lastUrl, builder`builtFrom
      ensures builder.Valid()
      ensures r.Failure? <==> FunctionKey !in KeysOf(p)
      ensures r.Failure? ==> r.error == MissingFunction
      ensures r.Failure? ==> builder.params == old(builder.params) && builder.lastUrl == old(builder.lastUrl)
      ensures r.Success? ==> builder.params == Update(old(builder.params), p)
      ensures r.Success? ==> r.value == UrlFor(builder.params) && builder.lastUrl == Some(r.value)
    {
      var added := builder.AddParams(p);
      if added.Fail? {
        return Failure(added.error);
      }
      var u := builder.Build();
      r := Success(u);
    }
  }

  /**
    The URL `build` returns starts with the endpoint and '?', and its query
    decodes to exactly the builder's map, the credential as its first pair.
   */
  lemma BuiltUrlDecodes(params: Params)
    requires WellSeeded(params)
    ensures UrlFor(params)[..|BaseUrl| + 1] == BaseUrl + "?"
    ensures QueryString.ParseQuery(UrlFor(params)[|BaseUrl| + 1..]) == Some(params)
    ensures QueryString.Split(UrlFor(params)[|BaseUrl| + 1..], '&')[0]
            == ApiKeyName + "=" + PercentEncoding.QuotePlus(params[0].1)
  {
    var q := QueryString.UrlEncode(params);
    assert UrlFor(params)[|BaseUrl| + 1..] == q;
    QueryString.ParseUrlEncode(params);
    QueryString.SplitUrlEncode(params);
    QueryString.SegmentsLength(params);
    PercentEncoding.QuotePlusUnreserved(ApiKeyName);
  }
  /**
    A request that brings only new keys: the URL holds the credential pair
    and then the caller's pairs in the caller's order.
   */
  lemma FreshKeysUrl(key: string, p: Params)
    requires p != [] && UniqueKeys(p) && ApiKeyName !in KeysOf(p)
    ensures UrlFor(Update([(ApiKeyName, key)], p))
            == BaseUrl + "?apikey=" + PercentEncoding.QuotePlus(key) + "&" + QueryString.UrlEncode(p)
  {
    var m0: Params := [(ApiKeyName, key)];
    SeedFresh(key, p);
    QueryString.UrlEncodeAppend(m0, p);
    CredentialPair(key);
    CredentialPrefix(PercentEncoding.QuotePlus(key), QueryString.UrlEncode(p));
  }

  /** No key of the caller's map is the credential's: the update appends it. */
  lemma SeedFresh(key: string, p: Params)
    requires UniqueKeys(p) && ApiKeyName !in KeysOf(p)
    ensures Update([(ApiKeyName, key)], p) == [(ApiKeyName, key)] + p
  {
    var m0: Params := [(ApiKeyName, key)];
    forall i | 0 <= i < |p|
      ensures p[i].0 !in KeysOf(m0)
    {
      assert p[i].0 in KeysOf(p);
    }
    UpdateFresh(m0, p);
  }

  /** The credential pair's segment: its name needs no escaping. */
  lemma CredentialPair(key: string)
    ensures QueryString.UrlEncode([(ApiKeyName, key)]) == ApiKeyName + "=" + PercentEncoding.QuotePlus(key)
  {
    PercentEncoding.QuotePlusUnreserved(ApiKeyName);
  }

  lemma CredentialPrefix(kq: string, pq: string)
    ensures BaseUrl + "?" + (ApiKeyName + "=" + kq + "&" + pq) == BaseUrl + "?apikey=" + kq + "&" + pq
  {
  }

  /**
    A request of new keys, all unreserved: the query's segments are the
    credential pair, then each caller pair `k=v` verbatim, in the caller's order.
   */
  lemma UnreservedRequestSegments(key: string, p: Params)
    requires p != [] && UniqueKeys(p) && ApiKeyName !in KeysOf(p)
    requires forall i :: 0 <= i < |p| ==> PercentEncoding.AllUnreserved(p[i].0) && PercentEncoding.AllUnreserved(p[i].1)
    ensures var segs := QueryString.Split(UrlFor(Update([(ApiKeyName, key)], p))[|BaseUrl| + 1..], '&');
            && |segs| == |p| + 1
            && segs[0] == ApiKeyName + "=" + PercentEncoding.QuotePlus(key)
            && forall i :: 0 <= i < |p| ==> segs[i + 1] == p[i].0 + "=" + p[i].1
  {
    var m0: Params := [(ApiKeyName, key)];
    var m := Update(m0, p);
    SeedFresh(key, p);
    assert UrlFor(m)[|BaseUrl| + 1..] == QueryString.UrlEncode(m);
    QueryString.SplitUrlEncode(m);
    assert m[1..] == p;
    assert QueryString.Segments(m) == [QueryString.EncodePair(m[0])] + QueryString.Segments(p);
    CredentialPair(key);
    QueryString.UnreservedSegments(p);
  }
}
