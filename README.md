# Alpha Vantage query-URL builder, modelled in Dafny

This project models the URL builder in `data_loaders/utils.py`. The builder
is `AlphaVantageURLBuilder` together with its `URLDirector`. A builder holds an
ordered parameter map, which is a Python dict seeded with the credential under
`"apikey"`. It merges caller parameters into that map with `add_params`. Its
`build` serialises the map as `https://www.alphavantage.co/query?` followed by
`urlencode(params)`, stores the result and returns it. `url` reads back the
last URL built. `URLDirector.construct_url` is `add_params` followed by
`build`.

Modules:

- `Wrappers` (`wrappers.dfy`): `Option`, `Result` and `Outcome`. The builder's
  `ValueError`s are returned as values of these types.
- `ParamMap` (`params.dfy`): the dict as a sequence of `(key, value)` pairs in
  insertion order. `Put` is item assignment and `Update` is `dict.update`.
  The lemmas cover last-write-wins, the key set, key order and unique keys.
- `Utf8` (`utf8.dfy`), `PercentEncoding` (`percent.dfy`), `QueryString`
  (`query.dfy`): the serialisation that `urlencode` performs with its
  defaults (`quote_via=quote_plus`, `safe=''`). Each key and value is UTF-8
  encoded. Bytes in the unreserved set of section 2.3 of RFC 3986 (ALPHA,
  DIGIT, `-`, `.`, `_`, `~`) stay literal. A space becomes `+`, as in HTML form
  encoding. Every other byte becomes `%XX` with upper-case hex, as in section
  2.1 of RFC 3986. The pairs become `k=v` and are joined with `&`. Each
  encoder has a decoder as its partner, and the round trips are proved.
- `UrlBuilder` (`builder.dfy`):
  - the class `AlphaVantageUrlBuilder`, with fields `params` and `lastUrl`
    (Python's `_url`);
  - the factory `NewBuilder`, which takes the credential as an
    `Option<string>`;
  - the class `UrlDirector`.

  The builder's invariant `Valid()` has three parts:
  - the map has unique keys;
  - `"apikey"` is its first key;
  - a stored URL is `build`'s output for a map that has those two properties.

Python's `__init__` raises when the credential is missing or empty. A Dafny
constructor cannot fail, so `NewBuilder` makes the `if not api_key` check of
`_init_params` and returns `Failure(MissingApiKey)`. Otherwise it calls the
constructor. The constructor's `requires apiKey != ""` is the guarantee that
this check gives it.

Where other descriptions of the component disagree with `data_loaders/utils.py`,
the model follows the code:
- A missing or empty credential raises. It is not stored as `None` or `""`,
  which is what tests/unit/test_utils.py:44 and :169 expect.
- The key is `"apikey"`, not `"apiKey"` (tests/unit/test_utils.py:35-36, :94).
- `BASE_URL` has no trailing `?` (tests/unit/test_utils.py:34).
- `construct_url` returns the URL and does not raise `AttributeError`
  (tests/unit/test_utils.py:144).
- The pairs come out in insertion order. They are not reordered.
- A director is never given a missing builder, because Dafny references are
  non-null. So the model has no "invalid builder" error.

## Model

| member | source | states |
|---|---|---|
| `UrlBuilder.NewBuilder` | data_loaders/utils.py:44-53 | fails with `MissingApiKey` exactly when the credential is absent or empty; otherwise returns a fresh, valid builder whose map is exactly `[("apikey", key)]` and which has no URL yet |
| `UrlBuilder.AlphaVantageUrlBuilder.constructor` | data_loaders/utils.py:44-46 | seeds the map with the one credential pair, leaves the URL absent, and establishes the invariant |
| `UrlBuilder.AlphaVantageUrlBuilder.AddParams` | data_loaders/utils.py:55-64 | fails exactly when `"function"` is not a key of the argument, and then leaves the map unchanged; otherwise the new map is `dict.update` of the old one; the URL is never touched; keeps unique keys and `"apikey"` first |
| `UrlBuilder.AlphaVantageUrlBuilder.Build` | data_loaders/utils.py:66-70 | returns `BASE_URL + "?" + urlencode(params)`, stores it as the URL and leaves the map unchanged |
| `UrlBuilder.AlphaVantageUrlBuilder.Url` | data_loaders/utils.py:72-75 | returns the stored URL without building; any URL it returns is `build`'s output for a map whose first key is `"apikey"` |
| `UrlBuilder.BuildTwice` | data_loaders/utils.py:66-70 | two builds with nothing in between return the same string, which is then the stored URL |
| `UrlBuilder.UrlDirector.constructor` | data_loaders/utils.py:81-82 | the director keeps the builder it is given |
| `UrlBuilder.UrlDirector.ConstructUrl` | data_loaders/utils.py:84-87 | a failing `add_params` propagates its error and leaves both the map and the URL unchanged; otherwise the map is updated and the result is the URL `build` stores for the new map |
| `UrlBuilder.BuiltUrlDecodes` | data_loaders/utils.py:66-70 | a built URL starts with the endpoint and `?`, its query parses back to exactly the map, and its first segment is the credential pair |
| `UrlBuilder.FreshKeysUrl` | data_loaders/utils.py:64-69 | when the caller brings new keys only, the URL is the endpoint, then `apikey=<escaped key>`, then `&` and the caller's pairs in the caller's order |
| `UrlBuilder.UnreservedRequestSegments` | data_loaders/utils.py:64-69 | for new keys and values made only of unreserved characters, the query has one segment more than the request, the credential pair first, and each caller pair `k=v` stands verbatim (e.g. `symbol=BRK.A`) |
| `ParamMap.GetPut` | data_loaders/utils.py:64 | after `m[k] = v`, k maps to v and every other key keeps its value |
| `ParamMap.KeysPut` | data_loaders/utils.py:64 | `m[k] = v` keeps the key order and appends k when it is new |
| `ParamMap.PutNew` | data_loaders/utils.py:64 | assigning a key that is not present appends the pair |
| `ParamMap.GetUpdate` | data_loaders/utils.py:64 | last write wins: after `m.update(p)` each key of p maps to p's value and every other key keeps m's value |
| `ParamMap.KeysUpdate` | data_loaders/utils.py:64 | the keys after `m.update(p)` are exactly the keys of m together with those of p |
| `ParamMap.KeysUpdateOrder` | data_loaders/utils.py:64 | the keys of m keep their positions and p's new keys follow in p's order |
| `ParamMap.UpdateHead` | data_loaders/utils.py:64 | the first key, `"apikey"` in a builder, stays first |
| `ParamMap.UpdateUnique` | data_loaders/utils.py:64 | `dict.update` keeps keys unique |
| `ParamMap.UpdateFresh` | data_loaders/utils.py:64 | an update that brings only new keys appends them in order |
| `ParamMap.UpdateSnoc` | data_loaders/utils.py:64 | updating with one more pair is one more item assignment, as `update` iterates its argument |
| `QueryString.EncodeQuery` | data_loaders/utils.py:68 | the pair-by-pair loop of `urlencode` yields exactly `UrlEncode` |
| `QueryString.ParseUrlEncode` | data_loaders/utils.py:68 | parsing the query recovers the map, pairs and order |
| `QueryString.SplitUrlEncode` | data_loaders/utils.py:68 | splitting the query on `&` gives exactly one segment per pair, in order, each `quote_plus(k)=quote_plus(v)` |
| `QueryString.EncodePairShape` | data_loaders/utils.py:68 | a segment holds no `&` and exactly one `=`, and it parses back to its pair |
| `QueryString.UnreservedSegments` | data_loaders/utils.py:68 | a pair of unreserved characters appears as `k=v` verbatim |
| `QueryString.UrlEncodeAppend` | data_loaders/utils.py:68 | the query of two maps in sequence is their queries joined by `&` |
| `PercentEncoding.UnquotePlusQuotePlus` | data_loaders/utils.py:68 | unescaping a `quote_plus` component recovers the original string |
| `PercentEncoding.UnquoteQuoteBytes` | data_loaders/utils.py:68 | percent-unescaping inverts percent-escaping on every byte sequence |
| `PercentEncoding.QuotePlusShape` | data_loaders/utils.py:68 | a component holds only unreserved characters, `+`, or `%` followed by two upper-case hex digits, so never a raw `&`, `=` or space |
| `PercentEncoding.QuotePlusUnreserved` | data_loaders/utils.py:68 | a string of unreserved characters passes through `quote_plus` unchanged |
| `Utf8.EncodeChar` | data_loaders/utils.py:68 | one character takes one to four bytes, and one byte exactly when it is below 0x80, that byte being its code |
| `Utf8.DecodeEncodeChar` | data_loaders/utils.py:68 | decoding one character's bytes, whatever follows, gives the character and the number of bytes it used |
| `Utf8.DecodeEncode` | data_loaders/utils.py:68 | UTF-8 decoding inverts the encoding `quote_plus` applies |

## Left out

- Reading the environment (`load_dotenv()` at utils.py:18, `os.getenv` at utils.py:50) is process I/O. The credential is a parameter of `NewBuilder`.
- The `isinstance(params, dict)` check and its `TypeError` (utils.py:57-58) are left out because Dafny's types rule them out. The `str()` coercion of non-string keys and values inside `urlencode` is left out for the same reason.
- The argument of `add_params` is any sequence of pairs. The last-write-wins, order and shape lemmas assume unique keys, because the argument is a dict.
- `URLBuilderInterface` (utils.py:20-37) is an abstract base class with no behaviour. It is not modelled, because the model has a single builder class.
- Lone surrogates in a Python `str` make `quote_plus` raise `UnicodeEncodeError`. A Dafny `char` cannot hold one, so this error path is not modelled.
- `urlencode`'s `doseq` handling and its bytes-key branches are not modelled. The builder never uses them.
- The decoders are partners for the proofs. They are not models of `parse_qs` or `unquote_plus`. They are stricter: a stray character, a lone `%` or a second `=` in a segment is rejected rather than passed through.
- The builder is single-threaded. The model says nothing about sharing one builder between concurrent callers.
