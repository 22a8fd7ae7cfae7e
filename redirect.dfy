/**
  The redirect URL (`createRedirectUrl` in content.js): the base URL, `?`, and the
  `URLSearchParams` serialization of `backend`, `mode`, `author`, `limit` and
  `sort`, in that order.
 */
module Redirect {
  import opened Wrappers
  import FormUrlEncoded
  import Settings

  const BASE_URL: string := "https://ihsoyct.github.io/"

  function DigitChar(d: int): (c: char)
    requires 0 <= d < 10
    ensures '0' <= c <= '9' && c as int - '0' as int == d
  {
    ('0' as int + d) as char
  }

  predicate IsDigits(s: string) {
    forall i :: 0 <= i < |s| ==> '0' <= s[i] <= '9'
  }

  /** The decimal digits of `n`, without leading zeros. */
  function NatString(n: nat): (s: string)
    ensures s != [] && IsDigits(s)
    ensures s[0] == '0' ==> s == "0"
  {
    if n < 10 then [DigitChar(n)] else NatString(n / 10) + [DigitChar(n % 10)]
  }

  /** JavaScript's `ToString` of an integral Number: its decimal digits, after a `-` when negative. */
  function IntString(n: int): (s: string)
    ensures s != [] && (s[0] == '-' <==> n < 0)
    ensures n >= 0 ==> IsDigits(s)
  {
    if n < 0 then "-" + NatString(-n) else NatString(n)
  }

  /** The value of a string of decimal digits, as a reader of the query would compute it. */
  function DigitsValue(s: string): nat
    requires IsDigits(s)
  {
    if s == [] then 0 else DigitsValue(s[..|s| - 1]) * 10 + (s[|s| - 1] as int - '0' as int)
  }

  /** The value of an optionally signed decimal string. */
  function DecimalValue(s: string): int
    requires s != [] && (IsDigits(s) || (s[0] == '-' && IsDigits(s[1..])))
  {
    if s[0] == '-' then -(DigitsValue(s[1..]) as int) else DigitsValue(s)
  }

  lemma {:induction false} NatStringValue(n: nat)
    ensures DigitsValue(NatString(n)) == n
  {
    if n >= 10 {
      var s := NatString(n);
      assert s[..|s| - 1] == NatString(n / 10);
      NatStringValue(n / 10);
    }
  }

  /** The limit is written so that reading it back gives the same integer. */
  lemma IntStringValue(n: int)
    ensures var s := IntString(n); s != [] && (IsDigits(s) || (s[0] == '-' && IsDigits(s[1..])))
    ensures DecimalValue(IntString(n)) == n
  {
    if n < 0 {
      NatStringValue(-n);
      assert IntString(n)[1..] == NatString(-n);
    } else {
      NatStringValue(n);
    }
  }

  /** The five name-value pairs, in the order of the object literal in content.js. */
  function QueryPairs(username: string, settings: Settings.Settings): (r: seq<FormUrlEncoded.Pair>)
    ensures |r| == 5
    ensures forall i, j :: 0 <= i < j < |r| ==> r[i].0 != r[j].0
  {
    [("backend", settings.backend),
     ("mode", settings.mode),
     ("author", username),
     ("limit", IntString(settings.limit)),
     ("sort", settings.sort)]
  }

  /** `createRedirectUrl`: the base URL, `?`, and the serialized pairs, which add no second `?` and no `#`. */
  function CreateRedirectUrl(username: string, settings: Settings.Settings): (r: string)
    ensures BASE_URL + "?" <= r
    ensures '?' !in r[|BASE_URL| + 1..] && '#' !in r
  {
    var pairs := QueryPairs(username, settings);
    SerializedHasNoDelimiters(pairs);
    WithQuery(FormUrlEncoded.Serialize(pairs))
  }

  /** The base URL followed by a query without `?` or `#`. */
  function WithQuery(query: string): (r: string)
    requires '?' !in query && '#' !in query
    ensures BASE_URL + "?" <= r
    ensures '?' !in r[|BASE_URL| + 1..] && '#' !in r
  {
    assert (BASE_URL + "?" + query)[|BASE_URL| + 1..] == query;
    assert '#' !in BASE_URL + "?";
    BASE_URL + "?" + query
  }

  /** What a URL parser takes as the part before the query: everything up to the first `?`. */
  function BeforeQuery(url: string): string {
    url[..FormUrlEncoded.IndexOf(url, '?')]
  }

  /** What a URL parser takes as the query: after the first `?`, up to the first `#`; None without a `?`. */
  function QueryOf(url: string): Option<string> {
    var q := FormUrlEncoded.IndexOf(url, '?');
    if q == |url| then None
    else
      var rest := url[q + 1..];
      Some(rest[..FormUrlEncoded.IndexOf(rest, '#')])
  }

  /** A `?` after a base without one starts the query, and a query without `#` runs to the end. */
  lemma SplitAtQuery(base: string, query: string)
    requires '?' !in base && '#' !in query
    ensures BeforeQuery(base + "?" + query) == base
    ensures QueryOf(base + "?" + query) == Some(query)
  {
    var url := base + "?" + query;
    FormUrlEncoded.IndexOfAt(base, '?', query);
    assert url[|base| + 1..] == query;
    var rest := url[|base| + 1..];
    assert FormUrlEncoded.IndexOf(rest, '#') == |query|;
    assert rest[..|query|] == query;
  }

  lemma SerializedHasNoDelimiters(pairs: seq<FormUrlEncoded.Pair>)
    ensures '?' !in FormUrlEncoded.Serialize(pairs) && '#' !in FormUrlEncoded.Serialize(pairs)
  {
    FormUrlEncoded.SerializeChars(pairs);
  }

  lemma UrlWithQuery(pairs: seq<FormUrlEncoded.Pair>)
    ensures var url := BASE_URL + "?" + FormUrlEncoded.Serialize(pairs);
      && BeforeQuery(url) == BASE_URL
      && QueryOf(url) == Some(FormUrlEncoded.Serialize(pairs))
      && FormUrlEncoded.Parse(FormUrlEncoded.Serialize(pairs)) == Some(pairs)
  {
    SerializedHasNoDelimiters(pairs);
    SplitAtQuery(BASE_URL, FormUrlEncoded.Serialize(pairs));
    FormUrlEncoded.ParseSerialize(pairs);
  }

  /**
    The redirect URL is the base URL and a query, and that query, read back as
    application/x-www-form-urlencoded, holds exactly the five pairs in order.
   */
  lemma RedirectUrlQuery(username: string, settings: Settings.Settings)
    ensures var url := CreateRedirectUrl(username, settings);
      && BeforeQuery(url) == BASE_URL
      && QueryOf(url).Some?
      && FormUrlEncoded.Parse(QueryOf(url).value) == Some(QueryPairs(username, settings))
  {
    UrlWithQuery(QueryPairs(username, settings));
  }

  /** Looking up each of the five names finds its own value. */
  lemma GetQueryPairs(username: string, settings: Settings.Settings)
    ensures var params := QueryPairs(username, settings);
      && FormUrlEncoded.Get(params, "backend") == Some(settings.backend)
      && FormUrlEncoded.Get(params, "mode") == Some(settings.mode)
      && FormUrlEncoded.Get(params, "author") == Some(username)
      && FormUrlEncoded.Get(params, "limit") == Some(IntString(settings.limit))
      && FormUrlEncoded.Get(params, "sort") == Some(settings.sort)
  {
    var params := QueryPairs(username, settings);
    assert FormUrlEncoded.Get(params, "author") == FormUrlEncoded.Get(params[2..], "author");
    assert FormUrlEncoded.Get(params, "limit") == FormUrlEncoded.Get(params[2..], "limit")
      == FormUrlEncoded.Get(params[3..], "limit");
    assert FormUrlEncoded.Get(params, "sort") == FormUrlEncoded.Get(params[2..], "sort")
      == FormUrlEncoded.Get(params[4..], "sort");
  }

  /** Every value reads back exactly: `author` is the username and `limit` is the limit's integer. */
  lemma RedirectUrlValues(username: string, settings: Settings.Settings)
    ensures var url := CreateRedirectUrl(username, settings);
      && QueryOf(url).Some?
      && FormUrlEncoded.Parse(QueryOf(url).value).Some?
      && var params := FormUrlEncoded.Parse(QueryOf(url).value).value;
      && FormUrlEncoded.Get(params, "backend") == Some(settings.backend)
      && FormUrlEncoded.Get(params, "mode") == Some(settings.mode)
      && FormUrlEncoded.Get(params, "author") == Some(username)
      && FormUrlEncoded.Get(params, "sort") == Some(settings.sort)
      && FormUrlEncoded.Get(params, "limit").Some?
      && var limit := FormUrlEncoded.Get(params, "limit").value;
      && limit != [] && (IsDigits(limit) || (limit[0] == '-' && IsDigits(limit[1..])))
      && DecimalValue(limit) == settings.limit
  {
    RedirectUrlQuery(username, settings);
    GetQueryPairs(username, settings);
    IntStringValue(settings.limit);
  }
}
