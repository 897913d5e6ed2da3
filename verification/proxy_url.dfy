/** `getScrapeOpsUrl`: the target URL, routed through the ScrapeOps proxy. */
module ProxyUrl {
  import opened Results
  import FormUrlEncoded

  const Endpoint := "https://proxy.scrapeops.io/v1/?"

  /** `wait: 2000` is a number in the source; `URLSearchParams` turns it into its
      decimal string. */
  const Wait := "2000"

  /** Default of the `location` parameter. */
  const DefaultCountry := "us"

  /** The query parameters in the order the object literal lists them. */
  function ProxyParams(apiKey: string, url: string, location: string): seq<(string, string)> {
    [("api_key", apiKey), ("url", url), ("country", location), ("wait", Wait)]
  }

  /** The proxy URL: the fixed endpoint followed by a query that decodes to
      exactly the four parameters, in order, with the target URL and country
      unchanged. */
  function GetScrapeOpsUrl(apiKey: string, url: string, location: string): (r: string)
    ensures |Endpoint| <= |r| && r[..|Endpoint|] == Endpoint
    ensures FormUrlEncoded.Parse(r[|Endpoint|..])
            == Some([("api_key", apiKey), ("url", url), ("country", location), ("wait", "2000")])
  {
    var query := FormUrlEncoded.Serialize(ProxyParams(apiKey, url, location));
    FormUrlEncoded.ParseSerialize(ProxyParams(apiKey, url, location));
    assert (Endpoint + query)[|Endpoint|..] == query;
    Endpoint + query
  }

  /** The last parameter as written: `&wait=2000`. */
  lemma WaitParameterText()
    ensures "&" + "wait" + "=" + Wait == "&wait=2000"
  {
  }

  /** The `wait` parameter, a plain ASCII word and number, is written as it is
      at the end of the proxy URL. */
  lemma ProxyUrlEndsWithWait(apiKey: string, url: string, location: string)
    ensures var r := GetScrapeOpsUrl(apiKey, url, location);
      |r| >= 10 && r[|r| - 10..] == "&wait=2000"
  {
    var pairs := ProxyParams(apiKey, url, location);
    assert |pairs| == 4 && pairs[|pairs| - 1] == ("wait", Wait);
    assert FormUrlEncoded.IsKeptAscii("wait") && FormUrlEncoded.IsKeptAscii(Wait);
    FormUrlEncoded.SerializeEndsWithKeptPair(pairs);
    var query := FormUrlEncoded.Serialize(pairs);
    var r := GetScrapeOpsUrl(apiKey, url, location);
    assert r == Endpoint + query;
    var t := "&" + "wait" + "=" + Wait;
    WaitParameterText();
    assert query[|query| - 10..] == t;
    assert r[|r| - 10..] == query[|query| - 10..];
  }

  /** How a page is fetched: straight from the site (crawler-parser.js) or via
      the proxy with an API key and a country (the other two scripts). The API
      key is read from config.json at start-up in the source; here it is a
      parameter. */
  datatype Route = Direct | Proxied(apiKey: string, country: string)

  /** The URL handed to `page.goto` for a target URL. */
  function FetchUrl(route: Route, target: string): (r: string)
    ensures route.Direct? ==> r == target
    ensures route.Proxied? ==>
      && |Endpoint| <= |r| && r[..|Endpoint|] == Endpoint
      && FormUrlEncoded.Parse(r[|Endpoint|..])
         == Some([("api_key", route.apiKey), ("url", target), ("country", route.country), ("wait", "2000")])
  {
    match route
    case Direct => target
    case Proxied(key, country) => GetScrapeOpsUrl(key, target, country)
  }
}
