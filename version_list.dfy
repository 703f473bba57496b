/** `version_list`: how the request for a mirror's `index.json` is configured before it
    is sent (mirror check, timeout, proxy priority, URL). Sending the request and decoding
    the JSON are outside the model. */
module VersionList {
  import opened Wrappers
  import opened Strings

  /** The crate's `Proxy` record. */
  datatype Proxy = Proxy(enabled: bool, ip: string, port: string)

  /** `ListConfig`, with the timeout in milliseconds. */
  datatype ListConfig = ListConfig(mirror: Option<string>, noProxy: Option<bool>, proxy: Option<Proxy>, timeoutMs: Option<nat>)

  datatype Route = HttpRoute(scheme: string) | HttpsRoute(scheme: string) | AllRoute(scheme: string)

  /** What the `reqwest::ClientBuilder` ends up holding: whether system and environment
      proxies are still consulted, and the explicit proxy routes in the order added. */
  datatype Builder = Builder(systemProxy: bool, routes: seq<Route>)

  datatype Request = Request(url: string, timeoutMs: nat, client: Builder)

  const DefaultTimeoutMs: nat := 20000

  function ProxyScheme(p: Proxy): string
  {
    "http://" + p.ip + ":" + p.port
  }

  /** The URL of the version index: the mirror without its trailing slashes, then `/index.json`. */
  function IndexUrl(mirror: string): (url: string)
    ensures url == TrimEndChar(mirror, '/') + "/index.json"
    ensures mirror == TrimEndChar(mirror, '/') + mirror[|TrimEndChar(mirror, '/')|..]
  {
    TrimEndChar(mirror, '/') + "/index.json"
  }

  /** Builds the request. `schemeParses` says whether `"http://ip:port"` is a URL reqwest
      accepts; the three route constructors parse the same text, so they succeed or fail
      together. */
  method VersionList(config: ListConfig, schemeParses: bool) returns (r: Result<Request>)
    ensures config.mirror.None? <==> r == Err("mirror should not be null")
    ensures config.mirror.Some? ==> r.Ok?
    ensures r.Ok? ==> r.value.url == TrimEndChar(config.mirror.value, '/') + "/index.json"
    ensures r.Ok? ==> r.value.timeoutMs == config.timeoutMs.UnwrapOr(DefaultTimeoutMs)
    ensures r.Ok? && config.noProxy == Some(true) ==> r.value.client == Builder(false, [])
    ensures r.Ok? && config.noProxy != Some(true) && config.proxy.Some? && config.proxy.value.enabled ==>
      var s := ProxyScheme(config.proxy.value);
      r.value.client == Builder(false, if schemeParses then [HttpRoute(s), HttpsRoute(s), AllRoute(s)] else [])
    ensures r.Ok? && config.noProxy != Some(true) && (config.proxy.None? || !config.proxy.value.enabled) ==>
      r.value.client == Builder(true, [])
  {
    if config.mirror.None? {
      return Err("mirror should not be null");
    }
    var mirror := config.mirror.value;
    var timeout := config.timeoutMs.UnwrapOr(DefaultTimeoutMs);
    var builder := Builder(true, []);
    if config.noProxy == Some(true) {
      builder := builder.(systemProxy := false);
    } else if config.proxy.Some? {
      var proxy := config.proxy.value;
      if proxy.enabled {
        builder := builder.(systemProxy := false);
        var scheme := ProxyScheme(proxy);
        if schemeParses {
          builder := builder.(routes := builder.routes + [HttpRoute(scheme)]);
        }
        if schemeParses {
          builder := builder.(routes := builder.routes + [HttpsRoute(scheme)]);
        }
        if schemeParses {
          builder := builder.(routes := builder.routes + [AllRoute(scheme)]);
        }
      }
    }
    r := Ok(Request(IndexUrl(mirror), timeout, builder));
  }

  /** However many slashes end the mirror, the index sits right below its trimmed root. */
  lemma {:induction false} IndexUrlIgnoresTrailingSlashes(mirror: string, k: nat)
    ensures IndexUrl(mirror + seq(k, _ => '/')) == IndexUrl(mirror)
  {
    var slashes := seq(k, _ => '/');
    if k > 0 {
      var longer := mirror + slashes;
      assert longer[..|longer| - 1] == mirror + seq(k - 1, _ => '/');
      IndexUrlIgnoresTrailingSlashes(mirror, k - 1);
    } else {
      assert mirror + slashes == mirror;
    }
  }
}
