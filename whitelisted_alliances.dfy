/**
 * The subdomain link the admin panel shows for each whitelisted alliance, and
 * how the router treats the host of that link.
 */
module WhitelistedAlliances {

  import opened Wrappers
  import opened Strings
  import opened Middleware
  import opened ValidateSubdomain
  import Slug

  /** The two environment variables the component reads: `NODE_ENV` and `NEXT_PUBLIC_APP_DOMAIN`. */
  datatype Env = Env(production: bool, appDomain: Option<string>)

  /** The domain as the template literal prints it: an unset variable prints as `undefined`. */
  function LinkDomain(env: Env): string
  {
    if !env.production then DevMainHost
    else
      match env.appDomain
      case Some(domain) => domain
      case None => "undefined"
  }

  /**
   * `getSubdomainUrl`: an `https` link in production and an `http` link
   * otherwise, whose host is the slug under the domain.
   */
  function GetSubdomainUrl(slug: string, env: Env): (url: string)
    ensures env.production ==> "https://" <= url
    ensures !env.production ==> "http://" <= url
    ensures UrlHost(url) == slug + "." + LinkDomain(env)
  {
    var host := slug + "." + LinkDomain(env);
    HttpsHost(host);
    HttpHost(host);
    (if env.production then "https://" else "http://") + host
  }

  /**
   * The host text rendered inside the link: JSX renders an unset variable as
   * nothing. With the domain configured it is the link's host.
   */
  function DisplayedHost(slug: string, env: Env): (host: string)
    ensures (env.production ==> env.appDomain.Some?) ==> host == UrlHost(GetSubdomainUrl(slug, env))
    ensures env.production && env.appDomain.None? ==> host == slug + "."
  {
    slug + "." + (if env.production && env.appDomain.None? then "" else LinkDomain(env))
  }

  /** The host part of a URL built from a scheme and a host. */
  function UrlHost(url: string): string
  {
    if "https://" <= url then url[|"https://"|..]
    else if "http://" <= url then url[|"http://"|..]
    else url
  }

  /** The configured domain routes subdomains: outside production always, in production when it has two labels. */
  predicate RoutableDomain(env: Env)
  {
    || !env.production
    || (env.appDomain.Some? && (Count(env.appDomain.value, '.') >= 1 || IsDevHost(env.appDomain.value)))
  }

  lemma HttpsHost(host: string)
    ensures UrlHost("https://" + host) == host
  {
    assert ("https://" + host)[|"https://"|..] == host;
  }

  lemma HttpHost(host: string)
    ensures UrlHost("http://" + host) == host
  {
    assert ("http://" + host)[4] == ':';
    assert ("http://" + host)[|"http://"|..] == host;
  }

  /** With the production domain unset, the link goes to `slug.undefined` while the text reads `slug.`. */
  lemma LinkTextWithoutDomain(slug: string)
    ensures UrlHost(GetSubdomainUrl(slug, Env(true, None))) == slug + ".undefined"
    ensures DisplayedHost(slug, Env(true, None)) == slug + "."
  {
  }

  /**
   * The router reads the slug back off the link's host whenever the slug has no
   * dot and is not `localhost`, and the domain is routable.
   */
  lemma LinkHostRoundTrip(slug: string, env: Env)
    requires '.' !in slug && slug != DevMarker
    requires RoutableDomain(env)
    ensures GetSubdomain(UrlHost(GetSubdomainUrl(slug, env))) == Some(slug)
  {
    if !env.production {
      DevMainHostIsDev();
    }
    HostRoundTrip(slug, LinkDomain(env));
  }

  /** A dot-free label in front of a domain with a dot, or of a development domain, is its subdomain. */
  lemma HostRoundTrip(slug: string, domain: string)
    requires '.' !in slug && slug != DevMarker
    requires Count(domain, '.') >= 1 || IsDevHost(domain)
    ensures GetSubdomain(slug + "." + domain) == Some(slug)
  {
    var host := slug + "." + domain;
    SplitPrefix(slug, '.', domain);
    SplitCount(domain, '.');
    if IsDevHost(domain) {
      ContainsInSuffix(slug + ".", domain, DevMarker);
      assert IsDevHost(host);
    }
  }

  /** A whitelisted, active slug's link reaches that alliance's page under every path the router handles. */
  lemma WhitelistedLinkReachesAlliance(rows: seq<WhitelistedAlliance>, slug: string, env: Env, pathname: string)
    requires '.' !in slug && slug != DevMarker && slug != "" && slug != "www"
    requires RoutableDomain(env)
    requires HasActiveSlug(rows, slug)
    requires !IsSkippedPath(pathname)
    ensures Route(UrlHost(GetSubdomainUrl(slug, env)), pathname, EndpointLookup(rows))
      == Rewrite(AlliancePrefix + slug + pathname)
  {
    LinkHostRoundTrip(slug, env);
    RouteAgainstWhitelist(rows, UrlHost(GetSubdomainUrl(slug, env)), pathname, slug);
  }

  /** An empty slug's link has the subdomain "", which the router sends to the main site. */
  lemma EmptySlugLinkPassesThrough(env: Env, pathname: string, lookup: string -> LookupReply)
    ensures Route(UrlHost(GetSubdomainUrl("", env)), pathname, lookup) == Next
  {
    SplitPrefix("", '.', LinkDomain(env));
    assert "" + "." + LinkDomain(env) == "." + LinkDomain(env);
  }

  /** A slug derived from a name never has a dot, so its link routes back to it unless it is `localhost`. */
  lemma DerivedSlugLinkRoundTrip(name: string, env: Env)
    requires Slug.CreateSlugFromName(name) != DevMarker
    requires RoutableDomain(env)
    ensures GetSubdomain(UrlHost(GetSubdomainUrl(Slug.CreateSlugFromName(name), env)))
      == Some(Slug.CreateSlugFromName(name))
  {
    var slug := Slug.CreateSlugFromName(name);
    assert '.' !in slug by {
      forall i | 0 <= i < |slug| ensures slug[i] != '.' {
        assert Slug.IsLowerAlnum(slug[i]) || slug[i] == '-';
      }
    }
    LinkHostRoundTrip(slug, env);
  }
}
