/**
 * The hostname router that runs before every page request: it reads the
 * subdomain label off the host header and either lets the request through,
 * rewrites it to the alliance page for that label, or redirects to the
 * "not found" page on the main domain.
 *
 * The whitelist lookup, which the source performs with an HTTP fetch, is the
 * parameter `lookup`: it either answers with a status code or throws.
 */
module Middleware {

  import opened Wrappers
  import opened Strings

  const DevMarker: string := "localhost"
  const DevMainHost: string := "localhost:3000"
  const NotFoundPath: string := "/subdomain-not-found"
  const AlliancePrefix: string := "/alliance/"

  /** The three outcomes of the middleware: `NextResponse.next`, `.redirect` and `.rewrite`. */
  datatype Response = Next | Redirect(host: string, path: string) | Rewrite(path: string)

  /** What the whitelist fetch gives back: a response with its status, or an exception. */
  datatype LookupReply = Responded(status: int) | Threw

  /** The host counts as a development host when it merely contains `localhost` anywhere. */
  predicate IsDevHost(hostname: string)
  {
    Contains(hostname, DevMarker)
  }

  /** `getSubdomain`: the first dot-separated label, when the host has one to spare. */
  function GetSubdomain(hostname: string): (subdomain: Option<string>)
    ensures subdomain.Some? ==> '.' !in subdomain.value
  {
    var parts := Split(hostname, '.');
    if IsDevHost(hostname) then
      if |parts| > 1 && parts[0] != DevMarker then Some(parts[0]) else None
    else if |parts| >= 3 then Some(parts[0])
    else None
  }

  /**
   * `getMainDomain`: the fixed development host, or else a suffix of the host
   * that starts at a label boundary and holds exactly one dot when the host has
   * any; together these pin it to the last two labels.
   */
  function GetMainDomain(hostname: string): (main: string)
    ensures IsDevHost(hostname) ==> main == DevMainHost
    ensures !IsDevHost(hostname) ==>
      && IsLabelSuffix(main, hostname)
      && Count(main, '.') == (if Count(hostname, '.') >= 1 then 1 else 0)
      && !IsDevHost(main)
  {
    if IsDevHost(hostname) then DevMainHost
    else
      var main := LastTwoLabels(hostname);
      var front := hostname[..|hostname| - |main|];
      assert hostname == front + main;
      assert IsDevHost(main) ==> IsDevHost(hostname) by {
        if IsDevHost(main) {
          ContainsInSuffix(front, main, DevMarker);
        }
      }
      main
  }

  /** `suffix` ends `h` and begins right after a dot of `h`, or is all of `h`. */
  predicate IsLabelSuffix(suffix: string, h: string)
  {
    && |suffix| <= |h|
    && h[|h| - |suffix|..] == suffix
    && (|suffix| == |h| || h[|h| - |suffix| - 1] == '.')
  }

  /**
   * The last two dot-separated labels of the host, or the whole host when it
   * has one label: a suffix starting at a label boundary, with one dot when the
   * host has any.
   */
  function LastTwoLabels(hostname: string): (main: string)
    ensures IsLabelSuffix(main, hostname)
    ensures Count(main, '.') == if Count(hostname, '.') >= 1 then 1 else 0
  {
    var parts := Split(hostname, '.');
    SplitCount(hostname, '.');
    if |parts| >= 2 then
      LastTwoPieces(hostname);
      Join(parts[|parts| - 2..], '.')
    else hostname
  }

  /** The last two pieces of a host with a dot, joined again, form a label suffix with one dot. */
  lemma LastTwoPieces(hostname: string)
    requires |Split(hostname, '.')| >= 2
    ensures var parts := Split(hostname, '.');
      var main := Join(parts[|parts| - 2..], '.');
      IsLabelSuffix(main, hostname) && Count(main, '.') == 1
  {
    var parts := Split(hostname, '.');
    var n := |parts|;
    var main := Join(parts[n - 2..], '.');
    JoinSplit(hostname, '.');
    JoinLastTwo(parts, '.');
    assert '.' !in parts[n - 2] && '.' !in parts[n - 1];
    assert multiset(main) == multiset(parts[n - 2]) + multiset{'.'} + multiset(parts[n - 1]);
  }

  /** The paths the middleware leaves alone: framework assets, API routes, static files, files, auth pages. */
  predicate IsSkippedPath(pathname: string)
  {
    || "/_next" <= pathname
    || "/api" <= pathname
    || "/static" <= pathname
    || '.' in pathname
    || "/auth" <= pathname
  }

  /** `validateAllianceSubdomain`: `response.ok` of the lookup, and `false` when it throws. */
  function ValidateAllianceSubdomain(lookup: string -> LookupReply, subdomain: string): (valid: bool)
    ensures valid ==> lookup(subdomain).Responded?
  {
    match lookup(subdomain)
    case Responded(status) => 200 <= status <= 299
    case Threw => false
  }

  /** The host carries a subdomain that names an alliance: present, not empty and not `www`. */
  predicate HasAllianceSubdomain(hostname: string)
  {
    GetSubdomain(hostname).Some? && GetSubdomain(hostname).value != "" && GetSubdomain(hostname).value != "www"
  }

  /**
   * `middleware`, as a decision on the host header and path: a request passes
   * through exactly when its path is skipped or its host has no alliance
   * subdomain; otherwise a subdomain the lookup rejects is redirected to the
   * not-found page on the main domain, and one it accepts is rewritten to the
   * alliance page under the original path.
   */
  function Route(hostname: string, pathname: string, lookup: string -> LookupReply): (r: Response)
    ensures r == Next <==> IsSkippedPath(pathname) || !HasAllianceSubdomain(hostname)
    ensures r.Redirect? ==>
      && !ValidateAllianceSubdomain(lookup, GetSubdomain(hostname).value)
      && r == Redirect(GetMainDomain(hostname), NotFoundPath)
    ensures r.Rewrite? ==>
      && ValidateAllianceSubdomain(lookup, GetSubdomain(hostname).value)
      && r.path == AlliancePrefix + GetSubdomain(hostname).value + pathname
  {
    var subdomain := GetSubdomain(hostname);
    if IsSkippedPath(pathname) then Next
    else if subdomain.Some? && subdomain.value != "" && subdomain.value != "www" then
      if !ValidateAllianceSubdomain(lookup, subdomain.value) then
        Redirect(GetMainDomain(hostname), NotFoundPath)
      else
        Rewrite(AlliancePrefix + subdomain.value + pathname)
    else Next
  }

  // ---------------------------------------------------------------------------
  // Subdomain extraction

  /**
   * On a production host, a subdomain is found exactly when the host has at
   * least two dots; it is then the text before the first dot.
   */
  lemma ProductionSubdomain(hostname: string)
    requires !IsDevHost(hostname)
    ensures GetSubdomain(hostname).Some? <==> Count(hostname, '.') >= 2
    ensures GetSubdomain(hostname).Some? ==> GetSubdomain(hostname).value + "." <= hostname
  {
    SplitCount(hostname, '.');
    SplitFirst(hostname, '.');
  }

  /**
   * On a development host, a subdomain is found exactly when the host has a
   * dot and does not begin with the label `localhost`; it is then the text
   * before the first dot.
   */
  lemma DevSubdomain(hostname: string)
    requires IsDevHost(hostname)
    ensures GetSubdomain(hostname).Some? <==> '.' in hostname && !(DevMarker + "." <= hostname)
    ensures GetSubdomain(hostname).Some? ==> GetSubdomain(hostname).value + "." <= hostname
  {
    var parts := Split(hostname, '.');
    SplitCount(hostname, '.');
    SplitFirst(hostname, '.');
    if '.' in hostname {
      FirstLabelUnique(hostname, parts[0], DevMarker);
    }
  }

  /** Two dot-free labels that are both followed by a dot at the start of `h` are the same label. */
  lemma FirstLabelUnique(h: string, a: string, b: string)
    requires '.' !in a && '.' !in b
    requires a + "." <= h
    ensures b + "." <= h <==> a == b
  {
    if b + "." <= h {
      assert h[|a|] == '.' && h[|b|] == '.';
      assert forall i :: 0 <= i < |a| && i < |b| ==> a[i] == h[i] == b[i];
      assert |a| == |b|;
    }
  }

  // ---------------------------------------------------------------------------
  // Main domain

  /**
   * A production host that ends, right after a dot or at its start, in a
   * domain of two labels has that domain as its main domain: the main domain
   * of `acme.example.com` and of `x.acme.example.com` is `example.com`.
   */
  lemma MainDomainIsLastTwoLabels(front: string, domain: string)
    requires !IsDevHost(front + domain)
    requires Count(domain, '.') == 1
    requires front == [] || front[|front| - 1] == '.'
    ensures GetMainDomain(front + domain) == domain
  {
    var h := front + domain;
    var main := GetMainDomain(h);
    assert multiset(h) == multiset(front) + multiset(domain);
    assert h[|front|..] == domain;
    assert |front| > 0 ==> h[|front| - 1] == '.';
    if |main| < |domain| {
      LongerLabelSuffix(h, main, domain);
    } else if |main| > |domain| {
      LongerLabelSuffix(h, domain, main);
    }
  }

  /** Of two label suffixes of the same host, the longer one has more dots. */
  lemma LongerLabelSuffix(h: string, short: string, long: string)
    requires IsLabelSuffix(short, h) && IsLabelSuffix(long, h)
    requires |short| < |long|
    ensures Count(long, '.') > Count(short, '.')
  {
    var mid := long[..|long| - |short|];
    assert long == mid + short;
    assert mid[|mid| - 1] == h[|h| - |short| - 1] == '.';
    assert mid == mid[..|mid| - 1] + ['.'];
    assert multiset(long) == multiset(mid[..|mid| - 1]) + multiset{'.'} + multiset(short);
  }

  /** Taking the main domain twice changes nothing more. */
  lemma MainDomainIdempotent(hostname: string)
    ensures GetMainDomain(GetMainDomain(hostname)) == GetMainDomain(hostname)
  {
    var main := GetMainDomain(hostname);
    if IsDevHost(hostname) {
      DevMainHostIsDev();
    } else {
      MainDomainOfFewLabels(main);
    }
  }

  /** The main domain never has a subdomain of its own. */
  lemma MainDomainHasNoSubdomain(hostname: string)
    ensures GetSubdomain(GetMainDomain(hostname)) == None
  {
    var main := GetMainDomain(hostname);
    if IsDevHost(hostname) {
      DevMainHostIsDev();
    } else {
      SplitCount(main, '.');
    }
  }

  /** `localhost:3000` is a development host, and is a single label. */
  lemma DevMainHostIsDev()
    ensures IsDevHost(DevMainHost)
    ensures Split(DevMainHost, '.') == [DevMainHost]
    ensures GetMainDomain(DevMainHost) == DevMainHost
    ensures GetSubdomain(DevMainHost) == None
  {
    assert DevMarker <= DevMainHost;
    SplitNoSep(DevMainHost, '.');
  }

  /** A production host with at most one dot is its own main domain. */
  lemma MainDomainOfFewLabels(hostname: string)
    requires !IsDevHost(hostname)
    requires Count(hostname, '.') <= 1
    ensures GetMainDomain(hostname) == hostname
  {
    var parts := Split(hostname, '.');
    SplitCount(hostname, '.');
    JoinSplit(hostname, '.');
    if |parts| == 2 {
      assert parts[|parts| - 2..] == parts;
    }
  }

  // ---------------------------------------------------------------------------
  // Routing decisions

  /** Skipped paths pass through whatever the host and whatever the lookup answers. */
  lemma SkippedPathPassesThrough(hostname: string, pathname: string, lookup: string -> LookupReply)
    requires IsSkippedPath(pathname)
    ensures Route(hostname, pathname, lookup) == Next
  {
  }

  /** A missing, empty or `www` subdomain passes through without consulting the lookup. */
  lemma MainSiteIgnoresLookup(hostname: string, pathname: string, lookup: string -> LookupReply)
    requires GetSubdomain(hostname) in {None, Some(""), Some("www")}
    ensures Route(hostname, pathname, lookup) == Next
  {
  }

  /**
   * Every request with an alliance subdomain is decided by the lookup alone:
   * a rewrite to the alliance page under the original path when it answers
   * with a success status, a redirect to the not-found page on the main domain
   * otherwise, including when it throws.
   */
  lemma AllianceSubdomainDecision(hostname: string, pathname: string, lookup: string -> LookupReply, subdomain: string)
    requires !IsSkippedPath(pathname)
    requires GetSubdomain(hostname) == Some(subdomain)
    requires subdomain != "" && subdomain != "www"
    ensures lookup(subdomain).Responded? && 200 <= lookup(subdomain).status <= 299 ==>
      Route(hostname, pathname, lookup) == Rewrite(AlliancePrefix + subdomain + pathname)
    ensures lookup(subdomain) == Threw || !(200 <= lookup(subdomain).status <= 299) ==>
      Route(hostname, pathname, lookup) == Redirect(GetMainDomain(hostname), NotFoundPath)
  {
  }

  /**
   * A rewrite happens only for a subdomain the lookup accepted, and its path
   * starts with `/alliance/`, then the subdomain, and ends with the original path.
   */
  lemma RewriteOnlyForAcceptedSubdomain(hostname: string, pathname: string, lookup: string -> LookupReply)
    requires Route(hostname, pathname, lookup).Rewrite?
    ensures GetSubdomain(hostname).Some?
    ensures ValidateAllianceSubdomain(lookup, GetSubdomain(hostname).value)
    ensures var path := Route(hostname, pathname, lookup).path;
      && AlliancePrefix + GetSubdomain(hostname).value <= path
      && path[|path| - |pathname|..] == pathname
  {
    var subdomain := GetSubdomain(hostname).value;
    var path := AlliancePrefix + subdomain + pathname;
    assert path[..|AlliancePrefix + subdomain|] == AlliancePrefix + subdomain;
    assert path[|path| - |pathname|..] == pathname;
  }

  /** A lookup that throws never lets a request through to an alliance page. */
  lemma FailClosed(hostname: string, pathname: string, lookup: string -> LookupReply)
    requires forall s :: lookup(s) == Threw
    ensures !Route(hostname, pathname, lookup).Rewrite?
  {
  }

  /** The not-found redirect lands on a host that itself passes through, for every path. */
  lemma RedirectTargetPassesThrough(hostname: string, pathname: string, lookup: string -> LookupReply, pathname': string)
    requires Route(hostname, pathname, lookup).Redirect?
    ensures Route(hostname, pathname, lookup).path == NotFoundPath
    ensures Route(Route(hostname, pathname, lookup).host, pathname', lookup) == Next
  {
    MainDomainHasNoSubdomain(hostname);
  }
}
