/**
 * What the router's lookup means: the subdomain validation endpoint answers
 * 200 exactly when an active whitelist row carries the requested slug, 404
 * when none does, and 400 for an empty slug.
 */
module ValidateSubdomain {

  import opened Wrappers
  import opened Middleware

  /** A row of the `whitelisted_alliances` table. */
  datatype WhitelistedAlliance = WhitelistedAlliance(
    id: string,
    allianceId: int,
    allianceName: string,
    allianceAcronym: Option<string>,
    slug: string,
    isActive: bool)

  /** Some active row carries `slug`. */
  predicate HasActiveSlug(rows: seq<WhitelistedAlliance>, slug: string)
  {
    exists i :: 0 <= i < |rows| && rows[i].slug == slug && rows[i].isActive
  }

  /** `getAllianceBySlug`: the row filtered on `slug` and `is_active`, or nothing. */
  function GetAllianceBySlug(rows: seq<WhitelistedAlliance>, slug: string): (found: Option<WhitelistedAlliance>)
    ensures found.Some? ==> found.value in rows && found.value.slug == slug && found.value.isActive
    ensures found.None? <==> !HasActiveSlug(rows, slug)
    decreases |rows|
  {
    if rows == [] then None
    else if rows[0].slug == slug && rows[0].isActive then Some(rows[0])
    else
      var found := GetAllianceBySlug(rows[1..], slug);
      assert HasActiveSlug(rows[1..], slug) ==> HasActiveSlug(rows, slug);
      found
  }

  /**
   * The `GET` handler of the validation endpoint, reduced to its status code:
   * 400 for an empty slug, else 200 exactly when an active row carries the
   * slug and 404 when none does.
   */
  function ValidateSubdomainStatus(rows: seq<WhitelistedAlliance>, slug: string): (reply: LookupReply)
    ensures reply.Responded?
    ensures slug == "" ==> reply.status == 400
    ensures slug != "" ==> (reply.status == 200 <==> HasActiveSlug(rows, slug))
    ensures slug != "" ==> (reply.status == 404 <==> !HasActiveSlug(rows, slug))
  {
    if slug == "" then Responded(400)
    else if GetAllianceBySlug(rows, slug).None? then Responded(404)
    else Responded(200)
  }

  /** The router's lookup when it is backed by the endpoint over `rows`. */
  function EndpointLookup(rows: seq<WhitelistedAlliance>): string -> LookupReply
  {
    slug => ValidateSubdomainStatus(rows, slug)
  }

  /** The router accepts a subdomain exactly when an active row has it as its slug. */
  lemma ValidMeansActiveRow(rows: seq<WhitelistedAlliance>, subdomain: string)
    ensures ValidateAllianceSubdomain(EndpointLookup(rows), subdomain)
        <==> subdomain != "" && HasActiveSlug(rows, subdomain)
  {
  }

  /**
   * Backed by the endpoint, a request with an alliance subdomain reaches that
   * alliance's page exactly when an active whitelist row has the subdomain as
   * its slug, and is redirected to the not-found page otherwise.
   */
  lemma RouteAgainstWhitelist(rows: seq<WhitelistedAlliance>, hostname: string, pathname: string, subdomain: string)
    requires !IsSkippedPath(pathname)
    requires GetSubdomain(hostname) == Some(subdomain)
    requires subdomain != "" && subdomain != "www"
    ensures HasActiveSlug(rows, subdomain) ==>
      Route(hostname, pathname, EndpointLookup(rows)) == Rewrite(AlliancePrefix + subdomain + pathname)
    ensures !HasActiveSlug(rows, subdomain) ==>
      Route(hostname, pathname, EndpointLookup(rows)) == Redirect(GetMainDomain(hostname), NotFoundPath)
  {
    ValidMeansActiveRow(rows, subdomain);
  }
}
