# Alliance portal: subdomain routing and slug helpers, in Dafny

This project models the small amount of logic in the alliance-management portal that is not
view or CRUD glue:

- **The hostname router** (`src/middleware.ts`). For every page request it reads the host header.
  It takes a candidate subdomain label from the host. Then it does one of three things: lets the
  request through (`Next`), rewrites the path to `/alliance/<label><path>` (`Rewrite`), or
  redirects to `/subdomain-not-found` on the main domain (`Redirect`).
  - The whitelist lookup is an HTTP fetch in the source. Here it is the parameter
    `lookup: string -> LookupReply`: the lookup either answers with a status code or throws.
  - `ValidateSubdomain` gives that lookup its meaning from the validation endpoint and
    `getAllianceBySlug`. The lookup answers 200 exactly when an active whitelist row carries the slug.
- **Slug derivation** (`createSlugFromName`). The pipeline has five stages: lowercase, strip
  special characters, hyphenate whitespace runs, collapse hyphen runs, trim.
- **Admin settings helpers**: the input type and display name of a setting key. Also the map of
  edited values. It is filled by a loop over the loaded settings and changed one key at a time.
  This is the `SettingsForm` class.
- **The whitelisted-alliance link** (`getSubdomainUrl`). This includes the cross-file round trip:
  the router reads a whitelisted slug back off the host of the link the admin panel advertises.

Files: `wrappers.dfy` (Option), `strings.dfy` (JavaScript `split`, `join`, `includes`),
`middleware.dfy`, `validate_subdomain.dfy`, `slug.dfy`, `admin_settings.dfy`,
`whitelisted_alliances.dfy`.

Points where the code behaves in a way worth knowing:
- `getSubdomainUrl` (src/components/admin/WhitelistedAlliances.tsx:50-58) uses the slug as a host
  label. The final `.trim()` of `createSlugFromName` (src/lib/pnw-api.ts:178) removes only
  whitespace, and none is left by then, so a slug can start or end with a hyphen
  (`Slug.SlugKeepsOuterHyphens`). See Findings.
- `hostname.includes('localhost')` (src/middleware.ts:46, 64) makes any host that contains that
  text anywhere a development host, not only `localhost` and its subdomains (`Middleware.IsDevHost`).
- An empty first label (host `.example.com`) is a subdomain `""` for `getSubdomain`. The router's
  truthiness test treats it as no subdomain (`Middleware.MainSiteIgnoresLookup`).

## Model

| member | source | states |
|---|---|---|
| Middleware.GetSubdomain | src/middleware.ts:44-61 | a subdomain, when one is found, never contains a dot |
| Middleware.ProductionSubdomain | src/middleware.ts:54-60 | on a host without `localhost`, a subdomain is found iff the host has at least two dots, and it is the text before the first dot |
| Middleware.DevSubdomain | src/middleware.ts:45-52 | on a host containing `localhost`, a subdomain is found iff the host has a dot and does not begin with the label `localhost`, and it is the text before the first dot |
| Middleware.FirstLabelUnique | src/middleware.ts:47-49 | the dot-free text followed by the first dot of a host is unique |
| Middleware.GetMainDomain | src/middleware.ts:63-74 | a host containing `localhost` gets `localhost:3000`; any other host gets a suffix of itself that starts right after a dot (or is the whole host), holds exactly one dot when the host has any and none otherwise, and is not a development host |
| Middleware.LastTwoLabels | src/middleware.ts:68-73 | the last two labels are a suffix of the host that starts right after a dot (or is the whole host), with one dot when the host has any and none otherwise |
| Middleware.MainDomainIsLastTwoLabels | src/middleware.ts:63-74 | a production host that ends, right after a dot or at its start, in a two-label domain has that domain as its main domain |
| Middleware.MainDomainIdempotent | src/middleware.ts:63-74 | taking the main domain of a main domain changes nothing |
| Middleware.MainDomainHasNoSubdomain | src/middleware.ts:44-74 | the main domain of any host has no subdomain |
| Middleware.DevMainHostIsDev | src/middleware.ts:64-66 | `localhost:3000` is a one-label development host that is its own main domain and has no subdomain |
| Middleware.MainDomainOfFewLabels | src/middleware.ts:68-73 | a production host with at most one dot is its own main domain |
| Middleware.ValidateAllianceSubdomain | src/middleware.ts:76-86 | a subdomain is valid only if the lookup answered; a lookup that throws never validates |
| Middleware.Route | src/middleware.ts:4-42 | a request passes through iff its path is skipped or its host has no alliance subdomain (present, non-empty, not `www`); a redirect goes to `/subdomain-not-found` on the main domain and only for a subdomain the lookup rejected; a rewrite goes to `/alliance/<sub><path>` and only for a subdomain the lookup accepted |
| Middleware.SkippedPathPassesThrough | src/middleware.ts:12-19 | paths under `/_next`, `/api`, `/static`, `/auth` or containing a dot pass through whatever the host and the lookup |
| Middleware.MainSiteIgnoresLookup | src/middleware.ts:22-41 | no subdomain, the empty subdomain and `www` pass through whatever the lookup answers |
| Middleware.AllianceSubdomainDecision | src/middleware.ts:22-38 | an alliance subdomain is rewritten to `/alliance/<sub><path>` when the lookup answers 2xx and redirected to `/subdomain-not-found` on the main domain on any other status or a throw |
| Middleware.RewriteOnlyForAcceptedSubdomain | src/middleware.ts:34-37 | every rewrite comes from a subdomain the lookup accepted, starts with `/alliance/` and the subdomain, and ends with the original path |
| Middleware.FailClosed | src/middleware.ts:25-31 | a lookup that always throws never produces a rewrite |
| Middleware.RedirectTargetPassesThrough | src/middleware.ts:27-31 | the redirect goes to `/subdomain-not-found` on a host whose requests all pass through |
| ValidateSubdomain.GetAllianceBySlug | src/lib/db.ts:59-69 | the row found is an active row with the requested slug, and none is found iff no active row has it |
| ValidateSubdomain.ValidateSubdomainStatus | src/app/api/alliances/validate-subdomain/route.ts:5-36 | the endpoint answers 400 for an empty slug; otherwise 200 iff an active row carries the slug and 404 iff none does |
| ValidateSubdomain.ValidMeansActiveRow | src/app/api/alliances/validate-subdomain/route.ts:10-36 | backed by the endpoint, the router's lookup accepts a subdomain iff it is non-empty and an active row has it as slug |
| ValidateSubdomain.RouteAgainstWhitelist | src/middleware.ts:22-38 | backed by the endpoint, an alliance subdomain is rewritten iff an active row carries it, and redirected otherwise |
| Strings.Split | src/middleware.ts:47 | a split gives at least one piece and no piece contains the separator |
| Strings.JoinSplit | src/middleware.ts:68-70 | joining the pieces of a split on `.` gives back the host |
| Strings.SplitJoin | src/middleware.ts:68-70 | splitting a join of dot-free labels gives back the labels |
| Slug.ToLower | src/lib/pnw-api.ts:174 | lowercasing keeps the length and maps each character on its own |
| Slug.ToLowerIdentity | src/lib/pnw-api.ts:174 | a string without upper-case letters is unchanged by lowercasing |
| Slug.RemoveSpecial | src/lib/pnw-api.ts:175 | after removal only `[a-z0-9\s-]` characters remain, each of them as often as in the input, and the string is no longer |
| Slug.RemoveSpecialAppend | src/lib/pnw-api.ts:175 | the removal on a concatenation is the concatenation of the removals, so the kept characters keep their order |
| Slug.RemoveSpecialChar | src/lib/pnw-api.ts:175 | a single character is kept exactly when it is in `[a-z0-9\s-]`, and otherwise dropped |
| Slug.RemoveSpecialIdentity | src/lib/pnw-api.ts:175 | a string of `[a-z0-9\s-]` characters is unchanged by the removal |
| Slug.SkipRun | src/lib/pnw-api.ts:176-177 | the part after a leading run is a suffix that does not start with the run's kind, and everything skipped is of that kind |
| Slug.ReplaceRuns | src/lib/pnw-api.ts:176-177 | replacing runs never lengthens the string, and no character of the run's kind survives except as a `-` |
| Slug.ReplaceRunsChars | src/lib/pnw-api.ts:176-177 | each result character is `-` or a character of the input |
| Slug.ReplaceRunsAround | src/lib/pnw-api.ts:176-177 | a run between two pieces of text that do not continue it becomes exactly one hyphen, and each piece is replaced on its own |
| Slug.ReplaceRunsIdentity | src/lib/pnw-api.ts:176-177 | a string without a character of the run's kind is unchanged |
| Slug.ReplaceRunsAlnums | src/lib/pnw-api.ts:176-177 | replacing runs keeps every letter and digit in order |
| Slug.RemoveSpecialAlnums | src/lib/pnw-api.ts:175 | removing special characters keeps every letter and digit in order |
| Slug.CollapseHyphensNoDouble | src/lib/pnw-api.ts:177 | after collapsing, no two hyphens are adjacent |
| Slug.CollapseHyphensIdentity | src/lib/pnw-api.ts:177 | collapsing leaves a string without a double hyphen unchanged |
| Slug.TrimStart | src/lib/pnw-api.ts:178 | the result is a suffix that does not start with whitespace, and everything dropped is whitespace |
| Slug.TrimEnd | src/lib/pnw-api.ts:178 | the result is a prefix that does not end with whitespace, and everything dropped is whitespace |
| Slug.Trim | src/lib/pnw-api.ts:178 | the result is the slice of the input between its leading and its trailing whitespace (only whitespace is dropped, and only at the ends), neither end of it is whitespace, and a string without whitespace is unchanged |
| Slug.CreateSlugFromName | src/lib/pnw-api.ts:172-179 | a slug contains only `a`-`z`, `0`-`9` and `-`, never two hyphens in a row, is no longer than its name, and its letters and digits are exactly the lowercased name's letters and digits, in order |
| Slug.PipelineFacts | src/lib/pnw-api.ts:172-179 | the slug equals the collapsed string (the trim is a no-op), is in `[a-z0-9-]`, has no double hyphen, is no longer than the name and keeps its letters and digits |
| Slug.SlugIdempotent | src/lib/pnw-api.ts:172-179 | deriving a slug from a slug gives the same slug |
| Slug.SlugAlphabetIsFixed | src/lib/pnw-api.ts:172-179 | a string of lower-case letters, digits and single hyphens comes out of the pipeline unchanged |
| Slug.SlugWithoutAlnums | src/lib/pnw-api.ts:175-177 | a name without letters or digits gives `""` or `"-"` |
| Slug.SlugOfTwoWords | src/lib/pnw-api.ts:172-179 | two lower-case words separated by one space, such as `"acme corp"`, give the words joined by one hyphen |
| Slug.SlugKeepsOuterHyphens | src/lib/pnw-api.ts:176-178 | a lower-case word between two spaces, such as `" acme "`, gives the word between two hyphens: the outer hyphens survive the trim |
| Slug.TrimHyphensShape | src/lib/pnw-api.ts:178 | trimming outer hyphens of a slug-alphabet string gives a label-shaped string with the same letters and digits (corrected derivation, see Findings) |
| Slug.TrimmedSlugShape | src/lib/pnw-api.ts:172-179 | the slug with outer hyphens trimmed is label-shaped (no outer or double hyphen) and keeps the name's letters and digits (corrected derivation, see Findings) |
| Slug.TrimmedSlugIdempotent | src/lib/pnw-api.ts:172-179 | the hyphen-trimmed derivation is idempotent (corrected derivation, see Findings) |
| Slug.TrimmedSlugOfSpacedName | src/lib/pnw-api.ts:172-179 | with hyphens trimmed, a lower-case word between two spaces, such as `" acme "`, gives the bare word (corrected derivation, see Findings) |
| AdminSettings.GetInputType | src/components/admin/AdminSettings.tsx:82-87 | the type is one of `password`, `email`, `url`, `text`; `api_key` wins over `email`, which wins over `url`; `text` iff none occurs |
| AdminSettings.GetDisplayName | src/components/admin/AdminSettings.tsx:89-94 | the display name has the key's length; each `_` becomes a space in place, the first character of each word is upper-cased, all others are unchanged |
| AdminSettings.DisplayNameMatchesReference | src/components/admin/AdminSettings.tsx:90-93 | split, capitalise and join equals a character-by-character reference definition |
| AdminSettings.DisplayNameHasNoUnderscore | src/components/admin/AdminSettings.tsx:89-94 | no `_` is left in a display name |
| AdminSettings.DisplayNameOfFirstWord | src/components/admin/AdminSettings.tsx:90-93 | a leading word is capitalised and its `_` becomes a space before the rest's display name |
| AdminSettings.DisplayNameOfApiKey | src/components/admin/AdminSettings.tsx:89-94 | `api_key` is shown as `Api Key` |
| AdminSettings.DisplayNameDoubleUnderscore | src/components/admin/AdminSettings.tsx:90-93 | `a__b` is shown as `A  B`: an empty word gives two spaces in a row |
| AdminSettings.DisplayNameWords | src/components/admin/AdminSettings.tsx:90-93 | for a key without spaces, splitting the display name on spaces gives the key's capitalised `_`-words |
| AdminSettings.InitialValues | src/components/admin/AdminSettings.tsx:32-35 | the initial values hold exactly the keys of the loaded settings |
| AdminSettings.InitialValuesLastWins | src/components/admin/AdminSettings.tsx:32-35 | each key maps to the value of the last row with that key, a missing value as `""` |
| AdminSettings.BuildInitialValues | src/components/admin/AdminSettings.tsx:32-35 | the `forEach` loop builds exactly the initial-values map |
| AdminSettings.SettingsForm.LoadSettings | src/components/admin/AdminSettings.tsx:25-43 | a successful reply replaces the settings and resets the values from them; a failed or unsuccessful one changes nothing |
| AdminSettings.SettingsForm.HandleValueChange | src/components/admin/AdminSettings.tsx:75-80 | the key is set to the value, no key is lost, and every other key keeps its value |
| WhitelistedAlliances.GetSubdomainUrl | src/components/admin/WhitelistedAlliances.tsx:50-58 | the link uses `https` in production and `http` otherwise, and its host is the slug under the domain |
| WhitelistedAlliances.DisplayedHost | src/components/admin/WhitelistedAlliances.tsx:144-146 | with the domain configured, or outside production, the host text shown is the link's host; with the production domain unset it is the slug and a dot |
| WhitelistedAlliances.LinkTextWithoutDomain | src/components/admin/WhitelistedAlliances.tsx:139-146 | with the production domain unset, the link points at `slug.undefined` while the text reads `slug.` |
| WhitelistedAlliances.HostRoundTrip | src/middleware.ts:44-61 | a dot-free label other than `localhost`, in front of a domain with a dot or containing `localhost`, is read back as the subdomain |
| WhitelistedAlliances.LinkHostRoundTrip | src/components/admin/WhitelistedAlliances.tsx:50-58 | the router reads the slug back off the link's host (slug without dot, not `localhost`; dev, or a production domain with two labels) |
| WhitelistedAlliances.WhitelistedLinkReachesAlliance | src/components/admin/WhitelistedAlliances.tsx:50-58 | an active whitelisted slug's link is rewritten to that alliance's page under every routed path |
| WhitelistedAlliances.EmptySlugLinkPassesThrough | src/components/admin/WhitelistedAlliances.tsx:50-58 | an empty slug's link reaches the main site, not an alliance page, whatever the domain |
| WhitelistedAlliances.DerivedSlugLinkRoundTrip | src/lib/pnw-api.ts:172-179 | a derived slug has no dot, so its link routes back to it unless the slug is `localhost` |

## Findings

| source | as written | input that shows it | evidently intended | confidence | as-written member | corrected member |
|---|---|---|---|---|---|---|
| src/lib/pnw-api.ts:176-178 | `.trim()` runs after whitespace has become hyphens, so leading and trailing hyphens stay in the slug and in the subdomain label | `" acme "` gives `"-acme-"`, advertised as `https://-acme-.<domain>` | a slug without outer hyphens (the final trim applied to the separators), a well-formed host label | medium; not executed | Slug.SlugKeepsOuterHyphens | Slug.TrimmedSlugShape |

The router takes slugs from whitelist rows, not from the derivation, so no other part of the model
depends on which of the two derivations is used. `Slug.CreateSlugFromName` stays the one the
portal runs; `Slug.CreateSlugFromNameTrimmed` is the corrected one.

## Left out

- Slug.ToLower: case mapping is modelled for ASCII letters only. `toLowerCase` maps other letters too (the Kelvin sign to `k`, `İ` to `i` plus a combining dot), and the model does not.
- AdminSettings.GetDisplayName: `toUpperCase` is modelled for ASCII letters only (`ß` becomes `SS` in JavaScript, which changes the length).
- The fetch inside `validateAllianceSubdomain` is the `lookup` parameter. Its URL, built by unescaped interpolation of the subdomain into a query string, is not modelled; the endpoint is taken to receive the subdomain as is.
- ValidateSubdomain.GetAllianceBySlug: returns the first active row with the slug. `.single()` errors when two active rows share a slug, and the model relies on the whitelist keeping slugs unique among active rows.
- The validation endpoint's catch-all 500 response is not modelled: `getAllianceBySlug` turns database errors into "not found".
- URL objects are plain strings: `nextUrl.clone()`, query-string preservation on rewrite and the URL Standard's hostname setter are not modelled. `Redirect` carries the host string `getMainDomain` returns.
- Middleware.RedirectTargetPassesThrough: holds for that plain-string host only. Under the URL Standard, setting `url.hostname` (src/middleware.ts:30) to a value containing `:` fails and leaves the host unchanged. The setter therefore applies only when the Host header carries no port. On a host with a port, every development host included, the main domain keeps that port (`localhost:3000`, or `example.com:8443` for `ghost.example.com:8443`), the assignment is ignored, the redirect goes to `/subdomain-not-found` on the rejected subdomain's own host, and the router rejects that subdomain again.
- AdminSettings.InitialValues: a map from every key. The source stores into a plain object (src/components/admin/AdminSettings.tsx:34), where the inherited `__proto__` setter ignores the assigned value (always a string there) and so stores no entry for that key, so for that key the stated key set is wider than the source's.
- The middleware `matcher` pattern (src/middleware.ts:88-99) is framework-level path filtering.
- `saveSetting` (a network round trip followed by a reload) and all rendering, loading and error state of the admin components.
- The GraphQL functions of src/lib/pnw-api.ts, the API route handlers, NextAuth configuration, the Supabase clients and every page are network I/O or views.
- Date and number formatting (`toLocaleDateString`, `toLocaleString`).
- Concurrency: each request is routed independently, and the model is a pure function per request.
