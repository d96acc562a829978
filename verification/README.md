# SSRF pre-flight guard, modelled in Dafny

This project models the SSRF (server-side request forgery) guard of the
`request` HTTP client, `lib/ssrf-protection.js`. Before a request goes out,
the guard decides whether its URL may be fetched. It has three parts:

- the **range matcher** `isIPInRange`: is an address inside a CIDR block?
- the **host classifier** `isPrivateHost`: does a hostname resolve into one of the
  default private blocks?
- the **URL validator** `validateUrl`, and the middleware `createSSRFProtection`
  builds around it. The validator is a short-circuiting chain: input guard, URL
  parse, protocol allow-list, lower-cased host blocklist, `localhost` /
  `.localhost` / `.local` suffix rule, then the address check. The address
  check is a range test for IP literals and a DNS lookup for names.

Files:

- `ipaddr.dfy` (module `IpAddr`): parsed addresses as `ipaddr.js` holds them.
  That is four octets for IPv4 or eight 16-bit groups for IPv6. The module
  gives the part-by-part `match` and proves it equal to "the first prefixLen
  bits agree".
- `config.dfy` (module `SsrfConfig`): `DEFAULT_BLOCKED_RANGES`, the default
  protocols and hosts, `DEFAULT_CONFIG`, and the spread merge
  `{ ...DEFAULT_CONFIG, ...config }`.
- `ssrf_protection.dfy` (module `SsrfProtection`): `isIPInRange`, `.some` over
  ranges, `isPrivateHost`, `validateUrl` and the middleware.
- `ssrf_properties.dfy` (module `SsrfProperties`): the properties the guard
  promises, as lemmas.

The guard calls out to other code: the WHATWG `URL` parser, `net.isIP`,
`ipaddr.parse`, `ipaddr.parseCIDR`, `dns.lookup` and `url.format`. Each is a
field of the record `Env`, a total function with no fixed behaviour. A throw
becomes `None`. When `url.format` throws, the middleware's promise rejects with
that error, which is none of the validator's seven reasons; the model gives it
the outcome `FormatFailed`. `dns.lookup` yields the address text or `None` (error or
throw), because the code re-parses that text. Lemmas that need the default
range strings read as the blocks they name take the hypothesis
`ReadsDefaultRanges(env)`.

The model follows the code on these points, some of which a stricter SSRF guard would handle differently:

- The code inspects the single address `dns.lookup` returns, not every address
  a name has.
- A resolved address is tested against `DEFAULT_BLOCKED_RANGES` only. A
  caller's `blockedRanges` applies to IP literals alone.
- The protocol check runs before the host blocklist. So a blocked host with a
  refused protocol gets "Protocol not allowed".
- `127.0.0.1` and `0.0.0.0` are in the default host blocklist. They are
  rejected as "Hostname blocked" before any range test.
- `validateUrl` refuses any non-string input, objects included. Only the
  middleware turns a URL object into a string.
- The URL parser keeps an IPv6 literal in brackets (`[::1]`), and `net.isIP`
  does not accept the bracketed form. Such hosts therefore take the resolver
  path, and if the lookup fails they are approved whatever the ranges say
  (`ResolverFailureIsNotBlocked`).

## Model

| member | source | states |
|---|---|---|
| `IpAddr.Match` | lib/ssrf-protection.js:63 | `addr.match(range)`: None (the thrown error) exactly when the families differ; otherwise true exactly when the first prefixLen bits of the address equal those of the network |
| `IpAddr.MatchPartsIsPrefix` | lib/ssrf-protection.js:63 | the part-by-part shift comparison over octets or 16-bit groups agrees with comparing the first cidrBits bits of the whole address |
| `IpAddr.NetworkInOwnRange` | lib/ssrf-protection.js:59-67 | a block's network address lies in the block |
| `IpAddr.ZeroPrefixHoldsFamily` | lib/ssrf-protection.js:59-67 | a /0 block holds every address of its family |
| `IpAddr.FullPrefixIsEquality` | lib/ssrf-protection.js:59-67 | a /32 or /128 block holds exactly its network address |
| `IpAddr.ShorterPrefixStillHolds` | lib/ssrf-protection.js:59-67 | widening a block (shorter prefix, same network) keeps every address it held |
| `SsrfConfig.Merge` | lib/ssrf-protection.js:99 | a field the caller gives replaces the default, every other field keeps the default |
| `SsrfConfig.MergeNothingIsBase` | lib/ssrf-protection.js:97-99 | with `config = {}` the validator runs on exactly `DEFAULT_CONFIG` |
| `SsrfConfig.RemergeIsIdentity` | lib/ssrf-protection.js:166 | merging a complete configuration over the defaults gives it back, so the middleware's config survives validateUrl's second merge |
| `SsrfConfig.MergeIdempotent` | lib/ssrf-protection.js:166 | merging twice over the defaults equals merging once |
| `SsrfProtection.IsIPInRange` | lib/ssrf-protection.js:59-67 | never throws; true exactly when both texts parse and the address lies in the block (same family, equal prefix); false on any parse failure or family mismatch |
| `SsrfProtection.AnyRangeContains` | lib/ssrf-protection.js:141-143 | `.some` over the ranges: true exactly when some entry contains the address |
| `SsrfProtection.IsPrivateHost` | lib/ssrf-protection.js:72-92 | a failed lookup or empty address is not private; otherwise private exactly when some DEFAULT range contains the resolved address |
| `SsrfProtection.Lower` | lib/ssrf-protection.js:120 | the lower-cased hostname is the same as the original up to the case of ASCII letters, and contains no upper-case letter |
| `SsrfProtection.LowerEqIffSameUpToCase` | lib/ssrf-protection.js:120 | two hostnames lower-case to the same string exactly when they differ only in the case of ASCII letters |
| `SsrfProtection.LowerOfLowerCase` | lib/ssrf-protection.js:120 | a hostname with no upper-case letter is left unchanged |
| `SsrfProtection.LowerIdempotent` | lib/ssrf-protection.js:120 | lower-casing twice is lower-casing once |
| `SsrfProtection.Message` | lib/ssrf-protection.js:102-155 | every error message reads back, through a decoder of the seven message forms, as the reason that produced it, with its hostname or protocol |
| `SsrfProtection.ValidateUrl` | lib/ssrf-protection.js:97-160 | with no configuration it applies exactly `DEFAULT_CONFIG`; "Invalid URL" exactly for a falsy or non-string input, whatever the configuration; approval implies the URL parsed |
| `SsrfProtection.CheckUrl` | lib/ssrf-protection.js:101-159 | "Invalid URL" exactly for a falsy or non-string input, whatever the parser; "Invalid URL format" exactly when the parser refuses a truthy string; a protocol rejection names the parsed protocol, which is not allowed; approval implies the URL parsed |
| `SsrfProtection.UrlToCheck` | lib/ssrf-protection.js:174-179 | a truthy `url` is used before `uri`; a non-object is passed on as it is; an object is replaced by the string `url.format` gives, and a throw of `url.format` gives None |
| `SsrfProtection.Middleware.Run` | lib/ssrf-protection.js:168-183 | `skipSSRFCheck === true` passes the options through untouched; otherwise a throw of `url.format` fails the request, and when the URL is obtained it proceeds exactly when validation approves, always with the same options, and aborts with the validator's reason |
| `SsrfProtection.CreateSSRFProtection` | lib/ssrf-protection.js:165-167 | the middleware captures the caller's config merged over the defaults |
| `SsrfProperties.FirstFailingRuleDecides` | lib/ssrf-protection.js:114-159 | a parsed URL is approved exactly when none of protocol, host list, localhost suffix and address rules fails; a rejection reports the first failing rule in that order |
| `SsrfProperties.DefaultsAllowOnlyHttp` | lib/ssrf-protection.js:114-117 | without a caller protocol list, the protocol check rejects exactly the protocols other than `http:` and `https:` |
| `SsrfProperties.HostnameCaseIrrelevant` | lib/ssrf-protection.js:120-157 | two URLs with the same protocol whose hostnames differ only in the case of ASCII letters get the same verdict |
| `SsrfProperties.BlockedHostAnyCase` | lib/ssrf-protection.js:120-125 | any case variant of a lower-case blocklist entry, with an allowed protocol, is rejected as "Hostname blocked" whatever the later rules say |
| `SsrfProperties.BlockedHostnameIsLowerCase` | lib/ssrf-protection.js:120-125 | a "Hostname blocked" rejection always names a string with no upper-case letter, so an entry with capitals never blocks |
| `SsrfProperties.LocalhostRuleOff` | lib/ssrf-protection.js:128 | with allowLocalhostDomains set, no rejection is "Localhost domain not allowed" |
| `SsrfProperties.LocalhostRuleOn` | lib/ssrf-protection.js:128-134 | with it clear, a `localhost`, `*.localhost` or `*.local` host that passed the earlier checks is rejected |
| `SsrfProperties.LocalhostSuffixExamples` | lib/ssrf-protection.js:129-131 | a subdomain of `localhost` (`sub.localhost`) and a `.local` name (`printer.local`) are localhost domains |
| `SsrfProperties.LookalikeNamesAreNotLocalhost` | lib/ssrf-protection.js:129-131 | the suffixes include the dot: `notlocalhost` and `nonlocal` are not localhost domains, nor is `localhost.example.com`, which only starts with the word |
| `SsrfProperties.PrivateAllowedSkipsAddressStep` | lib/ssrf-protection.js:136-157 | with allowPrivateIPs set, the verdict does not depend on `net.isIP`, the address parsers or the resolver, and approval is decided by the first four rules alone |
| `SsrfProperties.LiteralBlockedIffSomeRange` | lib/ssrf-protection.js:137-148 | an IP literal that passed the earlier rules is rejected exactly when some configured range contains it, otherwise approved |
| `SsrfProperties.ResolverPathIgnoresBlockedRanges` | lib/ssrf-protection.js:149-156 | for a non-IP host the caller's blockedRanges never change the verdict |
| `SsrfProperties.ResolverFailureIsNotBlocked` | lib/ssrf-protection.js:76-79 | a host that is not an IP literal and whose lookup fails or yields an empty address is approved once the earlier rules pass |
| `SsrfProperties.MoreRangesContainMore` | lib/ssrf-protection.js:141-143 | adding range entries never un-blocks an address |
| `SsrfProperties.StricterPolicyApprovesLess` | lib/ssrf-protection.js:114-157 | a configuration with fewer protocols, more blocked hosts and ranges, and no more bypass flags approves only URLs the laxer one approves |
| `SsrfProperties.ResolvedPrivateIffDefaultBlock` | lib/ssrf-protection.js:81-86 | with the default range strings read as their blocks, a resolved name is private exactly when its address lies in one of the sixteen default blocks |
| `SsrfProperties.ResolvedLoopbackIsPrivate` | lib/ssrf-protection.js:18 | every name resolving into 127.0.0.0/8 is private |
| `SsrfProperties.ResolvedIPv6LoopbackIsPrivate` | lib/ssrf-protection.js:29 | a name resolving to ::1 is private |
| `SsrfProperties.PublicAddressInNoDefaultBlock` | lib/ssrf-protection.js:13-33 | no IPv4 address in 93.0.0.0/8 (93.184.216.34 among them) lies in any of the sixteen default blocks |
| `SsrfProperties.ResolvedPublicIsNotPrivate` | lib/ssrf-protection.js:81-86 | with the default range strings read as their blocks, a name resolving to any address in 93.0.0.0/8 is not private |
| `SsrfProperties.PrivateLiteralUnderDefaults` | lib/ssrf-protection.js:140-146 | `http://10.1.2.3` is rejected as "IP address in blocked range" under the defaults and approved once allowPrivateIPs is set |
| `SsrfProperties.MessagesDistinct` | lib/ssrf-protection.js:102-155 | the seven error messages are pairwise distinct: equal messages come from the same reason with the same hostname or protocol |
| `SsrfProperties.MiddlewareAgreesWithValidateUrl` | lib/ssrf-protection.js:165-183 | unless skipped, the middleware from `createSSRFProtection(userConfig)` fails when `url.format` throws, and otherwise proceeds exactly when `validateUrl(urlToCheck, userConfig)` approves, else aborts with its reason |
| `SsrfProperties.SkipBypassesEverything` | lib/ssrf-protection.js:170-172 | `skipSSRFCheck: true` lets every URL through, with the options unchanged |
| `SsrfProperties.TruthySkipDoesNotBypass` | lib/ssrf-protection.js:170 | only the boolean `true` skips: the string "true" does not, and a missing URL is then rejected as "Invalid URL" |

## Left out

- DNS resolution, the Promise wrapper of `isPrivateHost` and `async`/`await`: the lookup result is an input (`Env.lookup`). Concurrency does not arise.
- The foreign parsers and predicates (`new URL`, `net.isIP`, `ipaddr.parse`, `ipaddr.parseCIDR`, `url.format`) are uninterpreted fields of `Env`. Their exact grammars (IPv4 shorthand forms, IPv6 zone ids, IDNA) are not modelled.
- `SsrfProtection.Lower` folds ASCII letters only. This is all of `toLowerCase` on a WHATWG hostname, which is always ASCII, but not on arbitrary strings.
- JavaScript dynamic typing beyond the input guard is not modelled. That covers configuration fields of the wrong type, fields set explicitly to `undefined` (the spread copies them), and `NaN` (numbers are integers here).
- Request options other than `skipSSRFCheck`, `url` and `uri` are not represented. The middleware returns its argument unchanged, so they are never touched.
- Resolving every address of a name, rather than the one `dns.lookup` returns, is not modelled, because the code does not do it.
- lib/tough-cookie-compatibility.js is not part of this model. It patches a third-party library and holds no decision logic of its own.
