/**
 * The guard's policy: the default tables of `lib/ssrf-protection.js` and the
 * field-by-field merge `{ ...DEFAULT_CONFIG, ...config }` that builds the
 * policy a validation uses.
 */
module SsrfConfig {
  import opened IpAddr

  /** The policy record the validator reads. Lists are kept in source order. */
  datatype Config = Config(
    allowPrivateIPs: bool,
    blockedRanges: seq<string>,
    allowedProtocols: seq<string>,
    allowLocalhostDomains: bool,
    blockedHosts: seq<string>)

  /** A caller's partial configuration: None is a field the caller left out. */
  datatype ConfigOverrides = ConfigOverrides(
    allowPrivateIPs: Option<bool>,
    blockedRanges: Option<seq<string>>,
    allowedProtocols: Option<seq<string>>,
    allowLocalhostDomains: Option<bool>,
    blockedHosts: Option<seq<string>>)

  /** `DEFAULT_BLOCKED_RANGES`: private, loopback, link-local, test, multicast and reserved blocks. */
  const DefaultBlockedRanges: seq<string> := [
    "10.0.0.0/8", "172.16.0.0/12", "192.168.0.0/16", "127.0.0.0/8",
    "169.254.0.0/16", "192.0.2.0/24", "198.51.100.0/24", "203.0.113.0/24",
    "224.0.0.0/4", "240.0.0.0/4", "0.0.0.0/8",
    "::/128", "::1/128", "fc00::/7", "fe80::/10", "ff00::/8"]

  const DefaultAllowedProtocols: seq<string> := ["http:", "https:"]

  const DefaultBlockedHosts: seq<string> := ["localhost", "0.0.0.0", "127.0.0.1", "::1"]

  const DefaultConfig := Config(
    allowPrivateIPs := false,
    blockedRanges := DefaultBlockedRanges,
    allowedProtocols := DefaultAllowedProtocols,
    allowLocalhostDomains := false,
    blockedHosts := DefaultBlockedHosts)

  /** The caller supplied no configuration at all (`config = {}`). */
  const NoOverrides := ConfigOverrides(None, None, None, None, None)

  function Pick<T>(given: Option<T>, default: T): T {
    if given.Some? then given.value else default
  }

  /**
   * Object spread `{ ...base, ...over }`: a field the caller gives replaces
   * the base's, every other field keeps the base's value.
   */
  function Merge(base: Config, over: ConfigOverrides): (c: Config)
    ensures over.allowPrivateIPs.Some? ==> c.allowPrivateIPs == over.allowPrivateIPs.value
    ensures over.allowPrivateIPs.None? ==> c.allowPrivateIPs == base.allowPrivateIPs
    ensures over.blockedRanges.Some? ==> c.blockedRanges == over.blockedRanges.value
    ensures over.blockedRanges.None? ==> c.blockedRanges == base.blockedRanges
    ensures over.allowedProtocols.Some? ==> c.allowedProtocols == over.allowedProtocols.value
    ensures over.allowedProtocols.None? ==> c.allowedProtocols == base.allowedProtocols
    ensures over.allowLocalhostDomains.Some? ==> c.allowLocalhostDomains == over.allowLocalhostDomains.value
    ensures over.allowLocalhostDomains.None? ==> c.allowLocalhostDomains == base.allowLocalhostDomains
    ensures over.blockedHosts.Some? ==> c.blockedHosts == over.blockedHosts.value
    ensures over.blockedHosts.None? ==> c.blockedHosts == base.blockedHosts
  {
    Config(
      Pick(over.allowPrivateIPs, base.allowPrivateIPs),
      Pick(over.blockedRanges, base.blockedRanges),
      Pick(over.allowedProtocols, base.allowedProtocols),
      Pick(over.allowLocalhostDomains, base.allowLocalhostDomains),
      Pick(over.blockedHosts, base.blockedHosts))
  }

  /** A complete configuration seen as a partial one in which every field is given. */
  function AsOverrides(c: Config): ConfigOverrides {
    ConfigOverrides(Some(c.allowPrivateIPs), Some(c.blockedRanges), Some(c.allowedProtocols),
                    Some(c.allowLocalhostDomains), Some(c.blockedHosts))
  }

  /** With nothing given, the merge is the default configuration. */
  lemma MergeNothingIsBase(base: Config)
    ensures Merge(base, NoOverrides) == base
  {
  }

  /**
   * Merging a complete configuration over the defaults gives it back, so the
   * second merge that `validateUrl` performs on the configuration the factory
   * already merged changes nothing.
   */
  lemma RemergeIsIdentity(base: Config, c: Config)
    ensures Merge(base, AsOverrides(c)) == c
  {
  }

  /** Merging twice over the defaults is merging once. */
  lemma MergeIdempotent(base: Config, over: ConfigOverrides)
    ensures Merge(base, AsOverrides(Merge(base, over))) == Merge(base, over)
  {
    RemergeIsIdentity(base, Merge(base, over));
  }

  function V4(a: nat, b: nat, c: nat, d: nat, prefixLen: nat): Cidr
    requires a < 0x100 && b < 0x100 && c < 0x100 && d < 0x100 && prefixLen <= 32
  {
    RawCidr(RawAddress(IPv4, [a, b, c, d]), prefixLen)
  }

  function V6(first: nat, last: nat, prefixLen: nat): Cidr
    requires first < 0x1_0000 && last < 0x1_0000 && prefixLen <= 128
  {
    RawCidr(RawAddress(IPv6, [first, 0, 0, 0, 0, 0, 0, last]), prefixLen)
  }

  /** The blocks that DefaultBlockedRanges denote, entry by entry, as a standard CIDR parser reads them. */
  const DefaultRangeTable: seq<Cidr> := [
    V4(10, 0, 0, 0, 8), V4(172, 16, 0, 0, 12), V4(192, 168, 0, 0, 16), V4(127, 0, 0, 0, 8),
    V4(169, 254, 0, 0, 16), V4(192, 0, 2, 0, 24), V4(198, 51, 100, 0, 24), V4(203, 0, 113, 0, 24),
    V4(224, 0, 0, 0, 4), V4(240, 0, 0, 0, 4), V4(0, 0, 0, 0, 8),
    V6(0, 0, 128), V6(0, 1, 128), V6(0xfc00, 0, 7), V6(0xfe80, 0, 10), V6(0xff00, 0, 8)]
}
