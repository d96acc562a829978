/**
 * What `lib/ssrf-protection.js` promises about its verdicts, proved of the
 * model in SsrfProtection.
 */
module SsrfProperties {
  import opened IpAddr
  import opened SsrfConfig
  import opened SsrfProtection

  // ---------------------------------------------------------------------
  // The checks after parsing, each on its own and in source order

  datatype Rule = ProtocolRule | HostListRule | LocalhostRule | AddressRule

  function Rank(rule: Rule): nat {
    match rule
    case ProtocolRule => 0
    case HostListRule => 1
    case LocalhostRule => 2
    case AddressRule => 3
  }

  /** Whether a rule, looked at alone, refuses the parsed URL. */
  predicate Fails(env: Env, options: Config, url: ParsedUrl, rule: Rule) {
    var h := Lower(url.hostname);
    match rule
    case ProtocolRule => url.protocol !in options.allowedProtocols
    case HostListRule => h in options.blockedHosts
    case LocalhostRule => !options.allowLocalhostDomains && IsLocalhostDomain(h)
    case AddressRule =>
      !options.allowPrivateIPs &&
      if env.isIP(h) then AnyRangeContains(env, h, options.blockedRanges) else IsPrivateHost(env, h)
  }

  /** The reason a failing rule reports. */
  function ReasonFor(env: Env, url: ParsedUrl, rule: Rule): Reason {
    var h := Lower(url.hostname);
    match rule
    case ProtocolRule => ProtocolNotAllowed(url.protocol)
    case HostListRule => HostnameBlocked(h)
    case LocalhostRule => LocalhostDomainNotAllowed(h)
    case AddressRule => if env.isIP(h) then IpInBlockedRange(h) else ResolvesToPrivateIp(h)
  }

  /**
   * Once the URL parses, it is approved exactly when no rule fails, and a
   * rejection names the first failing rule in the order protocol, host list,
   * localhost suffixes, address.
   */
  lemma FirstFailingRuleDecides(env: Env, input: JsValue, options: Config, url: ParsedUrl)
    requires Parsed(env, input) == Some(url)
    ensures CheckUrl(env, input, options) == Approved <==> forall rule :: !Fails(env, options, url, rule)
    ensures forall rule :: Fails(env, options, url, rule)
                && (forall earlier :: Rank(earlier) < Rank(rule) ==> !Fails(env, options, url, earlier))
                ==> CheckUrl(env, input, options) == Rejected(ReasonFor(env, url, rule))
  {
    var f0, f1 := Fails(env, options, url, ProtocolRule), Fails(env, options, url, HostListRule);
    var f2, f3 := Fails(env, options, url, LocalhostRule), Fails(env, options, url, AddressRule);
    assert CheckUrl(env, input, options)
        == if f0 then Rejected(ReasonFor(env, url, ProtocolRule))
           else if f1 then Rejected(ReasonFor(env, url, HostListRule))
           else if f2 then Rejected(ReasonFor(env, url, LocalhostRule))
           else if f3 then Rejected(ReasonFor(env, url, AddressRule))
           else Approved;
    forall rule | Fails(env, options, url, rule)
                  && (forall earlier :: Rank(earlier) < Rank(rule) ==> !Fails(env, options, url, earlier))
      ensures CheckUrl(env, input, options) == Rejected(ReasonFor(env, url, rule))
    {
      if Rank(rule) > 0 { assert !f0; }
      if Rank(rule) > 1 { assert !f1; }
      if Rank(rule) > 2 { assert !f2; }
    }
  }

  /** Under the default protocol list, exactly `http:` and `https:` pass the protocol check. */
  lemma DefaultsAllowOnlyHttp(env: Env, input: JsValue, config: ConfigOverrides, url: ParsedUrl)
    requires config.allowedProtocols.None?
    requires Parsed(env, input) == Some(url)
    ensures ValidateUrl(env, input, config) == Rejected(ProtocolNotAllowed(url.protocol))
        <==> url.protocol != "http:" && url.protocol != "https:"
  {
  }

  // ---------------------------------------------------------------------
  // Hostname case

  /** Two URLs whose hostnames differ only in case get the same verdict. */
  lemma HostnameCaseIrrelevant(env: Env, s1: string, s2: string, options: Config, u1: ParsedUrl, u2: ParsedUrl)
    requires Parsed(env, Str(s1)) == Some(u1) && Parsed(env, Str(s2)) == Some(u2)
    requires u1.protocol == u2.protocol && SameUpToCase(u1.hostname, u2.hostname)
    ensures CheckUrl(env, Str(s1), options) == CheckUrl(env, Str(s2), options)
  {
    LowerEqIffSameUpToCase(u1.hostname, u2.hostname);
  }

  /** Every case variant of a lower-case blocklist entry is refused, whatever the later rules say. */
  lemma BlockedHostAnyCase(env: Env, input: JsValue, options: Config, url: ParsedUrl, entry: string)
    requires Parsed(env, input) == Some(url)
    requires url.protocol in options.allowedProtocols
    requires entry in options.blockedHosts && IsLowerCase(entry) && SameUpToCase(url.hostname, entry)
    ensures CheckUrl(env, input, options) == Rejected(HostnameBlocked(entry))
  {
    LowerEqIffSameUpToCase(url.hostname, entry);
    LowerOfLowerCase(entry);
  }

  /**
   * The host-list rejection names an already lower-cased hostname, so a
   * blocklist entry with an upper-case letter can never be the one that blocks.
   */
  lemma BlockedHostnameIsLowerCase(env: Env, input: JsValue, options: Config, entry: string)
    ensures CheckUrl(env, input, options) == Rejected(HostnameBlocked(entry)) ==> IsLowerCase(entry)
  {
  }

  // ---------------------------------------------------------------------
  // Localhost suffixes

  /** With allowLocalhostDomains set, the suffix rule never rejects. */
  lemma LocalhostRuleOff(env: Env, input: JsValue, options: Config)
    requires options.allowLocalhostDomains
    ensures !(CheckUrl(env, input, options).Rejected? && CheckUrl(env, input, options).reason.LocalhostDomainNotAllowed?)
  {
  }

  /** With it clear, a `localhost`, `*.localhost` or `*.local` name that got past the host list is rejected. */
  lemma LocalhostRuleOn(env: Env, input: JsValue, options: Config, url: ParsedUrl)
    requires Parsed(env, input) == Some(url)
    requires !options.allowLocalhostDomains
    requires url.protocol in options.allowedProtocols && Lower(url.hostname) !in options.blockedHosts
    requires IsLocalhostDomain(Lower(url.hostname))
    ensures CheckUrl(env, input, options) == Rejected(LocalhostDomainNotAllowed(Lower(url.hostname)))
  {
  }

  /** Names under the two suffixes are localhost domains. */
  lemma LocalhostSuffixExamples()
    ensures IsLocalhostDomain("sub.localhost") && IsLocalhostDomain("printer.local")
  {
    assert "sub.localhost"[3..] == ".localhost";
    assert "printer.local"[7..] == ".local";
  }

  /** The suffixes include their dot: a name merely ending in the letters, or starting with them, is not a localhost domain. */
  lemma LookalikeNamesAreNotLocalhost()
    ensures !IsLocalhostDomain("notlocalhost") && !IsLocalhostDomain("nonlocal")
    ensures !IsLocalhostDomain("localhost.example.com")
  {
    assert "notlocalhost"[2..] != ".localhost" by { assert "notlocalhost"[2..][0] == 't'; }
    assert "notlocalhost"[6..] != ".local" by { assert "notlocalhost"[6..][0] == 'a'; }
    assert "nonlocal"[2..] != ".local" by { assert "nonlocal"[2..][0] == 'n'; }
    assert "localhost.example.com"[11..] != ".localhost" by { assert "localhost.example.com"[11..][0] == 'x'; }
    assert "localhost.example.com"[15..] != ".local" by { assert "localhost.example.com"[15..][0] == 'l'; }
  }

  // ---------------------------------------------------------------------
  // The address step

  /**
   * With allowPrivateIPs set, the address step neither rejects nor consults
   * `net.isIP`, the address parsers or the resolver: swapping all four for
   * anything leaves the verdict unchanged.
   */
  lemma PrivateAllowedSkipsAddressStep(env: Env, input: JsValue, options: Config,
                                       isIP: string -> bool, parseIP: string -> Option<Address>,
                                       parseCIDR: string -> Option<Cidr>, lookup: string -> Option<string>)
    requires options.allowPrivateIPs
    ensures CheckUrl(env.(isIP := isIP, parseIP := parseIP, parseCIDR := parseCIDR, lookup := lookup), input, options)
         == CheckUrl(env, input, options)
    ensures CheckUrl(env, input, options) == Approved <==> (
              && Parsed(env, input).Some?
              && Parsed(env, input).value.protocol in options.allowedProtocols
              && Lower(Parsed(env, input).value.hostname) !in options.blockedHosts
              && (options.allowLocalhostDomains || !IsLocalhostDomain(Lower(Parsed(env, input).value.hostname))))
  {
  }

  /**
   * An IP-literal host that passed the earlier checks is rejected exactly
   * when some entry of the configured blockedRanges contains it.
   */
  lemma LiteralBlockedIffSomeRange(env: Env, input: JsValue, options: Config, url: ParsedUrl)
    requires Parsed(env, input) == Some(url)
    requires !options.allowPrivateIPs
    requires forall rule :: Rank(rule) < 3 ==> !Fails(env, options, url, rule)
    requires env.isIP(Lower(url.hostname))
    ensures CheckUrl(env, input, options)
         == if exists i :: 0 <= i < |options.blockedRanges| && IsIPInRange(env, Lower(url.hostname), options.blockedRanges[i])
            then Rejected(IpInBlockedRange(Lower(url.hostname)))
            else Approved
  {
    assert !Fails(env, options, url, ProtocolRule);
    assert !Fails(env, options, url, HostListRule);
    assert !Fails(env, options, url, LocalhostRule);
  }

  /** For a host that is not an IP literal, the caller's blockedRanges play no part. */
  lemma ResolverPathIgnoresBlockedRanges(env: Env, input: JsValue, options: Config, url: ParsedUrl, ranges: seq<string>)
    requires Parsed(env, input) == Some(url)
    requires !env.isIP(Lower(url.hostname))
    ensures CheckUrl(env, input, options.(blockedRanges := ranges)) == CheckUrl(env, input, options)
  {
  }

  /**
   * A host the resolver cannot resolve, or resolves to an empty address, is
   * not blocked. This is also the path an IPv6 literal takes: the parser
   * keeps its brackets (`[::1]`), `net.isIP` does not recognise the
   * bracketed form, and the ranges are not consulted.
   */
  lemma ResolverFailureIsNotBlocked(env: Env, input: JsValue, options: Config, url: ParsedUrl)
    requires Parsed(env, input) == Some(url)
    requires forall rule :: Rank(rule) < 3 ==> !Fails(env, options, url, rule)
    requires !env.isIP(Lower(url.hostname))
    requires env.lookup(Lower(url.hostname)) in {None, Some("")}
    ensures CheckUrl(env, input, options) == Approved
  {
    assert !Fails(env, options, url, ProtocolRule);
    assert !Fails(env, options, url, HostListRule);
    assert !Fails(env, options, url, LocalhostRule);
  }

  // ---------------------------------------------------------------------
  // Composing the knobs

  /**
   * `strict` refuses at least what `lax` refuses: fewer protocols, more
   * blocked hosts and ranges, and neither bypass flag set unless `lax` sets
   * it too.
   */
  predicate AtLeastAsStrict(strict: Config, lax: Config) {
    && (strict.allowPrivateIPs ==> lax.allowPrivateIPs)
    && (strict.allowLocalhostDomains ==> lax.allowLocalhostDomains)
    && (forall p :: p in strict.allowedProtocols ==> p in lax.allowedProtocols)
    && (forall h :: h in lax.blockedHosts ==> h in strict.blockedHosts)
    && (forall r :: r in lax.blockedRanges ==> r in strict.blockedRanges)
  }

  lemma {:induction false} MoreRangesContainMore(env: Env, ip: string, fewer: seq<string>, more: seq<string>)
    requires forall r :: r in fewer ==> r in more
    requires AnyRangeContains(env, ip, fewer)
    ensures AnyRangeContains(env, ip, more)
  {
    var i :| 0 <= i < |fewer| && IsIPInRange(env, ip, fewer[i]);
    assert fewer[i] in more;
    var j :| 0 <= j < |more| && more[j] == fewer[i];
  }

  /** Tightening any knob never turns a rejection into an approval. */
  lemma StricterPolicyApprovesLess(env: Env, input: JsValue, strict: Config, lax: Config)
    requires AtLeastAsStrict(strict, lax)
    ensures CheckUrl(env, input, strict) == Approved ==> CheckUrl(env, input, lax) == Approved
  {
    if CheckUrl(env, input, strict) == Approved {
      var url := Parsed(env, input).value;
      var h := Lower(url.hostname);
      if env.isIP(h) && !lax.allowPrivateIPs && AnyRangeContains(env, h, lax.blockedRanges) {
        MoreRangesContainMore(env, h, lax.blockedRanges, strict.blockedRanges);
      }
    }
  }

  // ---------------------------------------------------------------------
  // The default ranges, read by a standard CIDR parser

  /** The CIDR parser reads every default range as the block it names. */
  predicate ReadsDefaultRanges(env: Env) {
    forall i :: 0 <= i < |DefaultBlockedRanges| ==> env.parseCIDR(DefaultBlockedRanges[i]) == Some(DefaultRangeTable[i])
  }

  /** A resolved address is private exactly when it lies in one of the default blocks. */
  lemma ResolvedPrivateIffDefaultBlock(env: Env, hostname: string)
    requires ReadsDefaultRanges(env)
    ensures IsPrivateHost(env, hostname) <==>
      && env.lookup(hostname).Some? && env.lookup(hostname).value != ""
      && env.parseIP(env.lookup(hostname).value).Some?
      && exists j :: 0 <= j < |DefaultRangeTable| && InBlock(env.parseIP(env.lookup(hostname).value).value, DefaultRangeTable[j])
  {
    if IsPrivateHost(env, hostname) {
      var address := env.lookup(hostname).value;
      var i :| 0 <= i < |DefaultBlockedRanges| && IsIPInRange(env, address, DefaultBlockedRanges[i]);
      assert InBlock(env.parseIP(address).value, DefaultRangeTable[i]);
    }
    if && env.lookup(hostname).Some? && env.lookup(hostname).value != ""
       && env.parseIP(env.lookup(hostname).value).Some?
       && exists j :: 0 <= j < |DefaultRangeTable| && InBlock(env.parseIP(env.lookup(hostname).value).value, DefaultRangeTable[j])
    {
      var address := env.lookup(hostname).value;
      var j :| 0 <= j < |DefaultRangeTable| && InBlock(env.parseIP(address).value, DefaultRangeTable[j]);
      assert IsIPInRange(env, address, DefaultBlockedRanges[j]);
    }
  }

  /** A name that resolves into 127.0.0.0/8 is private. */
  lemma ResolvedLoopbackIsPrivate(env: Env, hostname: string, address: string, a: Address)
    requires ReadsDefaultRanges(env)
    requires env.lookup(hostname) == Some(address) && address != ""
    requires env.parseIP(address) == Some(a) && a.family == IPv4 && a.parts[0] == 127
    ensures IsPrivateHost(env, hostname)
  {
    var loopback := DefaultRangeTable[3];
    assert loopback == RawCidr(RawAddress(IPv4, [127, 0, 0, 0]), 8);
    assert MatchParts(a.parts, loopback.network.parts, 8, 8);
    assert Match(a, loopback) == Some(true);
    assert IsIPInRange(env, address, DefaultBlockedRanges[3]);
  }

  /** A name that resolves to ::1 is private. */
  lemma ResolvedIPv6LoopbackIsPrivate(env: Env, hostname: string, address: string)
    requires ReadsDefaultRanges(env)
    requires env.lookup(hostname) == Some(address) && address != ""
    requires env.parseIP(address) == Some(RawAddress(IPv6, [0, 0, 0, 0, 0, 0, 0, 1]))
    ensures IsPrivateHost(env, hostname)
  {
    var a: Address := RawAddress(IPv6, [0, 0, 0, 0, 0, 0, 0, 1]);
    NetworkInOwnRange(DefaultRangeTable[12]);
    assert DefaultRangeTable[12].network == a;
    assert IsIPInRange(env, address, DefaultBlockedRanges[12]);
  }

  /** An address whose first part already differs from the network's, under the first shift, is outside the block. */
  lemma OutsideByFirstPart(a: Address, c: Cidr, shift: nat)
    requires a.family == c.network.family && 0 < c.prefixLen
    requires shift == if PartSize(a.family) < c.prefixLen then 0 else PartSize(a.family) - c.prefixLen
    requires Shr(a.parts[0], shift) != Shr(c.network.parts[0], shift)
    ensures Match(a, c) == Some(false)
  {
  }

  /** No IPv4 address in 93.0.0.0/8 (93.184.216.34 among them) lies in the j-th default block. */
  lemma PublicAddressOutsideEntry(a: Address, j: nat)
    requires a.family == IPv4 && a.parts[0] == 93
    requires j < |DefaultRangeTable|
    ensures Match(a, DefaultRangeTable[j]) != Some(true)
  {
    if j < 8 || j == 10 {
      OutsideByFirstPart(a, DefaultRangeTable[j], 0);
    } else if j < 10 {
      OutsideByFirstPart(a, DefaultRangeTable[j], 4);
    }
  }

  /** No IPv4 address in 93.0.0.0/8 lies in any default block. */
  lemma PublicAddressInNoDefaultBlock(a: Address)
    requires a.family == IPv4 && a.parts[0] == 93
    ensures forall j :: 0 <= j < |DefaultRangeTable| ==> Match(a, DefaultRangeTable[j]) != Some(true)
  {
    forall j | 0 <= j < |DefaultRangeTable|
      ensures Match(a, DefaultRangeTable[j]) != Some(true)
    {
      PublicAddressOutsideEntry(a, j);
    }
  }

  /** A name that resolves into 93.0.0.0/8, such as 93.184.216.34, is not private. */
  lemma ResolvedPublicIsNotPrivate(env: Env, hostname: string, address: string, a: Address)
    requires ReadsDefaultRanges(env)
    requires env.lookup(hostname) == Some(address)
    requires env.parseIP(address) == Some(a) && a.family == IPv4 && a.parts[0] == 93
    ensures !IsPrivateHost(env, hostname)
  {
    PublicAddressInNoDefaultBlock(a);
    forall j | 0 <= j < |DefaultBlockedRanges|
      ensures !IsIPInRange(env, address, DefaultBlockedRanges[j])
    {
    }
  }

  /** The host `10.1.2.3` is already lower case, is not a localhost domain and is not in the default host list. */
  lemma PlainLiteralHost()
    ensures Lower("10.1.2.3") == "10.1.2.3"
    ensures !IsLocalhostDomain("10.1.2.3")
    ensures "10.1.2.3" !in DefaultBlockedHosts
  {
    var host := "10.1.2.3";
    assert host[2..] != ".local" by { assert host[2..][1] == '1'; }
    assert host != "127.0.0.1" by { assert host[1] == '0'; }
  }

  /**
   * `http://10.1.2.3/` under the default configuration is rejected by the
   * range check, and approved once the caller sets allowPrivateIPs.
   */
  lemma PrivateLiteralUnderDefaults(env: Env, input: string, a: Address)
    requires ReadsDefaultRanges(env)
    requires input != ""
    requires env.parseUrl(input) == Some(ParsedUrl("http:", "10.1.2.3"))
    requires env.isIP("10.1.2.3")
    requires env.parseIP("10.1.2.3") == Some(a) && a.family == IPv4 && a.parts[0] == 10
    ensures ValidateUrl(env, Str(input), NoOverrides) == Rejected(IpInBlockedRange("10.1.2.3"))
    ensures ValidateUrl(env, Str(input), NoOverrides.(allowPrivateIPs := Some(true))) == Approved
  {
    var host := "10.1.2.3";
    PlainLiteralHost();
    assert MatchParts(a.parts, DefaultRangeTable[0].network.parts, 8, 8);
    assert IsIPInRange(env, host, DefaultBlockedRanges[0]);
    assert AnyRangeContains(env, host, DefaultBlockedRanges);
    MergeNothingIsBase(DefaultConfig);
  }

  // ---------------------------------------------------------------------
  // Messages

  /** No two reasons share a message, so a caller can tell every rejection apart by its text. */
  lemma MessagesDistinct(r1: Reason, r2: Reason)
    requires Message(r1) == Message(r2)
    ensures r1 == r2
  {
    assert ReasonOf(Message(r1)) == Some(r1);
  }

  // ---------------------------------------------------------------------
  // Middleware

  /**
   * Unless skipSSRFCheck is exactly `true`, the middleware made by
   * createSSRFProtection(userConfig) fails when `url.format` throws, and
   * otherwise proceeds exactly when validateUrl(urlToCheck, userConfig)
   * approves and aborts with its reason when it does not.
   */
  lemma MiddlewareAgreesWithValidateUrl(env: Env, userConfig: ConfigOverrides, options: RequestOptions)
    requires options.skipSSRFCheck != Bool(true)
    ensures var outcome := CreateSSRFProtection(userConfig).Run(env, options);
            match UrlToCheck(env, options)
            case None => outcome == FormatFailed
            case Some(target) =>
              match ValidateUrl(env, target, userConfig)
              case Approved => outcome == Proceed(options)
              case Rejected(reason) => outcome == Abort(reason)
  {
  }

  /** `skipSSRFCheck: true` lets every request through, whatever its URL. */
  lemma SkipBypassesEverything(env: Env, m: Middleware, url: JsValue, uri: JsValue)
    ensures m.Run(env, RequestOptions(Bool(true), url, uri)) == Proceed(RequestOptions(Bool(true), url, uri))
  {
  }

  /** Only the boolean `true` skips: a truthy string such as "true" does not. */
  lemma TruthySkipDoesNotBypass(env: Env, m: Middleware, url: JsValue)
    requires !NonEmptyString(url) && !url.Obj?
    ensures m.Run(env, RequestOptions(Str("true"), url, Undefined)) == Abort(InvalidUrl)
  {
  }
}
