/**
 * The SSRF pre-flight guard of `lib/ssrf-protection.js`: `isIPInRange`,
 * `isPrivateHost`, `validateUrl` and the middleware `createSSRFProtection`
 * returns.
 *
 * Everything the module asks of other code is a field of `Env`: the WHATWG
 * URL parser, `net.isIP`, the `ipaddr.js` text parsers, `dns.lookup` and
 * `url.format`. The model fixes none of their behaviour; the decision logic
 * and the prefix comparison are concrete.
 */
module SsrfProtection {
  import opened IpAddr
  import opened SsrfConfig

  /** The JavaScript values an input URL or a request option can hold. */
  datatype JsValue =
    | Undefined
    | Null
    | Bool(b: bool)
    | Num(n: int)
    | Str(s: string)
    | Obj(id: nat)   // a URL-like object, known by identity only

  predicate Truthy(v: JsValue) {
    match v
    case Undefined => false
    case Null => false
    case Bool(b) => b
    case Num(n) => n != 0
    case Str(s) => s != ""
    case Obj(_) => true
  }

  /** The two fields of a parsed `URL` that the guard reads. */
  datatype ParsedUrl = ParsedUrl(protocol: string, hostname: string)

  /** The foreign calls the guard makes, as total functions of their arguments. */
  datatype Env = Env(
    parseUrl: string -> Option<ParsedUrl>,   // `new URL(s)`; None when it throws
    isIP: string -> bool,                    // `net.isIP(s) !== 0`
    parseIP: string -> Option<Address>,      // `ipaddr.parse(s)`; None when it throws
    parseCIDR: string -> Option<Cidr>,       // `ipaddr.parseCIDR(s)`; None when it throws
    lookup: string -> Option<string>,        // `dns.lookup`: the address, None on error or throw
    formatUrl: nat -> Option<string>)        // `url.format(obj)` of a URL-like object; None when it throws

  /** The errors `validateUrl` throws, one per message. */
  datatype Reason =
    | InvalidUrl
    | InvalidUrlFormat
    | ProtocolNotAllowed(protocol: string)
    | HostnameBlocked(hostname: string)
    | LocalhostDomainNotAllowed(hostname: string)
    | IpInBlockedRange(hostname: string)
    | ResolvesToPrivateIp(hostname: string)

  datatype Verdict = Approved | Rejected(reason: Reason)

  /**
   * The message of the `Error` thrown for each reason. Every message reads
   * back as the reason that produced it, with its hostname or protocol, so
   * no two rejections share a text.
   */
  function Message(r: Reason): (m: string)
    ensures ReasonOf(m) == Some(r)
  {
    match r
    case InvalidUrl => "Invalid URL"
    case InvalidUrlFormat => "Invalid URL format"
    case ProtocolNotAllowed(p) =>
      ProtocolMessageReadsBack(p);
      "Protocol not allowed: " + p
    case HostnameBlocked(h) =>
      HostMessageReadsBack(h);
      "Hostname blocked: " + h
    case LocalhostDomainNotAllowed(h) =>
      LocalhostMessageReadsBack(h);
      "Localhost domain not allowed: " + h
    case IpInBlockedRange(h) =>
      RangeMessageReadsBack(h);
      "IP address in blocked range: " + h
    case ResolvesToPrivateIp(h) =>
      ResolvesMessageReadsBack(h);
      "Hostname resolves to private IP: " + h
  }

  predicate HasPrefix(m: string, prefix: string) {
    |prefix| <= |m| && m[..|prefix|] == prefix
  }

  /** Reads the reason back from an error message; None for a message the guard never throws. */
  function ReasonOf(m: string): Option<Reason> {
    if m == "Invalid URL" then Some(InvalidUrl)
    else if m == "Invalid URL format" then Some(InvalidUrlFormat)
    else if HasPrefix(m, "Protocol not allowed: ") then Some(ProtocolNotAllowed(m[22..]))
    else if HasPrefix(m, "Hostname blocked: ") then Some(HostnameBlocked(m[18..]))
    else if HasPrefix(m, "Localhost domain not allowed: ") then Some(LocalhostDomainNotAllowed(m[30..]))
    else if HasPrefix(m, "IP address in blocked range: ") then Some(IpInBlockedRange(m[29..]))
    else if HasPrefix(m, "Hostname resolves to private IP: ") then Some(ResolvesToPrivateIp(m[33..]))
    else None
  }

  lemma DiffersAt(m: string, q: string, i: nat)
    requires i < |m| && i < |q| && m[i] != q[i]
    ensures !HasPrefix(m, q) && m != q
  {
  }

  lemma PrefixReadsBack(prefix: string, x: string)
    ensures HasPrefix(prefix + x, prefix) && (prefix + x)[|prefix|..] == x
  {
    assert (prefix + x)[..|prefix|] == prefix;
  }

  lemma ProtocolMessageReadsBack(p: string)
    ensures ReasonOf("Protocol not allowed: " + p) == Some(ProtocolNotAllowed(p))
  {
    var m := "Protocol not allowed: " + p;
    DiffersAt(m, "Invalid URL", 0);
    DiffersAt(m, "Invalid URL format", 0);
    PrefixReadsBack("Protocol not allowed: ", p);
  }

  lemma HostMessageReadsBack(h: string)
    ensures ReasonOf("Hostname blocked: " + h) == Some(HostnameBlocked(h))
  {
    var m := "Hostname blocked: " + h;
    DiffersAt(m, "Invalid URL", 0);
    DiffersAt(m, "Invalid URL format", 0);
    DiffersAt(m, "Protocol not allowed: ", 0);
    PrefixReadsBack("Hostname blocked: ", h);
  }

  lemma LocalhostMessageReadsBack(h: string)
    ensures ReasonOf("Localhost domain not allowed: " + h) == Some(LocalhostDomainNotAllowed(h))
  {
    var m := "Localhost domain not allowed: " + h;
    DiffersAt(m, "Invalid URL", 0);
    DiffersAt(m, "Invalid URL format", 0);
    DiffersAt(m, "Protocol not allowed: ", 0);
    DiffersAt(m, "Hostname blocked: ", 0);
    PrefixReadsBack("Localhost domain not allowed: ", h);
  }

  lemma RangeMessageReadsBack(h: string)
    ensures ReasonOf("IP address in blocked range: " + h) == Some(IpInBlockedRange(h))
  {
    var m := "IP address in blocked range: " + h;
    DiffersAt(m, "Invalid URL", 1);
    DiffersAt(m, "Invalid URL format", 1);
    DiffersAt(m, "Protocol not allowed: ", 0);
    DiffersAt(m, "Hostname blocked: ", 0);
    DiffersAt(m, "Localhost domain not allowed: ", 0);
    PrefixReadsBack("IP address in blocked range: ", h);
  }

  lemma ResolvesMessageReadsBack(h: string)
    ensures ReasonOf("Hostname resolves to private IP: " + h) == Some(ResolvesToPrivateIp(h))
  {
    var m := "Hostname resolves to private IP: " + h;
    DiffersAt(m, "Invalid URL", 0);
    DiffersAt(m, "Invalid URL format", 0);
    DiffersAt(m, "Protocol not allowed: ", 0);
    DiffersAt(m, "Hostname blocked: ", 9);
    DiffersAt(m, "Localhost domain not allowed: ", 0);
    DiffersAt(m, "IP address in blocked range: ", 0);
    PrefixReadsBack("Hostname resolves to private IP: ", h);
  }

  // ---------------------------------------------------------------------
  // Range matcher

  /** An address lies in a block: same family, and the first prefixLen bits agree. */
  predicate InBlock(a: Address, c: Cidr) {
    a.family == c.network.family && FirstBitsEqual(a, c)
  }

  /**
   * `isIPInRange(ip, cidr)`: never throws. A text that does not parse, on
   * either side, and a family mismatch (the exception of `match`) all give
   * false.
   */
  function IsIPInRange(env: Env, ip: string, cidr: string): (r: bool)
    ensures r <==> && env.parseIP(ip).Some?
                   && env.parseCIDR(cidr).Some?
                   && InBlock(env.parseIP(ip).value, env.parseCIDR(cidr).value)
  {
    match env.parseIP(ip)
    case None => false
    case Some(addr) =>
      match env.parseCIDR(cidr)
      case None => false
      case Some(range) =>
        match Match(addr, range)
        case None => false
        case Some(b) => b
  }

  /** `ranges.some(range => isIPInRange(ip, range))`. */
  function AnyRangeContains(env: Env, ip: string, ranges: seq<string>): (r: bool)
    ensures r <==> exists i :: 0 <= i < |ranges| && IsIPInRange(env, ip, ranges[i])
  {
    if ranges == [] then false
    else IsIPInRange(env, ip, ranges[0]) || AnyRangeContains(env, ip, ranges[1..])
  }

  // ---------------------------------------------------------------------
  // Host classifier

  /**
   * `isPrivateHost(hostname)`: one lookup; a failed lookup or an empty
   * address is not private; otherwise the address is tested against the
   * fixed default ranges, never the caller's.
   */
  function IsPrivateHost(env: Env, hostname: string): (r: bool)
    ensures r ==> env.lookup(hostname).Some? && env.lookup(hostname).value != ""
    ensures env.lookup(hostname).Some? && env.lookup(hostname).value != "" ==>
      (r <==> exists i :: 0 <= i < |DefaultBlockedRanges|
                && IsIPInRange(env, env.lookup(hostname).value, DefaultBlockedRanges[i]))
  {
    match env.lookup(hostname)
    case None => false
    case Some(address) =>
      if address == "" then false
      else AnyRangeContains(env, address, DefaultBlockedRanges)
  }

  // ---------------------------------------------------------------------
  // Hostname helpers

  predicate IsUpper(c: char) {
    'A' <= c <= 'Z'
  }

  /** A string with no upper-case ASCII letter. */
  predicate IsLowerCase(s: string) {
    forall i :: 0 <= i < |s| ==> !IsUpper(s[i])
  }

  /** Equal characters, or an upper-case ASCII letter and its lower-case partner, in either order. */
  predicate CharEqIgnoreCase(c: char, d: char) {
    || c == d
    || (IsUpper(c) && d as int == c as int + 32)
    || (IsUpper(d) && c as int == d as int + 32)
  }

  /** Two strings that differ at most in the case of ASCII letters. */
  predicate SameUpToCase(s: string, t: string) {
    |s| == |t| && forall i :: 0 <= i < |s| ==> CharEqIgnoreCase(s[i], t[i])
  }

  function LowerChar(c: char): char {
    if IsUpper(c) then (c as int - 'A' as int + 'a' as int) as char else c
  }

  /**
   * `toLowerCase()` on a hostname: the one lower-case string that is the same
   * as `s` up to case. A WHATWG hostname is ASCII (IDNA for special schemes,
   * percent-encoding for opaque hosts), so ASCII case folding is the whole of it.
   */
  function Lower(s: string): (r: string)
    ensures SameUpToCase(s, r)
    ensures IsLowerCase(r)
  {
    seq(|s|, i requires 0 <= i < |s| => LowerChar(s[i]))
  }

  lemma CharFoldsAgree(c: char, d: char)
    ensures LowerChar(c) == LowerChar(d) <==> CharEqIgnoreCase(c, d)
  {
  }

  /** Two hostnames lower-case to the same string exactly when they differ only in case. */
  lemma LowerEqIffSameUpToCase(s: string, t: string)
    ensures Lower(s) == Lower(t) <==> SameUpToCase(s, t)
  {
    if SameUpToCase(s, t) {
      forall i | 0 <= i < |s|
        ensures Lower(s)[i] == Lower(t)[i]
      {
        CharFoldsAgree(s[i], t[i]);
      }
    }
    if Lower(s) == Lower(t) {
      forall i | 0 <= i < |s|
        ensures CharEqIgnoreCase(s[i], t[i])
      {
        assert Lower(s)[i] == Lower(t)[i];
        CharFoldsAgree(s[i], t[i]);
      }
    }
  }

  /** A lower-case string is its own lower-casing. */
  lemma LowerOfLowerCase(s: string)
    requires IsLowerCase(s)
    ensures Lower(s) == s
  {
    assert forall i :: 0 <= i < |s| ==> Lower(s)[i] == s[i];
  }

  lemma LowerIdempotent(s: string)
    ensures Lower(Lower(s)) == Lower(s)
  {
    LowerOfLowerCase(Lower(s));
  }

  predicate EndsWith(s: string, suffix: string) {
    |suffix| <= |s| && s[|s| - |suffix|..] == suffix
  }

  /** The names that the localhost rule refuses. */
  predicate IsLocalhostDomain(h: string) {
    h == "localhost" || EndsWith(h, ".localhost") || EndsWith(h, ".local")
  }

  // ---------------------------------------------------------------------
  // URL validator

  /** The guard on line 102: a truthy string. */
  predicate NonEmptyString(v: JsValue) {
    v.Str? && v.s != ""
  }

  /** The parse the validator would see, if it gets as far as parsing. */
  function Parsed(env: Env, input: JsValue): Option<ParsedUrl> {
    if NonEmptyString(input) then env.parseUrl(input.s) else None
  }

  /**
   * The body of `validateUrl` once the configuration is merged: the checks in
   * source order, the first that fails deciding the reason.
   */
  function CheckUrl(env: Env, input: JsValue, options: Config): (r: Verdict)
    ensures r == Rejected(InvalidUrl) <==> !NonEmptyString(input)
    ensures r == Rejected(InvalidUrlFormat) <==> NonEmptyString(input) && Parsed(env, input).None?
    ensures r.Rejected? && r.reason.ProtocolNotAllowed? ==>
      Parsed(env, input).Some? && r.reason.protocol == Parsed(env, input).value.protocol
        && r.reason.protocol !in options.allowedProtocols
    ensures r == Approved ==> Parsed(env, input).Some?
  {
    if !NonEmptyString(input) then Rejected(InvalidUrl)
    else
      match env.parseUrl(input.s)
      case None => Rejected(InvalidUrlFormat)
      case Some(url) =>
        if url.protocol !in options.allowedProtocols then Rejected(ProtocolNotAllowed(url.protocol))
        else
          var hostname := Lower(url.hostname);
          if hostname in options.blockedHosts then Rejected(HostnameBlocked(hostname))
          else if !options.allowLocalhostDomains && IsLocalhostDomain(hostname) then
            Rejected(LocalhostDomainNotAllowed(hostname))
          else if env.isIP(hostname) then
            if !options.allowPrivateIPs && AnyRangeContains(env, hostname, options.blockedRanges) then
              Rejected(IpInBlockedRange(hostname))
            else Approved
          else if !options.allowPrivateIPs && IsPrivateHost(env, hostname) then
            Rejected(ResolvesToPrivateIp(hostname))
          else Approved
  }

  /**
   * `validateUrl(inputUrl, config)`: the caller's fields merged over the
   * defaults, then the checks. Called with no configuration it applies
   * exactly the default policy, and the input guard does not depend on the
   * configuration at all.
   */
  function ValidateUrl(env: Env, input: JsValue, config: ConfigOverrides): (r: Verdict)
    ensures config == NoOverrides ==> r == CheckUrl(env, input, DefaultConfig)
    ensures r == Rejected(InvalidUrl) <==> !NonEmptyString(input)
    ensures r == Approved ==> Parsed(env, input).Some?
  {
    MergeNothingIsBase(DefaultConfig);
    CheckUrl(env, input, Merge(DefaultConfig, config))
  }

  // ---------------------------------------------------------------------
  // Middleware

  /** The fields of a request's options that the middleware reads. */
  datatype RequestOptions = RequestOptions(skipSSRFCheck: JsValue, url: JsValue, uri: JsValue)

  /**
   * The middleware either hands the options on, aborts with the validator's
   * reason, or rejects with the error `url.format` threw.
   */
  datatype Outcome = Proceed(options: RequestOptions) | Abort(reason: Reason) | FormatFailed

  /**
   * `options.url || options.uri`, an object turned into a string by
   * `url.format`; None when `url.format` throws.
   */
  function UrlToCheck(env: Env, options: RequestOptions): (v: Option<JsValue>)
    ensures Truthy(options.url) && !options.url.Obj? ==> v == Some(options.url)
    ensures !Truthy(options.url) && !options.uri.Obj? ==> v == Some(options.uri)
    ensures options.url.Obj? ==>
      if env.formatUrl(options.url.id).Some? then v == Some(Str(env.formatUrl(options.url.id).value))
      else v == None
    ensures !Truthy(options.url) && options.uri.Obj? ==>
      if env.formatUrl(options.uri.id).Some? then v == Some(Str(env.formatUrl(options.uri.id).value))
      else v == None
    ensures v.Some? ==> !v.value.Obj?
  {
    var target := if Truthy(options.url) then options.url else options.uri;
    if target.Obj? then
      match env.formatUrl(target.id)
      case None => None
      case Some(text) => Some(Str(text))
    else Some(target)
  }

  /** The closure `createSSRFProtection` returns, known by the configuration it captured. */
  datatype Middleware = Middleware(config: Config) {

    /** `ssrfProtectionMiddleware(options)`. */
    function Run(env: Env, options: RequestOptions): (r: Outcome)
      ensures options.skipSSRFCheck == Bool(true) ==> r == Proceed(options)
      ensures r.Proceed? ==> r.options == options
      ensures r.FormatFailed? <==> options.skipSSRFCheck != Bool(true) && UrlToCheck(env, options).None?
      ensures options.skipSSRFCheck != Bool(true) && UrlToCheck(env, options).Some? ==>
        (r.Proceed? <==> CheckUrl(env, UrlToCheck(env, options).value, config) == Approved)
      ensures r.Abort? ==>
        UrlToCheck(env, options).Some? && CheckUrl(env, UrlToCheck(env, options).value, config) == Rejected(r.reason)
    {
      if options.skipSSRFCheck == Bool(true) then Proceed(options)
      else
        match UrlToCheck(env, options)
        case None => FormatFailed
        case Some(target) =>
          RemergeIsIdentity(DefaultConfig, config);
          match ValidateUrl(env, target, AsOverrides(config))
          case Approved => Proceed(options)
          case Rejected(reason) => Abort(reason)
    }
  }

  /** `createSSRFProtection(userConfig)`: merges once, up front. */
  function CreateSSRFProtection(userConfig: ConfigOverrides): (m: Middleware)
    ensures m.config == Merge(DefaultConfig, userConfig)
  {
    Middleware(Merge(DefaultConfig, userConfig))
  }
}
