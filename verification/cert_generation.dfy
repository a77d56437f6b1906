/**
 The pure helpers of the certificate generation service: request
 validation, apex-domain detection, the certificate subject and its
 Subject Alternative Names, the acme.sh DNS-provider tag, and the
 provider-credential environment update (process environment and
 application configuration as maps from variable or key to value).
 */
module CertGeneration {
  import opened Common

  /** The internal certificate request. */
  datatype CertificateRequest = CertificateRequest(
    domain: string,
    provider: Option<string>,
    certType: Option<string>,
    exportFormat: Option<string>,
    pfxPassword: Option<string>,
    apiKeyId: Option<string>,
    apiKeySecret: Option<string>,
    cfAccountId: Option<string>,
    isWildcard: Option<bool>)

  datatype ValidationError = DomainRequired | BadCertType | BadExportFormat | PfxPasswordRequired

  /** `x?.ToUpper()`. */
  function UpperOpt(s: Option<string>): Option<string>
  {
    match s
    case None => None
    case Some(v) => Some(Upper(v))
  }

  /** The export formats that produce a PFX bundle. */
  predicate WantsPfx(request: CertificateRequest)
  {
    UpperOpt(request.exportFormat) in {Some("PFX"), Some("BOTH")}
  }

  /** `ValidateRequest`: the first failing check in source order, or `None`. */
  function ValidateRequest(request: CertificateRequest): (r: Option<ValidationError>)
    // a blank domain is reported before anything else is looked at
    ensures IsBlank(request.domain) <==> r == Some(DomainRequired)
    ensures r == Some(BadCertType) <==>
              !IsBlank(request.domain) && UpperOpt(request.certType) !in {Some("RSA2048"), Some("ECDSA256")}
    ensures r == Some(BadExportFormat) ==> UpperOpt(request.exportFormat) !in {Some("PEM"), Some("PFX"), Some("BOTH")}
    ensures r == Some(PfxPasswordRequired) ==> WantsPfx(request) && IsNullOrBlank(request.pfxPassword)
    // accepted exactly when every check passes
    ensures r.None? <==>
              && !IsBlank(request.domain)
              && UpperOpt(request.certType) in {Some("RSA2048"), Some("ECDSA256")}
              && UpperOpt(request.exportFormat) in {Some("PEM"), Some("PFX"), Some("BOTH")}
              && (WantsPfx(request) ==> !IsNullOrBlank(request.pfxPassword))
  {
    if IsBlank(request.domain) then Some(DomainRequired)
    else if UpperOpt(request.certType) !in {Some("RSA2048"), Some("ECDSA256")} then Some(BadCertType)
    else if UpperOpt(request.exportFormat) !in {Some("PEM"), Some("PFX"), Some("BOTH")} then Some(BadExportFormat)
    else if WantsPfx(request) && IsNullOrBlank(request.pfxPassword) then Some(PfxPasswordRequired)
    else None
  }

  /** The number of '.' characters in a string. */
  function Dots(s: string): nat
  {
    if |s| == 0 then 0 else Dots(s[..|s| - 1]) + (if s[|s| - 1] == '.' then 1 else 0)
  }

  /** `String.IndexOf('.')`, -1 when absent. */
  function IndexOfDot(s: string): (r: int)
    ensures -1 <= r < |s|
    ensures r >= 0 ==> s[r] == '.' && forall k :: 0 <= k < r ==> s[k] != '.'
    ensures r == -1 ==> forall k :: 0 <= k < |s| ==> s[k] != '.'
  {
    if |s| == 0 then -1
    else if s[0] == '.' then 0
    else var r := IndexOfDot(s[1..]); if r == -1 then -1 else r + 1
  }

  /** `String.LastIndexOf('.')`, -1 when absent. */
  function LastIndexOfDot(s: string): (r: int)
    ensures -1 <= r < |s|
    ensures r >= 0 ==> s[r] == '.' && forall k :: r < k < |s| ==> s[k] != '.'
    ensures r == -1 ==> forall k :: 0 <= k < |s| ==> s[k] != '.'
  {
    if |s| == 0 then -1
    else if s[|s| - 1] == '.' then |s| - 1
    else LastIndexOfDot(s[..|s| - 1])
  }

  /** `IsApexDomain`, following the source's steps. */
  function IsApexDomain(domain: string): bool
  {
    if domain == "" then false
    else
      var s := Lower(Trim(domain));
      if StartsWith(s, ".") || (|s| > 0 && s[|s| - 1] == '.') then false
      else
        var first, last := IndexOfDot(s), LastIndexOfDot(s);
        first > 0 && first == last && last < |s| - 1
  }

  lemma {:induction false} DotsZero(s: string)
    requires forall k :: 0 <= k < |s| ==> s[k] != '.'
    ensures Dots(s) == 0
  {
    if |s| > 0 { DotsZero(s[..|s| - 1]); }
  }

  /** A string with no dot before `p` and none after it has exactly one dot when `s[p]` is one. */
  lemma {:induction false} DotsSingle(s: string, p: int)
    requires 0 <= p < |s| && s[p] == '.'
    requires forall k :: 0 <= k < |s| && k != p ==> s[k] != '.'
    ensures Dots(s) == 1
  {
    if p == |s| - 1 {
      DotsZero(s[..|s| - 1]);
    } else {
      DotsSingle(s[..|s| - 1], p);
    }
  }

  /** Two distinct dots make at least two. */
  lemma {:induction false} DotsTwo(s: string, p: int, q: int)
    requires 0 <= p < q < |s| && s[p] == '.' && s[q] == '.'
    ensures Dots(s) >= 2
  {
    if q < |s| - 1 {
      DotsTwo(s[..|s| - 1], p, q);
    } else {
      DotsAtLeastOne(s[..|s| - 1], p);
    }
  }

  lemma {:induction false} DotsAtLeastOne(s: string, p: int)
    requires 0 <= p < |s| && s[p] == '.'
    ensures Dots(s) >= 1
  {
    if p < |s| - 1 { DotsAtLeastOne(s[..|s| - 1], p); }
  }

  /** With no dot at either end, the first dot is the last one and lies
      strictly inside exactly when there is one dot. `s` is `t` with its dots
      in the same places. */
  lemma SingleInnerDot(t: string, s: string)
    requires |s| == |t| > 0 && s[0] != '.' && s[|s| - 1] != '.'
    requires forall k :: 0 <= k < |s| ==> (s[k] == '.' <==> t[k] == '.')
    ensures (IndexOfDot(s) > 0 && IndexOfDot(s) == LastIndexOfDot(s) && LastIndexOfDot(s) < |s| - 1) <==> Dots(t) == 1
  {
    var first, last := IndexOfDot(s), LastIndexOfDot(s);
    if first > 0 && first == last {
      DotsSingle(t, first);
    } else if first != last {
      if first >= 0 { DotsTwo(t, first, last); }
      else { DotsZero(t); }
    } else {
      DotsZero(t);
    }
  }

  /** An apex domain is one whose trimmed form holds exactly one '.', neither
      first nor last (lower-casing moves no dot). */
  lemma IsApexDomainMeaning(domain: string)
    ensures IsApexDomain(domain) <==>
              var s := Trim(domain);
              Dots(s) == 1 && s[0] != '.' && s[|s| - 1] != '.'
  {
    var t := Trim(domain);
    var s := Lower(t);
    assert forall k :: 0 <= k < |s| ==> (s[k] == '.' <==> t[k] == '.');
    if domain == "" {
      assert t == "";
    } else if |s| > 0 && s[0] != '.' && s[|s| - 1] != '.' {
      assert !StartsWith(s, ".");
      SingleInnerDot(t, s);
    } else if |s| > 0 {
      if s[0] == '.' { assert StartsWith(s, "."); }
    }
  }

  /** Whether the request becomes a wildcard certificate: the explicit flag,
      or else whether the domain is an apex domain. */
  function WildcardFor(request: CertificateRequest): (w: bool)
    ensures request.isWildcard.Some? ==> w == request.isWildcard.value
    ensures request.isWildcard.None? ==> w == IsApexDomain(request.domain)
  {
    request.isWildcard.OrElse(IsApexDomain(request.domain))
  }

  /** The certificate subject: `*.` before the domain iff wildcard. */
  function CertSubject(domain: string, wildcard: bool): (subject: string)
    ensures wildcard ==> subject == "*." + domain
    ensures !wildcard ==> subject == domain
  {
    if wildcard then "*." + domain else domain
  }

  /** The DNS names of the Subject Alternative Name extension. */
  function SanNames(subject: string): (names: seq<string>)
    ensures StartsWith(subject, "*.") ==> names == [subject, subject[2..]]
    ensures !StartsWith(subject, "*.") ==> names == [subject]
  {
    if StartsWith(subject, "*.") then [subject, subject[2..]] else [subject]
  }

  /** A wildcard subject lists itself and its bare domain; a plain one only itself. */
  lemma SanNamesOfSubject(domain: string, wildcard: bool)
    ensures wildcard ==> SanNames(CertSubject(domain, wildcard)) == ["*." + domain, domain]
    ensures !wildcard && !StartsWith(domain, "*.") ==> SanNames(CertSubject(domain, wildcard)) == [domain]
    ensures domain in SanNames(CertSubject(domain, wildcard))
  {
    if wildcard {
      var s := "*." + domain;
      assert StartsWith(s, "*.");
      assert s[2..] == domain;
    }
  }

  const ProviderTags: set<string> := {"dns_dp", "dns_cf", "dns_ali", "dns_tencent"}

  /** `GetDnsProviderName`: the acme.sh DNS API of a provider, DNSPod by default. */
  function DnsProviderName(provider: Option<string>): (tag: string)
    ensures tag in ProviderTags
    ensures tag == "dns_cf" <==> UpperOpt(provider) == Some("CLOUDFLARE")
    ensures tag == "dns_ali" <==> UpperOpt(provider) == Some("ALIYUN")
    ensures tag == "dns_tencent" <==> UpperOpt(provider) == Some("TENCENT")
    ensures tag == "dns_dp" <==> UpperOpt(provider) !in {Some("CLOUDFLARE"), Some("ALIYUN"), Some("TENCENT")}
  {
    match UpperOpt(provider)
    case Some("DNSPOD") => "dns_dp"
    case Some("CLOUDFLARE") => "dns_cf"
    case Some("ALIYUN") => "dns_ali"
    case Some("TENCENT") => "dns_tencent"
    case _ => "dns_dp"
  }

  /** Upper-casing is idempotent, and upper-casing a lower-cased text gives
      the upper-cased original. */
  lemma UpperAbsorbsCase(p: string)
    ensures Upper(Upper(p)) == Upper(p)
    ensures Upper(Lower(p)) == Upper(p)
  {
    assert forall i :: 0 <= i < |p| ==> UpperChar(UpperChar(p[i])) == UpperChar(p[i]);
    assert forall i :: 0 <= i < |p| ==> UpperChar(LowerChar(p[i])) == UpperChar(p[i]);
  }

  /** The provider name is compared without regard to case: names that differ
      only in the case of their letters select the same tag. */
  lemma DnsProviderNameIgnoresCase(p: string, q: string)
    ensures EqualsIgnoreCase(p, q) ==> DnsProviderName(Some(p)) == DnsProviderName(Some(q))
    ensures DnsProviderName(Some(Upper(p))) == DnsProviderName(Some(p))
    ensures DnsProviderName(Some(Lower(p))) == DnsProviderName(Some(p))
  {
    UpperAbsorbsCase(p);
  }

  /** A map lookup as `IConfiguration[key]` does it: `null` when absent. */
  function Lookup(m: map<string, string>, key: string): Option<string>
  {
    if key in m then Some(m[key]) else None
  }

  /** The environment variables each provider's credentials go to. */
  function ProviderVariables(provider: string): set<string>
  {
    if provider == "DNSPOD" then {"DP_Id", "DP_Key"}
    else if provider == "CLOUDFLARE" then {"CF_Token", "CF_Account_ID"}
    else if provider == "ALIYUN" then {"Ali_Key", "Ali_Secret"}
    else {}
  }

  /** `request.Provider?.ToUpper() ?? "DNSPOD"`. */
  function SelectedProvider(request: CertificateRequest): string
  {
    UpperOpt(request.provider).OrElse("DNSPOD")
  }

  /** `SetDnsApiEnvironment` as a transformer of the process environment. */
  function SetDnsApiEnvironment(env: map<string, string>, request: CertificateRequest,
                                config: map<string, string>): (r: map<string, string>)
    // only the selected provider's variables can change
    ensures forall v :: v !in ProviderVariables(SelectedProvider(request)) ==>
              (v in r <==> v in env) && (v in env ==> r[v] == env[v])
    ensures r.Keys - env.Keys <= ProviderVariables(SelectedProvider(request))
    // DNSPod: the request's values, else the configuration's; both must be non-empty
    ensures SelectedProvider(request) == "DNSPOD" ==>
              var id := request.apiKeyId.OrElse(Lookup(config, "DNSPod:ApiKeyId").OrElse(""));
              var key := request.apiKeySecret.OrElse(Lookup(config, "DNSPod:ApiKeySecret").OrElse(""));
              if id != "" && key != "" then r == env["DP_Id" := id]["DP_Key" := key] else r == env
    // Cloudflare: the token is required, the account id is written only when given
    ensures SelectedProvider(request) == "CLOUDFLARE" ==>
              if IsNullOrEmpty(request.apiKeySecret) then r == env
              else
                && (IsNullOrEmpty(request.cfAccountId) ==> r == env["CF_Token" := request.apiKeySecret.value])
                && (!IsNullOrEmpty(request.cfAccountId) ==>
                      r == env["CF_Token" := request.apiKeySecret.value]["CF_Account_ID" := request.cfAccountId.value])
    // Aliyun: both key id and secret required
    ensures SelectedProvider(request) == "ALIYUN" ==>
              if IsNullOrEmpty(request.apiKeyId) || IsNullOrEmpty(request.apiKeySecret) then r == env
              else r == env["Ali_Key" := request.apiKeyId.value]["Ali_Secret" := request.apiKeySecret.value]
    // any other provider, including TENCENT: nothing is written
    ensures SelectedProvider(request) !in {"DNSPOD", "CLOUDFLARE", "ALIYUN"} ==> r == env
  {
    match SelectedProvider(request)
    case "DNSPOD" =>
      var id := request.apiKeyId.OrElse(Lookup(config, "DNSPod:ApiKeyId").OrElse(""));
      var key := request.apiKeySecret.OrElse(Lookup(config, "DNSPod:ApiKeySecret").OrElse(""));
      if id != "" && key != "" then env["DP_Id" := id]["DP_Key" := key] else env
    case "CLOUDFLARE" =>
      if IsNullOrEmpty(request.apiKeySecret) then env
      else
        var withToken := env["CF_Token" := request.apiKeySecret.value];
        if IsNullOrEmpty(request.cfAccountId) then withToken
        else withToken["CF_Account_ID" := request.cfAccountId.value]
    case "ALIYUN" =>
      if IsNullOrEmpty(request.apiKeyId) || IsNullOrEmpty(request.apiKeySecret) then env
      else env["Ali_Key" := request.apiKeyId.value]["Ali_Secret" := request.apiKeySecret.value]
    case _ => env
  }

  /** An empty request value does not fall back to the configuration: `??`
      replaces only `null`, so an empty DNSPod key id writes nothing. */
  lemma DnsPodEmptyIdWritesNothing(env: map<string, string>, request: CertificateRequest,
                                   config: map<string, string>)
    requires SelectedProvider(request) == "DNSPOD" && request.apiKeyId == Some("")
    ensures SetDnsApiEnvironment(env, request, config) == env
  {
  }

  /** Writing the same credentials twice changes nothing more. */
  lemma SetDnsApiEnvironmentIdempotent(env: map<string, string>, request: CertificateRequest,
                                       config: map<string, string>)
    ensures var once := SetDnsApiEnvironment(env, request, config);
            SetDnsApiEnvironment(once, request, config) == once
  {
  }

  /** What `IssueCertificateAsync` settles before calling acme.sh. */
  datatype IssuePlan = IssuePlan(subject: string, wildcard: bool, dnsProvider: string)

  /** The decisions of `IssueCertificateAsync` up to the acme.sh call: a
      rejected request stops before any of them. */
  function PlanIssue(request: CertificateRequest): (r: Option<IssuePlan>)
    ensures r.Some? <==> ValidateRequest(request).None?
    ensures r.Some? ==>
              && r.value.wildcard == WildcardFor(request)
              && (r.value.wildcard <==> r.value.subject == "*." + request.domain)
              && (!r.value.wildcard ==> r.value.subject == request.domain)
              && r.value.dnsProvider == DnsProviderName(request.provider)
  {
    if ValidateRequest(request).Some? then None
    else
      var wildcard := WildcardFor(request);
      var subject := CertSubject(request.domain, wildcard);
      assert !wildcard ==> |subject| < |"*." + request.domain|;
      Some(IssuePlan(subject, wildcard, DnsProviderName(request.provider)))
  }

  /** Where `ExportCertificateAsync` takes the issued certificate from: the
      files acme.sh keeps for the subject, or, when either is missing (as when
      acme.sh is not installed and the development stand-in reports success),
      a self-signed stand-in named after the subject. */
  datatype CertificateSource = AcmeOutput | StandIn(commonName: string, sanNames: seq<string>)

  function CertificateSourceFor(subject: string, acmeFilesExist: bool): (r: CertificateSource)
    ensures r.AcmeOutput? <==> acmeFilesExist
    ensures r.StandIn? ==> r.commonName == subject && r.sanNames == SanNames(subject)
  {
    if acmeFilesExist then AcmeOutput else StandIn(subject, SanNames(subject))
  }

  /** The stand-in issued for an accepted request always names the requested
      domain; for a wildcard request it names the wildcard and the bare
      domain, for a plain one only the domain. */
  lemma StandInNamesDomain(request: CertificateRequest)
    requires ValidateRequest(request).None?
    ensures var plan := PlanIssue(request).value;
            var src := CertificateSourceFor(plan.subject, false);
            && src.StandIn?
            && request.domain in src.sanNames
            && (plan.wildcard ==> src.sanNames == ["*." + request.domain, request.domain])
            && (!plan.wildcard && !StartsWith(request.domain, "*.") ==> src.sanNames == [request.domain])
  {
    var plan := PlanIssue(request).value;
    assert plan.subject == CertSubject(request.domain, plan.wildcard);
    SanNamesOfSubject(request.domain, plan.wildcard);
  }
}
