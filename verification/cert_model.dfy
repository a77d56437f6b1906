/**
 The records of the certificate manager: a managed certificate with its
 ordered deployment targets, the global settings, and the configuration
 document that holds them. Fields marked as runtime status are never read
 from or written to the configuration file; everything else is configuration.
 C# mutates these records in place; here every operation returns the updated
 record.
 */
module CertModel {
  import opened Common
  import opened Clock

  /** One push target of a certificate. */
  datatype CertDeployment = CertDeployment(
    name: string,
    kind: string,                 // "ssh", "docker-volume" or "local-copy", any case
    enabled: bool,
    host: Option<string>,
    username: Option<string>,
    sshKeyPath: Option<string>,
    remoteCertPath: Option<string>,
    remoteKeyPath: Option<string>,
    containerName: Option<string>,
    volumePath: Option<string>,
    localCertPath: Option<string>,
    localKeyPath: Option<string>,
    certFileName: Option<string>,
    keyFileName: Option<string>,
    postDeployCommand: Option<string>,
    // runtime status
    lastDeployed: Option<Instant>,
    lastError: Option<string>)

  /** Notification settings: carried by the configuration, read by nothing. */
  datatype NotificationConfig = NotificationConfig(email: seq<string>, webhook: Option<string>)

  /** One domain under management. */
  datatype ManagedCertificate = ManagedCertificate(
    domain: string,
    isWildcard: bool,
    provider: string,
    autoRenew: bool,
    renewDaysBefore: Int32,
    deployments: seq<CertDeployment>,
    notifications: NotificationConfig,
    // runtime status
    lastChecked: Option<Instant>,
    lastRenewed: Option<Instant>,
    expiryDate: Option<Instant>)

  datatype GlobalSettings = GlobalSettings(
    checkInterval: string,
    defaultProvider: string,
    defaultRenewDaysBefore: Int32,
    logRetentionDays: Int32,
    enableNotifications: bool)

  datatype CertificatesConfig = CertificatesConfig(
    managedCertificates: seq<ManagedCertificate>,
    globalSettings: GlobalSettings)

  const DefaultGlobalSettings: GlobalSettings :=
    GlobalSettings("0 2 * * *", "DNSPOD", 30, 90, true)

  /** `new CertificatesConfig()`: no certificates, default settings. */
  const EmptyConfig: CertificatesConfig := CertificatesConfig([], DefaultGlobalSettings)

  /** Whole days until expiry, truncated toward zero; -1 when the expiry is unknown. */
  function DaysUntilExpiry(cert: ManagedCertificate, now: Instant): (d: int)
    ensures cert.expiryDate.None? ==> d == -1
    ensures cert.expiryDate.Some? && cert.expiryDate.value >= now ==>
              d >= 0 && now + d * TicksPerDay <= cert.expiryDate.value < now + (d + 1) * TicksPerDay
    ensures cert.expiryDate.Some? && cert.expiryDate.value < now ==>
              d <= 0 && now + (d - 1) * TicksPerDay < cert.expiryDate.value <= now + d * TicksPerDay
  {
    match cert.expiryDate
    case None => -1
    case Some(expiry) => WholeDaysBetween(now, expiry)
  }

  /** Due for renewal: the remaining validity is positive and within the threshold. */
  predicate NeedsRenewal(cert: ManagedCertificate, now: Instant)
  {
    0 < DaysUntilExpiry(cert, now) <= cert.renewDaysBefore
  }

  /** A certificate is due exactly when its expiry is known and lies at least
      one day and less than threshold+1 days from now. */
  lemma NeedsRenewalCases(cert: ManagedCertificate, now: Instant)
    ensures cert.expiryDate.None? ==> !NeedsRenewal(cert, now)
    ensures cert.expiryDate.Some? && cert.expiryDate.value < now + TicksPerDay ==> !NeedsRenewal(cert, now)
    ensures cert.expiryDate.Some? && cert.expiryDate.value >= now + (cert.renewDaysBefore + 1) * TicksPerDay ==>
              !NeedsRenewal(cert, now)
    ensures NeedsRenewal(cert, now) <==>
              cert.expiryDate.Some? && now + TicksPerDay <= cert.expiryDate.value
              && cert.expiryDate.value < now + (cert.renewDaysBefore + 1) * TicksPerDay
  {
    if cert.expiryDate.Some? {
      var e, d := cert.expiryDate.value, DaysUntilExpiry(cert, now);
      if e >= now {
        if d >= 1 { MulAway(d, TicksPerDay); }
        if d < 1 { MulAway(1 - d, TicksPerDay); }
        if d > cert.renewDaysBefore { MulAway(d - cert.renewDaysBefore, TicksPerDay); }
        if d <= cert.renewDaysBefore { MulAway(cert.renewDaysBefore - d + 1, TicksPerDay); }
      }
    }
  }

  /** Read at the instant the expiry was recorded as `days` whole days ahead,
      the remaining days are exactly `days`, and the certificate is due iff
      1 <= days <= threshold. */
  lemma DueWindowAtRecording(cert: ManagedCertificate, recordedAt: Instant, days: int)
    requires cert.expiryDate.Some? && cert.expiryDate.value == recordedAt + days * TicksPerDay
    ensures DaysUntilExpiry(cert, recordedAt) == days
    ensures NeedsRenewal(cert, recordedAt) <==> 1 <= days <= cert.renewDaysBefore
  {
    assert AddDays(recordedAt, days) == cert.expiryDate;
    WholeDaysRoundTrip(recordedAt, days);
  }

  /** Read a fraction of a day after the expiry was recorded as `days` whole
      days ahead, one remaining day is lost to truncation (for a future
      expiry), so the certificate is due iff 2 <= days <= threshold+1. */
  lemma DueWindowAfterRecording(cert: ManagedCertificate, recordedAt: Instant, later: Instant, days: int)
    requires cert.expiryDate.Some? && cert.expiryDate.value == recordedAt + days * TicksPerDay
    requires recordedAt < later < recordedAt + TicksPerDay
    ensures DaysUntilExpiry(cert, later) == if days >= 1 then days - 1 else days
    ensures NeedsRenewal(cert, later) <==> 2 <= days <= cert.renewDaysBefore + 1
  {
    var e, d := cert.expiryDate.value, DaysUntilExpiry(cert, later);
    var x := e - later;
    assert (days - 1) * TicksPerDay == days * TicksPerDay - TicksPerDay;
    if days >= 1 {
      MulAway(days, TicksPerDay);
      assert d * TicksPerDay <= x < d * TicksPerDay + TicksPerDay;
      QuotientUnique(x, TicksPerDay, d, days - 1);
    } else {
      assert d * TicksPerDay - TicksPerDay < x <= d * TicksPerDay;
      QuotientUniqueBelow(x, TicksPerDay, d, days);
    }
  }

  /** A deployment target as the configuration file yields it: no runtime status. */
  predicate DeploymentFresh(d: CertDeployment)
  {
    d.lastDeployed.None? && d.lastError.None?
  }

  /** A certificate as the configuration file yields it: no runtime status. */
  predicate CertificateFresh(c: ManagedCertificate)
  {
    && c.lastChecked.None? && c.lastRenewed.None? && c.expiryDate.None?
    && forall j :: 0 <= j < |c.deployments| ==> DeploymentFresh(c.deployments[j])
  }

  /** Clears every runtime-status field: the effect of `[JsonIgnore]` on a
      round trip through the configuration file. */
  function WithoutStatus(c: ManagedCertificate): (r: ManagedCertificate)
    ensures CertificateFresh(r)
    ensures |r.deployments| == |c.deployments|
    ensures r.(lastChecked := c.lastChecked, lastRenewed := c.lastRenewed, expiryDate := c.expiryDate,
               deployments := c.deployments) == c
    ensures forall j :: 0 <= j < |c.deployments| ==>
              r.deployments[j].(lastDeployed := c.deployments[j].lastDeployed,
                                lastError := c.deployments[j].lastError) == c.deployments[j]
  {
    c.(lastChecked := None, lastRenewed := None, expiryDate := None,
       deployments := seq(|c.deployments|, j requires 0 <= j < |c.deployments| =>
                            c.deployments[j].(lastDeployed := None, lastError := None)))
  }

  /** Two deployment records that differ at most in runtime status. */
  predicate SameDeploymentConfig(a: CertDeployment, b: CertDeployment)
  {
    a.(lastDeployed := b.lastDeployed, lastError := b.lastError) == b
  }

  /** Two certificate records that differ at most in runtime status, their
      own or their deployments'. */
  predicate SameConfig(a: ManagedCertificate, b: ManagedCertificate)
  {
    && a.(lastChecked := b.lastChecked, lastRenewed := b.lastRenewed, expiryDate := b.expiryDate,
          deployments := b.deployments) == b
    && |a.deployments| == |b.deployments|
    && forall j :: 0 <= j < |a.deployments| ==> SameDeploymentConfig(a.deployments[j], b.deployments[j])
  }

  lemma SameConfigTransitive(a: ManagedCertificate, b: ManagedCertificate, c: ManagedCertificate)
    requires SameConfig(a, b) && SameConfig(b, c)
    ensures SameConfig(a, c)
  {
  }

  /** What reading `certificates.json` can produce. */
  datatype ConfigFile =
    | Missing                                  // File.Exists is false
    | Unreadable                               // reading the file throws
    | Malformed                                // the JSON deserializer throws
    | JsonNull                                 // the document is the literal `null`
    | Document(managedCertificates: seq<ManagedCertificate>, globalSettings: GlobalSettings)

  /** `LoadConfig`: the parsed document with no runtime status, or the empty
      default whenever the file is absent or cannot be read or parsed. */
  function LoadConfig(file: ConfigFile): (r: CertificatesConfig)
    ensures !file.Document? ==> r == EmptyConfig
    ensures file.Document? ==>
              && r.globalSettings == file.globalSettings
              && |r.managedCertificates| == |file.managedCertificates|
              && forall i :: 0 <= i < |r.managedCertificates| ==>
                   r.managedCertificates[i] == WithoutStatus(file.managedCertificates[i])
    ensures forall i :: 0 <= i < |r.managedCertificates| ==> CertificateFresh(r.managedCertificates[i])
  {
    match file
    case Document(certs, settings) =>
      CertificatesConfig(seq(|certs|, i requires 0 <= i < |certs| => WithoutStatus(certs[i])), settings)
    case _ => EmptyConfig
  }

  /** Loading a document written from a loaded configuration gives it back:
      configuration fields survive, runtime status never appears. */
  lemma LoadConfigRoundTrip(file: ConfigFile)
    requires file.Document?
    ensures var c := LoadConfig(file);
            LoadConfig(Document(c.managedCertificates, c.globalSettings)) == c
  {
    var c := LoadConfig(file);
    var c' := LoadConfig(Document(c.managedCertificates, c.globalSettings));
    assert |c'.managedCertificates| == |c.managedCertificates|;
    forall i | 0 <= i < |c.managedCertificates|
      ensures c'.managedCertificates[i] == c.managedCertificates[i]
    {
      var x := c.managedCertificates[i];
      var y := WithoutStatus(x);
      assert |y.deployments| == |x.deployments|;
      forall j | 0 <= j < |x.deployments|
        ensures y.deployments[j] == x.deployments[j]
      {
        assert DeploymentFresh(x.deployments[j]);
      }
    }
  }
}
