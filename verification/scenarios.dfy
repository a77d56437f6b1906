/**
 Worked cases of the renewal tick: a certificate reported 20 days from
 expiry with a 30-day threshold is renewed, one reported 45 days from expiry
 is only checked, and with three deployment targets of which the second
 fails, two deployments are counted.
 */
module Scenarios {
  import opened Common
  import opened Clock
  import opened CertModel
  import opened CertManager
  import opened Renewal

  /** A check that succeeds and reports `days` days left. */
  predicate ReportsDaysLeft(o: CertOracle, days: Int32)
  {
    o.scriptExists && SuccessReply(o.check).Some? && SuccessReply(o.check).value.daysLeft == Present(days)
  }

  /** 20 days left under a 30-day threshold: the certificate is due and a
      renewal is requested in the same tick, however the clock moves between
      the check and the decision. */
  lemma DueCertificateIsRenewed(cert: ManagedCertificate, now: Instant, o: CertOracle)
    requires cert.autoRenew && cert.renewDaysBefore == 30
    requires ReportsDaysLeft(o, 20) && now <= MaxTicks - 20 * TicksPerDay
    requires o.elapsed < TicksPerDay
    ensures var r := ProcessCertificate(cert, now, o);
            r.checked && Renew in r.calls && r.cert.lastChecked == Some(now)
  {
    assert CheckedDaysLeft(now, o.scriptExists, o.check) == Some(20);
    DecisionWindow(cert, now, o, 20);
  }

  /** 45 days left under a 30-day threshold: checked, not renewed. */
  lemma DistantCertificateIsOnlyChecked(cert: ManagedCertificate, now: Instant, o: CertOracle)
    requires cert.autoRenew && cert.renewDaysBefore == 30
    requires ReportsDaysLeft(o, 45) && now <= MaxTicks - 45 * TicksPerDay
    requires o.elapsed < TicksPerDay
    ensures var r := ProcessCertificate(cert, now, o);
            && r.checked && !r.renewed && Renew !in r.calls
            && r.cert.lastChecked == Some(now) && r.cert.lastRenewed == cert.lastRenewed
  {
    assert CheckedDaysLeft(now, o.scriptExists, o.check) == Some(45);
    DecisionWindow(cert, now, o, 45);
  }

  /** The window moves with the clock: under a 30-day threshold, a check
      reporting 31 days is renewed when the clock has moved on before the
      decision, and one reporting 1 day is not; at the check's own instant it
      is the other way round. */
  lemma ClockMovesTheWindow(cert: ManagedCertificate, now: Instant, o: CertOracle, days: Int32)
    requires cert.autoRenew && cert.renewDaysBefore == 30
    requires days == 1 || days == 31
    requires ReportsDaysLeft(o, days) && now <= MaxTicks - 31 * TicksPerDay
    requires o.elapsed < TicksPerDay
    ensures var r := ProcessCertificate(cert, now, o);
            o.elapsed > 0 ==> (Renew in r.calls <==> days == 31)
    ensures var r := ProcessCertificate(cert, now, o);
            o.elapsed == 0 ==> (Renew in r.calls <==> days == 1)
  {
    assert CheckedDaysLeft(now, o.scriptExists, o.check) == Some(days as int);
    DecisionWindow(cert, now, o, days as int);
  }

  /** Three enabled targets of known types whose drivers succeed, fail and
      succeed: two deployments are counted, the failed target keeps its status,
      and the other two record the deployment time and clear their error. */
  lemma SecondOfThreeFails(ds: seq<CertDeployment>, certPem: string, keyPem: string, now: Instant,
                           o: nat -> DeployOracle)
    requires |ds| == 3
    requires forall j :: 0 <= j < 3 ==> ds[j].enabled && ParseKind(ds[j].kind).Some?
    requires forall j :: 0 <= j < 3 ==> (DriverSucceeds(ParseKind(ds[j].kind).value, ds[j], o(j)) <==> j != 1)
    ensures var r := DeployAll(ds, certPem, keyPem, now, o);
            && r.count == 2
            && r.deployments[1] == ds[1]
            && r.deployments[0].lastDeployed == Some(now) && r.deployments[0].lastError.None?
            && r.deployments[2].lastDeployed == Some(now) && r.deployments[2].lastError.None?
  {
    DeployAllCount(ds, certPem, keyPem, now, o);
    DeployAllOutcomes(ds, certPem, keyPem, now, o);
    var flags := DeploySuccessFlags(ds, certPem, keyPem, now, o);
    forall j | 0 <= j < 3
      ensures flags[j] == (j != 1)
    {
      assert DeployCertificate(ds[j], certPem, keyPem, now, o(j)).ok == DriverSucceeds(ParseKind(ds[j].kind).value, ds[j], o(j));
    }
    assert flags == [true, false, true];
    assert flags[..2] == [true, false] && flags[..2][..1] == [true] && [true][..0] == [];
    assert Count([true]) == 1;
    assert Count([true, false]) == 1;
    assert Count(flags) == 2;
  }
}
