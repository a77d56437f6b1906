/**
 The renewal background service: one tick walks the certificate list in
 order and runs, per certificate, skip -> check -> (when due) renew ->
 deploy to each enabled target in order, counting checked certificates,
 renewed certificates and successful deployments. The service loop runs
 ticks until cancellation and survives an exception escaping a tick.
 */
module Renewal {
  import opened Common
  import opened Clock
  import opened CertModel
  import opened CertManager

  /** What the outside world answers while one certificate is processed;
      `deploy(j)` answers for the certificate's j-th deployment, and
      `elapsed` is how far the clock moves, in ticks, between the check
      recording the expiry and `NeedsRenewal` reading the clock again. */
  datatype CertOracle = CertOracle(
    scriptExists: bool,
    check: ScriptRun,
    renew: ScriptRun,
    deploy: nat -> DeployOracle,
    elapsed: nat)

  /** The instant `cert.NeedsRenewal` reads: `elapsed` after the check, and
      never past `DateTime.MaxValue`. */
  function DecisionTime(now: Instant, o: CertOracle): (t: Instant)
    ensures now <= t
    ensures now + o.elapsed <= MaxTicks ==> t == now + o.elapsed
    ensures now + o.elapsed > MaxTicks ==> t == MaxTicks
  {
    if now + o.elapsed <= MaxTicks then now + o.elapsed else MaxTicks
  }

  /** An external call made on behalf of one certificate. */
  datatype Call = Check | Renew | Deploy(deployment: nat, call: DeployCall)

  /** An external call tagged with the index of its certificate. */
  datatype Event = Event(cert: nat, call: Call)

  // ---------------------------------------------------------------------------
  // Counting helpers

  function Count(bs: seq<bool>): (n: nat)
    ensures n <= |bs|
  {
    if |bs| == 0 then 0 else Count(bs[..|bs| - 1]) + (if bs[|bs| - 1] then 1 else 0)
  }

  function Sum(xs: seq<nat>): nat
  {
    if |xs| == 0 then 0 else Sum(xs[..|xs| - 1]) + xs[|xs| - 1]
  }

  lemma {:induction false} CountMonotone(a: seq<bool>, b: seq<bool>)
    requires |a| == |b|
    requires forall i :: 0 <= i < |a| ==> a[i] ==> b[i]
    ensures Count(a) <= Count(b)
  {
    if |a| > 0 {
      CountMonotone(a[..|a| - 1], b[..|b| - 1]);
    }
  }

  lemma {:induction false} SumMonotone(a: seq<nat>, b: seq<nat>)
    requires |a| == |b|
    requires forall i :: 0 <= i < |a| ==> a[i] <= b[i]
    ensures Sum(a) <= Sum(b)
  {
    if |a| > 0 {
      SumMonotone(a[..|a| - 1], b[..|b| - 1]);
    }
  }

  /** The enabled targets of a deployment list, as flags. */
  function EnabledFlags(ds: seq<CertDeployment>): (r: seq<bool>)
    ensures |r| == |ds| && forall j :: 0 <= j < |ds| ==> r[j] == ds[j].enabled
  {
    seq(|ds|, j requires 0 <= j < |ds| => ds[j].enabled)
  }

  /** The number of enabled deployments of a certificate. */
  function EnabledCount(ds: seq<CertDeployment>): nat
  {
    Count(EnabledFlags(ds))
  }

  // ---------------------------------------------------------------------------
  // Deploying to every enabled target of one certificate

  datatype DeployRound = DeployRound(deployments: seq<CertDeployment>, count: nat, calls: seq<Call>)

  function TagDeployCalls(j: nat, calls: seq<DeployCall>): (r: seq<Call>)
    ensures |r| == |calls|
    ensures forall a :: 0 <= a < |r| ==> r[a] == Deploy(j, calls[a])
  {
    seq(|calls|, a requires 0 <= a < |calls| => Deploy(j, calls[a]))
  }

  /** Which targets report success when deployed to. */
  function DeploySuccessFlags(ds: seq<CertDeployment>, certPem: string, keyPem: string, now: Instant,
                              o: nat -> DeployOracle): (r: seq<bool>)
    ensures |r| == |ds|
    ensures forall j :: 0 <= j < |ds| ==>
              r[j] == (ds[j].enabled && DeployCertificate(ds[j], certPem, keyPem, now, o(j)).ok)
  {
    seq(|ds|, j requires 0 <= j < |ds| =>
              ds[j].enabled && DeployCertificate(ds[j], certPem, keyPem, now, o(j)).ok)
  }

  /** The loop over `cert.Deployments.Where(d => d.Enabled)`. */
  function DeployAll(ds: seq<CertDeployment>, certPem: string, keyPem: string, now: Instant,
                     o: nat -> DeployOracle): (r: DeployRound)
    ensures |r.deployments| == |ds|
  {
    if |ds| == 0 then DeployRound([], 0, [])
    else
      var n := |ds| - 1;
      var prev := DeployAll(ds[..n], certPem, keyPem, now, o);
      var d := ds[n];
      if !d.enabled then
        DeployRound(prev.deployments + [d], prev.count, prev.calls)
      else
        var out := DeployCertificate(d, certPem, keyPem, now, o(n));
        DeployRound(prev.deployments + [out.deployment],
                    prev.count + (if out.ok then 1 else 0),
                    prev.calls + TagDeployCalls(n, out.calls))
  }

  /** Every enabled target is attempted whatever happened to the earlier ones:
      a disabled target is left alone, an enabled one gets exactly the outcome
      of its own deployment. */
  lemma {:induction false} DeployAllOutcomes(ds: seq<CertDeployment>, certPem: string, keyPem: string,
                                             now: Instant, o: nat -> DeployOracle)
    ensures var r := DeployAll(ds, certPem, keyPem, now, o);
            && (forall j :: 0 <= j < |ds| && !ds[j].enabled ==> r.deployments[j] == ds[j])
            && (forall j :: 0 <= j < |ds| && ds[j].enabled ==>
                  r.deployments[j] == DeployCertificate(ds[j], certPem, keyPem, now, o(j)).deployment)
  {
    if |ds| > 0 {
      DeployAllOutcomes(ds[..|ds| - 1], certPem, keyPem, now, o);
    }
  }

  /** The count is the number of enabled targets whose deployment returned true. */
  lemma {:induction false} DeployAllCount(ds: seq<CertDeployment>, certPem: string, keyPem: string,
                                          now: Instant, o: nat -> DeployOracle)
    ensures DeployAll(ds, certPem, keyPem, now, o).count == Count(DeploySuccessFlags(ds, certPem, keyPem, now, o))
    ensures DeployAll(ds, certPem, keyPem, now, o).count <= EnabledCount(ds)
  {
    var flags := DeploySuccessFlags(ds, certPem, keyPem, now, o);
    if |ds| > 0 {
      var n := |ds| - 1;
      DeployAllCount(ds[..n], certPem, keyPem, now, o);
      assert DeploySuccessFlags(ds[..n], certPem, keyPem, now, o) == flags[..n];
    }
    CountMonotone(flags, EnabledFlags(ds));
  }

  /** Calls go only to enabled targets of `ds`, in configured order. */
  predicate CallsInOrder(calls: seq<Call>, ds: seq<CertDeployment>)
  {
    && (forall a :: 0 <= a < |calls| ==>
          calls[a].Deploy? && calls[a].deployment < |ds| && ds[calls[a].deployment].enabled)
    && (forall a, b :: 0 <= a < b < |calls| && calls[a].Deploy? && calls[b].Deploy? ==>
          calls[a].deployment <= calls[b].deployment)
  }

  /** The deploy loop calls only enabled targets, in configured order. */
  lemma {:induction false} DeployAllCalls(ds: seq<CertDeployment>, certPem: string, keyPem: string,
                                          now: Instant, o: nat -> DeployOracle)
    ensures CallsInOrder(DeployAll(ds, certPem, keyPem, now, o).calls, ds)
  {
    if |ds| > 0 {
      var n := |ds| - 1;
      DeployAllCalls(ds[..n], certPem, keyPem, now, o);
      var prev := DeployAll(ds[..n], certPem, keyPem, now, o).calls;
      var calls := DeployAll(ds, certPem, keyPem, now, o).calls;
      assert CallsInOrder(prev, ds[..n]);
      forall a | 0 <= a < |prev|
        ensures prev[a].Deploy? && prev[a].deployment < n && ds[prev[a].deployment].enabled
      {
        assert ds[..n][prev[a].deployment] == ds[prev[a].deployment];
      }
      if ds[n].enabled {
        var out := DeployCertificate(ds[n], certPem, keyPem, now, o(n));
        assert calls == prev + TagDeployCalls(n, out.calls);
      } else {
        assert calls == prev;
      }
    }
  }

  // ---------------------------------------------------------------------------
  // One certificate

  datatype CertStep = CertStep(cert: ManagedCertificate, checked: bool, renewed: bool, deployed: nat,
                               calls: seq<Call>)

  /** The certificate after a check, when the check succeeds. */
  function Checked(cert: ManagedCertificate, now: Instant, o: CertOracle): CheckOutcome
  {
    CheckCertificate(cert, now, o.scriptExists, o.check)
  }

  /** Renewal is attempted: auto-renewal is on, the check succeeded and the
      freshly checked record is due when the clock is read again. */
  predicate RenewalAttempted(cert: ManagedCertificate, now: Instant, o: CertOracle)
  {
    cert.autoRenew && Checked(cert, now, o).ok && NeedsRenewal(Checked(cert, now, o).cert, DecisionTime(now, o))
  }

  /** The renewal window in terms of the days the check reported. Read at the
      check's own instant, a certificate is due for 1 <= days <= threshold;
      read a fraction of a day later, truncation drops a day and it is due for
      2 <= days <= threshold+1. */
  lemma DecisionWindow(cert: ManagedCertificate, now: Instant, o: CertOracle, days: int)
    requires cert.autoRenew
    requires CheckedDaysLeft(now, o.scriptExists, o.check) == Some(days)
    requires o.elapsed < TicksPerDay && now + o.elapsed <= MaxTicks
    ensures o.elapsed == 0 ==> (RenewalAttempted(cert, now, o) <==> 1 <= days <= cert.renewDaysBefore)
    ensures o.elapsed > 0 ==> (RenewalAttempted(cert, now, o) <==> 2 <= days <= cert.renewDaysBefore + 1)
  {
    var ch := Checked(cert, now, o);
    assert ch.ok;
    assert ch.cert.expiryDate == AddDays(now, days);
    assert ch.cert.renewDaysBefore == cert.renewDaysBefore;
    if o.elapsed == 0 {
      DueWindowAtRecording(ch.cert, now, days);
    } else {
      DueWindowAfterRecording(ch.cert, now, DecisionTime(now, o), days);
    }
  }

  /** The body of the `foreach` over certificates; `ProcessCertificateTrace`
      states its calls and its record exactly. */
  function ProcessCertificate(cert: ManagedCertificate, now: Instant, o: CertOracle): (r: CertStep)
    // auto-renewal off: no call, no counter, no change
    ensures !cert.autoRenew ==> r == CertStep(cert, false, false, 0, [])
    ensures cert.autoRenew ==> |r.calls| >= 1 && r.calls[0] == Check
    // counted as checked iff the check succeeded
    ensures r.checked <==> cert.autoRenew && Checked(cert, now, o).ok
    // a failed check: nothing changes and nothing else is called
    ensures cert.autoRenew && !Checked(cert, now, o).ok ==> r == CertStep(cert, false, false, 0, [Check])
    // renewal attempted iff the check succeeded and the updated record is due
    ensures Renew in r.calls <==> RenewalAttempted(cert, now, o)
    ensures r.renewed <==> RenewalAttempted(cert, now, o) && RenewCertificate(Checked(cert, now, o).cert, now, o.renew).result.success
    // deployments only after a successful renewal, to enabled targets only
    ensures !r.renewed ==> r.deployed == 0 && r.cert.deployments == cert.deployments
    ensures !r.renewed ==> forall a :: 0 <= a < |r.calls| ==> !r.calls[a].Deploy?
    ensures r.deployed <= EnabledCount(cert.deployments)
    ensures r.renewed ==>
              var rn := RenewCertificate(Checked(cert, now, o).cert, now, o.renew).result;
              r.deployed == Count(DeploySuccessFlags(cert.deployments, rn.certPem, rn.keyPem, now, o.deploy))
    ensures r.checked ==> r.cert.lastChecked == Some(now)
    ensures r.renewed ==> r.cert.lastRenewed == Some(now)
    // configuration is never changed, only runtime status
    ensures SameConfig(r.cert, cert)
  {
    if !cert.autoRenew then CertStep(cert, false, false, 0, [])
    else
      var ch := Checked(cert, now, o);
      if !ch.ok then CertStep(ch.cert, false, false, 0, [Check])
      else if !NeedsRenewal(ch.cert, DecisionTime(now, o)) then CertStep(ch.cert, true, false, 0, [Check])
      else
        var rn := RenewCertificate(ch.cert, now, o.renew);
        if !rn.result.success then CertStep(rn.cert, true, false, 0, [Check, Renew])
        else
          var round := DeployAll(rn.cert.deployments, rn.result.certPem, rn.result.keyPem, now, o.deploy);
          DeployAllOutcomes(rn.cert.deployments, rn.result.certPem, rn.result.keyPem, now, o.deploy);
          DeployAllCount(rn.cert.deployments, rn.result.certPem, rn.result.keyPem, now, o.deploy);
          DeployAllCalls(rn.cert.deployments, rn.result.certPem, rn.result.keyPem, now, o.deploy);
          assert forall j :: 0 <= j < |round.deployments| ==>
                   SameDeploymentConfig(round.deployments[j], rn.cert.deployments[j]);
          CertStep(rn.cert.(deployments := round.deployments), true, true, round.count,
                   [Check, Renew] + round.calls)
  }

  /** What processing one certificate does, exactly. The calls: with
      auto-renewal on, the check, the renewal when due, then after a
      successful renewal the deploy loop's calls over the targets in
      configured order, and nothing else. The record: as the check left it
      unless the renewal succeeded, and then as the renewal left it with every
      target as the deploy loop left it. */
  lemma ProcessCertificateTrace(cert: ManagedCertificate, now: Instant, o: CertOracle)
    ensures var r, rn := ProcessCertificate(cert, now, o), Renewed(cert, now, o).result;
            cert.autoRenew ==>
              r.calls == [Check] + (if RenewalAttempted(cert, now, o) then [Renew] else [])
                         + (if r.renewed then DeployAll(cert.deployments, rn.certPem, rn.keyPem, now, o.deploy).calls else [])
    ensures var r := ProcessCertificate(cert, now, o);
            r.checked && !r.renewed ==> r.cert == Checked(cert, now, o).cert
    ensures var r, rn := ProcessCertificate(cert, now, o), Renewed(cert, now, o);
            r.renewed ==>
              && r.cert == rn.cert.(deployments := DeployAll(cert.deployments, rn.result.certPem, rn.result.keyPem,
                                                             now, o.deploy).deployments)
              && CallsInOrder(r.calls[2..], cert.deployments)
  {
    var r := ProcessCertificate(cert, now, o);
    if r.renewed {
      RenewedTrace(cert, now, o);
    } else if cert.autoRenew && RenewalAttempted(cert, now, o) {
      assert r.calls == [Check, Renew];
      assert [Check] + [Renew] + [] == [Check, Renew];
    } else if cert.autoRenew {
      assert r.calls == [Check];
      assert [Check] + [] + [] == [Check];
    }
  }

  /** `ProcessCertificateTrace` after a successful renewal. */
  lemma RenewedTrace(cert: ManagedCertificate, now: Instant, o: CertOracle)
    requires ProcessCertificate(cert, now, o).renewed
    ensures var r, rn := ProcessCertificate(cert, now, o), Renewed(cert, now, o);
            var round := DeployAll(cert.deployments, rn.result.certPem, rn.result.keyPem, now, o.deploy);
            && r.calls == [Check] + [Renew] + round.calls
            && r.cert == rn.cert.(deployments := round.deployments)
            && CallsInOrder(r.calls[2..], cert.deployments)
  {
    var r, rn := ProcessCertificate(cert, now, o), Renewed(cert, now, o);
    RenewedKeepsConfig(cert, now, o);
    var round := DeployAll(cert.deployments, rn.result.certPem, rn.result.keyPem, now, o.deploy);
    assert r.calls == [Check, Renew] + round.calls;
    assert [Check] + [Renew] + round.calls == [Check, Renew] + round.calls;
    assert r.calls[2..] == round.calls;
    DeployAllCalls(cert.deployments, rn.result.certPem, rn.result.keyPem, now, o.deploy);
  }

  // ---------------------------------------------------------------------------
  // One tick over all certificates

  datatype TickResult = TickResult(certs: seq<ManagedCertificate>, checked: nat, renewed: nat, deployed: nat,
                                   events: seq<Event>)

  function Step(certs: seq<ManagedCertificate>, i: nat, now: Instant, oracle: nat -> CertOracle): CertStep
    requires i < |certs|
  {
    ProcessCertificate(certs[i], now, oracle(i))
  }

  function CheckedFlags(certs: seq<ManagedCertificate>, now: Instant, oracle: nat -> CertOracle): (r: seq<bool>)
    ensures |r| == |certs| && forall i :: 0 <= i < |certs| ==> r[i] == Step(certs, i, now, oracle).checked
  {
    seq(|certs|, i requires 0 <= i < |certs| => Step(certs, i, now, oracle).checked)
  }

  function RenewedFlags(certs: seq<ManagedCertificate>, now: Instant, oracle: nat -> CertOracle): (r: seq<bool>)
    ensures |r| == |certs| && forall i :: 0 <= i < |certs| ==> r[i] == Step(certs, i, now, oracle).renewed
  {
    seq(|certs|, i requires 0 <= i < |certs| => Step(certs, i, now, oracle).renewed)
  }

  function DeployedCounts(certs: seq<ManagedCertificate>, now: Instant, oracle: nat -> CertOracle)
    : (r: seq<nat>)
    ensures |r| == |certs| && forall i :: 0 <= i < |certs| ==> r[i] == Step(certs, i, now, oracle).deployed
  {
    seq(|certs|, i requires 0 <= i < |certs| => Step(certs, i, now, oracle).deployed)
  }

  function AutoRenewFlags(certs: seq<ManagedCertificate>): (r: seq<bool>)
    ensures |r| == |certs| && forall i :: 0 <= i < |certs| ==> r[i] == certs[i].autoRenew
  {
    seq(|certs|, i requires 0 <= i < |certs| => certs[i].autoRenew)
  }

  /** The enabled deployments of each certificate renewed this tick, 0 for the others. */
  function DeployableCounts(certs: seq<ManagedCertificate>, now: Instant, oracle: nat -> CertOracle)
    : (r: seq<nat>)
    ensures |r| == |certs|
    ensures forall i :: 0 <= i < |certs| ==>
              r[i] == (if Step(certs, i, now, oracle).renewed then EnabledCount(certs[i].deployments) else 0)
  {
    seq(|certs|, i requires 0 <= i < |certs| =>
              if Step(certs, i, now, oracle).renewed then EnabledCount(certs[i].deployments) else 0)
  }

  function TagCalls(i: nat, calls: seq<Call>): (r: seq<Event>)
    ensures |r| == |calls|
    ensures forall a :: 0 <= a < |r| ==> r[a] == Event(i, calls[a])
  {
    seq(|calls|, a requires 0 <= a < |calls| => Event(i, calls[a]))
  }

  /** `CheckAndRenewCertificatesAsync`, as a left fold over the list. */
  function Tick(certs: seq<ManagedCertificate>, now: Instant, oracle: nat -> CertOracle): (r: TickResult)
    ensures |r.certs| == |certs|
  {
    if |certs| == 0 then TickResult([], 0, 0, 0, [])
    else
      var n := |certs| - 1;
      var prev := Tick(certs[..n], now, oracle);
      var step := ProcessCertificate(certs[n], now, oracle(n));
      TickResult(prev.certs + [step.cert],
                 prev.checked + (if step.checked then 1 else 0),
                 prev.renewed + (if step.renewed then 1 else 0),
                 prev.deployed + step.deployed,
                 prev.events + TagCalls(n, step.calls))
  }

  /** Stepping a prefix of the list is stepping the list. */
  lemma StepPrefix(certs: seq<ManagedCertificate>, m: nat, i: nat, now: Instant, oracle: nat -> CertOracle)
    requires i < m <= |certs|
    ensures Step(certs[..m], i, now, oracle) == Step(certs, i, now, oracle)
  {
    assert certs[..m][i] == certs[i];
  }

  /** Failure isolation: each certificate ends the tick exactly as processing
      it alone would leave it, whatever happened to the others. */
  lemma {:induction false} TickOutcomes(certs: seq<ManagedCertificate>, now: Instant, oracle: nat -> CertOracle)
    ensures forall i :: 0 <= i < |certs| ==> Tick(certs, now, oracle).certs[i] == Step(certs, i, now, oracle).cert
  {
    if |certs| > 0 {
      var n := |certs| - 1;
      TickOutcomes(certs[..n], now, oracle);
      forall i | 0 <= i < n
        ensures Tick(certs, now, oracle).certs[i] == Step(certs, i, now, oracle).cert
      {
        StepPrefix(certs, n, i, now, oracle);
      }
    }
  }

  /** `checkedCount`: the certificates whose check succeeded. */
  lemma {:induction false} TickCheckedCount(certs: seq<ManagedCertificate>, now: Instant, oracle: nat -> CertOracle)
    ensures Tick(certs, now, oracle).checked == Count(CheckedFlags(certs, now, oracle))
  {
    if |certs| > 0 {
      var n := |certs| - 1;
      TickCheckedCount(certs[..n], now, oracle);
      var flags, prefix := CheckedFlags(certs, now, oracle), CheckedFlags(certs[..n], now, oracle);
      forall i | 0 <= i < n
        ensures prefix[i] == flags[i]
      {
        StepPrefix(certs, n, i, now, oracle);
      }
      assert prefix == flags[..n];
    }
  }

  /** `renewedCount`: the certificates whose renewal succeeded. */
  lemma {:induction false} TickRenewedCount(certs: seq<ManagedCertificate>, now: Instant, oracle: nat -> CertOracle)
    ensures Tick(certs, now, oracle).renewed == Count(RenewedFlags(certs, now, oracle))
  {
    if |certs| > 0 {
      var n := |certs| - 1;
      TickRenewedCount(certs[..n], now, oracle);
      var flags, prefix := RenewedFlags(certs, now, oracle), RenewedFlags(certs[..n], now, oracle);
      forall i | 0 <= i < n
        ensures prefix[i] == flags[i]
      {
        StepPrefix(certs, n, i, now, oracle);
      }
      assert prefix == flags[..n];
    }
  }

  /** `deployedCount`: one per deployment that returned true. */
  lemma {:induction false} TickDeployedCount(certs: seq<ManagedCertificate>, now: Instant, oracle: nat -> CertOracle)
    ensures Tick(certs, now, oracle).deployed == Sum(DeployedCounts(certs, now, oracle))
  {
    if |certs| > 0 {
      var n := |certs| - 1;
      TickDeployedCount(certs[..n], now, oracle);
      var counts, prefix := DeployedCounts(certs, now, oracle), DeployedCounts(certs[..n], now, oracle);
      forall i | 0 <= i < n
        ensures prefix[i] == counts[i]
      {
        StepPrefix(certs, n, i, now, oracle);
      }
      assert prefix == counts[..n];
    }
  }

  /** External calls are made in list order, and never for a certificate
      whose auto-renewal is off. */
  predicate EventsInOrder(events: seq<Event>, certs: seq<ManagedCertificate>)
  {
    && (forall a :: 0 <= a < |events| ==> events[a].cert < |certs| && certs[events[a].cert].autoRenew)
    && (forall a, b :: 0 <= a < b < |events| ==> events[a].cert <= events[b].cert)
  }

  lemma {:induction false} TickEvents(certs: seq<ManagedCertificate>, now: Instant, oracle: nat -> CertOracle)
    ensures EventsInOrder(Tick(certs, now, oracle).events, certs)
  {
    if |certs| > 0 {
      var n := |certs| - 1;
      TickEvents(certs[..n], now, oracle);
      var prev := Tick(certs[..n], now, oracle).events;
      var step := ProcessCertificate(certs[n], now, oracle(n));
      assert EventsInOrder(prev, certs[..n]);
      forall a | 0 <= a < |prev|
        ensures prev[a].cert < n && certs[prev[a].cert].autoRenew
      {
        assert certs[..n][prev[a].cert] == certs[prev[a].cert];
      }
      assert step.calls != [] ==> certs[n].autoRenew;
      assert Tick(certs, now, oracle).events == prev + TagCalls(n, step.calls);
    }
  }

  /** The calls made for certificate `i`, in the order they were made. */
  function CallsOf(events: seq<Event>, i: nat): (r: seq<Call>)
    ensures |r| <= |events|
  {
    if |events| == 0 then []
    else
      var last := events[|events| - 1];
      CallsOf(events[..|events| - 1], i) + (if last.cert == i then [last.call] else [])
  }

  lemma {:induction false} CallsOfAppend(a: seq<Event>, b: seq<Event>, i: nat)
    ensures CallsOf(a + b, i) == CallsOf(a, i) + CallsOf(b, i)
  {
    if |b| == 0 {
      assert a + b == a;
    } else {
      var k := |b| - 1;
      assert (a + b)[..|a + b| - 1] == a + b[..k];
      assert (a + b)[|a + b| - 1] == b[k];
      CallsOfAppend(a, b[..k], i);
    }
  }

  lemma {:induction false} CallsOfTagged(n: nat, calls: seq<Call>, i: nat)
    ensures CallsOf(TagCalls(n, calls), i) == if i == n then calls else []
  {
    if |calls| > 0 {
      var k := |calls| - 1;
      assert TagCalls(n, calls)[..k] == TagCalls(n, calls[..k]);
      CallsOfTagged(n, calls[..k], i);
      assert calls == calls[..k] + [calls[k]];
    }
  }

  /** The last certificate's calls follow those of the ones before it. */
  lemma TickEventsLast(certs: seq<ManagedCertificate>, now: Instant, oracle: nat -> CertOracle)
    requires |certs| > 0
    ensures Tick(certs, now, oracle).events ==
              Tick(certs[..|certs| - 1], now, oracle).events + TagCalls(|certs| - 1, Step(certs, |certs| - 1, now, oracle).calls)
  {
  }

  /** The calls of one tick made for certificate `i`. */
  lemma {:induction false} TickCallsAt(certs: seq<ManagedCertificate>, now: Instant, oracle: nat -> CertOracle, i: nat)
    ensures CallsOf(Tick(certs, now, oracle).events, i) == if i < |certs| then Step(certs, i, now, oracle).calls else []
  {
    if |certs| > 0 {
      var n := |certs| - 1;
      TickCallsAt(certs[..n], now, oracle, i);
      var prev := Tick(certs[..n], now, oracle).events;
      var calls := Step(certs, n, now, oracle).calls;
      TickEventsLast(certs, now, oracle);
      CallsOfAppend(prev, TagCalls(n, calls), i);
      CallsOfTagged(n, calls, i);
      if i < n {
        StepPrefix(certs, n, i, now, oracle);
      }
    }
  }

  /** The calls of one tick, certificate by certificate: certificate `i`
      gets exactly the calls processing it alone makes (so a failed check is
      followed by no renewal for it), and no call is made for an index past
      the end of the list. */
  lemma TickCalls(certs: seq<ManagedCertificate>, now: Instant, oracle: nat -> CertOracle)
    ensures forall i :: 0 <= i < |certs| ==> CallsOf(Tick(certs, now, oracle).events, i) == Step(certs, i, now, oracle).calls
    ensures forall i: nat :: i >= |certs| ==> CallsOf(Tick(certs, now, oracle).events, i) == []
  {
    forall i: nat
      ensures CallsOf(Tick(certs, now, oracle).events, i) == if i < |certs| then Step(certs, i, now, oracle).calls else []
    {
      TickCallsAt(certs, now, oracle, i);
    }
  }

  /** The tick's counter bounds: renewed <= checked <= certificates with
      auto-renewal, and deployments <= enabled targets of renewed certificates. */
  lemma TickCounterBounds(certs: seq<ManagedCertificate>, now: Instant, oracle: nat -> CertOracle)
    ensures var r := Tick(certs, now, oracle);
            && r.renewed <= r.checked <= Count(AutoRenewFlags(certs))
            && r.deployed <= Sum(DeployableCounts(certs, now, oracle))
  {
    TickCheckedCount(certs, now, oracle);
    TickRenewedCount(certs, now, oracle);
    TickDeployedCount(certs, now, oracle);
    var checked := CheckedFlags(certs, now, oracle);
    var renewed := RenewedFlags(certs, now, oracle);
    CountMonotone(renewed, checked);
    CountMonotone(checked, AutoRenewFlags(certs));
    SumMonotone(DeployedCounts(certs, now, oracle), DeployableCounts(certs, now, oracle));
  }

  /** Configuration is never changed by a tick; only runtime status is. */
  lemma TickKeepsConfig(certs: seq<ManagedCertificate>, now: Instant, oracle: nat -> CertOracle)
    ensures forall i :: 0 <= i < |certs| ==> SameConfig(Tick(certs, now, oracle).certs[i], certs[i])
  {
    TickOutcomes(certs, now, oracle);
  }

  // ---------------------------------------------------------------------------
  // The service loop

  /** Where an exception escapes a tick, uncaught by the certificate manager.
      `AtCertificate(k)`: as certificate `k` is taken from the list (a null
      list or a null entry; at or past the end of the list: after the last
      one). `InDeployLoop(k, j)`: certificate `k`'s deployment list throws when
      its enumeration reaches position `j` (a null list at 0, a null entry at
      its own position); this happens only if certificate `k` is renewed and
      so reaches that loop. */
  datatype Escape = AtCertificate(index: nat) | InDeployLoop(index: nat, position: nat)

  /** One iteration of the `while` loop: the clock, the outside world, and
      where, if anywhere, an exception escapes the tick. */
  datatype TickInput = TickInput(now: Instant, oracle: nat -> CertOracle, escape: Option<Escape>)

  datatype TickSummary = Completed(checked: nat, renewed: nat, deployed: nat) | Faulted

  datatype ServiceRun = ServiceRun(certs: seq<ManagedCertificate>, summaries: seq<TickSummary>)

  /** The exception is actually raised: an escape in a deploy loop needs its
      certificate to reach that loop. */
  predicate EscapeReached(certs: seq<ManagedCertificate>, input: TickInput)
  {
    && input.escape.Some?
    && match input.escape.value
       case AtCertificate(_) => true
       case InDeployLoop(k, _) => k < |certs| && Step(certs, k, input.now, input.oracle).renewed
  }

  /** The renewal of a certificate, after its check. */
  function Renewed(cert: ManagedCertificate, now: Instant, o: CertOracle): RenewOutcome
  {
    RenewCertificate(Checked(cert, now, o).cert, now, o.renew)
  }

  /** A certificate whose deploy loop throws as its enumeration reaches
      position `j`: the check's and the renewal's updates were made in place
      and stay, the targets before `j` have been handled, the rest are
      untouched. */
  function Interrupted(cert: ManagedCertificate, now: Instant, o: CertOracle, j: nat): ManagedCertificate
  {
    var rn := Renewed(cert, now, o);
    var ds := cert.deployments;
    var m := if j < |ds| then j else |ds|;
    var round := DeployAll(ds[..m], rn.result.certPem, rn.result.keyPem, now, o.deploy);
    rn.cert.(deployments := round.deployments + ds[m..])
  }

  /** An interrupted certificate has its check's and its renewal's updates and
      as many targets as before; only its targets differ from the renewed
      record. */
  lemma InterruptedShape(cert: ManagedCertificate, now: Instant, o: CertOracle, j: nat)
    ensures |Interrupted(cert, now, o, j).deployments| == |cert.deployments|
    ensures Interrupted(cert, now, o, j).(deployments := cert.deployments) == Renewed(cert, now, o).cert
  {
  }

  /** Checking and renewing touch neither configuration nor deployments. */
  lemma RenewedKeepsConfig(cert: ManagedCertificate, now: Instant, o: CertOracle)
    ensures Renewed(cert, now, o).cert.deployments == cert.deployments
    ensures SameConfig(Renewed(cert, now, o).cert, cert)
  {
  }

  /** The targets of an interrupted certificate: those before the failing
      position end as their own deployment leaves them (disabled ones
      untouched), and those from it on are untouched. */
  lemma InterruptedTargets(cert: ManagedCertificate, now: Instant, o: CertOracle, j: nat)
    ensures var r := Interrupted(cert, now, o, j);
            forall t :: j <= t < |cert.deployments| ==> r.deployments[t] == cert.deployments[t]
    ensures var r := Interrupted(cert, now, o, j);
            forall t :: 0 <= t < |cert.deployments| && t < j && !cert.deployments[t].enabled ==>
              r.deployments[t] == cert.deployments[t]
    ensures var r, rn := Interrupted(cert, now, o, j), Renewed(cert, now, o).result;
            forall t :: 0 <= t < |cert.deployments| && t < j && cert.deployments[t].enabled ==>
              r.deployments[t] == DeployCertificate(cert.deployments[t], rn.certPem, rn.keyPem, now, o.deploy(t)).deployment
  {
    var rn := Renewed(cert, now, o);
    var ds := cert.deployments;
    var m := if j < |ds| then j else |ds|;
    var round := DeployAll(ds[..m], rn.result.certPem, rn.result.keyPem, now, o.deploy);
    DeployAllOutcomes(ds[..m], rn.result.certPem, rn.result.keyPem, now, o.deploy);
    var r := Interrupted(cert, now, o, j);
    assert r.deployments == round.deployments + ds[m..];
    forall t | 0 <= t < |ds|
      ensures t < m ==> ds[..m][t] == ds[t] && r.deployments[t] == round.deployments[t]
      ensures t >= m ==> r.deployments[t] == ds[t]
    {
      if t >= m { assert r.deployments[t] == ds[m..][t - m]; }
    }
  }

  /** An interrupted certificate keeps its configuration. */
  lemma InterruptedKeepsConfig(cert: ManagedCertificate, now: Instant, o: CertOracle, j: nat)
    ensures SameConfig(Interrupted(cert, now, o, j), cert)
  {
    var r := Interrupted(cert, now, o, j);
    var ds := cert.deployments;
    RenewedKeepsConfig(cert, now, o);
    InterruptedTargets(cert, now, o, j);
    forall t | 0 <= t < |ds|
      ensures SameDeploymentConfig(r.deployments[t], ds[t])
    {
    }
  }

  /** An exception past the last target interrupts nothing: the certificate
      ends as a completed processing leaves it. */
  lemma InterruptedPastEnd(cert: ManagedCertificate, now: Instant, o: CertOracle, j: nat)
    ensures ProcessCertificate(cert, now, o).renewed && j >= |cert.deployments| ==>
              Interrupted(cert, now, o, j) == ProcessCertificate(cert, now, o).cert
  {
    if ProcessCertificate(cert, now, o).renewed && j >= |cert.deployments| {
      var ds := cert.deployments;
      assert ds[..|ds|] == ds && ds[|ds|..] == [];
      assert Renewed(cert, now, o).cert.deployments == ds;
    }
  }

  /** One tick that may be cut short by an escaping exception: the counters
      are lost and the tick reports a fault exactly when the exception is
      raised; otherwise it is the complete tick. */
  function RunTick(certs: seq<ManagedCertificate>, input: TickInput): (r: (seq<ManagedCertificate>, TickSummary))
    ensures |r.0| == |certs|
    ensures r.1.Faulted? ==> input.escape.Some?
  {
    if !EscapeReached(certs, input) then
      var t := Tick(certs, input.now, input.oracle);
      (t.certs, Completed(t.checked, t.renewed, t.deployed))
    else
      match input.escape.value
      case AtCertificate(k) => (CutAtCertificate(certs, input.now, input.oracle, k), Faulted)
      case InDeployLoop(k, j) => (CutInDeployLoop(certs, input.now, input.oracle, k, j), Faulted)
  }

  /** A tick reports a fault exactly when its exception is actually raised:
      an escape point in a deploy loop that is never reached, because its
      certificate is not renewed, faults nothing. */
  lemma RunTickFaults(certs: seq<ManagedCertificate>, input: TickInput)
    ensures RunTick(certs, input).1.Faulted? <==> EscapeReached(certs, input)
  {
  }

  /** A tick no exception escapes is the complete tick: every certificate
      processed and the three counters reported. */
  lemma RunTickCompleted(certs: seq<ManagedCertificate>, input: TickInput)
    ensures !EscapeReached(certs, input) ==>
              var t := Tick(certs, input.now, input.oracle);
              RunTick(certs, input) == (t.certs, Completed(t.checked, t.renewed, t.deployed))
  {
  }

  /** Certificate `i` in a tick over a prefix of the list that holds it. */
  lemma TickPrefixAt(certs: seq<ManagedCertificate>, m: nat, i: nat, now: Instant, oracle: nat -> CertOracle)
    requires i < m <= |certs|
    ensures Tick(certs[..m], now, oracle).certs[i] == Step(certs, i, now, oracle).cert
  {
    TickOutcomes(certs[..m], now, oracle);
    StepPrefix(certs, m, i, now, oracle);
  }

  /** The certificates a tick leaves when an exception escapes as
      certificate `k` is taken. */
  function CutAtCertificate(certs: seq<ManagedCertificate>, now: Instant, oracle: nat -> CertOracle, k: nat)
    : (r: seq<ManagedCertificate>)
    ensures |r| == |certs|
  {
    var m := if k < |certs| then k else |certs|;
    Tick(certs[..m], now, oracle).certs + certs[m..]
  }

  /** The certificates a tick leaves when certificate `k`'s deploy loop throws
      at position `j`. */
  function CutInDeployLoop(certs: seq<ManagedCertificate>, now: Instant, oracle: nat -> CertOracle, k: nat, j: nat)
    : (r: seq<ManagedCertificate>)
    requires k < |certs|
    ensures |r| == |certs|
  {
    Tick(certs[..k], now, oracle).certs + [Interrupted(certs[k], now, oracle(k), j)] + certs[k + 1..]
  }

  /** Cut short as certificate `k` is taken: the ones before it are
      processed, it and the rest are untouched. */
  lemma CutAtCertificateAt(certs: seq<ManagedCertificate>, now: Instant, oracle: nat -> CertOracle, k: nat, i: nat)
    requires i < |certs|
    ensures CutAtCertificate(certs, now, oracle, k)[i] == if i < k then Step(certs, i, now, oracle).cert else certs[i]
  {
    var m := if k < |certs| then k else |certs|;
    var r := CutAtCertificate(certs, now, oracle, k);
    if i < m {
      TickPrefixAt(certs, m, i, now, oracle);
    } else {
      assert r[i] == certs[m..][i - m];
    }
  }

  /** Cut short in certificate `k`'s deploy loop: the ones before it are
      processed, it is interrupted, the rest are untouched. */
  lemma CutInDeployLoopAt(certs: seq<ManagedCertificate>, now: Instant, oracle: nat -> CertOracle, k: nat, j: nat,
                          i: nat)
    requires k < |certs| && i < |certs|
    ensures CutInDeployLoop(certs, now, oracle, k, j)[i] ==
              if i < k then Step(certs, i, now, oracle).cert
              else if i == k then Interrupted(certs[i], now, oracle(i), j)
              else certs[i]
  {
    var pre := Tick(certs[..k], now, oracle).certs;
    var r := CutInDeployLoop(certs, now, oracle, k, j);
    if i < k {
      assert r[i] == pre[i];
      TickPrefixAt(certs, k, i, now, oracle);
    } else if i > k {
      assert r[i] == certs[k + 1..][i - k - 1];
    }
  }

  /** Where certificate `i` ends a tick, complete or cut short. */
  lemma RunTickAt(certs: seq<ManagedCertificate>, input: TickInput, i: nat)
    requires i < |certs|
    ensures !EscapeReached(certs, input) ==> RunTick(certs, input).0[i] == Step(certs, i, input.now, input.oracle).cert
    ensures input.escape.Some? && input.escape.value.AtCertificate? ==>
              RunTick(certs, input).0[i] ==
                if i < input.escape.value.index then Step(certs, i, input.now, input.oracle).cert else certs[i]
    ensures EscapeReached(certs, input) && input.escape.value.InDeployLoop? ==>
              var k, j := input.escape.value.index, input.escape.value.position;
              RunTick(certs, input).0[i] ==
                if i < k then Step(certs, i, input.now, input.oracle).cert
                else if i == k then Interrupted(certs[i], input.now, input.oracle(i), j)
                else certs[i]
  {
    if !EscapeReached(certs, input) {
      RunTickCompleted(certs, input);
      TickOutcomes(certs, input.now, input.oracle);
    }
    if input.escape.Some? {
      match input.escape.value
      case AtCertificate(k) =>
        CutAtCertificateAt(certs, input.now, input.oracle, k, i);
      case InDeployLoop(k, j) =>
        if EscapeReached(certs, input) {
          CutInDeployLoopAt(certs, input.now, input.oracle, k, j, i);
        }
    }
  }

  /** What a tick leaves behind. Completed: every certificate as processing it
      alone leaves it. Cut short: the certificates before the escape point
      keep their updates (they were mutated in place), a certificate
      interrupted in its deploy loop keeps its check and renewal and the
      deployments before the failing position, and the rest are untouched. */
  lemma RunTickOutcomes(certs: seq<ManagedCertificate>, input: TickInput)
    ensures !EscapeReached(certs, input) ==>
              forall i :: 0 <= i < |certs| ==> RunTick(certs, input).0[i] == Step(certs, i, input.now, input.oracle).cert
    ensures input.escape.Some? && input.escape.value.AtCertificate? ==>
              forall i :: 0 <= i < |certs| ==>
                RunTick(certs, input).0[i] ==
                  if i < input.escape.value.index then Step(certs, i, input.now, input.oracle).cert else certs[i]
    ensures EscapeReached(certs, input) && input.escape.value.InDeployLoop? ==>
              var k, j := input.escape.value.index, input.escape.value.position;
              forall i :: 0 <= i < |certs| ==>
                RunTick(certs, input).0[i] ==
                  if i < k then Step(certs, i, input.now, input.oracle).cert
                  else if i == k then Interrupted(certs[i], input.now, input.oracle(i), j)
                  else certs[i]
  {
    forall i | 0 <= i < |certs| {
      RunTickAt(certs, input, i);
    }
  }

  /** A tick, complete or cut short, changes only runtime status. */
  lemma RunTickKeepsConfig(certs: seq<ManagedCertificate>, input: TickInput)
    ensures forall i :: 0 <= i < |certs| ==> SameConfig(RunTick(certs, input).0[i], certs[i])
  {
    forall i | 0 <= i < |certs|
      ensures SameConfig(RunTick(certs, input).0[i], certs[i])
    {
      RunTickAt(certs, input, i);
      if input.escape.Some? && input.escape.value.InDeployLoop? && i == input.escape.value.index {
        InterruptedKeepsConfig(certs[i], input.now, input.oracle(i), input.escape.value.position);
      }
    }
  }

  /** `ExecuteAsync`: one tick per input until cancellation, each tick seeing
      the state the previous one left; an exception escaping a tick is caught
      and the loop goes on. */
  function RunService(certs: seq<ManagedCertificate>, inputs: seq<TickInput>): (r: ServiceRun)
    ensures |r.certs| == |certs|
    ensures |r.summaries| == |inputs|
    // only an escaping exception makes a tick fault
    ensures forall t :: 0 <= t < |inputs| && r.summaries[t].Faulted? ==> inputs[t].escape.Some?
  {
    if |inputs| == 0 then ServiceRun(certs, [])
    else
      var prev := RunService(certs, inputs[..|inputs| - 1]);
      var last := inputs[|inputs| - 1];
      var step := RunTick(prev.certs, last);
      var summaries := prev.summaries + [step.1];
      assert forall t :: 0 <= t < |inputs| - 1 ==> summaries[t] == prev.summaries[t] && inputs[..|inputs| - 1][t] == inputs[t];
      ServiceRun(step.0, summaries)
  }

  /** One more iteration: whatever the earlier ticks did, faults included, the
      next tick runs on the state they left and its summary is appended. */
  lemma RunServiceStep(certs: seq<ManagedCertificate>, inputs: seq<TickInput>, next: TickInput)
    ensures var p := RunService(certs, inputs);
            var s := RunTick(p.certs, next);
            RunService(certs, inputs + [next]) == ServiceRun(s.0, p.summaries + [s.1])
  {
    assert (inputs + [next])[..|inputs|] == inputs;
  }

  /** The last tick of a run appends its summary to those of the earlier ones. */
  lemma RunServiceLast(certs: seq<ManagedCertificate>, inputs: seq<TickInput>)
    requires |inputs| > 0
    ensures var p := RunService(certs, inputs[..|inputs| - 1]);
            RunService(certs, inputs).summaries == p.summaries + [RunTick(p.certs, inputs[|inputs| - 1]).1]
  {
  }

  /** Tick `t` of a run starts from the state the first `t` ticks left, and
      its summary is that tick's. */
  lemma {:induction false} RunServiceTick(certs: seq<ManagedCertificate>, inputs: seq<TickInput>, t: nat)
    requires t < |inputs|
    ensures RunService(certs, inputs).summaries[t] == RunTick(RunService(certs, inputs[..t]).certs, inputs[t]).1
  {
    var n := |inputs| - 1;
    var p := RunService(certs, inputs[..n]);
    RunServiceLast(certs, inputs);
    assert |p.summaries| == n;
    if t < n {
      assert RunService(certs, inputs).summaries[t] == p.summaries[t];
      RunServiceTick(certs, inputs[..n], t);
      PrefixOfPrefix(inputs, n, t);
      assert inputs[..n][t] == inputs[t];
    } else {
      assert inputs[..t] == inputs[..n];
    }
  }

  /** A tick no exception escapes reports the counters of the complete tick
      over the state the earlier ticks left. */
  lemma RunServiceCompletedTick(certs: seq<ManagedCertificate>, inputs: seq<TickInput>, t: nat)
    requires t < |inputs| && inputs[t].escape.None?
    ensures var k := Tick(RunService(certs, inputs[..t]).certs, inputs[t].now, inputs[t].oracle);
            RunService(certs, inputs).summaries[t] == Completed(k.checked, k.renewed, k.deployed)
  {
    RunServiceTick(certs, inputs, t);
    RunTickCompleted(RunService(certs, inputs[..t]).certs, inputs[t]);
  }

  /** However many ticks run, and whichever of them fault, no certificate's
      configuration changes: only check, renewal and deployment status do. */
  lemma {:induction false} RunServiceKeepsConfig(certs: seq<ManagedCertificate>, inputs: seq<TickInput>)
    ensures var r := RunService(certs, inputs);
            forall i :: 0 <= i < |certs| ==> SameConfig(r.certs[i], certs[i])
  {
    if |inputs| > 0 {
      var prev := RunService(certs, inputs[..|inputs| - 1]);
      RunServiceKeepsConfig(certs, inputs[..|inputs| - 1]);
      var step := RunTick(prev.certs, inputs[|inputs| - 1]);
      RunTickKeepsConfig(prev.certs, inputs[|inputs| - 1]);
      forall i | 0 <= i < |certs|
        ensures SameConfig(step.0[i], certs[i])
      {
        SameConfigTransitive(step.0[i], prev.certs[i], certs[i]);
      }
    }
  }
}
