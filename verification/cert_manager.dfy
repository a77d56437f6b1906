/**
 The operations of the certificate manager service once the external world
 has answered: the state updates of a certificate check and a renewal, the
 three deployment drivers, and the deployment dispatcher. Every external
 effect (the issuing script, file writes, scp, chmod, the post-deploy hook)
 is an oracle value passed in; the clock is a frozen `now`.
 */
module CertManager {
  import opened Common
  import opened Clock
  import opened CertModel

  // ---------------------------------------------------------------------------
  // The issuing script and its JSON reply

  /** A property of the script's JSON reply: missing, present with a type the
      accessor rejects (the accessor throws), or present with a value. */
  datatype JsonField<+T> = Absent | Mistyped | Present(value: T)

  /** The parts of the reply the service reads. A string property may hold
      JSON `null`, which `GetString` returns as `null`. */
  datatype ScriptJson = ScriptJson(
    success: JsonField<bool>,
    daysLeft: JsonField<Int32>,
    cert: JsonField<Option<string>>,
    key: JsonField<Option<string>>)

  /** One run of the issuing script through `/bin/bash`. */
  datatype ScriptRun =
    | NoProcess          // Process.Start returned null or threw, or reading its output threw
    | Exited(exitCode: int, output: string, json: Option<ScriptJson>)  // json: None when parsing throws

  /** The reply of a run that reported success: exit code 0, non-empty output,
      well-formed JSON whose `success` property is the boolean `true`. */
  function SuccessReply(run: ScriptRun): (r: Option<ScriptJson>)
    ensures r.Some? <==> run.Exited? && run.exitCode == 0 && run.output != ""
                         && run.json.Some? && run.json.value.success == Present(true)
    ensures r.Some? ==> r.value == run.json.value
  {
    if run.Exited? && run.exitCode == 0 && run.output != "" && run.json.Some?
       && run.json.value.success == Present(true)
    then run.json
    else None
  }

  /** The `daysLeft` of a successful reply, 0 when the property is missing;
      `None` when `GetInt32` throws. */
  function ReportedDaysLeft(reply: ScriptJson): (r: Option<Int32>)
    ensures reply.daysLeft.Absent? ==> r == Some(0)
    ensures reply.daysLeft.Mistyped? ==> r.None?
    ensures reply.daysLeft.Present? ==> r == Some(reply.daysLeft.value)
  {
    match reply.daysLeft
    case Absent => Some(0)
    case Mistyped => None
    case Present(d) => Some(d)
  }

  /** `root.GetProperty(name).GetString() ?? ""`; `None` where it throws
      (property missing or not a string). */
  function ReadPem(field: JsonField<Option<string>>): (r: Option<string>)
    ensures field.Present? <==> r.Some?
    ensures field.Present? ==> r.value == field.value.OrElse("")
  {
    match field
    case Present(s) => Some(s.OrElse(""))
    case _ => None
  }

  // ---------------------------------------------------------------------------
  // CheckCertificateAsync

  datatype CheckOutcome = CheckOutcome(cert: ManagedCertificate, ok: bool)

  /** The days left that a check run reports, when the check succeeds with it. */
  function CheckedDaysLeft(now: Instant, scriptExists: bool, run: ScriptRun): (r: Option<int>)
  {
    if !scriptExists then None
    else
      var reply := SuccessReply(run);
      if reply.None? then None
      else
        var days := ReportedDaysLeft(reply.value);
        if days.None? || AddDays(now, days.value).None? then None else Some(days.value)
  }

  /** `CheckCertificateAsync`: on success records the expiry `now + daysLeft`
      days and `lastChecked = now`; on every failure path returns false and
      leaves the certificate as it was. */
  function CheckCertificate(cert: ManagedCertificate, now: Instant, scriptExists: bool, run: ScriptRun)
    : (r: CheckOutcome)
    ensures !r.ok ==> r.cert == cert
    ensures r.ok <==> CheckedDaysLeft(now, scriptExists, run).Some?
    ensures r.ok ==> scriptExists && SuccessReply(run).Some?
    ensures r.ok ==>
              && r.cert.lastChecked == Some(now)
              && DaysUntilExpiry(r.cert, now) == CheckedDaysLeft(now, scriptExists, run).value
              && r.cert.(expiryDate := cert.expiryDate, lastChecked := cert.lastChecked) == cert
  {
    var days := CheckedDaysLeft(now, scriptExists, run);
    if days.None? then CheckOutcome(cert, false)
    else
      var expiry := AddDays(now, days.value);
      WholeDaysRoundTrip(now, days.value);
      CheckOutcome(cert.(expiryDate := expiry, lastChecked := Some(now)), true)
  }

  /** A reply that omits `daysLeft` counts as zero days left: the certificate
      is recorded as expiring now and is therefore not due for renewal, now or
      at any later reading of the clock. */
  lemma CheckWithoutDaysLeft(cert: ManagedCertificate, now: Instant, run: ScriptRun, later: Instant)
    requires SuccessReply(run).Some? && SuccessReply(run).value.daysLeft.Absent?
    requires now <= later
    ensures CheckCertificate(cert, now, true, run).ok
    ensures CheckCertificate(cert, now, true, run).cert.expiryDate == Some(now)
    ensures !NeedsRenewal(CheckCertificate(cert, now, true, run).cert, later)
  {
    assert AddDays(now, 0) == Some(now);
  }

  // ---------------------------------------------------------------------------
  // RenewCertificateAsync

  datatype RenewResult = RenewResult(success: bool, certPem: string, keyPem: string)
  datatype RenewOutcome = RenewOutcome(cert: ManagedCertificate, result: RenewResult)

  /** The certificate and key of a renewal run, when both can be read. */
  function RenewedMaterial(run: ScriptRun): (r: Option<(string, string)>)
  {
    var reply := SuccessReply(run);
    if reply.None? then None
    else
      var certPem := ReadPem(reply.value.cert);
      var keyPem := ReadPem(reply.value.key);
      if certPem.None? || keyPem.None? then None else Some((certPem.value, keyPem.value))
  }

  /** `RenewCertificateAsync`: on success records `lastRenewed = now` and
      returns the certificate and key; otherwise `(false, "", "")` and the
      certificate is unchanged. */
  function RenewCertificate(cert: ManagedCertificate, now: Instant, run: ScriptRun): (r: RenewOutcome)
    ensures r.result.success <==> RenewedMaterial(run).Some?
    ensures !r.result.success ==> r.cert == cert && r.result == RenewResult(false, "", "")
    ensures r.result.success ==>
              && r.cert == cert.(lastRenewed := Some(now))
              && (r.result.certPem, r.result.keyPem) == RenewedMaterial(run).value
    ensures r.result.success ==> SuccessReply(run).Some?
  {
    var material := RenewedMaterial(run);
    if material.None? then RenewOutcome(cert, RenewResult(false, "", ""))
    else RenewOutcome(cert.(lastRenewed := Some(now)), RenewResult(true, material.value.0, material.value.1))
  }

  /** A successful reply missing its `cert` or `key` property is a failed
      renewal: `GetProperty` throws before `lastRenewed` is set. */
  lemma RenewNeedsBothPems(cert: ManagedCertificate, now: Instant, run: ScriptRun)
    requires SuccessReply(run).Some?
    requires SuccessReply(run).value.cert.Absent? || SuccessReply(run).value.key.Absent?
    ensures RenewCertificate(cert, now, run) == RenewOutcome(cert, RenewResult(false, "", ""))
  {
  }

  // ---------------------------------------------------------------------------
  // Deployment drivers

  datatype DeploymentKind = Ssh | DockerVolume | LocalCopy

  /** The `switch` on `deployment.Type.ToLower()`. */
  function ParseKind(kind: string): (r: Option<DeploymentKind>)
    ensures r == Some(Ssh) <==> Lower(kind) == "ssh"
    ensures r == Some(DockerVolume) <==> Lower(kind) == "docker-volume"
    ensures r == Some(LocalCopy) <==> Lower(kind) == "local-copy"
  {
    var k := Lower(kind);
    if k == "ssh" then Some(Ssh)
    else if k == "docker-volume" then Some(DockerVolume)
    else if k == "local-copy" then Some(LocalCopy)
    else None
  }

  /** What the side effects of `DeployViaSshAsync` report. */
  datatype SshRun = SshRun(tempFilesWritten: bool, certCopied: bool, keyCopied: bool, tempFilesDeleted: bool)
  /** What the side effects of `DeployViaDockerVolumeAsync` report. */
  datatype VolumeRun = VolumeRun(filesWritten: bool, certChmodOk: bool, keyChmodOk: bool)
  /** What the side effects of `DeployViaLocalCopyAsync` report. */
  datatype LocalRun = LocalRun(filesWritten: bool)

  /** Everything the outside world answers while one deployment runs. */
  datatype DeployOracle = DeployOracle(ssh: SshRun, volume: VolumeRun, local: LocalRun, hookOk: bool)

  /** `Path.Combine` of two parts: `None` where it throws (a null part); an
      empty part yields the other one, so the result is empty iff both are.
      Separator handling is simplified: only emptiness matters here. */
  function CombinedPath(dir: Option<string>, file: Option<string>): (r: Option<string>)
    ensures r.Some? <==> dir.Some? && file.Some?
    ensures r.Some? ==> (r.value == "" <==> dir.value == "" && file.value == "")
  {
    if dir.None? || file.None? then None
    else if dir.value == "" then file
    else if file.value == "" then dir
    else Some(dir.value + "/" + file.value)
  }

  /** The target fields a driver needs before the outside world is involved.
      `File.WriteAllTextAsync` throws on a null or empty path, and the driver
      catches that and returns false. The ssh driver only interpolates its
      fields into a command line, where null reads as empty. */
  predicate DriverPathsUsable(kind: DeploymentKind, d: CertDeployment)
  {
    match kind
    case Ssh => true
    case DockerVolume =>
      !IsNullOrEmpty(CombinedPath(d.volumePath, d.certFileName))
      && !IsNullOrEmpty(CombinedPath(d.volumePath, d.keyFileName))
    case LocalCopy => !IsNullOrEmpty(d.localCertPath) && !IsNullOrEmpty(d.localKeyPath)
  }

  /** The driver of each kind; each catches its own exceptions and returns false. */
  function DriverSucceeds(kind: DeploymentKind, d: CertDeployment, o: DeployOracle): (ok: bool)
    ensures kind == Ssh ==>
              (ok <==> o.ssh.tempFilesWritten && o.ssh.certCopied && o.ssh.keyCopied && o.ssh.tempFilesDeleted)
    // a docker-volume target needs its volume and both file names, none null
    // and neither joined path empty; a local-copy target needs both paths
    // non-empty; then the outcome is the file writes'
    ensures kind == DockerVolume ==>
              (ok <==> d.volumePath.Some? && d.certFileName.Some? && d.keyFileName.Some?
                       && (d.volumePath.value != "" || (d.certFileName.value != "" && d.keyFileName.value != ""))
                       && o.volume.filesWritten)
    ensures kind == LocalCopy ==>
              (ok <==> !IsNullOrEmpty(d.localCertPath) && !IsNullOrEmpty(d.localKeyPath) && o.local.filesWritten)
  {
    match kind
    case Ssh => o.ssh.tempFilesWritten && o.ssh.certCopied && o.ssh.keyCopied && o.ssh.tempFilesDeleted
    case DockerVolume => DriverPathsUsable(kind, d) && o.volume.filesWritten
    case LocalCopy => DriverPathsUsable(kind, d) && o.local.filesWritten
  }

  // ---------------------------------------------------------------------------
  // DeployCertificateAsync

  /** An external call made while deploying. */
  datatype DeployCall =
    | DriverCall(kind: DeploymentKind, certPem: string, keyPem: string)
    | HookCall(command: string)

  datatype DeployOutcome = DeployOutcome(deployment: CertDeployment, ok: bool, calls: seq<DeployCall>)

  /** The message of the `NotSupportedException` raised for an unknown type. */
  function UnsupportedTypeMessage(kind: string): string
  {
    "不支持的部署类型: " + kind
  }

  /** `PostDeployCommand` is neither null nor empty. */
  predicate HasHook(d: CertDeployment)
  {
    !IsNullOrEmpty(d.postDeployCommand)
  }

  /** `DeployCertificateAsync` for one target. */
  function DeployCertificate(d: CertDeployment, certPem: string, keyPem: string, now: Instant, o: DeployOracle)
    : (r: DeployOutcome)
    // a disabled target is skipped without side effects and reports success
    ensures !d.enabled ==> r == DeployOutcome(d, true, [])
    // an unknown type is an error recorded on the target; no driver runs
    ensures d.enabled && ParseKind(d.kind).None? ==>
              r == DeployOutcome(d.(lastError := Some(UnsupportedTypeMessage(d.kind))), false, [])
    ensures d.enabled && ParseKind(d.kind).Some? ==>
              && |r.calls| >= 1 && r.calls[0] == DriverCall(ParseKind(d.kind).value, certPem, keyPem)
              && (r.ok <==> DriverSucceeds(ParseKind(d.kind).value, d, o))
    // driver success: status updated, hook run iff configured, result true whatever the hook says
    ensures d.enabled && r.ok ==>
              && r.deployment == d.(lastDeployed := Some(now), lastError := None)
              && r.calls == [DriverCall(ParseKind(d.kind).value, certPem, keyPem)]
                            + (if HasHook(d) then [HookCall(d.postDeployCommand.value)] else [])
    // driver failure: status fields untouched, no hook
    ensures d.enabled && ParseKind(d.kind).Some? && !r.ok ==>
              r.deployment == d && r.calls == [DriverCall(ParseKind(d.kind).value, certPem, keyPem)]
    // only the runtime-status fields ever change
    ensures r.deployment.(lastDeployed := d.lastDeployed, lastError := d.lastError) == d
  {
    if !d.enabled then DeployOutcome(d, true, [])
    else
      match ParseKind(d.kind)
      case None => DeployOutcome(d.(lastError := Some(UnsupportedTypeMessage(d.kind))), false, [])
      case Some(kind) =>
        if DriverSucceeds(kind, d, o) then
          var hook := if HasHook(d) then [HookCall(d.postDeployCommand.value)] else [];
          DeployOutcome(d.(lastDeployed := Some(now), lastError := None), true, [DriverCall(kind, certPem, keyPem)] + hook)
        else
          DeployOutcome(d, false, [DriverCall(kind, certPem, keyPem)])
  }

  /** The hook's exit status never influences a deployment: neither its result
      nor the target's status. Likewise the docker-volume `chmod` results. */
  lemma DeployIgnoresHookAndChmod(d: CertDeployment, certPem: string, keyPem: string, now: Instant,
                                  o: DeployOracle, hookOk: bool, certChmodOk: bool, keyChmodOk: bool)
    ensures DeployCertificate(d, certPem, keyPem, now, o)
            == DeployCertificate(d, certPem, keyPem, now, o.(hookOk := hookOk,
                                            volume := o.volume.(certChmodOk := certChmodOk, keyChmodOk := keyChmodOk)))
  {
  }
}
