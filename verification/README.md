# dns-manager in Dafny

A model of the sequential core of dns-manager. The repository has three parts:

- a DNS API that manages TLS certificates;
- a console updater that rewrites the Windows hosts file;
- a tray application that manages settings and caches an icon.

The model covers these pieces:

- **Certificate records** (`CertModel`, `clock.dfy`).
  - The managed certificate and its deployment targets, with their runtime status.
  - `DaysUntilExpiry`, with the whole-day count truncated toward zero, and `NeedsRenewal`.
  - Loading `certificates.json`, which falls back to an empty default.
- **Certificate manager** (`CertManager`). What `CheckCertificateAsync`, `RenewCertificateAsync` and `DeployCertificateAsync` do to a record once the outside world has answered. The issuing script, scp, file writes and the post-deploy hook are oracle values passed in.
- **Renewal tick and service loop** (`Renewal`).
  - `CheckAndRenewCertificatesAsync` as a fold over the certificate list, running skip, check, renew when due, then deploy to each enabled target.
  - It keeps three counters.
  - Also modelled: the `ExecuteAsync` loop, which survives an exception escaping a tick.
  - `Scenarios` holds worked cases.
- **Certificate request helpers** (`CertGeneration`):
  - request validation;
  - apex-domain detection;
  - wildcard subject selection;
  - the Subject Alternative Name list;
  - the acme.sh provider tag;
  - the provider-credential update of the process environment, modelled as a map transformer.
- **Hosts-file rewrite** (`HostsFile`). `UpdateHostsFile` as a function over lines, plus a method with the source's loop.
- **Tray settings** (`TraySettings`). The `appsettings.json` defaults with their fixed fallbacks, overridden field by field by the user's saved settings.
- **Icon cache** (`IcoFile`). The ICO container `SaveIconToFileAsync` writes around a PNG image, with a decoder for the round trip.

Time is a count of .NET ticks (100 ns). A frozen `now` is passed in wherever the source reads `DateTime.UtcNow`. An exception that the source catches becomes `None`, a failure flag or a `Faulted` summary, matching what the catching code does.

## Model

Source paths are relative to the repository root.

| member | source | states |
|---|---|---|
| Clock.TruncDiv | DNSApi/Services/CertificateManagerService.cs:44-46 | the `(int)` cast of a day count rounds toward zero: the quotient lies between the dividend and zero, and within one divisor of the dividend, for either sign |
| Clock.WholeDaysBetween | DNSApi/Services/CertificateManagerService.cs:44-46 | the whole days between two instants, truncated toward zero, bracket the later instant from the earlier one in both directions |
| Clock.WholeDaysRoundTrip | DNSApi/Services/CertificateManagerService.cs:257 | adding whole days and then counting the whole days back gives the same number |
| CertModel.DaysUntilExpiry | DNSApi/Services/CertificateManagerService.cs:44-46 | -1 with no expiry; otherwise the truncated whole days to expiry, bracketed by the expiry instant for a future and for a past expiry |
| CertModel.NeedsRenewalCases | DNSApi/Services/CertificateManagerService.cs:44-49 | a certificate is due exactly when its expiry is known and lies at least one day and less than threshold+1 days ahead; an unknown expiry, one less than a day away or past, or one at least threshold+1 days away is never due |
| CertModel.DueWindowAtRecording | DNSApi/Services/CertificateManagerService.cs:44-49 | read at the instant an expiry was recorded as `days` whole days ahead, the remaining days are exactly `days`, and the certificate is due iff 1 <= days <= threshold |
| CertModel.DueWindowAfterRecording | DNSApi/Services/CertificateManagerService.cs:44-49 | read later by less than a day, truncation loses one remaining day for a future expiry, so the certificate is due iff 2 <= days <= threshold+1 |
| CertModel.WithoutStatus | DNSApi/Services/CertificateManagerService.cs:33-41 | clearing the `[JsonIgnore]` fields leaves a record with no runtime status that agrees with the original on every configuration field, its own and its deployments' |
| CertModel.SameConfigTransitive | DNSApi/Services/CertificateManagerService.cs:107-111 | agreeing up to runtime status is transitive |
| CertModel.LoadConfig | DNSApi/Services/CertificateManagerService.cs:182-200 | a missing, unreadable, malformed or `null` file gives the empty default; a document gives its settings and its certificates with no runtime status |
| CertModel.LoadConfigRoundTrip | DNSApi/Services/CertificateManagerService.cs:182-200 | loading is idempotent: the document made of a loaded configuration's lists loads back to that same configuration, since clearing the runtime status is a projection |
| CertManager.CheckCertificate | DNSApi/Services/CertificateManagerService.cs:213-272 | fails, leaving the certificate untouched, unless the script exists, exits 0 with output, replies `success: true` with a readable in-range `daysLeft`; on success only `expiryDate` and `lastChecked` change, `lastChecked` is now, and `DaysUntilExpiry` is the reported number |
| CertManager.CheckWithoutDaysLeft | DNSApi/Services/CertificateManagerService.cs:253-258 | a reply without `daysLeft` succeeds with expiry now, so the certificate is not due then or at any later reading of the clock |
| CertManager.RenewCertificate | DNSApi/Services/CertificateManagerService.cs:277-327 | success exactly when a successful reply has readable `cert` and `key`; then `lastRenewed` is now and both PEMs are returned (a JSON null reads as ""); otherwise `(false, "", "")` and the certificate is unchanged |
| CertManager.RenewNeedsBothPems | DNSApi/Services/CertificateManagerService.cs:308-316 | a successful reply missing `cert` or `key` is a failed renewal that changes nothing |
| CertManager.ParseKind | DNSApi/Services/CertificateManagerService.cs:348-353 | the type selects ssh, docker-volume or local-copy exactly when its lower-cased text is that name |
| CertManager.CombinedPath | DNSApi/Services/CertificateManagerService.cs:419-420 | joining two path parts fails iff either is null, and the joined path is empty iff both parts are |
| CertManager.DriverSucceeds | DNSApi/Services/CertificateManagerService.cs:381-457 | ssh succeeds iff both temporary files were written, both copies succeeded and the temporary files were deleted; docker-volume fails on a null volume path or file name, or on an empty joined path, and otherwise succeeds iff both files were written; local-copy fails on a null or empty path, and otherwise succeeds iff both files were written |
| CertManager.DeployCertificate | DNSApi/Services/CertificateManagerService.cs:332-376 | disabled: success, no call, no change; unknown type: `lastError` holds the not-supported message, no driver call, false; otherwise the driver is called first and decides the result; on success `lastDeployed` is now, `lastError` is cleared and the hook runs iff configured; on failure both status fields stay; configuration fields never change |
| CertManager.DeployIgnoresHookAndChmod | DNSApi/Services/CertificateManagerService.cs:356-368 | the hook's exit status, and the docker-volume `chmod` results, never change a deployment's result or status |
| Renewal.DeployAllOutcomes | DNSApi/Services/CertificateRenewalBackgroundService.cs:87-99 | each enabled target ends as its own deployment left it, whatever happened to the earlier ones; disabled targets are untouched |
| Renewal.DeployAllCount | DNSApi/Services/CertificateRenewalBackgroundService.cs:87-98 | the deployment count is the number of enabled targets whose deployment returned true, and at most the number of enabled targets |
| Renewal.DeployAllCalls | DNSApi/Services/CertificateRenewalBackgroundService.cs:87-89 | deployment calls go only to enabled targets, in configured order |
| Renewal.ProcessCertificate | DNSApi/Services/CertificateRenewalBackgroundService.cs:59-109 | auto-renew off: no call and no change; a failed check: only the check call, nothing changed, not counted; renewal is attempted iff the check succeeded and the updated record is due when the clock is read again; deployments happen only after a successful renewal, and their count equals the successful enabled deployments; only runtime status changes |
| Renewal.ProcessCertificateTrace | DNSApi/Services/CertificateRenewalBackgroundService.cs:59-109 | with auto-renew on, the calls are exactly the check, the renewal iff it is due, then, after a successful renewal, the deploy loop's calls to enabled targets in configured order; the record is the checked one unless the renewal succeeded, and then the renewed one with each target as the deploy loop left it |
| Renewal.DecisionWindow | DNSApi/Services/CertificateRenewalBackgroundService.cs:66-81 | in terms of the days the check reported: read at the check's own instant, renewal is attempted iff 1 <= days <= threshold; read later by less than a day, iff 2 <= days <= threshold+1 |
| Renewal.TickOutcomes | DNSApi/Services/CertificateRenewalBackgroundService.cs:57-110 | each certificate ends the tick exactly as processing it alone would leave it: a failure on one never affects another |
| Renewal.TickCheckedCount | DNSApi/Services/CertificateRenewalBackgroundService.cs:66-73 | `checkedCount` is the number of certificates whose check succeeded |
| Renewal.TickRenewedCount | DNSApi/Services/CertificateRenewalBackgroundService.cs:81-84 | `renewedCount` is the number of certificates whose renewal succeeded |
| Renewal.TickDeployedCount | DNSApi/Services/CertificateRenewalBackgroundService.cs:87-98 | `deployedCount` is the sum over certificates of their successful deployments |
| Renewal.TickEvents | DNSApi/Services/CertificateRenewalBackgroundService.cs:57-63 | external calls are made in list order and never for a certificate with auto-renew off |
| Renewal.TickCalls | DNSApi/Services/CertificateRenewalBackgroundService.cs:57-109 | the calls made for each certificate in a tick are exactly those processing it alone makes, in order, so each certificate's calls follow `ProcessCertificateTrace`; none is made for an index past the list |
| Renewal.TickCounterBounds | DNSApi/Services/CertificateRenewalBackgroundService.cs:53-105 | renewed <= checked <= auto-renewing certificates, and deployed <= enabled targets of renewed certificates |
| Renewal.TickKeepsConfig | DNSApi/Services/CertificateRenewalBackgroundService.cs:45-113 | a tick changes only runtime status, never configuration |
| Renewal.RunTick | DNSApi/Services/CertificateRenewalBackgroundService.cs:29-36 | a tick, complete or cut short, leaves as many certificates as it found, and reports a fault only when an escape point is given |
| Renewal.RunTickFaults | DNSApi/Services/CertificateRenewalBackgroundService.cs:29-36 | a tick reports a fault exactly when its exception is actually raised: an escape point inside the deploy loop of a certificate that is not renewed faults nothing |
| Renewal.RunTickCompleted | DNSApi/Services/CertificateRenewalBackgroundService.cs:31 | a tick no exception escapes is the complete tick, with its three counters reported |
| Renewal.InterruptedShape | DNSApi/Services/CertificateRenewalBackgroundService.cs:81-99 | a certificate whose deploy loop throws keeps the check's and the renewal's updates and its number of targets; it differs from the renewed record only in its targets |
| Renewal.InterruptedTargets | DNSApi/Services/CertificateRenewalBackgroundService.cs:87-99 | the targets before the failing position end as their own deployment leaves them, disabled ones untouched; those from it on are untouched |
| Renewal.InterruptedKeepsConfig | DNSApi/Services/CertificateRenewalBackgroundService.cs:81-99 | an interrupted certificate keeps its configuration |
| Renewal.InterruptedPastEnd | DNSApi/Services/CertificateRenewalBackgroundService.cs:87-99 | an exception after the last target interrupts nothing: the certificate ends as a completed processing leaves it |
| Renewal.RunTickOutcomes | DNSApi/Services/CertificateRenewalBackgroundService.cs:29-36 | completed: every certificate as processing it alone leaves it; cut short: certificates before the escape point keep their updates, an interrupted one is as above, and the rest are untouched |
| Renewal.RunTickKeepsConfig | DNSApi/Services/CertificateRenewalBackgroundService.cs:29-36 | a tick, complete or cut short, changes only runtime status |
| Renewal.RunService | DNSApi/Services/CertificateRenewalBackgroundService.cs:27-40 | the loop produces one summary per tick and keeps every certificate; a tick faults only when an exception escapes it |
| Renewal.RunServiceStep | DNSApi/Services/CertificateRenewalBackgroundService.cs:27-40 | one more iteration runs the next tick on the state the earlier ones left, faults included, and appends its summary |
| Renewal.RunServiceTick | DNSApi/Services/CertificateRenewalBackgroundService.cs:27-40 | the summary of tick t is that tick run on the state the first t ticks left |
| Renewal.RunServiceCompletedTick | DNSApi/Services/CertificateRenewalBackgroundService.cs:27-40 | a tick no exception escapes reports the counters of the complete tick over the state the earlier ticks left |
| Renewal.RunServiceKeepsConfig | DNSApi/Services/CertificateRenewalBackgroundService.cs:27-40 | across any run of ticks, faulted or not, every certificate keeps its configuration |
| Scenarios.DueCertificateIsRenewed | DNSApi/Services/CertificateRenewalBackgroundService.cs:66-81 | with a 30-day threshold, a check reporting 20 days left leads to a renewal request in the same tick, however far (less than a day) the clock moves before the decision |
| Scenarios.DistantCertificateIsOnlyChecked | DNSApi/Services/CertificateRenewalBackgroundService.cs:66-109 | with a 30-day threshold, 45 days left: checked, `lastChecked` updated, no renewal, `lastRenewed` unchanged |
| Scenarios.ClockMovesTheWindow | DNSApi/Services/CertificateRenewalBackgroundService.cs:66-81 | with a 30-day threshold, 31 days left is renewed and 1 day is not when the clock moves before the decision; at the check's own instant it is the other way round |
| Scenarios.SecondOfThreeFails | DNSApi/Services/CertificateRenewalBackgroundService.cs:87-98 | three enabled targets whose drivers succeed, fail and succeed count two deployments; the failed one keeps its status |
| CertGeneration.ValidateRequest | DNSApi/Services/CertificateGenerationService.cs:116-132 | a blank domain is the first error; then a certificate type other than RSA2048/ECDSA256, or null; then an export format other than PEM/PFX/BOTH, or null; then PFX or BOTH without a password; accepted iff every check passes |
| CertGeneration.IndexOfDot | DNSApi/Services/CertificateGenerationService.cs:733 | the position of the first '.', or -1 when there is none |
| CertGeneration.LastIndexOfDot | DNSApi/Services/CertificateGenerationService.cs:734 | the position of the last '.', or -1 when there is none |
| CertGeneration.IsApexDomainMeaning | DNSApi/Services/CertificateGenerationService.cs:728-736 | a domain is apex iff its trimmed text holds exactly one '.', which is neither its first nor its last character |
| CertGeneration.SanNamesOfSubject | DNSApi/Services/CertificateGenerationService.cs:645-655 | a wildcard subject lists itself and the bare domain; a plain subject lists only itself; the requested domain is always listed |
| CertGeneration.DnsProviderName | DNSApi/Services/CertificateGenerationService.cs:713-723 | CLOUDFLARE, ALIYUN and TENCENT in any case map to dns_cf, dns_ali and dns_tencent; every other value, null included, maps to dns_dp |
| CertGeneration.DnsProviderNameIgnoresCase | DNSApi/Services/CertificateGenerationService.cs:713-723 | the provider tag ignores case: names equal up to case, and the upper- and lower-cased name, give the same tag |
| CertGeneration.SetDnsApiEnvironment | DNSApi/Services/CertificateGenerationService.cs:137-182 | only the selected provider's variables change. DNSPOD writes both keys when both are non-empty, taking each from the request, or from configuration when the request value is null. CLOUDFLARE needs a token and writes the account id only if one is given. ALIYUN needs both values. Any other provider leaves the environment unchanged |
| CertGeneration.DnsPodEmptyIdWritesNothing | DNSApi/Services/CertificateGenerationService.cs:144-147 | an empty (not null) DNSPod key id does not fall back to configuration, so nothing is written |
| CertGeneration.SetDnsApiEnvironmentIdempotent | DNSApi/Services/CertificateGenerationService.cs:137-182 | writing the same credentials a second time changes nothing |
| CertGeneration.PlanIssue | DNSApi/Services/CertificateGenerationService.cs:48-66 | a rejected request goes no further. Otherwise the wildcard choice is the request's flag, or the apex test when the flag is unset. The subject is `*.domain` iff wildcard, and the provider tag follows the rule above |
| CertGeneration.CertificateSourceFor | DNSApi/Services/CertificateGenerationService.cs:283-288 | the issued certificate comes from the acme.sh files iff both exist; otherwise from a self-signed stand-in whose common name is the subject and whose SAN list follows the rule above |
| CertGeneration.StandInNamesDomain | DNSApi/Services/CertificateGenerationService.cs:623-655 | the stand-in for an accepted request always names the requested domain: the wildcard and the bare domain for a wildcard request, only the domain for a plain one |
| HostsFile.Word | DNSUpdater/Program.cs:73 | the longest prefix without a space or tab |
| HostsFile.FieldsOfEntry | DNSUpdater/Program.cs:73-76 | splitting a written entry on spaces and tabs gives back exactly its address and host name |
| HostsFile.UpdateHosts | DNSUpdater/Program.cs:59-91 | every line whose second field names the host is replaced in place by `ip<TAB>host`, and every other line is kept, comments and blank lines included; one entry is appended iff no line matched |
| HostsFile.UpdateHostsFile | DNSUpdater/Program.cs:59-91 | the line-by-line loop with its found flag writes exactly what `UpdateHosts` describes |
| HostsFile.EntryMatches | DNSUpdater/Program.cs:67-76 | a written entry with a non-empty, separator-free address and host name is itself an entry for the host |
| HostsFile.UpdateHostsResolves | DNSUpdater/Program.cs:65-88 | after an update the host has an entry, and every entry for the host points at the new address |
| HostsFile.UpdateHostsIdempotent | DNSUpdater/Program.cs:65-88 | a second update with the same address leaves the file as the first one wrote it |
| HostsFile.EmptyHostnameAppendsAgain | DNSUpdater/Program.cs:65-88 | with an empty host name no line ever matches, so every update of any file appends one `ip<TAB>` line and changes nothing else |
| TraySettings.ParseInt32 | DNSUpdaterTray/ConfigurationManager.cs:34 | a plain string of digits parses iff its value fits in `int`, and then to that value |
| TraySettings.ParseInt32Accepts | DNSUpdaterTray/ConfigurationManager.cs:34 | white space, an optional `+` or `-`, a non-empty run of digits and white space parse to the signed value iff it fits in `int`, and otherwise fail |
| TraySettings.ParseInt32OnlyNumbers | DNSUpdaterTray/ConfigurationManager.cs:34 | a text that parses is white space, an optional sign, digits and white space, and its value is the signed digits; every other text fails |
| TraySettings.ParseBool | DNSUpdaterTray/ConfigurationManager.cs:35 | `true` or `false` in any letter case, with surrounding white space, parse to that value; every other text fails |
| TraySettings.ParseFormatted | DNSUpdaterTray/ConfigurationManager.cs:34 | every `int`, written in decimal, parses back to itself |
| TraySettings.BaseSettings | DNSUpdaterTray/ConfigurationManager.cs:29-36 | each missing key takes its fixed default; the result exists iff the interval and the flag parse |
| TraySettings.EmptyBaseGivesDefaults | DNSUpdaterTray/ConfigurationManager.cs:31-35 | with no keys the settings are the built-in URL, "3950", "qsgl.net", 60 and true |
| TraySettings.LoadUserConfiguration | DNSUpdaterTray/ConfigurationManager.cs:53-69 | the saved settings iff the file exists, is read and parses to a non-null object; every failure gives no settings |
| TraySettings.LoadConfiguration | DNSUpdaterTray/ConfigurationManager.cs:20-51 | loads iff the application configuration exists and parses, whatever the user file holds; with no user settings it gives the base settings; otherwise each field is the user's value where present and the base value where absent |
| TraySettings.BookkeepingIgnored | DNSUpdaterTray/ConfigurationManager.cs:97-106 | the save time and the last web page never influence the merged settings |
| TraySettings.FullUserSettingsWin | DNSUpdaterTray/ConfigurationManager.cs:43-47 | user settings with every field present decide the result alone whenever the application configuration loads; otherwise nothing loads |
| TraySettings.EmptyUserSettingsChangeNothing | DNSUpdaterTray/ConfigurationManager.cs:43-47 | user settings with no field present give the same result as no user file |
| IcoFile.Le16RoundTrip | DNSUpdaterTray/IconManager.cs:107-108 | a 16-bit little-endian field reads back as the value written |
| IcoFile.Le32RoundTrip | DNSUpdaterTray/IconManager.cs:116-117 | a 32-bit little-endian field reads back as the value written |
| IcoFile.ReadLe32RoundTrip | DNSUpdaterTray/IconManager.cs:116-117 | any four bytes are the encoding of the value they read as |
| IcoFile.EncodeIco | DNSUpdaterTray/IconManager.cs:97-123 | header 0,0,1,0,1,0; entry 32,32,0,0; planes 1 and depth 32; the size field is the PNG length; the offset field is 22, the exact header length; the PNG follows verbatim |
| IcoFile.DecodeEncode | DNSUpdaterTray/IconManager.cs:97-123 | decoding an encoded icon gives back its PNG |
| IcoFile.EncodeDecode | DNSUpdaterTray/IconManager.cs:97-123 | every file the decoder accepts is exactly the encoding of the image it yields |

## Left out

- Process, shell and file effects. These are the script runs, scp, chmod, the post-deploy hook with its quote escaping, temporary files and `File.*` calls. They become oracle values (`ScriptRun`, `SshRun`, `VolumeRun`, `LocalRun`, `hookOk`), or the caller supplies the lines or bytes.
- Parsing the script's JSON output. It becomes the abstract `ScriptJson`, where each property is absent, of the wrong type, or present.
- Credential arguments. The DNSPod key id and secret passed on the script's command line come from configuration and do not affect the model.
- Cryptography. This covers key generation, `X509Certificate2`, self-signed issuance, PFX export and expiry parsing in `CertificateGenerationService.cs`. Modelled are the decisions before the acme.sh call (`PlanIssue`) and where the issued certificate comes from, with the stand-in's names (`CertificateSourceFor`). The acme.sh arguments, the file export and the development certificate of `CreateDevelopmentCertificateAsync` are not.
- Timers and concurrency. `Task.Delay`, the startup delay, `_checkInterval` and cancellation are not modelled: the service loop is a sequence of tick inputs, and cancellation is the end of that sequence.
- Notifications and `GlobalSettings`. `NotificationConfig` and the global settings are carried but read by nothing, as in the source.
- Clock drift. The clock's move between a check recording the expiry and the renewal decision reading it is modelled (`elapsed`). Every other `DateTime.UtcNow` read in a tick is the tick's `now`: `lastChecked`, `lastRenewed` and `lastDeployed` all record it, and every certificate of a tick shares it. The two `DaysUntilExpiry` reads in `NeedsRenewal` (DNSApi/Services/CertificateManagerService.cs:49) are taken as one instant; they could disagree only if a day boundary fell between them and the threshold were 0 or less.
- CertModel.DaysUntilExpiry: truncates an exact tick difference. The source's floating-point `TotalDays`, which could round a difference a few ticks short of a whole day, is not modelled.
- Case mapping. `ToUpper`, `ToLower` and `OrdinalIgnoreCase` map ASCII letters only. Culture-dependent and non-ASCII case mappings (Turkish dotless i, the Kelvin sign) are not modelled.
- `StartsWith("#")` in the hosts-file rewrite and `StartsWith("*.")` in `SanNames` compare characters exactly. They do not use the culture-sensitive comparison .NET applies to a string argument.
- Null type. A deployment with a null `type` (a `NullReferenceException` caught as a failure) is not modelled: `kind` is a plain string.
- Missing JSON properties. A configuration document is given as complete records, so the property defaults that deserialisation fills in for missing properties are not modelled.
- Hosts file text. Line terminators and text encoding are not modelled: the hosts file is its sequence of lines, and lines never contain a line break.
- Web-page memory. `MainForm.cs` and `SettingsForm.cs` are UI code and not part of this model. This includes how saving settings rebuilds the user file without the last web page.
- TraySettings.ParseInt32: accepts surrounding white space, one sign and ASCII digits. Trailing NUL characters and culture-specific signs that .NET also accepts are not modelled.
- TraySettings.ParseBool: trims Unicode white space but not the NUL characters `bool.Parse` also strips.
- Icon fallback. The fallback path of `SaveIconToFileAsync`, which saves a PNG when building the icon throws, and the download and resize in `DownloadAndCacheIconAsync`, are not modelled. The bitmap's PNG bytes are an input.
- Provider credentials. TENCENT has a provider tag but `SetDnsApiEnvironment` sets no variables for it, as in the source. Its credential handling is therefore empty, not missing.
- Configuration keys. `IConfiguration` looks keys up ignoring case; `CertGeneration.Lookup` and `TraySettings.Setting` match keys exactly.
- Renewal.RunService: treats `CertificateManagerService` as one instance living across ticks, as a singleton registration gives. Each tick resolves it from a new scope, and its registration in the API's `Program.cs` is not part of this model. Were it scoped, every tick would reload the file and start with no runtime status.
- Renewal.RunTick: the escape point is an input of the tick, not derived from the stored document: a null certificate list, a null entry or a null `deployments` list is not represented in the records.

## Notes

What the code does in three places where one might expect otherwise:

- **Corrupt configuration file.** `LoadConfig` logs the error and returns the empty default configuration (`CertModel.LoadConfig`).
- **Driver failure.** `DeployCertificateAsync` sets `lastError` only when an exception reaches it. For the known types this never happens, because every driver catches its own exceptions. A driver that returns false leaves both status fields as they were (`CertManager.DeployCertificate`, `Scenarios.SecondOfThreeFails`).
- **Failed tick.** An exception escaping `CheckAndRenewCertificatesAsync` loses the tick's counters, and `RunTick` reports `Faulted`. Certificates processed before the exception keep their updates, because they were changed in place.
