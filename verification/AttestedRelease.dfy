/**
 Key release under the stored policy: what `unwrapKey` serves when its attestation is checked by the
 validator, and how that follows governance edits of the policy.
*/
module AttestedRelease {
  import opened Outcomes
  import opened Hex
  import opened KeyLifecycle
  import opened Exposure
  import opened KeyEndpoints
  import R = ReleasePolicy
  import V = Validator
  import O = PolicyOrder

  const REPORT_DATA := "x-ms-sevsnpvm-reportdata"
  const DEBUGGABLE := "x-ms-sevsnpvm-is-debuggable"

  /** A verified attestation report: its report data, and the other claims read off it. */
  datatype SnpReport = SnpReport(reportData: Option<seq<byte>>, others: V.Attestation)

  /** The claims of a report; report data appears in hex. */
  function ClaimsOf(report: SnpReport): V.Attestation {
    match report.reportData
    case None => report.others - {REPORT_DATA}
    case Some(bytes) => report.others[REPORT_DATA := R.Str(ToHex(bytes))]
  }

  /** The report data appears as hex that reads as it, or not at all; other claims appear as they are. */
  lemma ClaimsShowReport(report: SnpReport)
    ensures var claims := ClaimsOf(report);
            && (REPORT_DATA in claims <==> report.reportData.Some?)
            && (report.reportData.Some? ==>
                  claims[REPORT_DATA].Str? && FromHex(claims[REPORT_DATA].s) == Some(report.reportData.value))
            && (forall k | k != REPORT_DATA :: k in claims <==> k in report.others)
            && (forall k | k != REPORT_DATA && k in claims :: claims[k] == report.others[k])
  {
    if report.reportData.Some? { ReadingUndoesPrinting(report.reportData.value); }
  }

  /** The names under which anything is ever read off a report. */
  const REPORTED := {
    "x-ms-ver", "x-ms-sevsnpvm-guestsvn", "x-ms-sevsnpvm-smt-allowed", "x-ms-sevsnpvm-is-debuggable",
    "x-ms-sevsnpvm-familyId", "x-ms-sevsnpvm-imageId", "x-ms-sevsnpvm-vmpl", "x-ms-sevsnpvm-reportdata",
    "x-ms-sevsnpvm-launchmeasurement", "x-ms-sevsnpvm-hostdata", "x-ms-sevsnpvm-idkeydigest",
    "x-ms-sevsnpvm-authorkeydigest", "x-ms-sevsnpvm-reportid", "signature-r", "signature-s",
    "uvm_endorsements-did", "uvm_endorsements-feed", "uvm_endorsements-svn"
  }

  /** Names a policy may use, but no report ever has. */
  const NEVER_REPORTED := {
    "x-ms-attestation-type", "x-ms-compliance-status", "x-ms-policy-hash", "vm-configuration-secure-boot",
    "vm-configuration-secure-boot-template-id", "vm-configuration-tpm-enabled", "vm-configuration-vmUniqueId",
    "x-ms-sevsnpvm-bootloader-svn", "x-ms-sevsnpvm-microcode-svn", "x-ms-sevsnpvm-migration-allowed",
    "x-ms-sevsnpvm-snpfw-svn", "x-ms-sevsnpvm-tee-svn"
  }

  /** Of what is reported, the signature and the endorsements are the five a policy cannot name. */
  lemma ClaimNamesAre(name: string)
    ensures R.IsClaim(name) <==>
            || name in NEVER_REPORTED
            || (&& name in REPORTED
                && name !in {"signature-r", "signature-s"}
                && name !in {"uvm_endorsements-did", "uvm_endorsements-feed", "uvm_endorsements-svn"})
  {}

  /** A policy that asks for a name no report has lets nobody in by the default route. */
  lemma NeverReportedLocksOut(js: V.Js, policy: R.Policy, name: string, report: SnpReport)
    requires name in NEVER_REPORTED && name in O.Names(policy)
    requires report.others.Keys <= REPORTED
    ensures !V.Accepts(js, policy, ClaimsOf(report))
  {
    O.AcceptsNameByName(js, policy, ClaimsOf(report));
    assert name !in REPORTED;
  }

  /** The caller names the attestation provider; every name but one takes the default route. */
  predicate ViaGcp(req: UnwrapRequest) {
    OrElse(req.attestationType, "azure") == "gcp"
  }

  /** The outcome of attestation for a verified report: the GCP route stops after the signature. */
  function Attest(js: V.Js, policy: R.Policy, req: UnwrapRequest, report: SnpReport): Attested {
    if ViaGcp(req) then Report(report.reportData)
    else if policy.claims.None? then Rejected(500)
    else if !V.Accepts(js, policy, ClaimsOf(report)) then Rejected(400)
    else Report(report.reportData)
  }

  /** `unwrapKey` for a caller whose verified report is `report`. */
  function Release(
      s: State, js: V.Js, policy: R.Policy,
      req: UnwrapRequest, report: SnpReport, receipts: Receipts, platform: Platform)
    : Response<UnwrapBody>
  {
    UnwrapKey(s, req, Attest(js, policy, req, report), receipts, platform)
  }

  /** All that `unwrapKey` asks for apart from attestation. */
  ghost predicate IsServable(s: State, req: UnwrapRequest, platform: Platform) {
    && UnwrapRequestError(req, platform) == 0
    && NamesCurrentKey(s, req.wrappedKid.value)
    && platform.canWrap(req.wrappingKey.value)
  }

  /** The report data begins with the digest of the wrapping key. */
  predicate IsBound(req: UnwrapRequest, report: SnpReport, platform: Platform)
    requires req.wrappingKey.Some?
  {
    report.reportData.Some? && platform.digest(req.wrappingKey.value) <= report.reportData.value
  }

  /**
   A key is served exactly when the request is in order, the report is bound to its wrapping key, and the
   stored policy accepts the report or the caller named the GCP provider.
  */
  lemma ReleasedIff(
      s: State, js: V.Js, policy: R.Policy,
      req: UnwrapRequest, report: SnpReport, receipts: Receipts, platform: Platform)
    requires Reachable(s)
    ensures Release(s, js, policy, req, report, receipts, platform).Succeeded? <==>
            && IsServable(s, req, platform)
            && IsBound(req, report, platform)
            && (ViaGcp(req) || V.Accepts(js, policy, ClaimsOf(report)))
  {
    UnwrapSucceedsIff(s, req, Attest(js, policy, req, report), receipts, platform);
  }

  /** Under no policy is a refused report served a key. */
  ghost predicate PolicyBinds(s: State, js: V.Js, req: UnwrapRequest, receipts: Receipts, platform: Platform) {
    forall policy, report | Release(s, js, policy, req, report, receipts, platform).Succeeded? ::
      V.Accepts(js, policy, ClaimsOf(report))
  }

  /** A policy that asks for one thing: that the machine cannot be debugged. */
  function NoDebugging(): R.Policy {
    R.Policy(Some(map[DEBUGGABLE := [R.Bool(false)]]), None, None)
  }

  /** The report of a machine that can be debugged, whatever else it claims. */
  predicate IsDebuggable(report: SnpReport) {
    DEBUGGABLE in report.others && report.others[DEBUGGABLE] == R.Bool(true)
  }

  lemma DebuggableIsRefused(js: V.Js, report: SnpReport)
    requires IsDebuggable(report)
    ensures !V.Accepts(js, NoDebugging(), ClaimsOf(report))
  {
    var claims := NoDebugging().claims.value;
    assert V.Print(js, R.Bool(false))[0] != V.Print(js, R.Bool(true))[0];
    assert !V.ClaimHolds(js, claims, ClaimsOf(report), DEBUGGABLE);
  }

  /** The stored policy binds a servable request exactly when its provider is not GCP. */
  lemma PolicyBindsIff(s: State, js: V.Js, req: UnwrapRequest, receipts: Receipts, platform: Platform)
    requires Reachable(s)
    ensures PolicyBinds(s, js, req, receipts, platform) <==> !(IsServable(s, req, platform) && ViaGcp(req))
  {
    if IsServable(s, req, platform) && ViaGcp(req) {
      var policy := NoDebugging();
      var report := SnpReport(Some(platform.digest(req.wrappingKey.value)), map[DEBUGGABLE := R.Bool(true)]);
      DebuggableIsRefused(js, report);
      ReleasedIff(s, js, policy, req, report, receipts, platform);
    } else {
      forall policy, report | Release(s, js, policy, req, report, receipts, platform).Succeeded?
        ensures V.Accepts(js, policy, ClaimsOf(report))
      {
        ReleasedIff(s, js, policy, req, report, receipts, platform);
      }
    }
  }

  /** Such a report is refused by this policy: 400 on the default route, and a key through GCP. */
  lemma RefusedReportIsServedViaGcp(
      s: State, js: V.Js, req: UnwrapRequest, report: SnpReport, receipts: Receipts, platform: Platform)
    requires Reachable(s) && IsServable(s, req, platform) && IsBound(req, report, platform) && IsDebuggable(report)
    ensures Release(s, js, NoDebugging(), req.(attestationType := None), report, receipts, platform) == Failed(400)
    ensures Release(s, js, NoDebugging(), req.(attestationType := Some("gcp")), report, receipts, platform).Succeeded?
  {
    DebuggableIsRefused(js, report);
    ReleasedIff(s, js, NoDebugging(), req.(attestationType := Some("gcp")), report, receipts, platform);
  }

  /** Allowing more values under names already recorded takes no key away from anyone, on either route. */
  lemma AddingValuesKeepsReleasing(
      s: State, js: V.Js, policy: R.Policy, args: R.ClaimArgs,
      req: UnwrapRequest, report: SnpReport, receipts: Receipts, platform: Platform)
    requires Reachable(s) && forall k | k in args :: k in R.OrEmpty(policy.claims)
    requires Release(s, js, policy, req, report, receipts, platform).Succeeded?
    ensures Release(s, js, R.Commit(policy, V.ClaimsOnly("add", args)), req, report, receipts, platform)
            == Release(s, js, policy, req, report, receipts, platform)
  {
    if !ViaGcp(req) {
      ReleasedIff(s, js, policy, req, report, receipts, platform);
      V.AddingValuesKeepsAccepting(js, policy, args, ClaimsOf(report));
    }
  }

  /** Withdrawing values without emptying a list gives no key to anyone who had none, on either route. */
  lemma RemovingValuesKeepsRefusing(
      s: State, js: V.Js, policy: R.Policy, args: R.ClaimArgs,
      req: UnwrapRequest, report: SnpReport, receipts: Receipts, platform: Platform)
    requires Reachable(s)
    requires R.OrEmpty(policy.claims).Keys <= R.OrEmpty(R.Commit(policy, V.ClaimsOnly("remove", args)).claims).Keys
    requires !Release(s, js, policy, req, report, receipts, platform).Succeeded?
    ensures !Release(s, js, R.Commit(policy, V.ClaimsOnly("remove", args)), req, report, receipts, platform).Succeeded?
  {
    if !ViaGcp(req) {
      var after := R.Commit(policy, V.ClaimsOnly("remove", args));
      ReleasedIff(s, js, policy, req, report, receipts, platform);
      ReleasedIff(s, js, after, req, report, receipts, platform);
      if !V.Accepts(js, policy, ClaimsOf(report)) {
        V.RemovingValuesKeepsRefusing(js, policy, args, ClaimsOf(report));
      }
    }
  }

  /** Some report is served under one policy and not under another. */
  ghost predicate PolicyMatters(s: State, js: V.Js, req: UnwrapRequest, receipts: Receipts, platform: Platform) {
    exists some, other, report ::
      && Release(s, js, some, req, report, receipts, platform).Succeeded?
      && !Release(s, js, other, req, report, receipts, platform).Succeeded?
  }

  lemma UndebuggableIsAccepted(js: V.Js, report: SnpReport)
    requires DEBUGGABLE in report.others && report.others[DEBUGGABLE] == R.Bool(false)
    ensures V.Accepts(js, NoDebugging(), ClaimsOf(report))
  {
    var claims := NoDebugging().claims.value;
    assert V.Print(js, claims[DEBUGGABLE][0]) == V.Print(js, ClaimsOf(report)[DEBUGGABLE]);
    assert DEBUGGABLE in claims;
  }

  /** The policy decides who gets a key exactly when the request is servable and its provider is not GCP. */
  lemma PolicyMattersIff(s: State, js: V.Js, req: UnwrapRequest, receipts: Receipts, platform: Platform)
    requires Reachable(s)
    ensures PolicyMatters(s, js, req, receipts, platform) <==> IsServable(s, req, platform) && !ViaGcp(req)
  {
    if IsServable(s, req, platform) && !ViaGcp(req) {
      var some, other := NoDebugging(), R.Policy(None, None, None);
      var report := SnpReport(Some(platform.digest(req.wrappingKey.value)), map[DEBUGGABLE := R.Bool(false)]);
      UndebuggableIsAccepted(js, report);
      ReleasedIff(s, js, some, req, report, receipts, platform);
      ReleasedIff(s, js, other, req, report, receipts, platform);
      assert Release(s, js, some, req, report, receipts, platform).Succeeded?;
      assert !Release(s, js, other, req, report, receipts, platform).Succeeded?;
    } else if some, other, report :|
      && Release(s, js, some, req, report, receipts, platform).Succeeded?
      && !Release(s, js, other, req, report, receipts, platform).Succeeded?
    {
      ReleasedIff(s, js, some, req, report, receipts, platform);
      ReleasedIff(s, js, other, req, report, receipts, platform);
    }
  }

  /** On the default route a missing policy is answered with 500, and a refused report with 400. */
  lemma RefusalsAre(
      s: State, js: V.Js, policy: R.Policy,
      req: UnwrapRequest, report: SnpReport, receipts: Receipts, platform: Platform)
    requires IsServable(s, req, platform) && !ViaGcp(req) && !V.Accepts(js, policy, ClaimsOf(report))
    ensures Release(s, js, policy, req, report, receipts, platform)
            == Failed(if policy.claims.None? then 500 else 400)
  {}
}
