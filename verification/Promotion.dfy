/**
 The promotion chain of scripts/cd-manifest-verify.ts: the candidate manifest, the staging marker
 and the promotion that must consume exactly what both certify.

 Documents are given parsed, each field as far as it has the right type; unreadable JSON is `None`.
 The order in which reasons are listed is not part of this model.
 */
module Promotion {
  import opened Wrappers
  import opened JsText

  const REQUIRED_SERVICES: set<string> := {"api", "kernel-migrate", "kernel-ops", "worker", "adapter-ops", "web"}

  const REQUIRED_CHECKS: set<string> := {"quality", "kernel-postgres-integration", "l4-b-deploy-gates"}

  datatype Check = Check(executed: bool, succeeded: bool)

  /** A declared service's image, or `None` when the value is no string. */
  type RawServices = map<string, Option<string>>

  type Services = map<string, string>

  datatype Manifest = Manifest(
    schemaOk: bool, candidate: Option<string>, lockfile: Option<string>, artifactId: string, artifactHash: string,
    runId: Option<string>, runAttempt: Option<int>, requiredChecks: Option<seq<string>>,
    checks: map<string, Check>, services: Option<RawServices>, attestation: Option<string>, subject: Option<string>)

  datatype Marker = Marker(
    schemaOk: bool, validated: bool, environment: string, manifestHash: Option<string>, candidate: Option<string>,
    verificationRun: string, verificationAttempt: Option<int>, services: Option<RawServices>)

  datatype Reason =
    | Unparseable | BadExpectedHash | Tampered | WrongSchema | BadCandidate | StaleCandidate | BadLockfile
    | NoArtifact | BadArtifactHash | NoRunId | BadAttempt | AttemptMismatch | NoRequiredChecks
    | CheckNotRequired(name: string) | NoResult(name: string) | NotExecuted(name: string) | NotSuccessful(name: string)
    | NoServices | NotPinned(name: string) | MissingService(name: string) | UnknownService(name: string)
    | ExpectedMissing(name: string) | ExpectedDiffers(name: string) | NotExpected(name: string)
    | NoAttestation | BadSubject
    | NotValidated | WrongEnvironment | ManifestHashMismatch | RunRequired | RunMismatch
    | FromManifest(reason: Reason) | FromStaging(reason: Reason)
    | NotProduction | CredentialsReused | CandidateMismatch | NothingVerified | ServiceDiffers(name: string)

  predicate IsHexText(s: string) { forall i :: 0 <= i < |s| ==> '0' <= s[i] <= '9' || 'a' <= s[i] <= 'f' }

  predicate IsSha256(s: string) { |s| == 64 && IsHexText(s) }

  predicate IsCommit(s: string) { |s| == 40 && IsHexText(s) }

  predicate IsNameChar(c: char) { !IsSpace(c) && c != '@' }

  /** `name@sha256:digest` */
  predicate IsPinned(image: string) {
    && |image| > 72 && IsSha256(image[|image| - 64..]) && image[|image| - 72..|image| - 64] == "@sha256:"
    && forall i :: 0 <= i < |image| - 72 ==> IsNameChar(image[i])
  }

  // ---------------------------------------------------------------------------------------
  // Service digest maps
  // ---------------------------------------------------------------------------------------

  predicate PinnedValue(value: Option<string>) { value.Some? && IsPinned(value.value) }

  /** The key that assignment to an object does not store. */
  const PROTO := "__proto__"

  /** `services`, filled by assignment: the pinned images by name. */
  function Pinned(raw: RawServices): Services {
    map name | name in raw && name != PROTO && PinnedValue(raw[name]) :: raw[name].value
  }

  function Unpinned(raw: RawServices): set<Reason> {
    set name | name in raw && !PinnedValue(raw[name]) :: NotPinned(name)
  }

  function ServiceReasons(raw: Option<RawServices>): set<Reason> {
    if raw.None? then {NoServices} else
      var pinned := Pinned(raw.value);
      Unpinned(raw.value) + Missing(pinned) + Unknown(pinned)
  }

  function VerifiedServices(raw: Option<RawServices>): Services { if raw.None? then map[] else Pinned(raw.value) }

  function Missing(pinned: Services): set<Reason> {
    set name | name in REQUIRED_SERVICES && name !in pinned :: MissingService(name)
  }

  function Unknown(pinned: Services): set<Reason> {
    set name | name in pinned && name !in REQUIRED_SERVICES :: UnknownService(name)
  }

  method FindMissing(pinned: Services) returns (reasons: set<Reason>)
    ensures reasons == Missing(pinned)
  {
    reasons := {};
    var todo := REQUIRED_SERVICES;
    while todo != {}
      invariant todo <= REQUIRED_SERVICES
      invariant reasons == set name | name in REQUIRED_SERVICES && name !in todo && name !in pinned :: MissingService(name)
      decreases |todo|
    {
      var name :| name in todo;
      if name !in pinned { reasons := reasons + {MissingService(name)}; }
      todo := todo - {name};
    }
  }

  method FindUnknown(pinned: Services) returns (reasons: set<Reason>)
    ensures reasons == Unknown(pinned)
  {
    reasons := {};
    var todo := pinned.Keys;
    while todo != {}
      invariant todo <= pinned.Keys
      invariant reasons == set name | name in pinned && name !in todo && name !in REQUIRED_SERVICES :: UnknownService(name)
      decreases |todo|
    {
      var name :| name in todo;
      if name !in REQUIRED_SERVICES { reasons := reasons + {UnknownService(name)}; }
      todo := todo - {name};
    }
  }

  lemma PinnedIsSome(value: Option<string>)
    ensures PinnedValue(value) ==> value.Some?
  {
  }

  method CollectPinned(raw: RawServices) returns (reasons: set<Reason>, services: Services)
    ensures reasons == Unpinned(raw) && services == Pinned(raw)
  {
    hide PinnedValue;
    reasons, services := {}, map[];
    var todo := raw.Keys;
    while todo != {}
      invariant todo <= raw.Keys
      invariant reasons == set name | name in raw && name !in todo && !PinnedValue(raw[name]) :: NotPinned(name)
      invariant services == map name | name in Pinned(raw) && name !in todo :: Pinned(raw)[name]
      decreases |todo|
    {
      var name :| name in todo;
      if !PinnedValue(raw[name]) {
        reasons := reasons + {NotPinned(name)};
      } else if name != PROTO {
        assert raw[name].Some? by { PinnedIsSome(raw[name]); }
        services := services[name := raw[name].value];
      }
      todo := todo - {name};
    }
  }

  /** The loops both verifiers run over the declared services, filling `services`. */
  method CollectServices(raw: Option<RawServices>) returns (reasons: set<Reason>, services: Services)
    ensures reasons == ServiceReasons(raw) && services == VerifiedServices(raw)
  {
    hide Pinned, Unpinned;
    if raw.None? { return {NoServices}, map[]; }
    reasons, services := CollectPinned(raw.value);
    var missing := FindMissing(services);
    var unknown := FindUnknown(services);
    reasons := reasons + missing + unknown;
  }

  /** A complete map: exactly the required services, `__proto__` aside, and every entry pinned. */
  ghost predicate CompleteServices(raw: Option<RawServices>) {
    && raw.Some? && raw.value.Keys - {PROTO} == REQUIRED_SERVICES
    && forall name :: name in raw.value ==> PinnedValue(raw.value[name])
  }

  lemma UnpinnedClean(raw: RawServices)
    ensures Unpinned(raw) == {} <==> forall name :: name in raw ==> PinnedValue(raw[name])
  {
    hide PinnedValue;
    assert forall name :: name in raw && !PinnedValue(raw[name]) ==> NotPinned(name) in Unpinned(raw);
  }

  lemma KeysClean(pinned: Services)
    ensures Missing(pinned) == {} && Unknown(pinned) == {} <==> pinned.Keys == REQUIRED_SERVICES
  {
    var required := REQUIRED_SERVICES;
    assert forall name :: name in required && name !in pinned ==> MissingService(name) in Missing(pinned);
    assert forall name :: name in pinned && name !in required ==> UnknownService(name) in Unknown(pinned);
  }

  lemma ServicesClean(raw: Option<RawServices>)
    ensures ServiceReasons(raw) == {} <==> CompleteServices(raw)
    ensures CompleteServices(raw) ==> VerifiedServices(raw).Keys == REQUIRED_SERVICES
  {
    hide PinnedValue, Unpinned, Missing, Unknown;
    if raw.Some? {
      UnpinnedClean(raw.value);
      KeysClean(Pinned(raw.value));
      assert (forall name :: name in raw.value ==> PinnedValue(raw.value[name])) ==>
               Pinned(raw.value).Keys == raw.value.Keys - {PROTO};
    }
  }

  lemma ProtoNotRequired()
    ensures PROTO !in REQUIRED_SERVICES
  {
  }

  /** A pinned `__proto__` entry is not seen: neither a reason nor a service comes of it. */
  lemma ProtoUnseen(raw: RawServices, image: string)
    requires PROTO !in raw && IsPinned(image)
    ensures var more := raw[PROTO := Some(image)];
            ServiceReasons(Some(more)) == ServiceReasons(Some(raw)) && VerifiedServices(Some(more)) == VerifiedServices(Some(raw))
  {
    hide IsPinned;
    var more := raw[PROTO := Some(image)];
    assert Pinned(more) == Pinned(raw) && Unpinned(more) == Unpinned(raw);
  }

  // ---------------------------------------------------------------------------------------
  // The manifest
  // ---------------------------------------------------------------------------------------

  datatype Expected = Expected(
    manifestHash: string, candidate: string, expectedServices: Option<Services>, producerAttempt: Option<int>)

  datatype Verification = Verification(reasons: set<Reason>, candidate: string, services: Services) {
    predicate Ok() { reasons == {} }
  }

  function CheckOutcome(doc: Manifest, name: string): set<Reason> {
    if name !in doc.checks then {NoResult(name)}
    else if !doc.checks[name].executed then {NotExecuted(name)}
    else if !doc.checks[name].succeeded then {NotSuccessful(name)}
    else {}
  }

  function CheckOutcomes(doc: Manifest, names: seq<string>): set<Reason> {
    set name, r | name in names && r in CheckOutcome(doc, name) :: r
  }

  function PolicyReasons(names: seq<string>): set<Reason> {
    set name | name in REQUIRED_CHECKS && name !in names :: CheckNotRequired(name)
  }

  function CheckReasons(doc: Manifest): set<Reason> {
    if doc.requiredChecks.None? || doc.requiredChecks.value == [] then {NoRequiredChecks}
    else PolicyReasons(doc.requiredChecks.value) + CheckOutcomes(doc, doc.requiredChecks.value)
  }

  /** Every declared check, and every one the policy requires, was recorded, executed and succeeded. */
  ghost predicate ChecksPassed(doc: Manifest) {
    && doc.requiredChecks.Some? && doc.requiredChecks.value != []
    && (forall name :: name in REQUIRED_CHECKS ==> name in doc.requiredChecks.value)
    && (forall name :: name in doc.requiredChecks.value ==>
          name in doc.checks && doc.checks[name].executed && doc.checks[name].succeeded)
  }

  lemma ChecksClean(doc: Manifest)
    ensures CheckReasons(doc) == {} <==> ChecksPassed(doc)
  {
    hide CheckOutcome;
    if doc.requiredChecks.Some? && doc.requiredChecks.value != [] {
      var names := doc.requiredChecks.value;
      assert forall name :: name in REQUIRED_CHECKS && name !in names ==> CheckNotRequired(name) in PolicyReasons(names);
      assert PolicyReasons(names) + CheckOutcomes(doc, names) == {} <==>
               PolicyReasons(names) == {} && CheckOutcomes(doc, names) == {};
      forall name ensures CheckOutcome(doc, name) == {} <==>
                            name in doc.checks && doc.checks[name].executed && doc.checks[name].succeeded
      {
        OutcomeClean(doc, name);
      }
      if CheckOutcomes(doc, names) == {} {
        forall name | name in names ensures CheckOutcome(doc, name) == {} {
          assert forall r :: r in CheckOutcome(doc, name) ==> r in CheckOutcomes(doc, names);
        }
      }
    }
  }

  lemma OutcomeClean(doc: Manifest, name: string)
    ensures CheckOutcome(doc, name) == {} <==>
              name in doc.checks && doc.checks[name].executed && doc.checks[name].succeeded
  {
  }

  /** How the given names of the expected map fare. */
  function ExpectedAmong(names: set<string>, wanted: Services, services: Services): set<Reason>
    requires names <= wanted.Keys
  {
    (set name | name in names && name !in services :: ExpectedMissing(name)) +
    (set name | name in names && name in services && services[name] != wanted[name] :: ExpectedDiffers(name))
  }

  lemma ExpectedOneMore(names: set<string>, name: string, wanted: Services, services: Services)
    requires names <= wanted.Keys && name in wanted
    ensures ExpectedAmong(names + {name}, wanted, services) ==
              ExpectedAmong(names, wanted, services) +
              if name !in services then {ExpectedMissing(name)}
              else When(services[name] != wanted[name], ExpectedDiffers(name))
  {
  }

  function ExpectedReasons(expected: Option<Services>, services: Services): set<Reason> {
    if expected.None? then {} else
      ExpectedAmong(expected.value.Keys, expected.value, services) +
      set name | name in services && name !in expected.value :: NotExpected(name)
  }

  method CompareWanted(wanted: Services, services: Services) returns (reasons: set<Reason>)
    ensures reasons == ExpectedAmong(wanted.Keys, wanted, services)
  {
    hide ExpectedAmong;
    NothingExpected(wanted, services);
    reasons := {};
    var todo := wanted.Keys;
    ghost var seen: set<string> := {};
    while todo != {}
      invariant seen + todo == wanted.Keys && reasons == ExpectedAmong(seen, wanted, services)
      decreases |todo|
    {
      var name :| name in todo;
      ExpectedOneMore(seen, name, wanted, services);
      if name !in services {
        reasons := reasons + {ExpectedMissing(name)};
      } else if services[name] != wanted[name] {
        reasons := reasons + {ExpectedDiffers(name)};
      }
      todo, seen := todo - {name}, seen + {name};
    }
    assert seen == wanted.Keys;
  }

  /** The two loops over the expected map. */
  method CompareExpected(expected: Option<Services>, services: Services) returns (reasons: set<Reason>)
    ensures reasons == ExpectedReasons(expected, services)
  {
    hide ExpectedAmong;
    if expected.None? { return {}; }
    reasons := CompareWanted(expected.value, services);
    var unexpected := FindUnexpected(expected.value, services);
    reasons := reasons + unexpected;
  }

  lemma NothingExpected(wanted: Services, services: Services)
    ensures ExpectedAmong({}, wanted, services) == {}
  {
  }

  method FindUnexpected(wanted: Services, services: Services) returns (reasons: set<Reason>)
    ensures reasons == set name | name in services && name !in wanted :: NotExpected(name)
  {
    reasons := {};
    var todo := services.Keys;
    while todo != {}
      invariant todo <= services.Keys
      invariant reasons == set name | name in services && name !in todo && name !in wanted :: NotExpected(name)
      decreases |todo|
    {
      var name :| name in todo;
      if name !in wanted { reasons := reasons + {NotExpected(name)}; }
      todo := todo - {name};
    }
  }

  /** What the manifest says it is. */
  function IdentityReasons(doc: Manifest, hash: string, e: Expected): set<Reason> {
    (if !IsSha256(e.manifestHash) then {BadExpectedHash} else When(hash != e.manifestHash, Tampered)) +
    When(!doc.schemaOk, WrongSchema) +
    (if doc.candidate.None? || !IsCommit(doc.candidate.value) then {BadCandidate}
     else When(doc.candidate.value != e.candidate, StaleCandidate)) +
    When(doc.lockfile.None? || !IsSha256(doc.lockfile.value), BadLockfile)
  }

  /** Where it comes from. */
  function OriginReasons(doc: Manifest, e: Expected): set<Reason> { ProducerReasons(doc, e) + ProvenanceReasons(doc) }

  function ProducerReasons(doc: Manifest, e: Expected): set<Reason> {
    When(doc.artifactId == "", NoArtifact) + When(!IsSha256(doc.artifactHash), BadArtifactHash) +
    When(doc.runId.None? || doc.runId.value == "", NoRunId) +
    (if doc.runAttempt.None? || doc.runAttempt.value < 1 then {BadAttempt}
     else When(e.producerAttempt.Some? && doc.runAttempt != e.producerAttempt, AttemptMismatch))
  }

  function ProvenanceReasons(doc: Manifest): set<Reason> {
    When(doc.attestation.None? || doc.attestation.value == "", NoAttestation) +
    When(doc.subject.None? || !IsSha256(doc.subject.value), BadSubject)
  }

  /** The checks on single fields. */
  function FieldReasons(doc: Manifest, hash: string, e: Expected): set<Reason> {
    IdentityReasons(doc, hash, e) + OriginReasons(doc, e)
  }

  method CheckIdentity(doc: Manifest, hash: string, e: Expected) returns (reasons: set<Reason>)
    ensures reasons == IdentityReasons(doc, hash, e)
  {
    hide IsSha256, IsCommit;
    reasons := {};
    if !IsSha256(e.manifestHash) { reasons := reasons + {BadExpectedHash}; }
    else if hash != e.manifestHash { reasons := reasons + {Tampered}; }
    if !doc.schemaOk { reasons := reasons + {WrongSchema}; }
    if doc.candidate.None? || !IsCommit(doc.candidate.value) { reasons := reasons + {BadCandidate}; }
    else if doc.candidate.value != e.candidate { reasons := reasons + {StaleCandidate}; }
    if doc.lockfile.None? || !IsSha256(doc.lockfile.value) { reasons := reasons + {BadLockfile}; }
  }

  method CheckOrigin(doc: Manifest, e: Expected) returns (reasons: set<Reason>)
    ensures reasons == OriginReasons(doc, e)
  {
    hide IsSha256;
    reasons := {};
    if doc.artifactId == "" { reasons := reasons + {NoArtifact}; }
    if !IsSha256(doc.artifactHash) { reasons := reasons + {BadArtifactHash}; }
    if doc.runId.None? || doc.runId.value == "" { reasons := reasons + {NoRunId}; }
    if doc.runAttempt.None? || doc.runAttempt.value < 1 { reasons := reasons + {BadAttempt}; }
    else if e.producerAttempt.Some? && doc.runAttempt != e.producerAttempt { reasons := reasons + {AttemptMismatch}; }
    assert reasons == ProducerReasons(doc, e);
    if doc.attestation.None? || doc.attestation.value == "" { reasons := reasons + {NoAttestation}; }
    if doc.subject.None? || !IsSha256(doc.subject.value) { reasons := reasons + {BadSubject}; }
  }

  function VerifyManifest(doc: Option<Manifest>, hash: string, e: Expected): Verification {
    if doc.None? then Verification({Unparseable}, "", map[]) else
      var m := doc.value;
      var services := VerifiedServices(m.services);
      Verification(
        FieldReasons(m, hash, e) + CheckReasons(m) + ServiceReasons(m.services) + ExpectedReasons(e.expectedServices, services),
        if m.candidate.Some? then m.candidate.value else "", services)
  }

  /** `verifyCandidateManifest`, with its loops over the checks, the services and the expected map. */
  method VerifyCandidateManifest(doc: Option<Manifest>, hash: string, e: Expected) returns (v: Verification)
    ensures v == VerifyManifest(doc, hash, e)
  {
    hide IdentityReasons, OriginReasons, ServiceReasons, CheckReasons, ExpectedReasons;
    if doc.None? { return Verification({Unparseable}, "", map[]); }
    var m := doc.value;
    var reasons := CheckIdentity(m, hash, e);
    var origin := CheckOrigin(m, e);
    var checks := ScanChecks(m);
    var found, services := CollectServices(m.services);
    var expected := CompareExpected(e.expectedServices, services);
    reasons := reasons + origin + checks + found + expected;
    v := Verification(reasons, if m.candidate.Some? then m.candidate.value else "", services);
  }

  method ScanChecks(doc: Manifest) returns (reasons: set<Reason>)
    ensures reasons == CheckReasons(doc)
  {
    hide CheckOutcome;
    if doc.requiredChecks.None? || doc.requiredChecks.value == [] { return {NoRequiredChecks}; }
    var names := doc.requiredChecks.value;
    var policy := FindUnrequired(names);
    reasons := policy;
    for i := 0 to |names|
      invariant reasons == policy + CheckOutcomes(doc, names[..i])
    {
      assert names[..i + 1] == names[..i] + [names[i]];
      var found := ScanCheck(doc, names[i]);
      reasons := reasons + found;
    }
    assert names[..|names|] == names;
  }

  method ScanCheck(doc: Manifest, name: string) returns (reasons: set<Reason>)
    ensures reasons == CheckOutcome(doc, name)
  {
    if name !in doc.checks { return {NoResult(name)}; }
    if !doc.checks[name].executed { return {NotExecuted(name)}; }
    reasons := {};
    if !doc.checks[name].succeeded { reasons := {NotSuccessful(name)}; }
  }

  method FindUnrequired(names: seq<string>) returns (reasons: set<Reason>)
    ensures reasons == PolicyReasons(names)
  {
    reasons := {};
    var todo := REQUIRED_CHECKS;
    while todo != {}
      invariant todo <= REQUIRED_CHECKS
      invariant reasons == set name | name in REQUIRED_CHECKS && name !in todo && name !in names :: CheckNotRequired(name)
      decreases |todo|
    {
      var name :| name in todo;
      if name !in names { reasons := reasons + {CheckNotRequired(name)}; }
      todo := todo - {name};
    }
  }

  // ---------------------------------------------------------------------------------------
  // The staging marker
  // ---------------------------------------------------------------------------------------

  datatype StagingExpected = StagingExpected(
    manifestHash: string, candidate: string, verificationRun: string, environment: string)

  /** What the marker is about. */
  function BindingReasons(m: Marker, e: StagingExpected): set<Reason> {
    When(!m.schemaOk, WrongSchema) + When(!m.validated, NotValidated) +
    When(m.environment != e.environment, WrongEnvironment) +
    When(e.manifestHash != "" && m.manifestHash != Some(e.manifestHash), ManifestHashMismatch)
  }

  /** Which candidate and run it records. */
  function RunReasons(m: Marker, e: StagingExpected): set<Reason> {
    (if m.candidate.None? || !IsCommit(m.candidate.value) then {BadCandidate}
     else When(m.candidate.value != e.candidate, StaleCandidate)) +
    (if e.verificationRun == "" then {RunRequired} else When(m.verificationRun != e.verificationRun, RunMismatch)) +
    When(m.verificationAttempt.None? || m.verificationAttempt.value < 1, BadAttempt)
  }

  function MarkerReasons(m: Marker, e: StagingExpected): set<Reason> { BindingReasons(m, e) + RunReasons(m, e) }

  function VerifyMarker(doc: Option<Marker>, e: StagingExpected): Verification {
    if doc.None? then Verification({Unparseable}, "", map[]) else
      var m := doc.value;
      Verification(MarkerReasons(m, e) + ServiceReasons(m.services),
                   if m.candidate.Some? then m.candidate.value else "", VerifiedServices(m.services))
  }

  method CheckBinding(m: Marker, e: StagingExpected) returns (reasons: set<Reason>)
    ensures reasons == BindingReasons(m, e)
  {
    reasons := {};
    if !m.schemaOk { reasons := reasons + {WrongSchema}; }
    if !m.validated { reasons := reasons + {NotValidated}; }
    if m.environment != e.environment { reasons := reasons + {WrongEnvironment}; }
    if e.manifestHash != "" && m.manifestHash != Some(e.manifestHash) { reasons := reasons + {ManifestHashMismatch}; }
  }

  method CheckRun(m: Marker, e: StagingExpected) returns (reasons: set<Reason>)
    ensures reasons == RunReasons(m, e)
  {
    hide IsCommit;
    reasons := {};
    if m.candidate.None? || !IsCommit(m.candidate.value) { reasons := reasons + {BadCandidate}; }
    else if m.candidate.value != e.candidate { reasons := reasons + {StaleCandidate}; }
    if e.verificationRun == "" { reasons := reasons + {RunRequired}; }
    else if m.verificationRun != e.verificationRun { reasons := reasons + {RunMismatch}; }
    if m.verificationAttempt.None? || m.verificationAttempt.value < 1 { reasons := reasons + {BadAttempt}; }
  }

  /** `verifyStagingMarker`. */
  method VerifyStagingMarker(doc: Option<Marker>, e: StagingExpected) returns (v: Verification)
    ensures v == VerifyMarker(doc, e)
  {
    hide BindingReasons, RunReasons, ServiceReasons;
    if doc.None? { return Verification({Unparseable}, "", map[]); }
    var reasons := CheckBinding(doc.value, e);
    var run := CheckRun(doc.value, e);
    var found, services := CollectServices(doc.value.services);
    v := Verification(reasons + run + found, if doc.value.candidate.Some? then doc.value.candidate.value else "", services);
  }

  // ---------------------------------------------------------------------------------------
  // The promotion
  // ---------------------------------------------------------------------------------------

  function Lookup(m: Services, name: string): Option<string> { if name in m then Some(m[name]) else None }

  function DifferingAmong(names: set<string>, a: Services, b: Services): set<Reason> {
    set name | name in names && Lookup(a, name) != Lookup(b, name) :: ServiceDiffers(name)
  }

  function Differing(a: Services, b: Services): set<Reason> { DifferingAmong(a.Keys + b.Keys, a, b) }

  /** The reasons of the two documents, passed on. */
  function Forwarded(manifest: Verification, staging: Verification): set<Reason> {
    (set r | r in manifest.reasons :: FromManifest(r)) + (set r | r in staging.reasons :: FromStaging(r))
  }

  function OwnReasons(manifest: Verification, staging: Verification, candidate: string, environment: string,
                      credentialsReused: bool): set<Reason>
  {
    When(environment != "production", NotProduction) + When(credentialsReused, CredentialsReused) +
    When(manifest.candidate != candidate, CandidateMismatch) +
    When(staging.services.Keys + manifest.services.Keys == {}, NothingVerified)
  }

  function PromotionReasons(manifest: Verification, staging: Verification, candidate: string, environment: string,
                            credentialsReused: bool): set<Reason>
  {
    Forwarded(manifest, staging) + OwnReasons(manifest, staging, candidate, environment, credentialsReused) +
    Differing(staging.services, manifest.services) + Missing(staging.services)
  }

  /** The loop over the union of the keys. */
  method CompareServices(a: Services, b: Services) returns (reasons: set<Reason>)
    ensures reasons == Differing(a, b)
  {
    hide Lookup;
    reasons := {};
    var todo := a.Keys + b.Keys;
    ghost var seen: set<string> := {};
    while todo != {}
      invariant seen + todo == a.Keys + b.Keys && reasons == DifferingAmong(seen, a, b)
      decreases |todo|
    {
      var name :| name in todo;
      if Lookup(a, name) != Lookup(b, name) { reasons := reasons + {ServiceDiffers(name)}; }
      todo, seen := todo - {name}, seen + {name};
    }
    assert seen == a.Keys + b.Keys;
  }

  /** What lets a promotion through. */
  ghost predicate Promotable(manifest: Verification, staging: Verification, candidate: string, environment: string,
                             reused: bool)
  {
    && manifest.Ok() && staging.Ok() && environment == "production" && !reused
    && manifest.candidate == candidate && manifest.services == staging.services
    && REQUIRED_SERVICES <= staging.services.Keys
  }

  /** `verifyPromotion`: each reason is listed exactly for its own cause, and none exactly when nothing is wrong. */
  method VerifyPromotion(manifest: Verification, staging: Verification, candidate: string, environment: string,
                         credentialsReused: bool) returns (reasons: set<Reason>)
    ensures reasons == {} <==> Promotable(manifest, staging, candidate, environment, credentialsReused)
    ensures forall r :: FromManifest(r) in reasons <==> r in manifest.reasons
    ensures forall r :: FromStaging(r) in reasons <==> r in staging.reasons
    ensures forall name :: ServiceDiffers(name) in reasons <==>
              Lookup(staging.services, name) != Lookup(manifest.services, name)
    ensures forall name :: MissingService(name) in reasons <==> name in REQUIRED_SERVICES && name !in staging.services
    ensures NotProduction in reasons <==> environment != "production"
    ensures CandidateMismatch in reasons <==> manifest.candidate != candidate
    ensures CredentialsReused in reasons <==> credentialsReused
    ensures reasons == PromotionReasons(manifest, staging, candidate, environment, credentialsReused)
  {
    hide Promotable, Lookup, Forwarded, OwnReasons, Differing, Missing;
    reasons := Forwarded(manifest, staging);
    var own := CheckOwn(manifest, staging, candidate, environment, credentialsReused);
    var differing := CompareServices(staging.services, manifest.services);
    var missing := FindMissing(staging.services);
    reasons := reasons + own + differing + missing;
    PromotionClean(manifest, staging, candidate, environment, credentialsReused);
    ForwardedCause(manifest, staging);
    OwnCause(manifest, staging, candidate, environment, credentialsReused);
    DifferingCause(staging.services, manifest.services);
    MissingCause(staging.services);
  }

  method CheckOwn(manifest: Verification, staging: Verification, candidate: string, environment: string,
                  credentialsReused: bool) returns (reasons: set<Reason>)
    ensures reasons == OwnReasons(manifest, staging, candidate, environment, credentialsReused)
  {
    reasons := {};
    if environment != "production" { reasons := reasons + {NotProduction}; }
    if credentialsReused { reasons := reasons + {CredentialsReused}; }
    if manifest.candidate != candidate { reasons := reasons + {CandidateMismatch}; }
    if staging.services.Keys + manifest.services.Keys == {} { reasons := reasons + {NothingVerified}; }
  }

  lemma ForwardedCause(manifest: Verification, staging: Verification)
    ensures forall r :: r in Forwarded(manifest, staging) ==> r.FromManifest? || r.FromStaging?
    ensures forall r :: FromManifest(r) in Forwarded(manifest, staging) <==> r in manifest.reasons
    ensures forall r :: FromStaging(r) in Forwarded(manifest, staging) <==> r in staging.reasons
  {
  }

  lemma OwnCause(manifest: Verification, staging: Verification, candidate: string, environment: string, reused: bool)
    ensures var own := OwnReasons(manifest, staging, candidate, environment, reused);
            && (forall r :: r in own ==> r in {NotProduction, CredentialsReused, CandidateMismatch, NothingVerified})
            && (NotProduction in own <==> environment != "production") && (CredentialsReused in own <==> reused)
            && (CandidateMismatch in own <==> manifest.candidate != candidate)
            && (NothingVerified in own <==> staging.services.Keys == {} && manifest.services.Keys == {})
  {
  }

  lemma DifferingCause(a: Services, b: Services)
    ensures forall r :: r in Differing(a, b) ==> r.ServiceDiffers?
    ensures forall name :: ServiceDiffers(name) in Differing(a, b) <==> Lookup(a, name) != Lookup(b, name)
  {
  }

  lemma MissingCause(pinned: Services)
    ensures forall r :: r in Missing(pinned) ==> r.MissingService?
    ensures forall name :: MissingService(name) in Missing(pinned) <==> name in REQUIRED_SERVICES && name !in pinned
  {
  }

  /** No map differs from itself, and maps that differ nowhere are one. */
  lemma SameServices(a: Services, b: Services)
    ensures a == b <==> forall name :: Lookup(a, name) == Lookup(b, name)
  {
    if forall name :: Lookup(a, name) == Lookup(b, name) {
      forall name ensures name in a <==> name in b { assert Lookup(a, name) == Lookup(b, name); }
      forall name | name in a ensures a[name] == b[name] { assert Lookup(a, name) == Lookup(b, name); }
    }
  }

  lemma PromotionClean(manifest: Verification, staging: Verification, candidate: string, environment: string, reused: bool)
    ensures PromotionReasons(manifest, staging, candidate, environment, reused) == {} <==>
              Promotable(manifest, staging, candidate, environment, reused)
  {
    hide Forwarded, OwnReasons, Differing, Missing, Lookup;
    ForwardedCause(manifest, staging);
    OwnCause(manifest, staging, candidate, environment, reused);
    DifferingCause(staging.services, manifest.services);
    MissingCause(staging.services);
    SameServices(staging.services, manifest.services);
    assert "api" in REQUIRED_SERVICES;
    assert Forwarded(manifest, staging) == {} <==> manifest.Ok() && staging.Ok() by { NoneForwarded(manifest, staging); }
    assert Missing(staging.services) == {} <==> REQUIRED_SERVICES <= staging.services.Keys by {
      if Missing(staging.services) == {} {
        forall name | name in REQUIRED_SERVICES ensures name in staging.services {
          assert MissingService(name) !in Missing(staging.services);
        }
      }
    }
    assert Differing(staging.services, manifest.services) == {} <==> manifest.services == staging.services by {
      if Differing(staging.services, manifest.services) == {} {
        forall name ensures Lookup(staging.services, name) == Lookup(manifest.services, name) {
          assert ServiceDiffers(name) !in Differing(staging.services, manifest.services);
        }
      }
    }
  }

  lemma NoneForwarded(manifest: Verification, staging: Verification)
    ensures Forwarded(manifest, staging) == {} <==> manifest.Ok() && staging.Ok()
  {
    var f := Forwarded(manifest, staging);
    assert forall r :: r in manifest.reasons ==> FromManifest(r) in f;
    assert forall r :: r in staging.reasons ==> FromStaging(r) in f;
  }

  /** The chain as production runs it: both documents against one hash and one candidate. */
  function PromotionAccepted(manifest: Option<Manifest>, hash: string, marker: Option<Marker>, e: Expected,
                             s: StagingExpected, environment: string, reused: bool): bool
  {
    PromotionReasons(VerifyManifest(manifest, hash, e), VerifyMarker(marker, s), e.candidate, environment, reused) == {}
  }

  /** A manifest with nothing wrong, field by field. */
  ghost predicate GoodManifest(m: Manifest, hash: string, e: Expected) {
    && GoodIdentity(m, hash, e) && GoodOrigin(m, e) && ChecksPassed(m) && CompleteServices(m.services)
    && (e.expectedServices.Some? ==> e.expectedServices.value == VerifiedServices(m.services))
  }

  ghost predicate GoodIdentity(m: Manifest, hash: string, e: Expected) {
    && IsSha256(e.manifestHash) && hash == e.manifestHash && m.schemaOk
    && m.candidate == Some(e.candidate) && IsCommit(e.candidate) && m.lockfile.Some? && IsSha256(m.lockfile.value)
  }

  ghost predicate GoodOrigin(m: Manifest, e: Expected) {
    && m.artifactId != "" && IsSha256(m.artifactHash) && m.runId.Some? && m.runId.value != ""
    && m.runAttempt.Some? && m.runAttempt.value >= 1 && (e.producerAttempt.Some? ==> m.runAttempt == e.producerAttempt)
    && m.attestation.Some? && m.attestation.value != "" && m.subject.Some? && IsSha256(m.subject.value)
  }

  /** A staging marker with nothing wrong: which environment, candidate, run and attempt it proves. */
  ghost predicate GoodMarker(k: Marker, s: StagingExpected) {
    && k.schemaOk && k.validated && k.environment == s.environment
    && (s.manifestHash != "" ==> k.manifestHash == Some(s.manifestHash))
    && k.candidate == Some(s.candidate) && IsCommit(s.candidate)
    && s.verificationRun != "" && k.verificationRun == s.verificationRun
    && k.verificationAttempt.Some? && k.verificationAttempt.value >= 1 && CompleteServices(k.services)
  }

  lemma IdentityClean(m: Manifest, hash: string, e: Expected)
    ensures IdentityReasons(m, hash, e) == {} <==> GoodIdentity(m, hash, e)
  {
    hide IsSha256, IsCommit;
  }

  lemma OriginClean(m: Manifest, e: Expected)
    ensures OriginReasons(m, e) == {} <==> GoodOrigin(m, e)
  {
    hide IsSha256;
    assert OriginReasons(m, e) == {} <==> ProducerReasons(m, e) == {} && ProvenanceReasons(m) == {};
  }

  lemma ExpectedClean(expected: Option<Services>, services: Services)
    ensures ExpectedReasons(expected, services) == {} <==> (expected.Some? ==> expected.value == services)
  {
    if expected.Some? {
      var r, wanted := ExpectedReasons(expected, services), expected.value;
      assert forall name :: name in wanted && name !in services ==> ExpectedMissing(name) in r;
      assert forall name :: name in wanted && name in services && services[name] != wanted[name] ==> ExpectedDiffers(name) in r;
      assert forall name :: name in services && name !in wanted ==> NotExpected(name) in r;
      if r == {} { assert wanted.Keys == services.Keys; }
    }
  }

  /** The manifest verifier finds nothing exactly in a good manifest. */
  lemma ManifestClean(doc: Option<Manifest>, hash: string, e: Expected)
    ensures VerifyManifest(doc, hash, e).Ok() <==> doc.Some? && GoodManifest(doc.value, hash, e)
    ensures doc.Some? && GoodManifest(doc.value, hash, e) ==>
              VerifyManifest(doc, hash, e).candidate == e.candidate
              && VerifyManifest(doc, hash, e).services == VerifiedServices(doc.value.services)
  {
    hide IdentityReasons, OriginReasons, CheckReasons, ServiceReasons, ExpectedReasons, ChecksPassed, CompleteServices,
         GoodOrigin, VerifiedServices, IsCommit, IsSha256;
    if doc.Some? {
      var m := doc.value;
      IdentityClean(m, hash, e);
      OriginClean(m, e);
      ChecksClean(m);
      ServicesClean(m.services);
      ExpectedClean(e.expectedServices, VerifiedServices(m.services));
      SumsClean(FieldReasons(m, hash, e), CheckReasons(m), ServiceReasons(m.services),
                ExpectedReasons(e.expectedServices, VerifiedServices(m.services)));
      assert FieldReasons(m, hash, e) == {} <==> IdentityReasons(m, hash, e) == {} && OriginReasons(m, e) == {};
    }
  }

  lemma SumsClean(a: set<Reason>, b: set<Reason>, c: set<Reason>, d: set<Reason>)
    ensures a + b + c + d == {} <==> a == {} && b == {} && c == {} && d == {}
  {
  }

  /** And the marker verifier in a good marker. */
  lemma MarkerClean(doc: Option<Marker>, s: StagingExpected)
    ensures VerifyMarker(doc, s).Ok() <==> doc.Some? && GoodMarker(doc.value, s)
  {
    hide ServiceReasons, CompleteServices, IsCommit;
    if doc.Some? {
      var k := doc.value;
      ServicesClean(k.services);
      SumsClean(BindingReasons(k, s), RunReasons(k, s), ServiceReasons(k.services), {});
      assert BindingReasons(k, s) == {} <==>
               && k.schemaOk && k.validated && k.environment == s.environment
               && (s.manifestHash != "" ==> k.manifestHash == Some(s.manifestHash));
    }
  }

  /**
   A promotion is accepted exactly when both documents are good, field by field, with the same
   pinned images for exactly the required services, for production and with its own credentials.
   */
  lemma AcceptedExactly(manifest: Option<Manifest>, hash: string, marker: Option<Marker>, e: Expected,
                        s: StagingExpected, environment: string, reused: bool)
    ensures PromotionAccepted(manifest, hash, marker, e, s, environment, reused) <==>
              && environment == "production" && !reused
              && manifest.Some? && GoodManifest(manifest.value, hash, e)
              && marker.Some? && GoodMarker(marker.value, s)
              && VerifiedServices(manifest.value.services) == VerifiedServices(marker.value.services)
  {
    hide GoodManifest, PromotionReasons, ServiceReasons, FieldReasons, CheckReasons, ExpectedReasons, MarkerReasons,
         VerifiedServices, CompleteServices;
    PromotionClean(VerifyManifest(manifest, hash, e), VerifyMarker(marker, s), e.candidate, environment, reused);
    ManifestClean(manifest, hash, e);
    MarkerClean(marker, s);
    if marker.Some? { ServicesClean(marker.value.services); }
  }

  /** Changing one service's image in one of the two documents makes an accepted promotion refused. */
  lemma OneDigestChanged(manifest: Manifest, hash: string, marker: Marker, e: Expected, s: StagingExpected,
                         environment: string, reused: bool, name: string, image: Option<string>)
    requires name in REQUIRED_SERVICES && manifest.services.Some? && marker.services.Some?
    requires name in manifest.services.value && manifest.services.value[name] != image
    ensures PromotionAccepted(Some(manifest), hash, Some(marker), e, s, environment, reused) ==>
            var m := manifest.(services := Some(manifest.services.value[name := image]));
            var k := marker.(services := Some(marker.services.value[name := image]));
            && !PromotionAccepted(Some(m), hash, Some(marker), e, s, environment, reused)
            && !PromotionAccepted(Some(manifest), hash, Some(k), e, s, environment, reused)
  {
    hide PromotionAccepted, GoodManifest, GoodMarker, PinnedValue;
    var m := manifest.(services := Some(manifest.services.value[name := image]));
    var k := marker.(services := Some(marker.services.value[name := image]));
    AcceptedExactly(Some(manifest), hash, Some(marker), e, s, environment, reused);
    AcceptedExactly(Some(m), hash, Some(marker), e, s, environment, reused);
    AcceptedExactly(Some(manifest), hash, Some(k), e, s, environment, reused);
    ProtoNotRequired();
    if PromotionAccepted(Some(manifest), hash, Some(marker), e, s, environment, reused) {
      GoodIsComplete(manifest, hash, marker, e, s);
      ImageSeen(manifest.services.value, name, image);
      ImageSeen(marker.services.value, name, image);
    }
  }

  lemma GoodIsComplete(m: Manifest, hash: string, k: Marker, e: Expected, s: StagingExpected)
    ensures GoodManifest(m, hash, e) ==> CompleteServices(m.services)
    ensures GoodMarker(k, s) ==> CompleteServices(k.services)
  {
  }

  /** Another image for one service shows in the verified services. */
  lemma ImageSeen(raw: RawServices, name: string, image: Option<string>)
    requires name in raw && name != PROTO && PinnedValue(raw[name]) && raw[name] != image
    ensures Pinned(raw[name := image]) != Pinned(raw)
  {
    hide IsPinned;
    var more := raw[name := image];
    assert more[name] == image;
    assert Pinned(raw)[name] == raw[name].value;
    assert name in Pinned(more) ==> Pinned(more)[name] == image.value;
  }
}
