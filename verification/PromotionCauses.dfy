/**
 Which reasons the two document verifiers give, and exactly when (scripts/cd-manifest-verify.ts):
 every reason has its own cause in the fields of the document.
 */
module PromotionCauses {
  import opened Wrappers
  import opened JsText
  import opened Promotion

  predicate Hex(s: string, n: nat) { |s| == n && forall i :: 0 <= i < n ==> s[i] in "0123456789abcdef" }

  /** An image reference pinned by its digest, put together from its parts. */
  ghost predicate PinnedImage(image: string) {
    exists name: string, digest: string ::
      && image == name + "@sha256:" + digest && Hex(digest, 64) && name != ""
      && forall i :: 0 <= i < |name| ==> name[i] != '@' && !IsSpace(name[i])
  }

  predicate RequiredService(name: string) {
    || name == "api" || name == "kernel-migrate" || name == "kernel-ops" || name == "worker"
    || name == "adapter-ops" || name == "web"
  }

  predicate RequiredCheck(name: string) {
    name == "quality" || name == "kernel-postgres-integration" || name == "l4-b-deploy-gates"
  }

  /** The service is declared with this pinned image. */
  ghost predicate Declares(raw: Option<RawServices>, name: string, image: string) {
    raw.Some? && name in raw.value && name != "__proto__" && raw.value[name] == Some(image) && PinnedImage(image)
  }

  ghost predicate DeclaresSome(raw: Option<RawServices>, name: string) { exists image :: Declares(raw, name, image) }

  ghost predicate ServiceCause(raw: Option<RawServices>, r: Reason) {
    match r
    case NoServices => raw.None?
    case NotPinned(name) =>
      raw.Some? && name in raw.value && (raw.value[name].None? || !PinnedImage(raw.value[name].value))
    case MissingService(name) => raw.Some? && RequiredService(name) && !DeclaresSome(raw, name)
    case UnknownService(name) => !RequiredService(name) && DeclaresSome(raw, name)
    case _ => false
  }

  ghost predicate CheckCause(m: Manifest, r: Reason) {
    if m.requiredChecks.None? || m.requiredChecks.value == [] then r == NoRequiredChecks
    else
      var names := m.requiredChecks.value;
      match r
      case CheckNotRequired(name) => RequiredCheck(name) && name !in names
      case NoResult(name) => name in names && name !in m.checks
      case NotExecuted(name) => name in names && name in m.checks && !m.checks[name].executed
      case NotSuccessful(name) =>
        name in names && name in m.checks && m.checks[name].executed && !m.checks[name].succeeded
      case _ => false
  }

  ghost predicate ExpectedCause(raw: Option<RawServices>, expected: Option<Services>, r: Reason) {
    && expected.Some?
    && match r
       case ExpectedMissing(name) => name in expected.value && !DeclaresSome(raw, name)
       case ExpectedDiffers(name) =>
         name in expected.value && exists image :: Declares(raw, name, image) && image != expected.value[name]
       case NotExpected(name) => DeclaresSome(raw, name) && name !in expected.value
       case _ => false
  }

  predicate HexField(field: Option<string>, n: nat) { field.Some? && Hex(field.value, n) }

  predicate NonEmpty(field: Option<string>) { field.Some? && field.value != "" }

  ghost predicate FieldCause(m: Manifest, hash: string, e: Expected, r: Reason) {
    match r
    case BadExpectedHash => !Hex(e.manifestHash, 64)
    case Tampered => Hex(e.manifestHash, 64) && hash != e.manifestHash
    case WrongSchema => !m.schemaOk
    case BadCandidate => !HexField(m.candidate, 40)
    case StaleCandidate => HexField(m.candidate, 40) && m.candidate != Some(e.candidate)
    case BadLockfile => !HexField(m.lockfile, 64)
    case NoArtifact => m.artifactId == ""
    case BadArtifactHash => !Hex(m.artifactHash, 64)
    case NoRunId => !NonEmpty(m.runId)
    case BadAttempt => !(m.runAttempt.Some? && m.runAttempt.value >= 1)
    case AttemptMismatch =>
      m.runAttempt.Some? && m.runAttempt.value >= 1 && e.producerAttempt.Some? && e.producerAttempt != m.runAttempt
    case NoAttestation => !NonEmpty(m.attestation)
    case BadSubject => !HexField(m.subject, 64)
    case _ => false
  }

  ghost predicate ManifestCause(doc: Option<Manifest>, hash: string, e: Expected, r: Reason) {
    if doc.None? then r == Unparseable
    else
      || FieldCause(doc.value, hash, e, r) || CheckCause(doc.value, r) || ServiceCause(doc.value.services, r)
      || ExpectedCause(doc.value.services, e.expectedServices, r)
  }

  ghost predicate MarkerFieldCause(m: Marker, e: StagingExpected, r: Reason) {
    match r
    case WrongSchema => !m.schemaOk
    case NotValidated => !m.validated
    case WrongEnvironment => m.environment != e.environment
    case ManifestHashMismatch => e.manifestHash != "" && m.manifestHash != Some(e.manifestHash)
    case BadCandidate => !HexField(m.candidate, 40)
    case StaleCandidate => HexField(m.candidate, 40) && m.candidate != Some(e.candidate)
    case RunRequired => e.verificationRun == ""
    case RunMismatch => e.verificationRun != "" && m.verificationRun != e.verificationRun
    case BadAttempt => !(m.verificationAttempt.Some? && m.verificationAttempt.value >= 1)
    case _ => false
  }

  // ---------------------------------------------------------------------------------------
  // Texts
  // ---------------------------------------------------------------------------------------

  lemma HexDigits(c: char)
    ensures c in "0123456789abcdef" <==> '0' <= c <= '9' || 'a' <= c <= 'f'
  {
    var digits := "0123456789abcdef";
    if '0' <= c <= '9' { assert digits[c as int - '0' as int] == c; }
    if 'a' <= c <= 'f' { assert digits[10 + c as int - 'a' as int] == c; }
  }

  lemma HexExact(s: string, n: nat)
    ensures Hex(s, n) <==> |s| == n && IsHexText(s)
  {
    forall c ensures c in "0123456789abcdef" <==> '0' <= c <= '9' || 'a' <= c <= 'f' { HexDigits(c); }
  }

  lemma Cut(image: string, n: nat)
    requires |image| == n + 72
    ensures image == image[..n] + image[n..n + 8] + image[n + 8..]
    ensures |image| - 72 == n && |image| - 64 == n + 8
  {
  }

  lemma Glued(name: string, mark: string, digest: string)
    requires |mark| == 8 && |digest| == 64
    ensures var image, n := name + mark + digest, |name|;
            |image| == n + 72 && image[..n] == name && image[n..n + 8] == mark && image[n + 8..] == digest
  {
  }

  lemma NameExact(image: string, name: string)
    requires |image| == |name| + 72 && image[..|name|] == name
    ensures (forall i :: 0 <= i < |image| - 72 ==> IsNameChar(image[i])) <==>
              forall i :: 0 <= i < |name| ==> name[i] != '@' && !IsSpace(name[i])
  {
    hide IsSpace;
    assert forall i :: 0 <= i < |name| ==> name[i] == image[i];
  }

  /** The pattern of a pinned image matches exactly a name, the mark and a digest. */
  lemma PinnedExact(image: string)
    ensures IsPinned(image) <==> PinnedImage(image)
  {
    hide IsHexText, Hex, IsNameChar, IsSpace;
    if IsPinned(image) {
      var n := |image| - 72;
      Cut(image, n);
      HexExact(image[n + 8..], 64);
      NameExact(image, image[..n]);
    }
    if PinnedImage(image) {
      var name, digest :| && image == name + "@sha256:" + digest && Hex(digest, 64) && name != ""
                          && forall i :: 0 <= i < |name| ==> name[i] != '@' && !IsSpace(name[i]);
      HexExact(digest, 64);
      Glued(name, "@sha256:", digest);
      NameExact(image, name);
    }
  }

  // ---------------------------------------------------------------------------------------
  // Services
  // ---------------------------------------------------------------------------------------

  lemma RequiredNames(name: string)
    ensures name in REQUIRED_SERVICES <==> RequiredService(name)
    ensures name in REQUIRED_CHECKS <==> RequiredCheck(name)
  {
  }

  /** What a verifier passes on is exactly what the document declares with a pinned image. */
  lemma ServicesExact(raw: Option<RawServices>, name: string)
    ensures name in VerifiedServices(raw) <==> DeclaresSome(raw, name)
    ensures name in VerifiedServices(raw) ==> Declares(raw, name, VerifiedServices(raw)[name])
    ensures forall image :: Declares(raw, name, image) ==> VerifiedServices(raw)[name] == image
  {
    hide IsPinned, PinnedImage;
    if raw.Some? && name in raw.value && raw.value[name].Some? {
      PinnedExact(raw.value[name].value);
      assert PinnedImage(raw.value[name].value) && name != PROTO ==> Declares(raw, name, raw.value[name].value);
    }
  }

  lemma UnpinnedExact(raw: RawServices, r: Reason)
    ensures r in Unpinned(raw) <==> r.NotPinned? && ServiceCause(Some(raw), r)
  {
    hide IsPinned, PinnedImage;
    if r.NotPinned? && r.name in raw && raw[r.name].Some? { PinnedExact(raw[r.name].value); }
  }

  lemma ServiceCauseExact(raw: Option<RawServices>, r: Reason)
    ensures r in ServiceReasons(raw) <==> ServiceCause(raw, r)
  {
    hide DeclaresSome, Pinned, Unpinned, RequiredService;
    if raw.Some? {
      UnpinnedExact(raw.value, r);
      if r.MissingService? || r.UnknownService? {
        ServicesExact(raw, r.name);
        RequiredNames(r.name);
      }
    } else if r.UnknownService? {
      ServicesExact(raw, r.name);
    }
  }

  lemma ExpectedCauseExact(raw: Option<RawServices>, expected: Option<Services>, r: Reason)
    ensures r in ExpectedReasons(expected, VerifiedServices(raw)) <==> ExpectedCause(raw, expected, r)
  {
    hide Declares, VerifiedServices;
    if r.ExpectedMissing? || r.ExpectedDiffers? || r.NotExpected? { ServicesExact(raw, r.name); }
  }

  // ---------------------------------------------------------------------------------------
  // The documents
  // ---------------------------------------------------------------------------------------

  lemma OutcomeExact(m: Manifest, names: seq<string>, r: Reason)
    ensures r in CheckOutcomes(m, names) <==>
              (r.NoResult? || r.NotExecuted? || r.NotSuccessful?) && r.name in names && r in CheckOutcome(m, r.name)
  {
  }

  lemma CheckCauseExact(m: Manifest, r: Reason)
    ensures r in CheckReasons(m) <==> CheckCause(m, r)
  {
    hide CheckOutcomes, RequiredCheck;
    if m.requiredChecks.Some? && m.requiredChecks.value != [] {
      OutcomeExact(m, m.requiredChecks.value, r);
      if r.CheckNotRequired? { RequiredNames(r.name); }
    }
  }

  lemma HexFieldExact(field: Option<string>)
    ensures HexField(field, 64) <==> field.Some? && IsSha256(field.value)
    ensures HexField(field, 40) <==> field.Some? && IsCommit(field.value)
  {
    if field.Some? {
      HexExact(field.value, 64);
      HexExact(field.value, 40);
    }
  }

  lemma IdentityCauseExact(m: Manifest, hash: string, e: Expected, r: Reason)
    ensures r in IdentityReasons(m, hash, e) <==>
              && (r.BadExpectedHash? || r.Tampered? || r.WrongSchema? || r.BadCandidate? || r.StaleCandidate? || r.BadLockfile?)
              && FieldCause(m, hash, e, r)
  {
    hide Hex, IsSha256, IsCommit, HexField;
    HexFieldExact(Some(e.manifestHash));
    assert HexField(Some(e.manifestHash), 64) <==> Hex(e.manifestHash, 64) by { OneField(e.manifestHash); }
    HexFieldExact(m.candidate);
    HexFieldExact(m.lockfile);
  }

  lemma OneField(s: string)
    ensures HexField(Some(s), 64) <==> Hex(s, 64)
  {
  }

  lemma OriginCauseExact(m: Manifest, hash: string, e: Expected, r: Reason)
    ensures r in OriginReasons(m, e) <==>
              && (r.NoArtifact? || r.BadArtifactHash? || r.NoRunId? || r.BadAttempt? || r.AttemptMismatch?
                  || r.NoAttestation? || r.BadSubject?)
              && FieldCause(m, hash, e, r)
  {
    hide Hex, IsSha256, IsCommit, HexField;
    HexFieldExact(Some(m.artifactHash));
    OneField(m.artifactHash);
    HexFieldExact(m.subject);
  }

  /** Every reason of the manifest verifier is given exactly for its own cause. */
  lemma ManifestReasonsExact(doc: Option<Manifest>, hash: string, e: Expected, r: Reason)
    ensures r in VerifyManifest(doc, hash, e).reasons <==> ManifestCause(doc, hash, e, r)
  {
    hide IdentityReasons, OriginReasons, CheckReasons, ServiceReasons, ExpectedReasons, VerifiedServices, CheckCause,
         ServiceCause, ExpectedCause, HexField, Hex;
    if doc.Some? {
      var m := doc.value;
      IdentityCauseExact(m, hash, e, r);
      OriginCauseExact(m, hash, e, r);
      CheckCauseExact(m, r);
      ServiceCauseExact(m.services, r);
      ExpectedCauseExact(m.services, e.expectedServices, r);
    }
  }

  lemma BindingCauseExact(m: Marker, e: StagingExpected, r: Reason)
    ensures r in BindingReasons(m, e) <==>
              (r.WrongSchema? || r.NotValidated? || r.WrongEnvironment? || r.ManifestHashMismatch?) && MarkerFieldCause(m, e, r)
  {
    hide HexField;
  }

  lemma RunCauseExact(m: Marker, e: StagingExpected, r: Reason)
    ensures r in RunReasons(m, e) <==>
              && (r.BadCandidate? || r.StaleCandidate? || r.RunRequired? || r.RunMismatch? || r.BadAttempt?)
              && MarkerFieldCause(m, e, r)
  {
    hide IsCommit, HexField;
    HexFieldExact(m.candidate);
  }

  /** And so is every reason of the marker verifier. */
  lemma MarkerReasonsExact(doc: Option<Marker>, e: StagingExpected, r: Reason)
    ensures r in VerifyMarker(doc, e).reasons <==>
              if doc.None? then r == Unparseable else MarkerFieldCause(doc.value, e, r) || ServiceCause(doc.value.services, r)
  {
    hide BindingReasons, RunReasons, HexField, ServiceReasons, ServiceCause, VerifiedServices;
    if doc.Some? {
      BindingCauseExact(doc.value, e, r);
      RunCauseExact(doc.value, e, r);
      ServiceCauseExact(doc.value.services, r);
    }
  }
}
