/**
 Retained proof artifacts and their hash check (scripts/action-operations-proof.ts). SHA-256 is
 the uninterpreted function `sha`; "no collision" is a hypothesis about the two bodies at hand.
 */
module ArtifactHashes {
  import opened CanonicalJson
  import opened JsonEscapes

  datatype Retained = Retained(path: Text, body: Text, sha256: Text)

  datatype Name = Log | Evidence

  datatype Failure = RetainedMismatch(name: Name) | MetadataMismatch(name: Name)

  const NEWLINE: CodeUnit := 0x0A

  /** ":sha256:" */
  const MARK: Text := [0x3A, 0x73, 0x68, 0x61, 0x32, 0x35, 0x36, 0x3A]

  function Artifact(path: Text, value: Json, sha: Text -> Text): Retained {
    var body := Canonical(value) + [NEWLINE];
    Retained(path, body, sha(body))
  }

  function Reference(path: Text, hash: Text): Text { path + MARK + hash }

  /** The recorded hash is the body's, and the metadata lists it under the artifact's path. */
  ghost predicate Bound(a: Retained, references: seq<Text>, sha: Text -> Text) {
    a.sha256 == sha(a.body) && Reference(a.path, sha(a.body)) in references
  }

  method VerifyHashes(log: Retained, evidence: Retained, logRefs: seq<Text>, evidenceRefs: seq<Text>,
                      sha: Text -> Text) returns (failures: seq<Failure>)
    ensures failures == [] <==> Bound(log, logRefs, sha) && Bound(evidence, evidenceRefs, sha)
    ensures RetainedMismatch(Log) in failures <==> log.sha256 != sha(log.body)
    ensures RetainedMismatch(Evidence) in failures <==> evidence.sha256 != sha(evidence.body)
    ensures MetadataMismatch(Log) in failures <==> Reference(log.path, sha(log.body)) !in logRefs
    ensures MetadataMismatch(Evidence) in failures <==> Reference(evidence.path, sha(evidence.body)) !in evidenceRefs
  {
    var entries := [(Log, log, logRefs), (Evidence, evidence, evidenceRefs)];
    failures := [];
    for i := 0 to |entries|
      invariant forall n: Name ::
        var e := entries[if n.Log? then 0 else 1];
        var seen := i > (if n.Log? then 0 else 1);
        && (RetainedMismatch(n) in failures <==> seen && e.1.sha256 != sha(e.1.body))
        && (MetadataMismatch(n) in failures <==> seen && Reference(e.1.path, sha(e.1.body)) !in e.2)
    {
      var (name, retained, references) := entries[i];
      var actual := sha(retained.body);
      if retained.sha256 != actual { failures := failures + [RetainedMismatch(name)]; }
      if Reference(retained.path, actual) !in references { failures := failures + [MetadataMismatch(name)]; }
    }
    assert entries[0] == (Log, log, logRefs) && entries[1] == (Evidence, evidence, evidenceRefs);
    if failures != [] {
      ghost var f := failures[0];
      assert f in failures;
      assert f == RetainedMismatch(f.name) || f == MetadataMismatch(f.name);
    }
  }

  /** The reference, as text. */
  lemma ReferenceText(path: string, hash: string)
    ensures Reference(Units(path), Units(hash)) == Units(path + ":sha256:" + hash)
  {
  }

  /** An artifact is the canonical text and a newline, with the hash of both together. */
  lemma ArtifactText(path: Text, value: Json, sha: Text -> Text)
    ensures var a := Artifact(path, value, sha);
            a.path == path && a.body == Canonical(value) + Units("\n") && a.sha256 == sha(Canonical(value) + Units("\n"))
  {
  }

  lemma ReferenceInjective(path: Text, h: Text, k: Text)
    ensures Reference(path, h) == Reference(path, k) <==> h == k
  {
    assert Reference(path, h)[|path + MARK|..] == h;
    assert Reference(path, k)[|path + MARK|..] == k;
  }

  /**
   A verified artifact holds the value whose reference was recorded: if the artifact written for
   `w` passes against metadata recorded for `v`, then short of a hash collision between the two
   bodies `w` is `v` up to key order; and such a `w` always passes.
   */
  lemma VerifiedArtifactHoldsValue(path: Text, v: Json, w: Json, sha: Text -> Text)
    requires Valid(v) && Valid(w)
    requires sha(Artifact(path, v, sha).body) == sha(Artifact(path, w, sha).body) ==>
               Artifact(path, v, sha).body == Artifact(path, w, sha).body
    ensures Bound(Artifact(path, w, sha), [Reference(path, Artifact(path, v, sha).sha256)], sha) <==> SameValue(v, w)
  {
    var a, b := Artifact(path, v, sha), Artifact(path, w, sha);
    ReferenceInjective(path, a.sha256, b.sha256);
    assert a.body[..|a.body| - 1] == Canonical(v) && b.body[..|b.body| - 1] == Canonical(w);
    CanonicalInjective(v, w);
  }
}
