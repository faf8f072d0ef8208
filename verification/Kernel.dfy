/** The manual evidence pipeline: ingest, canonicalise, anchor, propose, verify, approve, over
    the kernel's in-memory maps, and what every accepted assertion rests on. */
module Kernel {
  import opened Wrappers
  import opened Utf8
  import opened Anchors
  import opened Verify
  import Audit

  datatype TextArtifact = TextArtifact(textArtifactId: string, versionId: string, canonicalSha256: string)

  datatype Decision = Decision(decisionId: string, proposalId: string, verdict: string)

  datatype Assertion = Assertion(
    assertionId: string,
    proposalId: string,
    decisionId: string,
    versionId: string,
    rawValue: string,
    modality: string,
    origin: Origin,
    support: seq<Edge>)

  // SHA-256 of octets and of an audit event; the canonical text of stored content: the extractor
  // for its MIME type, None where there is none or it raises; and the text of a JSON object.
  datatype Library = Library(
    sha: seq<Byte> -> string,
    hashEvent: Audit.Event -> string,
    canonicalText: (string, string) -> Option<seq<Byte>>,
    json: map<string, string> -> string)

  // text_artifacts is a dict that is searched in insertion order; the others are looked up.
  datatype State = State(
    documents: map<string, Document>,
    versions: map<string, Version>,
    artifacts: seq<TextArtifact>,
    texts: map<string, seq<Byte>>,
    anchors: map<string, Anchor>,
    proposals: map<string, Proposal>,
    reports: map<string, Report>,
    decisions: map<string, Decision>,
    assertions: map<string, Assertion>,
    log: seq<Audit.Event>)

  const START := State(map[], map[], [], map[], map[], map[], map[], map[], map[], [])

  // next(a for a in text_artifacts.values() if a["source_version_id"] == versionId)
  function FirstArtifact(artifacts: seq<TextArtifact>, versionId: string): Option<TextArtifact> {
    if artifacts == [] then None
    else if artifacts[0].versionId == versionId then Some(artifacts[0])
    else FirstArtifact(artifacts[1..], versionId)
  }

  function ToArtifact(a: TextArtifact): Artifact {
    Artifact(a.textArtifactId, a.canonicalSha256)
  }

  // The evidence `verify` gathers for a proposal; None where a lookup raises.
  function EvidenceFor(lib: Library, s: State, p: Proposal): Option<Evidence> {
    if p.sourceVersionId !in s.versions then None
    else
      var version := s.versions[p.sourceVersionId];
      var artifact := FirstArtifact(s.artifacts, version.versionId);
      if version.documentId !in s.documents || artifact.None?
         || artifact.value.textArtifactId !in s.texts then None
      else
        var text := s.texts[artifact.value.textArtifactId];
        Some(Evidence(s.documents[version.documentId], version, ToArtifact(artifact.value), text,
                      lib.sha(text), s.anchors))
  }

  // Which evidence that is: the document of the proposal's version, the first text artifact of
  // the version and its text, with its hash, and all anchors.
  lemma EvidenceExactly(lib: Library, s: State, p: Proposal) returns (i: nat)
    requires EvidenceFor(lib, s, p).Some?
    ensures p.sourceVersionId in s.versions && s.versions[p.sourceVersionId].documentId in s.documents
    ensures i < |s.artifacts| && s.artifacts[i].versionId == s.versions[p.sourceVersionId].versionId
    ensures forall k | 0 <= k < i :: s.artifacts[k].versionId != s.versions[p.sourceVersionId].versionId
    ensures var a := s.artifacts[i];
      && a.textArtifactId in s.texts
      && EvidenceFor(lib, s, p).value
         == Evidence(s.documents[s.versions[p.sourceVersionId].documentId], s.versions[p.sourceVersionId],
                     Artifact(a.textArtifactId, a.canonicalSha256), s.texts[a.textArtifactId],
                     lib.sha(s.texts[a.textArtifactId]), s.anchors)
  {
    i := FirstArtifactIs(s.artifacts, s.versions[p.sourceVersionId].versionId);
  }

  // ------------------------------------------------------------------ steps

  datatype Step =
    | Ingest(document: Document, version: Version, at: string)
    | Canonicalize(artifact: TextArtifact, text: seq<Byte>, at: string)
    | AddAnchor(anchor: Anchor, pos: nat)
    | Propose(proposal: Proposal, at: string)
    | RunVerifier(proposalId: string, report: Report)
    | Decide(decision: Decision, assertion: Option<Assertion>, at: string)

  ghost predicate HasAssertion(s: State, proposalId: string) {
    exists id :: id in s.assertions && s.assertions[id].proposalId == proposalId
  }

  function AssertionOf(p: Proposal, assertionId: string, decisionId: string): Assertion {
    Assertion(assertionId, p.proposalId, decisionId, p.sourceVersionId, p.rawValue, p.modality, p.origin, p.support)
  }

  // The step is one the kernel can take: its ids are fresh and its content is what the
  // operation computes.
  ghost predicate Enabled(lib: Library, s: State, step: Step) {
    match step
    case Ingest(d, v, _) =>
      d.documentId !in s.documents && v.versionId !in s.versions && v.documentId == d.documentId
    case Canonicalize(a, text, _) =>
      && a.textArtifactId !in s.texts && a.versionId in s.versions
      && lib.canonicalText(s.versions[a.versionId].contentSha256, s.versions[a.versionId].mimeType) == Some(text)
      && a.canonicalSha256 == lib.sha(text)
    case AddAnchor(anchor, pos) =>
      && anchor.anchorId !in s.anchors && anchor.textArtifactId in s.texts && anchor.quote != ""
      && Anchored(lib.sha, s.texts[anchor.textArtifactId], anchor.quote, anchor.anchorId, anchor.textArtifactId,
                  pos, anchor)
    case Propose(p, _) => p.proposalId !in s.proposals
    case RunVerifier(id, report) =>
      && id in s.proposals && report.targetId == id
      && EvidenceFor(lib, s, s.proposals[id]).Some?
      && (report.passes <==> Vouched(lib.sha, s.proposals[id], true, EvidenceFor(lib, s, s.proposals[id]).value))
    case Decide(d, assertion, _) =>
      && d.decisionId !in s.decisions && d.proposalId in s.reports && d.proposalId in s.proposals
      && !HasAssertion(s, d.proposalId)
      && (d.verdict == "accept" ==> s.reports[d.proposalId].passes)
      && (assertion.Some? <==> d.verdict == "accept")
      && (assertion.Some? ==>
            && assertion.value.assertionId !in s.assertions
            && assertion.value == AssertionOf(s.proposals[d.proposalId], assertion.value.assertionId, d.decisionId))
  }

  // What a step that is audited writes to the log.
  datatype Entry = Entry(action: string, at: string, detail: map<string, string>)

  // Anchoring and verifying write nothing.
  function EntryOf(step: Step): Option<Entry> {
    match step
    case Ingest(_, v, at) =>
      Some(Entry("ingest_fixture", at, map["source_version_id" := v.versionId, "sha256" := v.contentSha256]))
    case Canonicalize(a, _, at) =>
      Some(Entry("canonicalize", at, map["text_artifact_id" := a.textArtifactId,
                                         "canonical_sha256" := a.canonicalSha256, "stored" := a.canonicalSha256]))
    case AddAnchor(_, _) => None
    case Propose(p, at) => Some(Entry("propose", at, map["proposal_id" := p.proposalId]))
    case RunVerifier(_, _) => None
    case Decide(d, _, at) =>
      Some(Entry("acceptance_decision", at, map["decision_id" := d.decisionId, "decision" := d.verdict]))
  }

  function Logged(lib: Library, log: seq<Audit.Event>, e: Entry): seq<Audit.Event> {
    log + [Audit.NextEvent(lib.hashEvent, log, "builder-kernel", e.action, e.at, lib.json(e.detail))]
  }

  function Apply(lib: Library, s: State, step: Step): State {
    var t := Changed(s, step);
    if EntryOf(step).None? then t else t.(log := Logged(lib, s.log, EntryOf(step).value))
  }

  // The effect of a step on the maps.
  function Changed(s: State, step: Step): State {
    match step
    case Ingest(d, v, _) =>
      s.(documents := s.documents[d.documentId := d], versions := s.versions[v.versionId := v])
    case Canonicalize(a, text, _) =>
      s.(artifacts := s.artifacts + [a], texts := s.texts[a.textArtifactId := text])
    case AddAnchor(anchor, _) => s.(anchors := s.anchors[anchor.anchorId := anchor])
    case Propose(p, _) => s.(proposals := s.proposals[p.proposalId := p])
    case RunVerifier(id, report) => s.(reports := s.reports[id := report])
    case Decide(d, assertion, _) =>
      s.(decisions := s.decisions[d.decisionId := d],
         assertions := if assertion.Some? then s.assertions[assertion.value.assertionId := assertion.value]
                       else s.assertions)
  }

  class KernelObject {
    const lib: Library
    var documents: map<string, Document>
    var versions: map<string, Version>
    var artifacts: seq<TextArtifact>
    var texts: map<string, seq<Byte>>
    var anchors: map<string, Anchor>
    var proposals: map<string, Proposal>
    var reports: map<string, Report>
    var decisions: map<string, Decision>
    var assertions: map<string, Assertion>
    var log: seq<Audit.Event>

    ghost function Current(): State
      reads this
    {
      State(documents, versions, artifacts, texts, anchors, proposals, reports, decisions, assertions, log)
    }

    // `now` is reached from `before` by the step.
    ghost predicate Took(before: State, step: Step)
      reads this
    {
      Enabled(lib, before, step) && Current() == Apply(lib, before, step)
    }

    constructor (lib: Library)
      ensures Current() == START && this.lib == lib
    {
      this.lib := lib;
      documents, versions, artifacts, texts, anchors := map[], map[], [], map[], map[];
      proposals, reports, decisions, assertions := map[], map[], map[], map[];
      log := [];
    }

    method Record(action: string, at: string, detail: map<string, string>)
      modifies this`log
      ensures log == Logged(lib, old(log), Entry(action, at, detail))
    {
      log := log + [Audit.NextEvent(lib.hashEvent, log, "builder-kernel", action, at, lib.json(detail))];
    }

    method IngestFixture(role: string, contentSha256: string, mimeType: string, provenance: string,
                         at: string, freshDocument: string, freshVersion: string)
      modifies this
      requires freshDocument !in documents && freshVersion !in versions
      ensures Took(old(Current()), Ingest(Document(freshDocument, role),
                Version(freshVersion, freshDocument, contentSha256, mimeType, provenance), at))
      ensures documents == old(documents)[freshDocument := Document(freshDocument, role)]
      ensures versions == old(versions)[freshVersion :=
                Version(freshVersion, freshDocument, contentSha256, mimeType, provenance)]
      ensures log == old(log) + [Audit.NextEvent(
                lib.hashEvent, old(log), "builder-kernel", "ingest_fixture", at,
                lib.json(map["source_version_id" := freshVersion, "sha256" := contentSha256]))]
    {
      documents := documents[freshDocument := Document(freshDocument, role)];
      versions := versions[freshVersion :=
        Version(freshVersion, freshDocument, contentSha256, mimeType, provenance)];
      Record("ingest_fixture", at, map["source_version_id" := freshVersion, "sha256" := contentSha256]);
    }

    method CanonicalizeVersion(versionId: string, at: string, freshArtifact: string)
      returns (artifact: Option<TextArtifact>)
      modifies this
      requires freshArtifact !in texts
      ensures artifact.None? ==> Current() == old(Current())
      ensures artifact.Some? <==>
                versionId in old(versions)
                && lib.canonicalText(old(versions)[versionId].contentSha256, old(versions)[versionId].mimeType).Some?
      ensures artifact.Some? ==> artifact.value.textArtifactId == freshArtifact && artifact.value.versionId == versionId
      ensures artifact.Some? ==> freshArtifact in texts
      ensures artifact.Some? ==> Took(old(Current()), Canonicalize(artifact.value, texts[freshArtifact], at))
      ensures artifact.Some? ==>
        var text := lib.canonicalText(old(versions)[versionId].contentSha256, old(versions)[versionId].mimeType).value;
        && artifact.value == TextArtifact(freshArtifact, versionId, lib.sha(text))
        && artifacts == old(artifacts) + [artifact.value] && texts == old(texts)[freshArtifact := text]
        && log == old(log) + [Audit.NextEvent(
                lib.hashEvent, old(log), "builder-kernel", "canonicalize", at,
                lib.json(map["text_artifact_id" := freshArtifact, "canonical_sha256" := lib.sha(text),
                             "stored" := lib.sha(text)]))]
    {
      if versionId !in versions {
        return None;
      }
      var version := versions[versionId];
      var text := lib.canonicalText(version.contentSha256, version.mimeType);
      if text.None? {
        return None;
      }
      var a := TextArtifact(freshArtifact, versionId, lib.sha(text.value));
      artifacts := artifacts + [a];
      texts := texts[freshArtifact := text.value];
      Record("canonicalize", at, map["text_artifact_id" := freshArtifact, "canonical_sha256" := a.canonicalSha256,
                                     "stored" := a.canonicalSha256]);
      return Some(a);
    }

    method AddAnchorTo(textArtifactId: string, quote: string, occurrence: Option<int>, freshAnchor: string)
      returns (anchor: Option<Anchor>)
      modifies this
      requires freshAnchor !in anchors
      ensures anchor.None? ==> Current() == old(Current())
      ensures anchor.None? <==> textArtifactId !in old(texts)
                                || PlaceOf(old(texts)[textArtifactId], quote, occurrence).None?
      ensures anchor.Some? ==> anchor.value.quote == quote && anchor.value.textArtifactId == textArtifactId
      ensures anchor.Some? ==> Some(anchor.value.startByte) == PlaceOf(old(texts)[textArtifactId], quote, occurrence)
      ensures anchor.Some? ==> Took(old(Current()), AddAnchor(anchor.value, anchor.value.startByte))
      ensures anchor.Some? ==> anchors == old(anchors)[freshAnchor := anchor.value] && log == old(log)
    {
      if textArtifactId !in texts {
        return None;
      }
      anchor := TryAnchor(lib.sha, texts[textArtifactId], quote, freshAnchor, textArtifactId, occurrence);
      if anchor.Some? {
        anchors := anchors[freshAnchor := anchor.value];
      }
    }

    method ProposeAssertion(p: Proposal, at: string)
      modifies this
      requires p.proposalId !in proposals
      ensures Took(old(Current()), Propose(p, at))
      ensures proposals == old(proposals)[p.proposalId := p]
      ensures log == old(log) + [Audit.NextEvent(
                lib.hashEvent, old(log), "builder-kernel", "propose", at,
                lib.json(map["proposal_id" := p.proposalId]))]
    {
      proposals := proposals[p.proposalId := p];
      Record("propose", at, map["proposal_id" := p.proposalId]);
    }

    method VerifyOne(proposalId: string, freshReport: string) returns (report: Option<Report>)
      modifies this
      requires Sound(lib, Current())
      ensures report.None? ==> Current() == old(Current())
      ensures report.None? <==> proposalId !in old(proposals)
                                || EvidenceFor(lib, old(Current()), old(proposals)[proposalId]).None?
      ensures report.Some? ==> Took(old(Current()), RunVerifier(proposalId, report.value))
      ensures report.Some? ==> reports == old(reports)[proposalId := report.value] && log == old(log)
    {
      if proposalId !in proposals {
        return None;
      }
      var p := proposals[proposalId];
      if p.sourceVersionId !in versions {
        return None;
      }
      var version := versions[p.sourceVersionId];
      var artifact := FirstArtifact(artifacts, version.versionId);
      if version.documentId !in documents || artifact.None? || artifact.value.textArtifactId !in texts {
        return None;
      }
      var text := texts[artifact.value.textArtifactId];
      var ev := Evidence(documents[version.documentId], version, ToArtifact(artifact.value), text,
                         lib.sha(text), anchors);
      var r := VerifyProposal(lib.sha, p, true, ev, freshReport);
      reports := reports[proposalId := r];
      return Some(r);
    }

    // Refused without a report, when the proposal has an assertion already, and when a failing
    // proposal is to be accepted.
    method Approve(proposalId: string, verdict: string, at: string, freshDecision: string, freshAssertion: string)
      returns (decision: Option<Decision>, assertion: Option<Assertion>)
      modifies this
      requires freshDecision !in decisions && freshAssertion !in assertions
      requires Sound(lib, Current())
      ensures decision.None? ==> Current() == old(Current()) && assertion.None?
      ensures decision.None? <==> proposalId !in old(reports) || HasAssertion(old(Current()), proposalId)
                                  || (verdict == "accept" && !old(reports)[proposalId].passes)
      ensures decision.Some? ==> decision.value == Decision(freshDecision, proposalId, verdict)
      ensures decision.Some? ==> Took(old(Current()), Decide(decision.value, assertion, at))
      ensures decision.Some? ==>
        && decisions == old(decisions)[freshDecision := Decision(freshDecision, proposalId, verdict)]
        && (if verdict == "accept"
            then assertion.Some? && assertions == old(assertions)[freshAssertion := assertion.value]
            else assertion.None? && assertions == old(assertions))
        && log == old(log) + [Audit.NextEvent(
                lib.hashEvent, old(log), "builder-kernel", "acceptance_decision", at,
                lib.json(map["decision_id" := freshDecision, "decision" := verdict]))]
      ensures assertion.Some? ==>
        var p := old(proposals)[proposalId];
        assertion.value == Assertion(freshAssertion, proposalId, freshDecision, p.sourceVersionId, p.rawValue,
                                     p.modality, p.origin, p.support)
    {
      if proposalId !in reports {
        return None, None;
      }
      if exists id :: id in assertions && assertions[id].proposalId == proposalId {
        return None, None;
      }
      if !reports[proposalId].passes && verdict == "accept" {
        return None, None;
      }
      var d := Decision(freshDecision, proposalId, verdict);
      decisions := decisions[freshDecision := d];
      Record("acceptance_decision", at, map["decision_id" := freshDecision, "decision" := verdict]);
      if verdict != "accept" {
        return Some(d), None;
      }
      var p := proposals[proposalId];
      var a := Assertion(freshAssertion, p.proposalId, freshDecision, p.sourceVersionId, p.rawValue,
                         p.modality, p.origin, p.support);
      assertions := assertions[freshAssertion := a];
      return Some(d), Some(a);
    }
  }

  // ------------------------------------------------------------------ runs

  ghost function RunSteps(lib: Library, steps: seq<Step>): State {
    if steps == [] then START else Apply(lib, RunSteps(lib, steps[..|steps| - 1]), steps[|steps| - 1])
  }

  ghost predicate IsRun(lib: Library, steps: seq<Step>) {
    steps == []
    || (IsRun(lib, steps[..|steps| - 1]) && Enabled(lib, RunSteps(lib, steps[..|steps| - 1]), steps[|steps| - 1]))
  }

  // The evidence now on file vouches for the proposal.
  ghost predicate Backed(lib: Library, s: State, p: Proposal) {
    EvidenceFor(lib, s, p).Some? && Vouched(lib.sha, p, true, EvidenceFor(lib, s, p).value)
  }

  // The i-th artifact is that of a known version, and its text on file is the canonical text
  // of that version's content, with its hash.
  ghost predicate ArtifactSound(lib: Library, s: State, i: nat)
    requires i < |s.artifacts|
  {
    var a := s.artifacts[i];
    && a.textArtifactId in s.texts && a.versionId in s.versions
    && lib.canonicalText(s.versions[a.versionId].contentSha256, s.versions[a.versionId].mimeType)
       == Some(s.texts[a.textArtifactId])
    && a.canonicalSha256 == lib.sha(s.texts[a.textArtifactId])
  }

  // The assertion copies its proposal, which has a passing report, and carries an acceptance.
  ghost predicate AssertionSound(s: State, id: string)
    requires id in s.assertions
  {
    var a := s.assertions[id];
    && a.proposalId in s.reports && s.reports[a.proposalId].targetId == a.proposalId
    && a.proposalId in s.proposals && a == AssertionOf(s.proposals[a.proposalId], id, a.decisionId)
    && a.decisionId in s.decisions && s.decisions[a.decisionId] == Decision(a.decisionId, a.proposalId, "accept")
  }

  ghost predicate Sound(lib: Library, s: State) {
    && (forall id | id in s.versions :: s.versions[id].versionId == id)
    && (forall id | id in s.proposals :: s.proposals[id].proposalId == id)
    && (forall i {:trigger ArtifactSound(lib, s, i)} | 0 <= i < |s.artifacts| :: ArtifactSound(lib, s, i))
    && (forall id | id in s.reports :: id in s.proposals && s.reports[id].targetId == id)
    && (forall id {:trigger Backed(lib, s, s.proposals[id])} | id in s.reports && s.reports[id].passes ::
          Backed(lib, s, s.proposals[id]))
  }

  // Accepted assertions: each is sound and still backed, and no proposal has two.
  ghost predicate Accepted(lib: Library, s: State) {
    && (forall id {:trigger AssertionSound(s, id)} | id in s.assertions ::
          AssertionSound(s, id) && Backed(lib, s, s.proposals[s.assertions[id].proposalId]))
    && (forall i, j | i in s.assertions && j in s.assertions
                      && s.assertions[i].proposalId == s.assertions[j].proposalId :: i == j)
  }

  // What an earlier state's evidence is to a later one's.
  ghost predicate Grows(s: State, t: State) {
    && (forall id | id in s.documents :: id in t.documents && t.documents[id] == s.documents[id])
    && (forall id | id in s.versions :: id in t.versions && t.versions[id] == s.versions[id])
    && s.artifacts <= t.artifacts
    && (forall id | id in s.texts :: id in t.texts && t.texts[id] == s.texts[id])
    && (forall id | id in s.anchors :: id in t.anchors && t.anchors[id] == s.anchors[id])
    && (forall id | id in s.proposals :: id in t.proposals && t.proposals[id] == s.proposals[id])
  }

  lemma StepGrows(lib: Library, s: State, step: Step)
    requires Enabled(lib, s, step)
    ensures Grows(s, Apply(lib, s, step))
  {
  }

  lemma {:induction false} FirstArtifactStable(a: seq<TextArtifact>, b: seq<TextArtifact>, versionId: string)
    requires a <= b && FirstArtifact(a, versionId).Some?
    ensures FirstArtifact(b, versionId) == FirstArtifact(a, versionId)
  {
    if a[0].versionId != versionId {
      FirstArtifactStable(a[1..], b[1..], versionId);
    }
  }

  // New documents, texts and anchors never take back what was vouched for.
  lemma BackedLasts(lib: Library, s: State, t: State, p: Proposal)
    requires Grows(s, t) && Backed(lib, s, p)
    ensures Backed(lib, t, p)
  {
    var version := s.versions[p.sourceVersionId];
    FirstArtifactStable(s.artifacts, t.artifacts, version.versionId);
    var ev, fv := EvidenceFor(lib, s, p).value, EvidenceFor(lib, t, p).value;
    assert fv == ev.(anchors := t.anchors);
    VouchedWithMoreAnchors(lib.sha, p, ev, t.anchors);
  }

  lemma VouchedWithMoreAnchors(sha: seq<Byte> -> string, p: Proposal, ev: Evidence, anchors: map<string, Anchor>)
    requires Vouched(sha, p, true, ev)
    requires forall id | id in ev.anchors :: id in anchors && anchors[id] == ev.anchors[id]
    ensures Vouched(sha, p, true, ev.(anchors := anchors))
  {
    if p.origin.SourceQuote? {
      forall e | e in p.support ensures EdgeResolves(sha, p, ev.(anchors := anchors), e) {
        assert EdgeResolves(sha, p, ev, e);
      }
    }
  }

  lemma StepKeepsSound(lib: Library, s: State, step: Step)
    requires Sound(lib, s) && Enabled(lib, s, step)
    ensures Sound(lib, Apply(lib, s, step))
  {
    var t := Apply(lib, s, step);
    StepGrows(lib, s, step);
    IdsStaySound(lib, s, step);
    forall i | 0 <= i < |t.artifacts| ensures ArtifactSound(lib, t, i) {
      ArtifactsStaySound(lib, s, step, i);
    }
    forall id | id in t.reports && t.reports[id].passes ensures Backed(lib, t, t.proposals[id]) {
      PassesMeansBacked(lib, s, step, id);
      BackedLasts(lib, s, t, s.proposals[id]);
    }
  }

  lemma IdsStaySound(lib: Library, s: State, step: Step)
    requires Sound(lib, s) && Enabled(lib, s, step)
    ensures var t := Apply(lib, s, step);
      && (forall id | id in t.versions :: t.versions[id].versionId == id)
      && (forall id | id in t.proposals :: t.proposals[id].proposalId == id)
      && (forall id | id in t.reports :: id in t.proposals && t.reports[id].targetId == id)
  {
  }

  lemma ArtifactsStaySound(lib: Library, s: State, step: Step, i: nat)
    requires Sound(lib, s) && Enabled(lib, s, step) && i < |Apply(lib, s, step).artifacts|
    ensures ArtifactSound(lib, Apply(lib, s, step), i)
  {
    assert i < |s.artifacts| ==> ArtifactSound(lib, s, i);
  }

  lemma PassesMeansBacked(lib: Library, s: State, step: Step, id: string)
    requires Sound(lib, s) && Enabled(lib, s, step)
    requires id in Apply(lib, s, step).reports && Apply(lib, s, step).reports[id].passes
    ensures id in s.proposals && Backed(lib, s, s.proposals[id])
  {
    assert id in s.reports && s.reports[id].passes ==> Backed(lib, s, s.proposals[id]);
  }

  lemma AssertionStays(lib: Library, s: State, step: Step, id: string)
    requires Sound(lib, s) && Enabled(lib, s, step) && id in s.assertions && AssertionSound(s, id)
    ensures id in Apply(lib, s, step).assertions && AssertionSound(Apply(lib, s, step), id)
    ensures Apply(lib, s, step).assertions[id] == s.assertions[id]
  {
  }

  lemma NewAssertionSound(lib: Library, s: State, step: Step)
    requires Sound(lib, s) && Enabled(lib, s, step) && step.Decide? && step.assertion.Some?
    ensures AssertionSound(Apply(lib, s, step), step.assertion.value.assertionId)
    ensures Backed(lib, s, s.proposals[step.decision.proposalId])
  {
  }

  lemma StepKeepsAccepted(lib: Library, s: State, step: Step)
    requires Sound(lib, s) && Accepted(lib, s) && Enabled(lib, s, step)
    ensures Accepted(lib, Apply(lib, s, step))
  {
    var t := Apply(lib, s, step);
    StepGrows(lib, s, step);
    if step.Decide? && step.assertion.Some? {
      NewAssertionSound(lib, s, step);
    }
    forall id | id in t.assertions
      ensures AssertionSound(t, id) && Backed(lib, t, t.proposals[t.assertions[id].proposalId])
    {
      if id in s.assertions {
        assert AssertionSound(s, id);
        AssertionStays(lib, s, step, id);
      }
      BackedLasts(lib, s, t, s.proposals[t.assertions[id].proposalId]);
    }
    StepKeepsUnique(lib, s, step);
  }

  lemma StepKeepsUnique(lib: Library, s: State, step: Step)
    requires Sound(lib, s) && Accepted(lib, s) && Enabled(lib, s, step)
    ensures var t := Apply(lib, s, step);
      forall i, j | i in t.assertions && j in t.assertions
                    && t.assertions[i].proposalId == t.assertions[j].proposalId :: i == j
  {
    assert step.Decide? ==> forall i | i in s.assertions :: s.assertions[i].proposalId != step.decision.proposalId;
  }

  lemma {:induction false} RunIsSound(lib: Library, steps: seq<Step>)
    requires IsRun(lib, steps)
    ensures Sound(lib, RunSteps(lib, steps)) && Accepted(lib, RunSteps(lib, steps))
  {
    if steps != [] {
      RunIsSound(lib, steps[..|steps| - 1]);
      StepKeepsSound(lib, RunSteps(lib, steps[..|steps| - 1]), steps[|steps| - 1]);
      StepKeepsAccepted(lib, RunSteps(lib, steps[..|steps| - 1]), steps[|steps| - 1]);
    }
  }

  // ------------------------------------------------------------------ main results

  lemma {:induction false} FirstArtifactIs(artifacts: seq<TextArtifact>, versionId: string) returns (i: nat)
    requires FirstArtifact(artifacts, versionId).Some?
    ensures i < |artifacts| && artifacts[i].versionId == versionId
    ensures FirstArtifact(artifacts, versionId) == Some(artifacts[i])
    ensures forall k | 0 <= k < i :: artifacts[k].versionId != versionId
  {
    if artifacts[0].versionId == versionId {
      i := 0;
    } else {
      i := FirstArtifactIs(artifacts[1..], versionId);
      i := i + 1;
    }
  }

  // Every accepted quotation, in every reachable state: each edge that supports it is anchored
  // in the canonical text of its own source version, and the anchored octets are exactly those
  // of the value; the document's role permits its modality and the copy is publishable.
  lemma QuotationsAreQuoted(lib: Library, steps: seq<Step>, id: string, e: Edge) returns (i: nat)
    requires IsRun(lib, steps) && id in RunSteps(lib, steps).assertions
    requires RunSteps(lib, steps).assertions[id].origin.SourceQuote?
    requires e in RunSteps(lib, steps).assertions[id].support && e.role == Supports
    ensures var s := RunSteps(lib, steps);
      var a := s.assertions[id];
      && i < |s.artifacts| && s.artifacts[i].versionId == a.versionId && a.versionId in s.versions
      && s.artifacts[i].textArtifactId in s.texts && e.anchorId in s.anchors
      && (var text := s.texts[s.artifacts[i].textArtifactId];
          var v := s.versions[a.versionId];
          && lib.canonicalText(v.contentSha256, v.mimeType) == Some(text)
          && s.anchors[e.anchorId].textArtifactId == s.artifacts[i].textArtifactId
          && Slice(text, s.anchors[e.anchorId].startByte, s.anchors[e.anchorId].endByte) == Encode(a.rawValue))
  {
    RunIsSound(lib, steps);
    var s := RunSteps(lib, steps);
    assert AssertionSound(s, id);
    var p := s.proposals[s.assertions[id].proposalId];
    var ev := EvidenceFor(lib, s, p).value;
    assert EdgeResolves(lib.sha, p, ev, e);
    i := FirstArtifactIs(s.artifacts, p.sourceVersionId);
    assert ArtifactSound(lib, s, i);
  }

  // Every accepted assertion of any origin: its modality is one its document's role permits,
  // its copy's provenance is publishable, and an acceptance of its own proposal is on file.
  lemma AssertionsArePermitted(lib: Library, steps: seq<Step>, id: string)
    requires IsRun(lib, steps) && id in RunSteps(lib, steps).assertions
    ensures var s := RunSteps(lib, steps);
      var a := s.assertions[id];
      && a.versionId in s.versions && s.versions[a.versionId].documentId in s.documents
      && a.modality in RoleModalities(s.documents[s.versions[a.versionId].documentId].role)
      && IsPublishable(s.versions[a.versionId].provenance)
      && a.decisionId in s.decisions && s.decisions[a.decisionId] == Decision(a.decisionId, a.proposalId, "accept")
      && (a.origin.SourceQuote? ==> a.support != [])
  {
    RunIsSound(lib, steps);
    assert AssertionSound(RunSteps(lib, steps), id);
  }

  // No proposal ever gets two assertions, and once it has one no further decision on it is
  // possible.
  lemma OneAssertionPerProposal(lib: Library, steps: seq<Step>, i: string, j: string)
    requires IsRun(lib, steps) && i in RunSteps(lib, steps).assertions && j in RunSteps(lib, steps).assertions
    requires RunSteps(lib, steps).assertions[i].proposalId == RunSteps(lib, steps).assertions[j].proposalId
    ensures i == j
    ensures forall d: Decision, a, at | d.proposalId == RunSteps(lib, steps).assertions[i].proposalId ::
        !Enabled(lib, RunSteps(lib, steps), Decide(d, a, at))
  {
    RunIsSound(lib, steps);
    forall d: Decision, a, at | d.proposalId == RunSteps(lib, steps).assertions[i].proposalId
      ensures !Enabled(lib, RunSteps(lib, steps), Decide(d, a, at))
    {
      NoFurtherDecision(lib, RunSteps(lib, steps), i, Decide(d, a, at));
    }
  }

  lemma NoFurtherDecision(lib: Library, s: State, id: string, step: Step)
    requires id in s.assertions && step.Decide? && step.decision.proposalId == s.assertions[id].proposalId
    ensures !Enabled(lib, s, step)
  {
  }

  // ------------------------------------------------------------------ the audit log

  // The steps that write to the log.
  ghost function Audited(steps: seq<Step>): seq<Step> {
    if steps == [] then []
    else
      var last := steps[|steps| - 1];
      Audited(steps[..|steps| - 1]) + if EntryOf(last).Some? then [last] else []
  }

  // Event k is the record of the k-th audited step.
  ghost predicate Records(lib: Library, log: seq<Audit.Event>, steps: seq<Step>, k: nat)
    requires k < |log| && k < |steps|
  {
    && EntryOf(steps[k]).Some?
    && log[k].actor == "builder-kernel" && log[k].action == EntryOf(steps[k]).value.action
    && log[k].at == EntryOf(steps[k]).value.at && log[k].detail == lib.json(EntryOf(steps[k]).value.detail)
  }

  // The log verifies and records exactly these steps, in order.
  ghost predicate LogOf(lib: Library, log: seq<Audit.Event>, steps: seq<Step>) {
    && Audit.ValidLog(lib.hashEvent, log) && |log| == |steps|
    && forall k | 0 <= k < |log| :: Records(lib, log, steps, k)
  }

  lemma LogSnoc(lib: Library, log: seq<Audit.Event>, steps: seq<Step>, step: Step)
    requires LogOf(lib, log, steps) && EntryOf(step).Some?
    ensures LogOf(lib, Logged(lib, log, EntryOf(step).value), steps + [step])
  {
    var e := EntryOf(step).value;
    var next := Logged(lib, log, e);
    Audit.AppendKeepsLog(lib.hashEvent, log, "builder-kernel", e.action, e.at, lib.json(e.detail));
    forall k | 0 <= k < |next| ensures Records(lib, next, steps + [step], k) {
      assert k < |log| ==> Records(lib, log, steps, k);
    }
  }

  lemma StepLogs(lib: Library, s: State, step: Step)
    ensures Apply(lib, s, step).log
         == if EntryOf(step).None? then s.log else Logged(lib, s.log, EntryOf(step).value)
  {
  }

  // After any run the log verifies and records, in order, exactly the audited steps.
  lemma {:induction false} LogRecordsTheRun(lib: Library, steps: seq<Step>)
    ensures LogOf(lib, RunSteps(lib, steps).log, Audited(steps))
  {
    if steps != [] {
      var init, last := steps[..|steps| - 1], steps[|steps| - 1];
      LogRecordsTheRun(lib, init);
      StepLogs(lib, RunSteps(lib, init), last);
      if EntryOf(last).Some? {
        LogSnoc(lib, RunSteps(lib, init).log, Audited(init), last);
      } else {
        assert Audited(steps) == Audited(init);
      }
    }
  }

  ghost predicate IsSilent(step: Step) {
    step.AddAnchor? || step.RunVerifier?
  }

  lemma {:induction false} SilentStepsAreMissing(steps: seq<Step>)
    ensures |Audited(steps)| <= |steps|
    ensures |Audited(steps)| == |steps| <==> forall step | step in steps :: !IsSilent(step)
  {
    if steps != [] {
      var init, last := steps[..|steps| - 1], steps[|steps| - 1];
      SilentStepsAreMissing(init);
      assert EntryOf(last).Some? <==> !IsSilent(last);
      assert last in steps && forall step | step in steps :: step in init || step == last;
    }
  }

  // There is an event for every step exactly in the runs that neither anchor nor verify.
  lemma EveryStepIsAudited(lib: Library, steps: seq<Step>)
    ensures |RunSteps(lib, steps).log| == |steps| <==> forall step | step in steps :: !IsSilent(step)
  {
    LogRecordsTheRun(lib, steps);
    SilentStepsAreMissing(steps);
  }

  // Every validation report is the work of a silent step, so no assertion is accepted in a run
  // with an event for every step.
  lemma ReportsAreUnaudited(lib: Library, steps: seq<Step>)
    requires RunSteps(lib, steps).reports != map[]
    ensures |RunSteps(lib, steps).log| < |steps|
  {
    EveryStepIsAudited(lib, steps);
    VerifierRan(lib, steps);
    LogRecordsTheRun(lib, steps);
    SilentStepsAreMissing(steps);
  }

  lemma {:induction false} VerifierRan(lib: Library, steps: seq<Step>)
    requires RunSteps(lib, steps).reports != map[]
    ensures exists step :: step in steps && step.RunVerifier?
  {
    var init, last := steps[..|steps| - 1], steps[|steps| - 1];
    assert last in steps && forall step | step in init :: step in steps;
    if !last.RunVerifier? {
      OthersKeepReports(lib, RunSteps(lib, init), last);
      VerifierRan(lib, init);
    }
  }

  lemma OthersKeepReports(lib: Library, s: State, step: Step)
    requires !step.RunVerifier?
    ensures Apply(lib, s, step).reports == s.reports
  {
  }

  // ------------------------------------------------------------------ an unsupported quotation

  lemma RunSnoc(lib: Library, steps: seq<Step>, step: Step)
    requires IsRun(lib, steps) && Enabled(lib, RunSteps(lib, steps), step)
    ensures IsRun(lib, steps + [step])
    ensures RunSteps(lib, steps + [step]) == Apply(lib, RunSteps(lib, steps), step)
  {
    assert (steps + [step])[..|steps|] == steps;
  }

  // The proposal of a run that quotes text t only as context.
  ghost function ContextOnly(value: string): Proposal {
    Proposal("p", "v", value, "allegation", SourceQuote, [Edge("n", Context)], NoValue, None)
  }

  ghost function WholeText(lib: Library, t: string): Anchor {
    var text := Encode(t);
    Anchor("n", "x", t, lib.sha(text), 0, |text|, [], [])
  }

  // What is on file once the whole text t of a pleading has been anchored, and the proposal
  // made, and the steps that lead there.
  ghost function PleadingSteps(lib: Library, sha256: string, t: string, value: string, at: string): seq<Step> {
    [Ingest(Document("d", "complaint_or_pleading"), Version("v", "d", sha256, "text/html", "issuer_direct"), at),
     Canonicalize(TextArtifact("x", "v", lib.sha(Encode(t))), Encode(t), at),
     AddAnchor(WholeText(lib, t), 0),
     Propose(ContextOnly(value), at)]
  }

  ghost predicate PleadingOnFile(lib: Library, s: State, sha256: string, t: string) {
    && s.documents == map["d" := Document("d", "complaint_or_pleading")]
    && s.versions == map["v" := Version("v", "d", sha256, "text/html", "issuer_direct")]
    && s.artifacts == [TextArtifact("x", "v", lib.sha(Encode(t)))] && s.texts == map["x" := Encode(t)]
    && s.anchors == map["n" := WholeText(lib, t)]
    && s.reports == map[] && s.decisions == map[] && s.assertions == map[]
  }

  lemma PleadingIsRun(lib: Library, sha256: string, t: string, value: string, at: string)
    requires lib.canonicalText(sha256, "text/html") == Some(Encode(t)) && t != ""
    ensures var steps := PleadingSteps(lib, sha256, t, value, at);
      && IsRun(lib, steps) && PleadingOnFile(lib, RunSteps(lib, steps), sha256, t)
      && RunSteps(lib, steps).proposals == map["p" := ContextOnly(value)] && |RunSteps(lib, steps).log| == 3
  {
    var steps := PleadingSteps(lib, sha256, t, value, at);
    RunSnoc(lib, [], steps[0]);
    assert [] + [steps[0]] == [steps[0]];
    RunSnoc(lib, [steps[0]], steps[1]);
    assert [steps[0]] + [steps[1]] == [steps[0], steps[1]];
    RunSnoc(lib, [steps[0], steps[1]], steps[2]);
    assert [steps[0], steps[1]] + [steps[2]] == [steps[0], steps[1], steps[2]];
    RunSnoc(lib, [steps[0], steps[1], steps[2]], steps[3]);
    assert [steps[0], steps[1], steps[2]] + [steps[3]] == steps;
  }

  lemma ContextIsVouched(lib: Library, s: State, sha256: string, t: string, value: string)
    requires PleadingOnFile(lib, s, sha256, t)
    ensures Backed(lib, s, ContextOnly(value))
  {
    var p := ContextOnly(value);
    assert FirstArtifact(s.artifacts, "v") == Some(s.artifacts[0]);
    var ev := EvidenceFor(lib, s, p).value;
    assert Failures(lib.sha, ev.text, ev.textSha256, ev.artifact, WholeText(lib, t)) == [];
    assert EdgeResolves(lib.sha, p, ev, Edge("n", Context));
  }

  // Whatever the value and whatever the text, if not empty, a run accepts the value as a quotation of it;
  // and its log has four events for its six steps.
  lemma UnsupportedQuotationIsAccepted(lib: Library, sha256: string, t: string, value: string, at: string)
    returns (steps: seq<Step>)
    requires lib.canonicalText(sha256, "text/html") == Some(Encode(t)) && t != ""
    ensures IsRun(lib, steps) && |steps| == 6 && |RunSteps(lib, steps).log| == 4
    ensures var s := RunSteps(lib, steps);
      && "a" in s.assertions && s.assertions["a"].origin.SourceQuote? && s.assertions["a"].rawValue == value
      && NoneSupports(s.assertions["a"].support)
  {
    var before := PleadingSteps(lib, sha256, t, value, at);
    PleadingIsRun(lib, sha256, t, value, at);
    var p, s := ContextOnly(value), RunSteps(lib, before);
    ContextIsVouched(lib, s, sha256, t, value);
    var verify := RunVerifier("p", Report("r", "p", [], true));
    RunSnoc(lib, before, verify);
    var decide := Decide(Decision("c", "p", "accept"), Some(AssertionOf(p, "a", "c")), at);
    RunSnoc(lib, before + [verify], decide);
    steps := before + [verify] + [decide];
  }

  // ------------------------------------------------------------------ acceptance without anchors

  ghost function Unanchored(origin: Origin, value: string, parent: string): Proposal {
    Proposal("p", "v", value, "allegation", origin, [], NoValue, Some([parent]))
  }

  // The same pleading on file, with no anchor.
  ghost predicate TextOnFile(lib: Library, s: State, sha256: string, text: seq<Byte>) {
    && s.documents == map["d" := Document("d", "complaint_or_pleading")]
    && s.versions == map["v" := Version("v", "d", sha256, "text/html", "issuer_direct")]
    && s.artifacts == [TextArtifact("x", "v", lib.sha(text))] && s.texts == map["x" := text]
    && s.anchors == map[] && s.reports == map[] && s.decisions == map[] && s.assertions == map[]
  }

  lemma UnanchoredIsRun(lib: Library, sha256: string, text: seq<Byte>, p: Proposal, at: string)
    returns (steps: seq<Step>)
    requires lib.canonicalText(sha256, "text/html") == Some(text)
    ensures IsRun(lib, steps) && |steps| == 3 && TextOnFile(lib, RunSteps(lib, steps), sha256, text)
    ensures RunSteps(lib, steps).proposals == map[p.proposalId := p]
  {
    var ingest := Ingest(Document("d", "complaint_or_pleading"),
                         Version("v", "d", sha256, "text/html", "issuer_direct"), at);
    var canonicalize := Canonicalize(TextArtifact("x", "v", lib.sha(text)), text, at);
    RunSnoc(lib, [], ingest);
    RunSnoc(lib, [] + [ingest], canonicalize);
    RunSnoc(lib, [] + [ingest] + [canonicalize], Propose(p, at));
    steps := [] + [ingest] + [canonicalize] + [Propose(p, at)];
  }

  lemma UnanchoredIsVouched(lib: Library, s: State, sha256: string, text: seq<Byte>, origin: Origin, value: string,
                            parent: string)
    requires TextOnFile(lib, s, sha256, text) && !origin.SourceQuote?
    ensures Backed(lib, s, Unanchored(origin, value, parent))
  {
    assert FirstArtifact(s.artifacts, "v") == Some(s.artifacts[0]);
  }

  // Whatever the value and its origin, if that is no quotation, a run accepts it with no anchor
  // on file at all, and with a parent that is no assertion.
  lemma UnanchoredIsAccepted(lib: Library, sha256: string, text: seq<Byte>, origin: Origin, value: string,
                             parent: string, at: string)
    returns (steps: seq<Step>)
    requires lib.canonicalText(sha256, "text/html") == Some(text) && !origin.SourceQuote? && parent != "a"
    ensures IsRun(lib, steps)
    ensures var s := RunSteps(lib, steps);
      && s.anchors == map[] && s.assertions.Keys == {"a"} && parent !in s.assertions
      && s.assertions["a"].origin == origin && s.assertions["a"].rawValue == value
      && s.assertions["a"].proposalId in s.proposals
      && s.proposals[s.assertions["a"].proposalId].transformParents == Some([parent])
  {
    var p := Unanchored(origin, value, parent);
    var before := UnanchoredIsRun(lib, sha256, text, p, at);
    UnanchoredIsVouched(lib, RunSteps(lib, before), sha256, text, origin, value, parent);
    var verify := RunVerifier("p", Report("r", "p", [], true));
    RunSnoc(lib, before, verify);
    var decide := Decide(Decision("c", "p", "accept"), Some(AssertionOf(p, "a", "c")), at);
    RunSnoc(lib, before + [verify], decide);
    steps := before + [verify] + [decide];
  }
}
