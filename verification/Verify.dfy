/** The mechanical verifier of assertion proposals and its role and provenance tables. */
module Verify {
  import opened Wrappers
  import opened Utf8
  import opened Anchors

  // The modalities a document of a role may establish.
  function RoleModalities(role: string): set<string> {
    if role == "complaint_or_pleading" then {"allegation", "party_position"}
    else if role == "judgment_or_order" then {"finding", "holding", "order", "procedural_event"}
    else if role == "official_docket_entry" then {"procedural_event"}
    else if role == "regulator_decision" then {"finding", "order", "procedural_event"}
    else if role == "official_press_release" then {"announcement"}
    else if role == "settlement_instrument" then {"party_position", "admission", "order"}
    else {}
  }

  predicate IsPublishable(provenance: string) {
    provenance in {
      "issuer_direct", "official_docket", "signature_verified", "digest_crossmatched",
      "human_corroborated"}
  }

  datatype Origin = SourceQuote | SourceParaphrase | Normalized | Derived | LegacyImport

  datatype EdgeRole = Supports | Contradicts | Context

  datatype Edge = Edge(anchorId: string, role: EdgeRole)

  datatype NormalizedValue = NoValue | Plain | Money(decimalIsText: bool)

  datatype Proposal = Proposal(
    proposalId: string,
    sourceVersionId: string,
    rawValue: string,
    modality: string,
    origin: Origin,
    support: seq<Edge>,
    normalizedValue: NormalizedValue,
    transformParents: Option<seq<string>>)

  datatype Document = Document(documentId: string, role: string)

  datatype Version = Version(
    versionId: string,
    documentId: string,
    contentSha256: string,
    mimeType: string,
    provenance: string)

  datatype CheckName =
    | SchemaValid | SourceVersionBinding | AnchorResolution | TransformProvenance
    | SourceRolePermitsModality | CopyProvenance | MoneyDecimal | SemanticSupport

  datatype CheckResult = Pass | Fail | Indeterminate | NotApplicable

  datatype Check = Check(name: CheckName, result: CheckResult)

  datatype Report = Report(reportId: string, targetId: string, checks: seq<Check>, passes: bool)

  // What a proposal is checked against: its document and version, the text artifact and its
  // text, and the anchors known so far.
  datatype Evidence = Evidence(
    document: Document,
    version: Version,
    artifact: Artifact,
    text: seq<Byte>,
    textSha256: string,
    anchors: map<string, Anchor>)

  // A support edge of a quotation: a known anchor that re-verifies on the text and, when the
  // edge supports the value, quotes exactly the value.
  ghost predicate EdgeResolves(sha: seq<Byte> -> string, p: Proposal, ev: Evidence, e: Edge) {
    && e.anchorId in ev.anchors
    && Failures(sha, ev.text, ev.textSha256, ev.artifact, ev.anchors[e.anchorId]) == []
    && (e.role == Supports ==> ev.anchors[e.anchorId].quote == p.rawValue)
  }

  // What the support of the value amounts to, by its origin.
  ghost predicate ValueSupported(sha: seq<Byte> -> string, p: Proposal, ev: Evidence) {
    match p.origin
    case SourceQuote => p.support != [] && forall e | e in p.support :: EdgeResolves(sha, p, ev, e)
    case Normalized => p.transformParents.Some? && p.transformParents.value != []
    case Derived => p.transformParents.Some? && p.transformParents.value != []
    case _ => true
  }

  // Everything a passing report vouches for.
  ghost predicate Vouched(sha: seq<Byte> -> string, p: Proposal, schemaValid: bool, ev: Evidence) {
    && schemaValid
    && p.sourceVersionId == ev.version.versionId
    && ValueSupported(sha, p, ev)
    && p.modality in RoleModalities(ev.document.role)
    && IsPublishable(ev.version.provenance)
    && (p.normalizedValue.Money? ==> p.normalizedValue.decimalIsText)
  }

  // Each check is reported at most once.
  ghost predicate OncePerName(checks: seq<Check>) {
    forall i, j | 0 <= i < j < |checks| :: checks[i].name != checks[j].name
  }

  // The report passes exactly when everything holds; whether the text supports the value in
  // meaning is reported as undecided, always.
  method VerifyProposal(sha: seq<Byte> -> string, p: Proposal, schemaValid: bool, ev: Evidence, reportId: string)
    returns (report: Report)
    ensures report.reportId == reportId && report.targetId == p.proposalId
    ensures report.passes <==> Vouched(sha, p, schemaValid, ev)
    ensures OncePerName(report.checks) && Check(SemanticSupport, Indeterminate) in report.checks
    ensures report.passes <==> forall c | c in report.checks :: c.result != Fail
  {
    var checks := [Check(SchemaValid, PassIf(schemaValid))];
    var binding := p.sourceVersionId == ev.version.versionId;
    checks := checks + [Check(SourceVersionBinding, PassIf(binding))];
    var support := CheckSupport(sha, p, ev);
    checks := checks + support;
    var role := p.modality in RoleModalities(ev.document.role);
    checks := checks + [Check(SourceRolePermitsModality, PassIf(role))];
    var provenance := IsPublishable(ev.version.provenance);
    checks := checks + [Check(CopyProvenance, PassIf(provenance))];
    var money :=
      if !p.normalizedValue.Money? then NotApplicable
      else if p.normalizedValue.decimalIsText then Pass else Fail;
    checks := checks + [Check(MoneyDecimal, money)];
    checks := checks + [Check(SemanticSupport, Indeterminate)];
    assert checks == Assemble(schemaValid, binding, support, role, provenance, money);
    Assembled(schemaValid, binding, support, role, provenance, money);
    var passes := forall c | c in checks && c.name in BLOCKING :: c.result != Fail;
    report := Report(reportId, p.proposalId, checks, passes);
  }

  const BLOCKING := {
    SchemaValid, SourceVersionBinding, AnchorResolution, SourceRolePermitsModality, CopyProvenance,
    MoneyDecimal, TransformProvenance}

  function Assemble(schemaValid: bool, binding: bool, support: seq<Check>, role: bool, provenance: bool,
                    money: CheckResult): seq<Check>
  {
    [Check(SchemaValid, PassIf(schemaValid)), Check(SourceVersionBinding, PassIf(binding))] + support
    + [Check(SourceRolePermitsModality, PassIf(role)), Check(CopyProvenance, PassIf(provenance)),
       Check(MoneyDecimal, money), Check(SemanticSupport, Indeterminate)]
  }

  lemma AssembledMembers(schemaValid: bool, binding: bool, support: seq<Check>, role: bool, provenance: bool,
                         money: CheckResult, c: Check)
    ensures c in Assemble(schemaValid, binding, support, role, provenance, money) <==>
      c in support || c in {
        Check(SchemaValid, PassIf(schemaValid)), Check(SourceVersionBinding, PassIf(binding)),
        Check(SourceRolePermitsModality, PassIf(role)), Check(CopyProvenance, PassIf(provenance)),
        Check(MoneyDecimal, money), Check(SemanticSupport, Indeterminate)}
  {
  }

  ghost predicate SupportChecks(support: seq<Check>) {
    && (|support| == 1 || (|support| == 2 && support[0].name == TransformProvenance))
    && support[|support| - 1].name == AnchorResolution
  }

  lemma Assembled(schemaValid: bool, binding: bool, support: seq<Check>, role: bool, provenance: bool,
                  money: CheckResult)
    requires SupportChecks(support)
    ensures var checks := Assemble(schemaValid, binding, support, role, provenance, money);
      && Check(SemanticSupport, Indeterminate) in checks
      && (forall c | c in checks && c.name !in BLOCKING :: c.result != Fail)
      && ((forall c | c in checks && c.name in BLOCKING :: c.result != Fail) <==>
           schemaValid && binding && role && provenance && money != Fail
           && forall c | c in support :: c.result != Fail)
      && OncePerName(checks)
  {
    forall c ensures c in Assemble(schemaValid, binding, support, role, provenance, money) <==>
      c in support || c in {
        Check(SchemaValid, PassIf(schemaValid)), Check(SourceVersionBinding, PassIf(binding)),
        Check(SourceRolePermitsModality, PassIf(role)), Check(CopyProvenance, PassIf(provenance)),
        Check(MoneyDecimal, money), Check(SemanticSupport, Indeterminate)}
    {
      AssembledMembers(schemaValid, binding, support, role, provenance, money, c);
    }
    assert forall c | c in support :: c.name in BLOCKING;
    AssembledOnce(schemaValid, binding, support, role, provenance, money);
  }

  lemma AssembledOnce(schemaValid: bool, binding: bool, support: seq<Check>, role: bool, provenance: bool,
                      money: CheckResult)
    requires SupportChecks(support)
    ensures OncePerName(Assemble(schemaValid, binding, support, role, provenance, money))
  {
    var checks := Assemble(schemaValid, binding, support, role, provenance, money);
    if |support| == 1 {
      assert checks == [checks[0], checks[1], support[0], checks[3], checks[4], checks[5], checks[6]];
    } else {
      assert checks == [checks[0], checks[1], support[0], support[1], checks[4], checks[5], checks[6], checks[7]];
    }
  }

  function PassIf(b: bool): CheckResult {
    if b then Pass else Fail
  }

  method EdgeOk(sha: seq<Byte> -> string, p: Proposal, ev: Evidence, e: Edge) returns (ok: bool)
    ensures ok <==> EdgeResolves(sha, p, ev, e)
  {
    if e.anchorId !in ev.anchors {
      return false;
    }
    var anchor := ev.anchors[e.anchorId];
    var fails := VerifyAnchor(sha, ev.text, ev.textSha256, ev.artifact, anchor);
    return fails == [] && (e.role == Supports ==> anchor.quote == p.rawValue);
  }

  // The loop over the support edges, which goes on after a failure.
  method EdgesResolve(sha: seq<Byte> -> string, p: Proposal, ev: Evidence) returns (ok: bool)
    ensures ok <==> forall e | e in p.support :: EdgeResolves(sha, p, ev, e)
  {
    ok := true;
    for i := 0 to |p.support|
      invariant ok <==> forall e | e in p.support[..i] :: EdgeResolves(sha, p, ev, e)
    {
      assert p.support[..i + 1] == p.support[..i] + [p.support[i]];
      var resolves := EdgeOk(sha, p, ev, p.support[i]);
      ok := ok && resolves;
    }
    assert p.support[..|p.support|] == p.support;
  }

  // The checks on the value's support: one of anchor resolution, and before it one of the
  // transform for a normalised or derived value.
  method CheckSupport(sha: seq<Byte> -> string, p: Proposal, ev: Evidence) returns (checks: seq<Check>)
    ensures SupportChecks(checks)
    ensures (forall c | c in checks :: c.result != Fail) <==> ValueSupported(sha, p, ev)
  {
    match p.origin {
      case SourceQuote =>
        if p.support == [] {
          return [Check(AnchorResolution, Fail)];
        }
        var ok := EdgesResolve(sha, p, ev);
        return [Check(AnchorResolution, PassIf(ok))];
      case Normalized =>
        var ok := p.transformParents.Some? && p.transformParents.value != [];
        return [Check(TransformProvenance, PassIf(ok)), Check(AnchorResolution, NotApplicable)];
      case Derived =>
        var ok := p.transformParents.Some? && p.transformParents.value != [];
        return [Check(TransformProvenance, PassIf(ok)), Check(AnchorResolution, NotApplicable)];
      case _ =>
        return [Check(AnchorResolution, Indeterminate)];
    }
  }

  // ------------------------------------------------------------------ what a pass does not say

  // The edges that support the value.
  ghost predicate NoneSupports(support: seq<Edge>) {
    forall e | e in support :: e.role != Supports
  }

  // A quotation none of whose edges supports it passes with any value whatever; every other
  // quotation is tied to its value.
  lemma QuotationIsUncheckedExactly(sha: seq<Byte> -> string, p: Proposal, ev: Evidence)
    requires p.origin.SourceQuote? && Vouched(sha, p, true, ev)
    ensures (forall v :: Vouched(sha, p.(rawValue := v), true, ev)) <==> NoneSupports(p.support)
    ensures !NoneSupports(p.support) ==> forall v :: Vouched(sha, p.(rawValue := v), true, ev) <==> v == p.rawValue
  {
    if NoneSupports(p.support) {
      forall v ensures Vouched(sha, p.(rawValue := v), true, ev) {
        forall e | e in p.support ensures EdgeResolves(sha, p.(rawValue := v), ev, e) {
          assert EdgeResolves(sha, p, ev, e);
        }
      }
    } else {
      var e :| e in p.support && e.role == Supports;
      assert EdgeResolves(sha, p, ev, e);
      forall v | Vouched(sha, p.(rawValue := v), true, ev) ensures v == p.rawValue {
        assert EdgeResolves(sha, p.(rawValue := v), ev, e);
      }
      assert p.(rawValue := p.rawValue) == p;
      var other := p.rawValue + "x";
      assert !Vouched(sha, p.(rawValue := other), true, ev);
    }
  }

  // What passes would pass with no anchor on file at all, exactly when it is no quotation.
  lemma AnchorsCountForQuotationsOnly(sha: seq<Byte> -> string, p: Proposal, ev: Evidence)
    requires Vouched(sha, p, true, ev)
    ensures Vouched(sha, p, true, ev.(anchors := map[])) <==> !p.origin.SourceQuote?
  {
    if p.origin.SourceQuote? {
      assert !EdgeResolves(sha, p, ev.(anchors := map[]), p.support[0]);
    }
  }

  // Of the parents of a normalised or derived value it matters only that some are named: any
  // other names would pass, whether or not they are assertions.
  lemma ParentsAreOnlyCounted(sha: seq<Byte> -> string, p: Proposal, ev: Evidence, parents: seq<string>)
    requires p.origin.Normalized? || p.origin.Derived?
    requires Vouched(sha, p, true, ev)
    ensures Vouched(sha, p.(transformParents := Some(parents)), true, ev) <==> parents != []
    ensures !Vouched(sha, p.(transformParents := None), true, ev)
  {
  }

  // ------------------------------------------------------------------ in the evidence's own fields

  // Which modalities a document's role may establish, pair by pair.
  lemma RolePairs(role: string, modality: string)
    ensures modality in RoleModalities(role) <==> (role, modality) in {
      ("complaint_or_pleading", "allegation"), ("complaint_or_pleading", "party_position"),
      ("judgment_or_order", "finding"), ("judgment_or_order", "holding"), ("judgment_or_order", "order"),
      ("judgment_or_order", "procedural_event"), ("official_docket_entry", "procedural_event"),
      ("regulator_decision", "finding"), ("regulator_decision", "order"), ("regulator_decision", "procedural_event"),
      ("official_press_release", "announcement"), ("settlement_instrument", "party_position"),
      ("settlement_instrument", "admission"), ("settlement_instrument", "order")}
  {
  }

  // When an edge of a quotation holds.
  lemma EdgeExactly(sha: seq<Byte> -> string, p: Proposal, ev: Evidence, e: Edge)
    ensures EdgeResolves(sha, p, ev, e) <==>
      && e.anchorId in ev.anchors
      && ev.anchors[e.anchorId].textArtifactId == ev.artifact.textArtifactId
      && ev.artifact.canonicalSha256 == ev.textSha256
      && Slice(ev.text, ev.anchors[e.anchorId].startByte, ev.anchors[e.anchorId].endByte)
         == Encode(ev.anchors[e.anchorId].quote)
      && sha(Encode(ev.anchors[e.anchorId].quote)) == ev.anchors[e.anchorId].quoteSha256
      && (e.role == Supports ==> ev.anchors[e.anchorId].quote == p.rawValue)
  {
    if e.anchorId in ev.anchors {
      NoFailures(sha, ev.text, ev.textSha256, ev.artifact, ev.anchors[e.anchorId]);
    }
  }

  lemma NoFailures(sha: seq<Byte> -> string, text: seq<Byte>, textSha256: string, artifact: Artifact, anchor: Anchor)
    ensures Failures(sha, text, textSha256, artifact, anchor) == [] <==>
      && anchor.textArtifactId == artifact.textArtifactId && artifact.canonicalSha256 == textSha256
      && Slice(text, anchor.startByte, anchor.endByte) == Encode(anchor.quote)
      && sha(Encode(anchor.quote)) == anchor.quoteSha256
  {
  }

  // When a report passes.
  lemma VouchedExactly(sha: seq<Byte> -> string, p: Proposal, schemaValid: bool, ev: Evidence)
    ensures Vouched(sha, p, schemaValid, ev) <==>
      && schemaValid && p.sourceVersionId == ev.version.versionId
      && (p.origin == SourceQuote ==> p.support != [] && forall e | e in p.support :: EdgeResolves(sha, p, ev, e))
      && (p.origin in {Normalized, Derived} ==> p.transformParents != None && p.transformParents != Some([]))
      && p.modality in RoleModalities(ev.document.role)
      && ev.version.provenance in {
           "issuer_direct", "official_docket", "signature_verified", "digest_crossmatched", "human_corroborated"}
      && p.normalizedValue != Money(false)
  {
  }

  // What each check of a report says; a report holds each of them but the transform check,
  // which is for normalised and derived values only.
  lemma ChecksExactly(schemaValid: bool, binding: bool, support: seq<Check>, role: bool, provenance: bool,
                      money: CheckResult, c: Check)
    requires SupportChecks(support) && c in Assemble(schemaValid, binding, support, role, provenance, money)
    ensures c.name == SchemaValid ==> c.result == if schemaValid then Pass else Fail
    ensures c.name == SourceVersionBinding ==> c.result == if binding then Pass else Fail
    ensures c.name == SourceRolePermitsModality ==> c.result == if role then Pass else Fail
    ensures c.name == CopyProvenance ==> c.result == if provenance then Pass else Fail
    ensures c.name == MoneyDecimal ==> c.result == money
    ensures c.name == SemanticSupport ==> c.result == Indeterminate
    ensures c.name in {AnchorResolution, TransformProvenance} ==> c in support
  {
    AssembledMembers(schemaValid, binding, support, role, provenance, money, c);
  }
}
