/** Reviewer actions: session and role checks, idempotent retry, nonces, optimistic locking
    and the cooling period between staging a change and confirming it. */
module ReviewerActions {
  import opened Wrappers
  import opened Strings

  const OPERATOR := "Alexios"

  const HUMAN_ROLES := {"operator_reviewer", "policy_rights_adjudicator", "release_approver"}

  const ACTIONS := {
    "approve", "reject", "edit", "request_source", "merge", "link", "split", "escalate",
    "correct", "withdraw", "suppress", "retract", "defer"}

  // The role each decision class requires; None for a class the table does not list.
  function RequiredRole(decisionClass: string): Option<string> {
    if decisionClass in {"ordinary_review", "identity_merge_split", "conflict", "material_correction"} then
      Some("operator_reviewer")
    else if decisionClass in {"rights_personal_data", "policy_override", "suppression_retraction"} then
      Some("policy_rights_adjudicator")
    else if decisionClass in {"release_approval", "automation_qualification"} then Some("release_approver")
    else None
  }

  predicate IsSensitive(decisionClass: string) {
    decisionClass in {
      "rights_personal_data", "conflict", "identity_merge_split", "policy_override",
      "material_correction", "suppression_retraction", "release_approval",
      "automation_qualification"}
  }

  predicate NeedsCooling(decisionClass: string) {
    decisionClass in {
      "material_correction", "boundary_change", "rubric_change", "source_policy_change",
      "rights_policy_change"}
  }

  // A timestamp's instant, and the calendar date it shows in its own offset.
  datatype Timestamp = Timestamp(instant: int, date: int)

  datatype Session = Session(
    actor: string,
    roles: set<string>,
    authenticated: bool,
    expiresAt: Timestamp,
    csrfToken: string)

  datatype EditedAssertion =
    | SourceDerived(support: seq<string>)
    | Derived(parents: seq<string>, transformVersion: string)
    | UnknownKind

  datatype Request = Request(
    taskId: string,
    action: string,
    role: string,
    decisionClass: string,
    target: string,
    expectedVersion: string,
    reason: string,
    nonce: string,
    idempotencyKey: string,
    csrf: string,
    inputHashes: map<string, string>,
    editedAssertion: Option<EditedAssertion>,
    freshDiff: Option<string>)

  datatype Decision = Decision(
    taskId: string,
    action: string,
    decidedBy: string,
    role: string,
    decidedAt: Timestamp,
    reason: string,
    inputHashes: map<string, string>)

  datatype Result = Result(decision: Decision, inputVersion: string, outputVersion: string, target: string)

  datatype Staging = Staging(date: int, diff: string)

  datatype State = State(
    versions: map<string, string>,
    nonces: set<string>,
    results: map<string, Result>,
    staged: map<(string, string), Staging>)

  const START := State(map[], {}, map[], map[])

  datatype Error =
    | AuthError | UnknownAction | RoleError | ReplayError | ConcurrencyError | SupportError
    | CoolingPeriodError | VersionError | BulkForbidden

  datatype Outcome = Applied(result: Result) | Repeated(result: Result) | Raised(error: Error)

  // ------------------------------------------------------------------ the checks

  predicate SessionOk(session: Session, csrf: string, now: Timestamp) {
    && session.authenticated && session.actor == OPERATOR
    && now.instant < session.expiresAt.instant && csrf == session.csrfToken
  }

  predicate RoleOk(req: Request, session: Session) {
    && req.role in HUMAN_ROLES && req.role in session.roles
    && RequiredRole(req.decisionClass) == Some(req.role)
  }

  predicate AssertionOk(a: EditedAssertion) {
    match a
    case SourceDerived(support) => support != []
    case Derived(parents, transformVersion) => parents != [] && transformVersion != ""
    case UnknownKind => false
  }

  function CurrentVersion(s: State, target: string): string {
    if target in s.versions then s.versions[target] else "v0"
  }

  // A staged intent for the same target and class, from an earlier date, with the same diff.
  predicate CooledOff(s: State, req: Request, now: Timestamp) {
    var key := (req.target, req.decisionClass);
    && key in s.staged && s.staged[key].date < now.date
    && req.freshDiff.Some? && req.freshDiff.value != "" && req.freshDiff.value == s.staged[key].diff
  }

  // The version after v: "v" and the next number.  None where int() raises; `short` is the
  // hash prefix the source falls back to for a version that does not begin with "v".
  function NextVersion(short: string -> string, v: string): Option<string> {
    if v != "" && v[0] == 'v' then
      if v[1..] != "" && AllDigits(v[1..]) then Some("v" + Decimal(ParseDecimal(v[1..]) + 1)) else None
    else Some(short(v))
  }

  // Why a request that is no retry is refused, in the order of the checks.
  function Refusal(short: string -> string, s: State, req: Request, now: Timestamp): Option<Error> {
    if req.nonce in s.nonces then Some(ReplayError)
    else if req.expectedVersion != CurrentVersion(s, req.target) then Some(ConcurrencyError)
    else if req.editedAssertion.Some? && !AssertionOk(req.editedAssertion.value) then Some(SupportError)
    else if NeedsCooling(req.decisionClass) && !CooledOff(s, req, now) then Some(CoolingPeriodError)
    else if NextVersion(short, CurrentVersion(s, req.target)).None? then Some(VersionError)
    else None
  }

  function ResultOf(short: string -> string, s: State, req: Request, now: Timestamp): Result
    requires NextVersion(short, CurrentVersion(s, req.target)).Some?
  {
    var v := CurrentVersion(s, req.target);
    Result(Decision(req.taskId, req.action, OPERATOR, req.role, now, req.reason, req.inputHashes),
           v, NextVersion(short, v).value, req.target)
  }

  // The state after a request has been applied.
  function Record(s: State, req: Request, result: Result): State {
    State(s.versions[req.target := result.outputVersion],
          s.nonces + {req.nonce},
          s.results[req.idempotencyKey := result],
          if NeedsCooling(req.decisionClass) then s.staged - {(req.target, req.decisionClass)} else s.staged)
  }

  function OutcomeOf(short: string -> string, s: State, session: Session, req: Request, now: Timestamp): Outcome {
    if !SessionOk(session, req.csrf, now) then Raised(AuthError)
    else if req.action !in ACTIONS then Raised(UnknownAction)
    else if !RoleOk(req, session) then Raised(RoleError)
    else if req.idempotencyKey in s.results then Repeated(s.results[req.idempotencyKey])
    else if Refusal(short, s, req, now).Some? then Raised(Refusal(short, s, req, now).value)
    else Applied(ResultOf(short, s, req, now))
  }

  // ------------------------------------------------------------------ steps and runs

  datatype Step =
    | Stage(target: string, decisionClass: string, at: Timestamp, diff: string)
    | Act(session: Session, req: Request, now: Timestamp)

  function Apply(short: string -> string, s: State, step: Step): State {
    match step
    case Stage(target, decisionClass, at, diff) =>
      s.(staged := s.staged[(target, decisionClass) := Staging(at.date, diff)])
    case Act(session, req, now) =>
      var o := OutcomeOf(short, s, session, req, now);
      if o.Applied? then Record(s, req, o.result) else s
  }

  ghost function RunFrom(short: string -> string, s: State, steps: seq<Step>): State {
    if steps == [] then s
    else Apply(short, RunFrom(short, s, steps[..|steps| - 1]), steps[|steps| - 1])
  }

  ghost function Run(short: string -> string, steps: seq<Step>): State {
    RunFrom(short, START, steps)
  }

  class ActionProcessor {
    const short: string -> string
    var versions: map<string, string>
    var nonces: set<string>
    var idem: map<string, Result>
    var staged: map<(string, string), Staging>

    ghost function Current(): State
      reads this
    {
      State(versions, nonces, idem, staged)
    }

    constructor (short: string -> string)
      ensures Current() == START && this.short == short
    {
      this.short := short;
      versions, nonces, idem, staged := map[], {}, map[], map[];
    }

    method StageCoolingPeriod(target: string, decisionClass: string, at: Timestamp, diff: string)
      modifies this
      ensures Current() == Apply(short, old(Current()), Stage(target, decisionClass, at, diff))
      ensures staged == old(staged)[(target, decisionClass) := Staging(at.date, diff)]
      ensures versions == old(versions) && nonces == old(nonces) && idem == old(idem)
    {
      staged := staged[(target, decisionClass) := Staging(at.date, diff)];
    }

    method Process(session: Session, req: Request, now: Timestamp) returns (outcome: Outcome)
      modifies this
      ensures outcome == OutcomeOf(short, old(Current()), session, req, now)
      ensures Current() == Apply(short, old(Current()), Act(session, req, now))
    {
      if !session.authenticated || session.actor != OPERATOR
         || now.instant >= session.expiresAt.instant || req.csrf != session.csrfToken {
        return Raised(AuthError);
      }
      if req.action !in ACTIONS {
        return Raised(UnknownAction);
      }
      if req.role !in HUMAN_ROLES || req.role !in session.roles {
        return Raised(RoleError);
      }
      var required := RequiredRole(req.decisionClass);
      if required.None? || req.role != required.value {
        return Raised(RoleError);
      }
      if req.idempotencyKey in idem {
        return Repeated(idem[req.idempotencyKey]);
      }
      if req.nonce in nonces {
        return Raised(ReplayError);
      }
      var inputVersion := if req.target in versions then versions[req.target] else "v0";
      if req.expectedVersion != inputVersion {
        return Raised(ConcurrencyError);
      }
      if req.editedAssertion.Some? && !AssertionOk(req.editedAssertion.value) {
        return Raised(SupportError);
      }
      var key := (req.target, req.decisionClass);
      if NeedsCooling(req.decisionClass) {
        if key !in staged || staged[key].date >= now.date {
          return Raised(CoolingPeriodError);
        }
        if req.freshDiff.None? || req.freshDiff.value == "" || req.freshDiff.value != staged[key].diff {
          return Raised(CoolingPeriodError);
        }
      }
      var outputVersion := NextVersion(short, inputVersion);
      if outputVersion.None? {
        return Raised(VersionError);
      }
      var decision := Decision(req.taskId, req.action, OPERATOR, req.role, now, req.reason, req.inputHashes);
      var result := Result(decision, inputVersion, outputVersion.value, req.target);
      versions := versions[req.target := outputVersion.value];
      nonces := nonces + {req.nonce};
      idem := idem[req.idempotencyKey := result];
      if NeedsCooling(req.decisionClass) {
        staged := staged - {key};
      }
      return Applied(result);
    }

    // Refused outright if any class is sensitive; otherwise the requests are processed in
    // turn until one raises, and what was applied before it stays applied.  So the state is
    // left as it was exactly when the call is refused or nothing is applied before one raises.
    method ProcessBulk(session: Session, reqs: seq<Request>, now: Timestamp)
      returns (results: seq<Result>, error: Option<Error>)
      modifies this
      ensures (exists r :: r in reqs && r.decisionClass in {
                 "rights_personal_data", "conflict", "identity_merge_split", "policy_override",
                 "material_correction", "suppression_retraction", "release_approval", "automation_qualification"}) ==>
                Current() == old(Current()) && error == Some(BulkForbidden) && results == []
      ensures (forall r | r in reqs :: !IsSensitive(r.decisionClass)) ==>
                && |results| <= |reqs|
                && Current() == BulkState(short, old(Current()), session, reqs, now, |results|)
                && StopsAt(short, old(Current()), session, reqs, now, |results|)
                && (forall k | 0 <= k < |results| ::
                      ResultAt(short, old(Current()), session, reqs, now, k) == Some(results[k]))
                && (error.None? <==> |results| == |reqs|)
                && (error.Some? ==>
                      OutcomeOf(short, Current(), session, reqs[|results|], now) == Raised(error.value))
      ensures Current() == old(Current()) <==>
                (exists r :: r in reqs && IsSensitive(r.decisionClass))
                || RaisesBeforeApplying(short, old(Current()), session, reqs, now)
    {
      results, error := [], None;
      if exists r :: r in reqs && IsSensitive(r.decisionClass) {
        return [], Some(BulkForbidden);
      }
      for i := 0 to |reqs|
        invariant |results| == i
        invariant Current() == BulkState(short, old(Current()), session, reqs, now, i)
        invariant forall k | 0 <= k < i ::
            ResultAt(short, old(Current()), session, reqs, now, k) == Some(results[k])
      {
        BulkStateNext(short, old(Current()), session, reqs, now, i);
        var outcome := Process(session, reqs[i], now);
        if outcome.Raised? {
          BulkIsNotAtomic(short, old(Current()), session, reqs, now, i);
          return results, Some(outcome.error);
        }
        results := results + [outcome.result];
      }
      BulkIsNotAtomic(short, old(Current()), session, reqs, now, |reqs|);
    }
  }

  ghost function Acts(session: Session, reqs: seq<Request>, now: Timestamp): seq<Step> {
    seq(|reqs|, i requires 0 <= i < |reqs| => Act(session, reqs[i], now))
  }

  // The state a bulk call from s has reached after k of its requests.
  ghost function BulkState(short: string -> string, s: State, session: Session, reqs: seq<Request>, now: Timestamp,
                           k: nat): State
    requires k <= |reqs|
  {
    RunFrom(short, s, Acts(session, reqs[..k], now))
  }

  lemma BulkStateNext(short: string -> string, s: State, session: Session, reqs: seq<Request>, now: Timestamp, k: nat)
    requires k < |reqs|
    ensures BulkState(short, s, session, reqs, now, k + 1)
         == Apply(short, BulkState(short, s, session, reqs, now, k), Act(session, reqs[k], now))
  {
    var steps := Acts(session, reqs[..k + 1], now);
    assert reqs[..k + 1][..k] == reqs[..k];
    assert steps[..k] == Acts(session, reqs[..k], now) && |steps| == k + 1;
  }

  // What request k returns in its turn; None where it raises.
  ghost function ResultAt(short: string -> string, s: State, session: Session, reqs: seq<Request>, now: Timestamp,
                          k: nat): Option<Result>
    requires k < |reqs|
  {
    var o := OutcomeOf(short, BulkState(short, s, session, reqs, now, k), session, reqs[k], now);
    if o.Raised? then None else Some(o.result)
  }

  // The call stops after n requests: none of them raises, and the next one does.
  ghost predicate StopsAt(short: string -> string, s: State, session: Session, reqs: seq<Request>, now: Timestamp,
                          n: nat)
    requires n <= |reqs|
  {
    && (forall k | 0 <= k < n :: ResultAt(short, s, session, reqs, now, k).Some?)
    && (n < |reqs| ==> ResultAt(short, s, session, reqs, now, n).None?)
  }

  // Every request that could be applied now comes after one that would raise now.
  ghost predicate RaisesBeforeApplying(short: string -> string, s: State, session: Session, reqs: seq<Request>,
                                       now: Timestamp)
  {
    forall i | 0 <= i < |reqs| && OutcomeOf(short, s, session, reqs[i], now).Applied? ::
      exists j :: 0 <= j < i && OutcomeOf(short, s, session, reqs[j], now).Raised?
  }

  // ------------------------------------------------------------------ one request

  // A request is applied exactly when every check passes; in particular the operator acts in
  // the one role its class requires.
  lemma AppliedExactly(short: string -> string, s: State, session: Session, req: Request, now: Timestamp)
    ensures OutcomeOf(short, s, session, req, now).Applied? <==>
      && SessionOk(session, req.csrf, now) && req.action in ACTIONS && RoleOk(req, session)
      && req.idempotencyKey !in s.results && req.nonce !in s.nonces
      && req.expectedVersion == CurrentVersion(s, req.target)
      && (req.editedAssertion.Some? ==> AssertionOk(req.editedAssertion.value))
      && (NeedsCooling(req.decisionClass) ==> CooledOff(s, req, now))
      && NextVersion(short, CurrentVersion(s, req.target)).Some?
    ensures OutcomeOf(short, s, session, req, now).Applied?
            <==> Apply(short, s, Act(session, req, now)) != s
  {
    if OutcomeOf(short, s, session, req, now).Applied? {
      assert req.nonce in Apply(short, s, Act(session, req, now)).nonces;
    }
  }

  // What lets a request through the session, action and role checks, in the request's own
  // fields.
  lemma AdmittedExactly(short: string -> string, s: State, session: Session, req: Request, now: Timestamp)
    ensures var o := OutcomeOf(short, s, session, req, now);
      var session_ok := session.authenticated && session.actor == "Alexios"
                        && now.instant < session.expiresAt.instant && req.csrf == session.csrfToken;
      var action_ok := req.action in {
        "approve", "reject", "edit", "request_source", "merge", "link", "split", "escalate", "correct", "withdraw",
        "suppress", "retract", "defer"};
      var role_ok := req.role in session.roles && (req.decisionClass, req.role) in {
        ("ordinary_review", "operator_reviewer"), ("identity_merge_split", "operator_reviewer"),
        ("conflict", "operator_reviewer"), ("material_correction", "operator_reviewer"),
        ("rights_personal_data", "policy_rights_adjudicator"), ("policy_override", "policy_rights_adjudicator"),
        ("suppression_retraction", "policy_rights_adjudicator"), ("release_approval", "release_approver"),
        ("automation_qualification", "release_approver")};
      && (o == Raised(AuthError) <==> !session_ok)
      && (o == Raised(UnknownAction) <==> session_ok && !action_ok)
      && (o == Raised(RoleError) <==> session_ok && action_ok && !role_ok)
      && (o.Repeated? <==> session_ok && action_ok && role_ok && req.idempotencyKey in s.results)
      && (o.Repeated? ==> o.result == s.results[req.idempotencyKey])
  {
  }

  // And what becomes of a request that is admitted and is no retry.
  lemma DecidedExactly(short: string -> string, s: State, session: Session, req: Request, now: Timestamp)
    requires SessionOk(session, req.csrf, now) && req.action in ACTIONS && RoleOk(req, session)
    requires req.idempotencyKey !in s.results
    ensures var o := OutcomeOf(short, s, session, req, now);
      var version := if req.target in s.versions then s.versions[req.target] else "v0";
      var key := (req.target, req.decisionClass);
      var supported := match req.editedAssertion
        case None => true
        case Some(SourceDerived(support)) => support != []
        case Some(Derived(parents, transformVersion)) => parents != [] && transformVersion != ""
        case Some(UnknownKind) => false;
      var cooled := req.decisionClass in {
          "material_correction", "boundary_change", "rubric_change", "source_policy_change", "rights_policy_change"}
        ==> key in s.staged && s.staged[key].date < now.date && s.staged[key].diff != ""
            && req.freshDiff == Some(s.staged[key].diff);
      && (o == Raised(ReplayError) <==> req.nonce in s.nonces)
      && (o == Raised(ConcurrencyError) <==> req.nonce !in s.nonces && req.expectedVersion != version)
      && (o == Raised(SupportError) <==> req.nonce !in s.nonces && req.expectedVersion == version && !supported)
      && (o == Raised(CoolingPeriodError) <==>
            req.nonce !in s.nonces && req.expectedVersion == version && supported && !cooled)
      && (o.Applied? ==>
            req.nonce !in s.nonces && req.expectedVersion == version && supported && cooled)
  {
  }

  // What an applied request leaves: the next version of its target, its nonce and its result,
  // with the staging it confirms gone.
  lemma AppliedEffect(short: string -> string, s: State, session: Session, req: Request, now: Timestamp, n: nat)
    requires (if req.target in s.versions then s.versions[req.target] else "v0") == "v" + Decimal(n)
    requires OutcomeOf(short, s, session, req, now).Applied?
    ensures var result := OutcomeOf(short, s, session, req, now).result;
      var t := Apply(short, s, Act(session, req, now));
      && result == Result(Decision(req.taskId, req.action, "Alexios", req.role, now, req.reason, req.inputHashes),
                          "v" + Decimal(n), "v" + Decimal(n + 1), req.target)
      && t.versions == s.versions[req.target := "v" + Decimal(n + 1)]
      && t.nonces == s.nonces + {req.nonce} && t.results == s.results[req.idempotencyKey := result]
      && t.staged == (if req.decisionClass == "material_correction" then s.staged - {(req.target, req.decisionClass)}
                      else s.staged)
  {
    NextOfName(short, n);
    assert VersionName(n) == "v" + Decimal(n) && VersionName(n + 1) == "v" + Decimal(n + 1);
    assert RequiredRole(req.decisionClass).Some? ==>
        (NeedsCooling(req.decisionClass) <==> req.decisionClass == "material_correction");
  }

  // The same request sent again is a retry: it returns the first result and changes nothing,
  // whatever has happened since.
  lemma {:induction false} RetryIsSafe(short: string -> string, s: State, session: Session, req: Request,
                                       now: Timestamp, more: seq<Step>, later: Timestamp)
    requires OutcomeOf(short, s, session, req, now).Applied?
    requires SessionOk(session, req.csrf, later)
    ensures var t := RunFrom(short, Apply(short, s, Act(session, req, now)), more);
      && OutcomeOf(short, t, session, req, later) == Repeated(OutcomeOf(short, s, session, req, now).result)
      && Apply(short, t, Act(session, req, later)) == t
  {
    ResultsLast(short, Apply(short, s, Act(session, req, now)), more, req.idempotencyKey);
  }

  lemma {:induction false} ResultsLast(short: string -> string, s: State, more: seq<Step>, key: string)
    requires key in s.results
    ensures key in RunFrom(short, s, more).results && RunFrom(short, s, more).results[key] == s.results[key]
  {
    if more != [] {
      ResultsLast(short, s, more[..|more| - 1], key);
    }
  }

  // ------------------------------------------------------------------ version chains

  function VersionName(n: nat): string {
    "v" + Decimal(n)
  }

  // The number of a version name.
  function Number(v: string): nat {
    if v != "" && AllDigits(v[1..]) then ParseDecimal(v[1..]) else 0
  }

  lemma NumberOfName(n: nat)
    ensures Number(VersionName(n)) == n
  {
    assert VersionName(n)[1..] == Decimal(n);
    ParseAfterPrint(n);
  }

  lemma NextOfName(short: string -> string, n: nat)
    ensures NextVersion(short, VersionName(n)) == Some(VersionName(n + 1))
  {
    assert VersionName(n)[1..] == Decimal(n);
    ParseAfterPrint(n);
  }

  ghost function VersionNumber(s: State, target: string): nat {
    Number(CurrentVersion(s, target))
  }

  // The sum of the numbers of all current versions.
  ghost function Total(versions: map<string, string>): nat {
    if versions == map[] then 0
    else
      var t :| t in versions;
      Number(versions[t]) + Total(versions - {t})
  }

  lemma {:induction false} TotalWithout(versions: map<string, string>, t: string)
    requires t in versions
    ensures Total(versions) == Number(versions[t]) + Total(versions - {t})
    decreases |versions|
  {
    var u :| u in versions && Total(versions) == Number(versions[u]) + Total(versions - {u});
    if u != t {
      TotalWithout(versions - {u}, t);
      TotalWithout(versions - {t}, u);
      assert versions - {u} - {t} == versions - {t} - {u};
    }
  }

  lemma TotalUpdate(versions: map<string, string>, t: string, v: string)
    ensures Total(versions[t := v])
         == Total(versions) + Number(v) - (if t in versions then Number(versions[t]) else 0)
  {
    TotalWithout(versions[t := v], t);
    if t in versions {
      TotalWithout(versions, t);
      assert versions[t := v] - {t} == versions - {t};
    } else {
      assert versions[t := v] - {t} == versions;
    }
  }

  // The cached result under `key` is the step of the target's chain from v_i to v_(i+1).
  ghost predicate IsLink(s: State, target: string, i: nat, key: string) {
    && key in s.results && s.results[key].target == target
    && s.results[key].inputVersion == VersionName(i) && s.results[key].outputVersion == VersionName(i + 1)
  }

  ghost predicate HasLink(s: State, target: string, i: nat) {
    exists key :: IsLink(s, target, i, key)
  }

  ghost predicate IsOnChain(s: State, key: string)
    requires key in s.results
  {
    exists i: nat :: i < VersionNumber(s, s.results[key].target) && IsLink(s, s.results[key].target, i, key)
  }

  // Each target's results form the chain v0, v1, ..., up to its current version: no gap, no
  // fork, nothing else.
  ghost predicate Chained(s: State) {
    && (forall t :: CurrentVersion(s, t) == VersionName(VersionNumber(s, t)))
    && (forall key {:trigger IsOnChain(s, key)} :: key in s.results ==> IsOnChain(s, key))
    && (forall t, i: nat {:trigger HasLink(s, t, i)} :: i < VersionNumber(s, t) ==> HasLink(s, t, i))
    && (forall t, i, j, k :: IsLink(s, t, i, j) && IsLink(s, t, i, k) ==> j == k)
  }

  // One nonce, one cached result and one version step per applied request.
  ghost predicate Counted(s: State) {
    |s.nonces| == |s.results| == Total(s.versions)
  }

  lemma LinkIndex(s: State, t: string, i: nat, u: string, j: nat, key: string)
    requires IsLink(s, t, i, key) && IsLink(s, u, j, key)
    ensures t == u && i == j
  {
    NumberOfName(i);
    NumberOfName(j);
  }

  // The request's result takes its target from its current version to the next.
  ghost predicate Extends(s: State, req: Request, result: Result) {
    && req.idempotencyKey !in s.results
    && result.target == req.target && result.inputVersion == CurrentVersion(s, req.target)
    && result.outputVersion == VersionName(VersionNumber(s, req.target) + 1)
  }

  lemma OldLinksStay(s: State, req: Request, result: Result, t: string, i: nat, key: string)
    requires Extends(s, req, result)
    ensures key != req.idempotencyKey ==> (IsLink(Record(s, req, result), t, i, key) <==> IsLink(s, t, i, key))
  {
  }

  lemma NewVersions(s: State, req: Request, result: Result)
    requires Chained(s) && Extends(s, req, result)
    ensures var u, n := Record(s, req, result), VersionNumber(s, req.target);
      && VersionNumber(u, req.target) == n + 1 && IsLink(u, req.target, n, req.idempotencyKey)
      && (forall t :: VersionNumber(s, t) <= VersionNumber(u, t))
      && (forall t | t != req.target :: VersionNumber(u, t) == VersionNumber(s, t))
      && (forall t :: CurrentVersion(u, t) == VersionName(VersionNumber(u, t)))
  {
    var u := Record(s, req, result);
    NumberOfName(VersionNumber(s, req.target) + 1);
    forall t ensures CurrentVersion(u, t) == VersionName(VersionNumber(u, t)) {
      assert t != req.target ==> CurrentVersion(u, t) == CurrentVersion(s, t);
    }
    forall t | t != req.target ensures VersionNumber(u, t) == VersionNumber(s, t) {
      assert CurrentVersion(u, t) == CurrentVersion(s, t);
    }
  }

  lemma ResultStaysOnChain(s: State, req: Request, result: Result, key: string)
    requires Chained(s) && Extends(s, req, result) && key in s.results
    ensures key in Record(s, req, result).results && IsOnChain(Record(s, req, result), key)
  {
    NewVersions(s, req, result);
    assert IsOnChain(s, key);
    var i: nat :| i < VersionNumber(s, s.results[key].target) && IsLink(s, s.results[key].target, i, key);
    OldLinksStay(s, req, result, s.results[key].target, i, key);
  }

  lemma NoGap(s: State, req: Request, result: Result, t: string, i: nat)
    requires Chained(s) && Extends(s, req, result) && i < VersionNumber(Record(s, req, result), t)
    ensures HasLink(Record(s, req, result), t, i)
  {
    NewVersions(s, req, result);
    if i < VersionNumber(s, t) {
      assert HasLink(s, t, i);
      var key :| IsLink(s, t, i, key);
      OldLinksStay(s, req, result, t, i, key);
      assert IsLink(Record(s, req, result), t, i, key);
    }
  }

  lemma RecordKeepsChained(s: State, req: Request, result: Result)
    requires Chained(s) && Extends(s, req, result)
    ensures Chained(Record(s, req, result))
  {
    var u := Record(s, req, result);
    NewVersions(s, req, result);
    forall key | key in u.results ensures IsOnChain(u, key) {
      if key != req.idempotencyKey {
        ResultStaysOnChain(s, req, result, key);
      }
    }
    forall t, i: nat | i < VersionNumber(u, t) ensures HasLink(u, t, i) {
      NoGap(s, req, result, t, i);
    }
    forall t, i, j, k | IsLink(u, t, i, j) && IsLink(u, t, i, k) ensures j == k {
      NoSecondLink(s, req, result, t, i, j);
      NoSecondLink(s, req, result, t, i, k);
      OldLinksStay(s, req, result, t, i, j);
      OldLinksStay(s, req, result, t, i, k);
    }
  }

  // The new link is the only one from the version it started at.
  lemma NoSecondLink(s: State, req: Request, result: Result, x: string, i: nat, key: string)
    requires Chained(s) && Extends(s, req, result)
    requires IsLink(Record(s, req, result), x, i, key)
    ensures x == req.target && i == VersionNumber(s, req.target) <==> key == req.idempotencyKey
  {
    NumberOfName(i);
    if key != req.idempotencyKey {
      assert IsOnChain(s, key);
      var j: nat :| j < VersionNumber(s, s.results[key].target) && IsLink(s, s.results[key].target, j, key);
      assert IsLink(s, x, i, key);
      LinkIndex(s, x, i, s.results[key].target, j, key);
    }
  }

  lemma RecordKeepsCounted(s: State, req: Request, result: Result)
    requires Counted(s) && Chained(s)
    requires req.idempotencyKey !in s.results && req.nonce !in s.nonces
    requires result.outputVersion == VersionName(VersionNumber(s, req.target) + 1)
    ensures Counted(Record(s, req, result))
  {
    var n := VersionNumber(s, req.target);
    NumberOfName(n + 1);
    VersionRaised(s.versions, req.target, result.outputVersion, n);
    OneMore(s.results, req.idempotencyKey, result);
  }

  lemma VersionRaised(versions: map<string, string>, t: string, v: string, n: nat)
    requires Number(v) == n + 1 && Number(if t in versions then versions[t] else "v0") == n
    ensures Total(versions[t := v]) == Total(versions) + 1
  {
    NumberOfName(0);
    assert VersionName(0) == "v0";
    TotalUpdate(versions, t, v);
  }

  lemma OneMore<V>(m: map<string, V>, k: string, v: V)
    requires k !in m
    ensures |m[k := v]| == |m| + 1
  {
    assert m[k := v].Keys == m.Keys + {k};
    assert |m[k := v]| == |m[k := v].Keys| && |m| == |m.Keys|;
  }

  lemma StepKeepsInvariant(short: string -> string, s: State, step: Step)
    requires Chained(s) && Counted(s)
    ensures Chained(Apply(short, s, step)) && Counted(Apply(short, s, step))
  {
    match step
    case Stage(target, decisionClass, at, diff) =>
      SameChains(s, Apply(short, s, step));
    case Act(session, req, now) =>
      var o := OutcomeOf(short, s, session, req, now);
      if o.Applied? {
        NextOfName(short, VersionNumber(s, req.target));
        RecordKeepsChained(s, req, o.result);
        RecordKeepsCounted(s, req, o.result);
      }
  }

  lemma SameChains(s: State, t: State)
    requires s.versions == t.versions && s.results == t.results && Chained(s)
    ensures Chained(t)
  {
    assert forall x, i, k :: IsLink(t, x, i, k) <==> IsLink(s, x, i, k);
    forall x ensures CurrentVersion(t, x) == VersionName(VersionNumber(t, x)) {
      assert CurrentVersion(t, x) == CurrentVersion(s, x);
    }
    forall key | key in t.results ensures IsOnChain(t, key) {
      assert IsOnChain(s, key);
    }
    forall x, i: nat | i < VersionNumber(t, x) ensures HasLink(t, x, i) {
      assert HasLink(s, x, i);
    }
  }

  lemma StartInvariant()
    ensures Chained(START) && Counted(START)
  {
    assert VersionName(0) == "v0";
    NumberOfName(0);
  }

  // In every reachable state the number of nonces, the number of cached results and the sum
  // of all version numbers are one number, and each target's results are a gapless, unforked
  // chain from v0 to its current version.
  lemma {:induction false} ReachableInvariant(short: string -> string, steps: seq<Step>)
    ensures Chained(Run(short, steps)) && Counted(Run(short, steps))
  {
    if steps == [] {
      StartInvariant();
    } else {
      ReachableInvariant(short, steps[..|steps| - 1]);
      StepKeepsInvariant(short, Run(short, steps[..|steps| - 1]), steps[|steps| - 1]);
    }
  }

  // So the source's integer parse never raises and its hash fallback is never taken: after
  // version n of a reachable state comes version n + 1.
  lemma NextVersionIsNumeric(short: string -> string, steps: seq<Step>, target: string)
    ensures NextVersion(short, CurrentVersion(Run(short, steps), target))
         == Some(VersionName(VersionNumber(Run(short, steps), target) + 1))
  {
    ReachableInvariant(short, steps);
    NextOfName(short, VersionNumber(Run(short, steps), target));
  }

  // ------------------------------------------------------------------ the cooling period

  // Step i of the run is an applied request of a cooling class.
  ghost predicate Confirms(short: string -> string, steps: seq<Step>, i: nat, key: (string, string))
    requires i < |steps|
  {
    && steps[i].Act? && NeedsCooling(steps[i].req.decisionClass)
    && key == (steps[i].req.target, steps[i].req.decisionClass)
    && OutcomeOf(short, Run(short, steps[..i]), steps[i].session, steps[i].req, steps[i].now).Applied?
  }

  predicate Stages(steps: seq<Step>, i: nat, key: (string, string))
    requires i < |steps|
  {
    steps[i].Stage? && (steps[i].target, steps[i].decisionClass) == key
  }

  // The staging of the key that no later staging or confirmation of it has ended.
  ghost function Pending(short: string -> string, steps: seq<Step>, key: (string, string)): Option<nat> {
    if steps == [] then None
    else if Stages(steps, |steps| - 1, key) then Some(|steps| - 1)
    else if Confirms(short, steps, |steps| - 1, key) then None
    else Pending(short, steps[..|steps| - 1], key)
  }

  lemma {:induction false} PendingMeaning(short: string -> string, steps: seq<Step>, key: (string, string))
    ensures Pending(short, steps, key).Some? ==>
      var j := Pending(short, steps, key).value;
      && j < |steps| && Stages(steps, j, key)
      && forall k | j < k < |steps| :: !Stages(steps, k, key) && !Confirms(short, steps, k, key)
  {
    if steps != [] && !Stages(steps, |steps| - 1, key) && !Confirms(short, steps, |steps| - 1, key) {
      var init := steps[..|steps| - 1];
      PendingMeaning(short, init, key);
      forall k | 0 <= k < |init|
        ensures Stages(steps, k, key) <==> Stages(init, k, key)
        ensures Confirms(short, steps, k, key) <==> Confirms(short, init, k, key)
      {
        assert steps[..k] == init[..k];
      }
    }
  }

  // What is staged under a key is what its pending staging put there.
  lemma {:induction false} StagedIsPending(short: string -> string, steps: seq<Step>, key: (string, string))
    ensures key in Run(short, steps).staged && NeedsCooling(key.1) <==>
            Pending(short, steps, key).Some? && NeedsCooling(key.1)
    ensures Pending(short, steps, key).Some? && NeedsCooling(key.1) ==>
      var j := Pending(short, steps, key).value;
      && j < |steps| && steps[j].Stage?
      && Run(short, steps).staged[key] == Staging(steps[j].at.date, steps[j].diff)
  {
    if steps != [] {
      var init, last := steps[..|steps| - 1], steps[|steps| - 1];
      StagedIsPending(short, init, key);
      if !Stages(steps, |steps| - 1, key) && Pending(short, init, key).Some? {
        PendingMeaning(short, init, key);
        assert steps[Pending(short, init, key).value] == init[Pending(short, init, key).value];
      }
    }
  }

  // Over any run, an applied decision of a cooling class confirms a staging of its own: the
  // latest one of its target and class, made on an earlier date with the same diff and not
  // confirmed or replaced in between.  Only material corrections ever get that far.
  lemma ConfirmationHasItsStaging(short: string -> string, steps: seq<Step>, i: nat, key: (string, string))
    returns (j: nat)
    requires i < |steps| && Confirms(short, steps, i, key)
    ensures j < i && Stages(steps, j, key)
    ensures steps[j].at.date < steps[i].now.date && steps[i].req.freshDiff == Some(steps[j].diff)
    ensures forall k | j < k < i :: !Stages(steps, k, key) && !Confirms(short, steps, k, key)
    ensures key.1 == "material_correction"
  {
    var init := steps[..i];
    var s := Run(short, init);
    AppliedExactly(short, s, steps[i].session, steps[i].req, steps[i].now);
    StagedIsPending(short, init, key);
    PendingMeaning(short, init, key);
    j := Pending(short, init, key).value;
    forall k | 0 <= k < i
      ensures Stages(steps, k, key) <==> Stages(init, k, key)
      ensures Confirms(short, steps, k, key) <==> Confirms(short, init, k, key)
    {
      assert steps[..k] == init[..k];
    }
  }

  // Two confirmations never share a staging: the later one's staging comes after the earlier
  // confirmation.
  lemma StagingsAreNotShared(short: string -> string, steps: seq<Step>, i: nat, k: nat, key: (string, string))
    requires i < k < |steps| && Confirms(short, steps, i, key) && Confirms(short, steps, k, key)
    ensures exists j: nat :: i < j < k && Stages(steps, j, key)
  {
    var j := ConfirmationHasItsStaging(short, steps, k, key);
    assert j != i;
    assert i < j;
  }

  ghost function Stagings(steps: seq<Step>, key: (string, string)): nat {
    if steps == [] then 0
    else Stagings(steps[..|steps| - 1], key) + if Stages(steps, |steps| - 1, key) then 1 else 0
  }

  ghost function Confirmations(short: string -> string, steps: seq<Step>, key: (string, string)): nat {
    if steps == [] then 0
    else
      Confirmations(short, steps[..|steps| - 1], key)
      + if Confirms(short, steps, |steps| - 1, key) then 1 else 0
  }

  // Confirmations never outnumber stagings, and a staging still waiting is one to spare.
  lemma {:induction false} ConfirmationsAreStaged(short: string -> string, steps: seq<Step>, key: (string, string))
    ensures Confirmations(short, steps, key) + (if Pending(short, steps, key).Some? then 1 else 0)
            <= Stagings(steps, key)
  {
    if steps != [] {
      var init, n := steps[..|steps| - 1], |steps| - 1;
      ConfirmationsAreStaged(short, init, key);
      if Confirms(short, steps, n, key) {
        AppliedExactly(short, Run(short, init), steps[n].session, steps[n].req, steps[n].now);
        StagedIsPending(short, init, key);
      }
    }
  }

  // A bulk call that is not refused outright consumes no staging, whatever it applies.
  lemma {:induction false} BulkConsumesNoStaging(short: string -> string, s: State, session: Session,
                                                 reqs: seq<Request>, now: Timestamp)
    requires forall r | r in reqs :: !IsSensitive(r.decisionClass)
    ensures RunFrom(short, s, Acts(session, reqs, now)).staged == s.staged
  {
    if reqs != [] {
      var init, last := reqs[..|reqs| - 1], reqs[|reqs| - 1];
      var steps := Acts(session, reqs, now);
      BulkConsumesNoStaging(short, s, session, init, now);
      assert steps[..|steps| - 1] == Acts(session, init, now);
      assert !IsSensitive(last.decisionClass);
      var t := RunFrom(short, s, Acts(session, init, now));
      AppliedExactly(short, t, session, last, now);
      assert RequiredRole(last.decisionClass).Some? ==> !NeedsCooling(last.decisionClass);
    }
  }

  lemma {:induction false} RequestsIdleExactly(short: string -> string, s: State, session: Session,
                                               reqs: seq<Request>, now: Timestamp)
    ensures RunFrom(short, s, Acts(session, reqs, now)) == s <==>
            forall i | 0 <= i < |reqs| :: !OutcomeOf(short, s, session, reqs[i], now).Applied?
  {
    if reqs == [] {
    } else {
      var init, last := reqs[..|reqs| - 1], reqs[|reqs| - 1];
      var steps := Acts(session, reqs, now);
      assert steps[..|steps| - 1] == Acts(session, init, now);
      RequestsIdleExactly(short, s, session, init, now);
      var t := RunFrom(short, s, Acts(session, init, now));
      NoncesGrow(short, s, Acts(session, init, now));
      AppliedExactly(short, t, session, last, now);
      if t == s {
        forall i | 0 <= i < |reqs| - 1 ensures !OutcomeOf(short, s, session, reqs[i], now).Applied? {
          assert reqs[i] == init[i];
        }
      } else {
        var i :| 0 <= i < |init| && OutcomeOf(short, s, session, init[i], now).Applied?;
        assert reqs[i] == init[i];
        NoncesGrow(short, t, [Act(session, last, now)]);
        SameNoncesSameState(short, s, steps);
      }
    }
  }

  // A bulk call that raises part of the way keeps what it applied before.  It leaves the state
  // as it was exactly when, as the state is before the call, every request that could be
  // applied comes after one that would raise.
  lemma BulkIsNotAtomic(short: string -> string, s: State, session: Session, reqs: seq<Request>, now: Timestamp, n: nat)
    requires n <= |reqs| && StopsAt(short, s, session, reqs, now, n)
    ensures BulkState(short, s, session, reqs, now, n) == s <==> RaisesBeforeApplying(short, s, session, reqs, now)
  {
    assert forall k | 0 <= k < n :: reqs[..n][k] == reqs[k];
    RequestsIdleExactly(short, s, session, reqs[..n], now);
    if BulkState(short, s, session, reqs, now, n) == s {
      forall i | 0 <= i < |reqs| && OutcomeOf(short, s, session, reqs[i], now).Applied?
        ensures exists j :: 0 <= j < i && OutcomeOf(short, s, session, reqs[j], now).Raised?
      {
        assert n < |reqs| ==> OutcomeOf(short, s, session, reqs[n], now).Raised?;
      }
    } else {
      var i := FirstApplied(short, s, session, reqs[..n], now);
      forall j | 0 <= j < i ensures !OutcomeOf(short, s, session, reqs[j], now).Raised? {
        AtTurn(short, s, session, reqs, now, j);
        assert ResultAt(short, s, session, reqs, now, j).Some?;
      }
    }
  }

  // Where nothing before it is applied, a request meets the state before the call.
  lemma AtTurn(short: string -> string, s: State, session: Session, reqs: seq<Request>, now: Timestamp, j: nat)
    requires j < |reqs| && forall k | 0 <= k < j :: !OutcomeOf(short, s, session, reqs[k], now).Applied?
    ensures BulkState(short, s, session, reqs, now, j) == s
  {
    assert forall k | 0 <= k < j :: reqs[..j][k] == reqs[k];
    RequestsIdleExactly(short, s, session, reqs[..j], now);
  }

  lemma FirstApplied(short: string -> string, s: State, session: Session, reqs: seq<Request>, now: Timestamp)
    returns (i: nat)
    requires exists k :: 0 <= k < |reqs| && OutcomeOf(short, s, session, reqs[k], now).Applied?
    ensures i < |reqs| && OutcomeOf(short, s, session, reqs[i], now).Applied?
    ensures forall k | 0 <= k < i :: !OutcomeOf(short, s, session, reqs[k], now).Applied?
  {
    i := 0;
    while !OutcomeOf(short, s, session, reqs[i], now).Applied?
      invariant i < |reqs|
      invariant forall k | 0 <= k < i :: !OutcomeOf(short, s, session, reqs[k], now).Applied?
      decreases |reqs| - i
    {
      i := i + 1;
    }
  }

  // Such a call, from the start: the same nonce under two idempotency keys.  The second request
  // raises and the first stays applied.
  lemma RaisingBulkCallKeepsFirst(short: string -> string, session: Session, req: Request, now: Timestamp, key: string)
    requires SessionOk(session, req.csrf, now) && req.action in ACTIONS && RoleOk(req, session)
    requires req.decisionClass == "ordinary_review" && req.expectedVersion == "v0"
    requires req.editedAssertion.None? && key != req.idempotencyKey
    ensures var again := req.(idempotencyKey := key);
      var s := RunFrom(short, START, Acts(session, [req], now));
      && OutcomeOf(short, START, session, req, now).Applied?
      && s != START && OutcomeOf(short, s, session, again, now) == Raised(ReplayError)
  {
    NextVersionIsNumeric(short, [], req.target);
    AppliedExactly(short, START, session, req, now);
    assert Acts(session, [req], now) == [Act(session, req, now)];
    assert [Act(session, req, now)][..0] == [];
  }

  lemma {:induction false} NoncesGrow(short: string -> string, s: State, steps: seq<Step>)
    ensures s.nonces <= RunFrom(short, s, steps).nonces
  {
    if steps != [] {
      NoncesGrow(short, s, steps[..|steps| - 1]);
    }
  }

  // Requests change the state only by adding a nonce.
  lemma {:induction false} SameNoncesSameState(short: string -> string, s: State, steps: seq<Step>)
    requires forall step | step in steps :: step.Act?
    ensures RunFrom(short, s, steps).nonces == s.nonces ==> RunFrom(short, s, steps) == s
  {
    if steps != [] {
      var init, last := steps[..|steps| - 1], steps[|steps| - 1];
      SameNoncesSameState(short, s, init);
      NoncesGrow(short, s, init);
      var t := RunFrom(short, s, init);
      AppliedExactly(short, t, last.session, last.req, last.now);
    }
  }
}
