/** Exact identity resolution: an index from matter keys to records that attaches new keys
    but never merges two records. */
module Identity {
  import opened Wrappers
  import opened Strings
  import opened Sorting

  datatype Identifier = Identifier(kind: string, value: string)

  const AUTHORITATIVE := "authoritative_id"
  const DOCKET := "docket_id"
  const CITATION := "neutral_citation"
  const ARTIFACT := "artifact_hash"

  // Matter-level kinds, strongest first.
  const MATTER_KINDS: seq<string> := [AUTHORITATIVE, DOCKET, CITATION]

  // str.lower, str.upper and the truncated SHA-256 of a text are library functions.
  datatype Library = Library(lower: string -> string, upper: string -> string, digest: string -> string)

  // The hypothesis on the digest: no two of the given texts share one.
  ghost predicate NoCollision(lib: Library, texts: set<string>) {
    forall a, b | a in texts && b in texts && lib.digest(a) == lib.digest(b) :: a == b
  }

  predicate IsHexDigest(v: string) {
    |v| == 64 && forall i | 0 <= i < |v| :: IsDigit(v[i]) || 'a' <= v[i] <= 'f'
  }

  // The comparison-stable form of an identifier; None where the source raises.
  function Normalize(lib: Library, kind: string, value: string): Option<string> {
    var v := Collapsed(value);
    if kind == ARTIFACT then
      var h := WithoutSpaces(lib.lower(v));
      if IsHexDigest(h) then Some(h) else None
    else if kind == CITATION then Some(WithoutSpaces(lib.upper(v)))
    else if kind == DOCKET || kind == AUTHORITATIVE then Some(lib.lower(v))
    else None
  }

  function Key(lib: Library, i: Identifier): string
    requires i.kind in MATTER_KINDS
  {
    i.kind + ":" + Normalize(lib, i.kind, i.value).value
  }

  // The matter keys of a call, in order.
  function MatterKeys(lib: Library, ids: seq<Identifier>): seq<string> {
    if ids == [] then []
    else
      var i := ids[|ids| - 1];
      MatterKeys(lib, ids[..|ids| - 1]) + if i.kind in MATTER_KINDS then [Key(lib, i)] else []
  }

  // ------------------------------------------------------------------ what identifiers are alike

  // Docket and authoritative ids are alike when their words are, letter case apart; for texts
  // that are lower case already, exactly then.
  lemma IdsAlike(lib: Library, kind: string, a: string, b: string)
    requires kind == "docket_id" || kind == "authoritative_id"
    ensures Normalize(lib, kind, a).Some?
    ensures Words(a) == Words(b) ==> Normalize(lib, kind, a) == Normalize(lib, kind, b)
    ensures lib.lower(Collapsed(a)) == Collapsed(a) && lib.lower(Collapsed(b)) == Collapsed(b) ==>
              (Normalize(lib, kind, a) == Normalize(lib, kind, b) <==> Words(a) == Words(b))
  {
    CollapsedAlike(a, b);
  }

  // Of a citation in upper case everything but the whitespace counts.
  lemma CitationIsItsText(lib: Library, a: string)
    requires lib.upper(Collapsed(a)) == Collapsed(a)
    ensures Normalize(lib, "neutral_citation", a) == Some(NonSpace(a))
  {
    CollapsedWithoutSpaces(a);
  }

  // An artifact hash in lower case is well formed exactly when it has sixty-four hexadecimal
  // digits, whitespace apart.
  lemma HashIsItsDigits(lib: Library, a: string)
    requires lib.lower(Collapsed(a)) == Collapsed(a)
    ensures var h := NonSpace(a);
      Normalize(lib, "artifact_hash", a)
      == if |h| == 64 && forall i | 0 <= i < |h| :: '0' <= h[i] <= '9' || 'a' <= h[i] <= 'f' then Some(h) else None
  {
    CollapsedWithoutSpaces(a);
  }

  // The matter keys of a call: kind, colon and normal form of each identifier of the three
  // matter kinds.
  lemma {:induction false} KeysMeaning(lib: Library, ids: seq<Identifier>, k: string)
    ensures k in MatterKeys(lib, ids) <==>
      exists i :: i in ids && i.kind in {"authoritative_id", "docket_id", "neutral_citation"}
        && Normalize(lib, i.kind, i.value).Some? && k == i.kind + ":" + Normalize(lib, i.kind, i.value).value
  {
    if ids != [] {
      var init, last := ids[..|ids| - 1], ids[|ids| - 1];
      KeysMeaning(lib, init, k);
      assert ids == init + [last];
    }
  }

  predicate HasKind(key: string, kind: string) {
    kind + ":" <= key
  }

  function OfKind(keys: seq<string>, kind: string): seq<string> {
    if keys == [] then []
    else (if HasKind(keys[0], kind) then [keys[0]] else []) + OfKind(keys[1..], kind)
  }

  // The key a new record is named after: the least key of the strongest kind present.
  function LeadKey(keys: seq<string>): Option<string> {
    if OfKind(keys, AUTHORITATIVE) != [] then Least(OfKind(keys, AUTHORITATIVE))
    else if OfKind(keys, DOCKET) != [] then Least(OfKind(keys, DOCKET))
    else if OfKind(keys, CITATION) != [] then Least(OfKind(keys, CITATION))
    else None
  }

  function Least(keys: seq<string>): Option<string> {
    var s := StableSort(LexLeq, keys);
    if s == [] then None else Some(s[0])
  }

  function RecordId(lib: Library, lead: string): string {
    "rec_" + lib.digest(lead)
  }

  lemma LexPreorder()
    ensures TotalPreorder(LexLeq)
  {
    forall x: string, y: string ensures LexLeq(x, y) || LexLeq(y, x) {
      LexTotal(x, y);
    }
    forall x: string, y: string, z: string | LexLeq(x, y) && LexLeq(y, z) ensures LexLeq(x, z) {
      LexTransitive(x, y, z);
    }
  }

  lemma LeastIsLeast(keys: seq<string>)
    ensures Least(keys).None? <==> keys == []
    ensures Least(keys).Some? ==>
              && Least(keys).value in keys
              && forall k | k in keys :: LexLeq(Least(keys).value, k)
  {
    LexPreorder();
    SortSorts(LexLeq, keys);
    var s := StableSort(LexLeq, keys);
    forall k ensures k in s <==> k in keys {
      assert k in multiset(s) <==> k in multiset(keys);
    }
    if keys != [] {
      LexTotal(s[0], s[0]);
    }
  }

  lemma {:induction false} OfKindMembers(keys: seq<string>, kind: string, k: string)
    ensures k in OfKind(keys, kind) <==> k in keys && HasKind(k, kind)
  {
    if keys != [] {
      OfKindMembers(keys[1..], kind, k);
    }
  }

  // The record a call would create depends on which keys it carries, not on their order or
  // repetition.
  lemma LeadKeyOrderFree(a: seq<string>, b: seq<string>)
    requires forall k :: k in a <==> k in b
    ensures LeadKey(a) == LeadKey(b)
  {
    LeastOrderFree(a, b, AUTHORITATIVE);
    LeastOrderFree(a, b, DOCKET);
    LeastOrderFree(a, b, CITATION);
  }

  lemma LeastOrderFree(a: seq<string>, b: seq<string>, kind: string)
    requires forall k :: k in a <==> k in b
    ensures OfKind(a, kind) == [] <==> OfKind(b, kind) == []
    ensures Least(OfKind(a, kind)) == Least(OfKind(b, kind))
  {
    var u, v := OfKind(a, kind), OfKind(b, kind);
    forall k ensures k in u <==> k in v {
      OfKindMembers(a, kind, k);
      OfKindMembers(b, kind, k);
    }
    LeastIsLeast(u);
    LeastIsLeast(v);
    if u != [] {
      assert u[0] in v;
      LexAntisymmetric(Least(u).value, Least(v).value);
    }
    assert v != [] ==> v[0] in u;
  }

  // How strong the kind of a key is, strongest first.
  function Precedence(key: string): nat {
    if HasKind(key, AUTHORITATIVE) then 0 else if HasKind(key, DOCKET) then 1
    else if HasKind(key, CITATION) then 2 else 3
  }

  // A new record is named after the least key of the strongest kind among the call's keys.
  lemma LeadKeyIsStrongest(keys: seq<string>, k: string)
    requires LeadKey(keys).Some? && k in keys
    ensures var lead := LeadKey(keys).value;
      && lead in keys
      && (Precedence(lead) < Precedence(k) || (Precedence(lead) == Precedence(k) && LexLeq(lead, k)))
  {
    var lead := LeadKey(keys).value;
    KindsDiffer(k);
    KindsDiffer(lead);
    LeastIsLeast(OfKind(keys, AUTHORITATIVE));
    LeastIsLeast(OfKind(keys, DOCKET));
    LeastIsLeast(OfKind(keys, CITATION));
    MembersOfKinds(keys, k);
    MembersOfKinds(keys, lead);
  }

  lemma KindsDiffer(k: string)
    ensures HasKind(k, AUTHORITATIVE) ==> !HasKind(k, DOCKET) && !HasKind(k, CITATION)
    ensures HasKind(k, DOCKET) ==> !HasKind(k, CITATION)
  {
    assert HasKind(k, AUTHORITATIVE) ==> k[0] == (AUTHORITATIVE + ":")[0] == 'a';
    assert HasKind(k, DOCKET) ==> k[0] == (DOCKET + ":")[0] == 'd';
    assert HasKind(k, CITATION) ==> k[0] == (CITATION + ":")[0] == 'n';
  }

  lemma MembersOfKinds(keys: seq<string>, k: string)
    ensures k in OfKind(keys, AUTHORITATIVE) <==> k in keys && HasKind(k, AUTHORITATIVE)
    ensures k in OfKind(keys, DOCKET) <==> k in keys && HasKind(k, DOCKET)
    ensures k in OfKind(keys, CITATION) <==> k in keys && HasKind(k, CITATION)
  {
    OfKindMembers(keys, AUTHORITATIVE, k);
    OfKindMembers(keys, DOCKET, k);
    OfKindMembers(keys, CITATION, k);
  }

  lemma {:induction false} MatterKeysHaveKinds(lib: Library, ids: seq<Identifier>)
    ensures forall k | k in MatterKeys(lib, ids) ::
        HasKind(k, AUTHORITATIVE) || HasKind(k, DOCKET) || HasKind(k, CITATION)
  {
    if ids != [] {
      MatterKeysHaveKinds(lib, ids[..|ids| - 1]);
    }
  }

  // A call with a matter key always has a lead key, and it is one of its keys.
  lemma LeadKeyExists(lib: Library, ids: seq<Identifier>)
    requires MatterKeys(lib, ids) != []
    ensures LeadKey(MatterKeys(lib, ids)).Some?
    ensures LeadKey(MatterKeys(lib, ids)).value in MatterKeys(lib, ids)
  {
    var keys := MatterKeys(lib, ids);
    MatterKeysHaveKinds(lib, ids);
    assert keys[0] in keys;
    OfKindMembers(keys, AUTHORITATIVE, keys[0]);
    OfKindMembers(keys, DOCKET, keys[0]);
    OfKindMembers(keys, CITATION, keys[0]);
    LeastIsLeast(OfKind(keys, AUTHORITATIVE));
    LeastIsLeast(OfKind(keys, DOCKET));
    LeastIsLeast(OfKind(keys, CITATION));
    var lead := LeadKey(keys).value;
    OfKindMembers(keys, AUTHORITATIVE, lead);
    OfKindMembers(keys, DOCKET, lead);
    OfKindMembers(keys, CITATION, lead);
  }

  // ------------------------------------------------------------------ one call

  datatype Index = Index(
    byKey: map<string, string>,
    aliases: map<string, set<string>>,
    documents: map<string, set<string>>)

  const EMPTY := Index(map[], map[], map[])

  datatype Outcome =
    | Resolved(recordId: string, isNew: bool)
    | NoMatterIdentifier
    | Conflict(recordIds: set<string>)
    | MalformedHash

  function Elements(keys: seq<string>): set<string> {
    set k | k in keys
  }

  // The records the keys already belong to.
  function Existing(byKey: map<string, string>, keys: seq<string>): set<string> {
    set k | k in keys && k in byKey :: byKey[k]
  }

  function At(m: map<string, set<string>>, k: string): set<string> {
    if k in m then m[k] else {}
  }

  function Stored(byKey: map<string, string>, keys: seq<string>, r: string): map<string, string> {
    byKey + map k | k in keys :: r
  }

  lemma StoredSnoc(byKey: map<string, string>, keys: seq<string>, k: string, r: string)
    ensures Stored(byKey, keys + [k], r) == Stored(byKey, keys, r)[k := r]
    ensures Elements(keys + [k]) == Elements(keys) + {k}
  {
  }

  function Attach(s: Index, keys: seq<string>, r: string): Index {
    s.(byKey := Stored(s.byKey, keys, r),
       aliases := s.aliases[r := At(s.aliases, r) + Elements(keys)])
  }

  // Links the well-formed artifact hashes that precede the first malformed one.
  function LinkAll(lib: Library, documents: map<string, set<string>>, ids: seq<Identifier>, r: string)
    : (map<string, set<string>>, bool)
    decreases |ids|
  {
    if ids == [] then (documents, true)
    else if ids[0].kind != ARTIFACT then LinkAll(lib, documents, ids[1..], r)
    else
      match Normalize(lib, ARTIFACT, ids[0].value)
      case None => (documents, false)
      case Some(h) => LinkAll(lib, documents[h := At(documents, h) + {r}], ids[1..], r)
  }

  // The record a call that is not refused resolves to.
  ghost function Target(lib: Library, s: Index, keys: seq<string>): string
    requires |Existing(s.byKey, keys)| <= 1
    requires Existing(s.byKey, keys) == {} ==> LeadKey(keys).Some?
  {
    if Existing(s.byKey, keys) == {} then RecordId(lib, LeadKey(keys).value)
    else var r :| r in Existing(s.byKey, keys); r
  }

  ghost predicate Refused(lib: Library, s: Index, ids: seq<Identifier>) {
    MatterKeys(lib, ids) == [] || |Existing(s.byKey, MatterKeys(lib, ids))| > 1
  }

  // The whole effect of one call.
  ghost function Resolve(lib: Library, s: Index, ids: seq<Identifier>): (Index, Outcome) {
    var keys := MatterKeys(lib, ids);
    if keys == [] then (s, NoMatterIdentifier)
    else if |Existing(s.byKey, keys)| > 1 then (s, Conflict(Existing(s.byKey, keys)))
    else
      LeadKeyExists(lib, ids);
      var r := Target(lib, s, keys);
      var (documents, ok) := LinkAll(lib, s.documents, ids, r);
      (Attach(s, keys, r).(documents := documents),
       if ok then Resolved(r, At(s.aliases, r) == {}) else MalformedHash)
  }

  class IdentityResolver {
    const lib: Library
    var byKey: map<string, string>
    var aliases: map<string, set<string>>
    var docIndex: map<string, set<string>>

    ghost function State(): Index
      reads this
    {
      Index(byKey, aliases, docIndex)
    }

    constructor (lib: Library)
      ensures State() == EMPTY && this.lib == lib
    {
      this.lib := lib;
      byKey, aliases, docIndex := map[], map[], map[];
    }

    method ResolveIdentifiers(identifiers: seq<Identifier>) returns (outcome: Outcome)
      modifies this
      ensures (State(), outcome) == Resolve(lib, old(State()), identifiers)
    {
      var keys := CollectKeys(identifiers);
      if keys == [] {
        return NoMatterIdentifier;
      }
      var existing := set k | k in keys && k in byKey :: byKey[k];
      if |existing| > 1 {
        return Conflict(existing);
      }
      LeadKeyExists(lib, identifiers);
      var recordId: string;
      if existing != {} {
        recordId :| recordId in existing;
        AtMostOne(existing, recordId, Target(lib, State(), keys));
      } else {
        recordId := RecordId(lib, LeadKey(keys).value);
      }
      var isNew := recordId !in aliases || aliases[recordId] == {};
      StoreKeys(keys, recordId);
      var ok := LinkDocuments(identifiers, recordId);
      if !ok {
        return MalformedHash;
      }
      return Resolved(recordId, isNew);
    }

    method StoreKeys(keys: seq<string>, recordId: string)
      modifies this`byKey, this`aliases
      ensures State() == Attach(old(State()), keys, recordId)
    {
      var bucket := if recordId in aliases then aliases[recordId] else {};
      for i := 0 to |keys|
        invariant byKey == Stored(old(byKey), keys[..i], recordId)
        invariant bucket == At(old(aliases), recordId) + Elements(keys[..i])
        invariant aliases == old(aliases)
      {
        StoredSnoc(old(byKey), keys[..i], keys[i], recordId);
        assert keys[..i + 1] == keys[..i] + [keys[i]];
        byKey := byKey[keys[i] := recordId];
        bucket := bucket + {keys[i]};
      }
      assert keys[..|keys|] == keys;
      aliases := aliases[recordId := bucket];
    }

    method CollectKeys(identifiers: seq<Identifier>) returns (keys: seq<string>)
      ensures keys == MatterKeys(lib, identifiers)
    {
      keys := [];
      for i := 0 to |identifiers|
        invariant keys == MatterKeys(lib, identifiers[..i])
      {
        assert identifiers[..i + 1][..i] == identifiers[..i];
        if identifiers[i].kind in MATTER_KINDS {
          keys := keys + [Key(lib, identifiers[i])];
        }
      }
      assert identifiers[..|identifiers|] == identifiers;
    }

    // Records the artifact hashes as document links, up to the first malformed one.
    method LinkDocuments(identifiers: seq<Identifier>, recordId: string) returns (ok: bool)
      modifies this`docIndex
      ensures (docIndex, ok) == LinkAll(lib, old(docIndex), identifiers, recordId)
    {
      for i := 0 to |identifiers|
        invariant LinkAll(lib, docIndex, identifiers[i..], recordId)
               == LinkAll(lib, old(docIndex), identifiers, recordId)
      {
        assert identifiers[i..][1..] == identifiers[i + 1..];
        if identifiers[i].kind == ARTIFACT {
          var h := Normalize(lib, ARTIFACT, identifiers[i].value);
          if h.None? {
            return false;
          }
          docIndex := docIndex[h.value := At(docIndex, h.value) + {recordId}];
        }
      }
      return true;
    }
  }

  lemma AtMostOne(s: set<string>, a: string, b: string)
    requires |s| <= 1 && a in s && b in s
    ensures a == b
  {
    assert |s - {a}| == |s| - 1;
    assert b !in s - {a};
  }

  // ------------------------------------------------------------------ runs

  type Call = seq<Identifier>

  ghost function Run(lib: Library, calls: seq<Call>): Index {
    if calls == [] then EMPTY
    else Resolve(lib, Run(lib, calls[..|calls| - 1]), calls[|calls| - 1]).0
  }

  // The key sets of the calls that were not refused, in order.
  ghost function Accepted(lib: Library, calls: seq<Call>): seq<set<string>> {
    if calls == [] then []
    else
      var init, call := calls[..|calls| - 1], calls[|calls| - 1];
      Accepted(lib, init)
      + if Refused(lib, Run(lib, init), call) then [] else [Elements(MatterKeys(lib, call))]
  }

  // Every key that occurs in the calls.
  ghost function AllKeys(lib: Library, calls: seq<Call>): set<string> {
    if calls == [] then {}
    else AllKeys(lib, calls[..|calls| - 1]) + Elements(MatterKeys(lib, calls[|calls| - 1]))
  }

  // A chain of accepted calls, each sharing a key with the next, from one holding a to one
  // holding b.
  ghost predicate Chain(h: seq<set<string>>, path: seq<nat>, a: string, b: string) {
    && |path| > 0
    && (forall i | 0 <= i < |path| :: path[i] < |h|)
    && a in h[path[0]] && b in h[path[|path| - 1]]
    && forall i, j | 0 <= i < j < |path| && j == i + 1 :: h[path[i]] * h[path[j]] != {}
  }

  ghost predicate Linked(h: seq<set<string>>, a: string, b: string) {
    exists path :: Chain(h, path, a, b)
  }

  // The record is named after one of its own keys.
  ghost predicate OwnName(lib: Library, s: Index, r: string) {
    exists k :: k in At(s.aliases, r) && r == RecordId(lib, k)
  }

  // The two indexes are inverse to each other, and each record is named after one of its
  // own keys.
  ghost predicate Consistent(lib: Library, s: Index) {
    && (forall r, k :: k in At(s.aliases, r) <==> k in s.byKey && s.byKey[k] == r)
    && (forall r {:trigger OwnName(lib, s, r)} :: r in s.aliases ==> OwnName(lib, s, r))
  }

  // The accepted key sets cover the index, and linked keys are exactly those of one record.
  ghost predicate Explained(s: Index, h: seq<set<string>>) {
    && (forall i | 0 <= i < |h| :: h[i] <= s.byKey.Keys)
    && (forall i, a, b | 0 <= i < |h| && a in h[i] && b in h[i] :: s.byKey[a] == s.byKey[b])
    && (forall a, b {:trigger Linked(h, a, b)} ::
          a in s.byKey && b in s.byKey && s.byKey[a] == s.byKey[b] ==> Linked(h, a, b))
  }

  lemma ChainMonotone(h: seq<set<string>>, x: set<string>, a: string, b: string)
    requires Linked(h, a, b)
    ensures Linked(h + [x], a, b)
  {
    var path :| Chain(h, path, a, b);
    assert Chain(h + [x], path, a, b);
  }

  // A key of call j that is linked to a links a to every key of call j.
  lemma ChainExtend(h: seq<set<string>>, a: string, k: string, j: nat, b: string)
    requires Linked(h, a, k) && j < |h| && k in h[j] && b in h[j]
    ensures Linked(h, a, b)
  {
    var path :| Chain(h, path, a, k);
    var q := path + [j];
    assert k in h[path[|path| - 1]] * h[j];
    forall m, n | 0 <= m < n < |q| && n == m + 1 ensures h[q[m]] * h[q[n]] != {} {
      if n < |path| {
        assert h[path[m]] * h[path[n]] != {};
      }
    }
    assert Chain(h, q, a, b);
  }

  lemma ChainPrepend(h: seq<set<string>>, a: string, k: string, j: nat, b: string)
    requires Linked(h, k, b) && j < |h| && k in h[j] && a in h[j]
    ensures Linked(h, a, b)
  {
    var path :| Chain(h, path, k, b);
    var q := [j] + path;
    assert k in h[j] * h[path[0]];
    forall m, n | 0 <= m < n < |q| && n == m + 1 ensures h[q[m]] * h[q[n]] != {} {
      if m > 0 {
        assert h[path[m - 1]] * h[path[n - 1]] != {};
      }
    }
    assert Chain(h, q, a, b);
  }

  // Keys linked by a chain share their record.
  lemma {:induction false} ChainSound(s: Index, h: seq<set<string>>, path: seq<nat>, a: string, b: string)
    requires Explained(s, h) && Chain(h, path, a, b)
    ensures a in s.byKey && b in s.byKey && s.byKey[a] == s.byKey[b]
    decreases |path|
  {
    if |path| > 1 {
      var k :| k in h[path[0]] * h[path[1]];
      var rest := path[1..];
      forall i, j | 0 <= i < j < |rest| && j == i + 1 ensures h[rest[i]] * h[rest[j]] != {} {
        assert h[path[i + 1]] * h[path[j + 1]] != {};
      }
      ChainSound(s, h, rest, k, b);
    }
  }

  // ------------------------------------------------------------------ what a call keeps

  // Every known key of the call belongs to r.
  ghost predicate Agrees(s: Index, keys: seq<string>, r: string) {
    forall k | k in keys && k in s.byKey :: s.byKey[k] == r
  }

  // Known keys of a call that is not refused all belong to the record it resolves to.
  lemma KnownKeysAgree(lib: Library, s: Index, keys: seq<string>)
    requires |Existing(s.byKey, keys)| <= 1
    requires Existing(s.byKey, keys) == {} ==> LeadKey(keys).Some?
    ensures Agrees(s, keys, Target(lib, s, keys))
    ensures Existing(s.byKey, keys) == {} <==> forall k | k in keys :: k !in s.byKey
  {
    var e := Existing(s.byKey, keys);
    forall k | k in keys && k in s.byKey ensures s.byKey[k] == Target(lib, s, keys) {
      assert s.byKey[k] in e;
      AtMostOne(e, s.byKey[k], Target(lib, s, keys));
    }
    forall k | k in keys && k in s.byKey ensures e != {} {
      assert s.byKey[k] in e;
    }
  }

  lemma SameRecordIdSameKey(lib: Library, texts: set<string>, a: string, b: string)
    requires NoCollision(lib, texts) && a in texts && b in texts
    requires RecordId(lib, a) == RecordId(lib, b)
    ensures a == b
  {
    assert lib.digest(a) == RecordId(lib, a)[4..];
    assert lib.digest(b) == RecordId(lib, b)[4..];
  }

  ghost predicate SomeKnown(s: Index, keys: seq<string>) {
    exists k :: k in keys && k in s.byKey
  }

  lemma NewOrKnown(lib: Library, s: Index, keys: seq<string>, r: string, lead: string)
    requires Consistent(lib, s) && Agrees(s, keys, r) && lead in keys
    requires NoCollision(lib, s.byKey.Keys + Elements(keys))
    requires !SomeKnown(s, keys) ==> r == RecordId(lib, lead)
    ensures r in s.aliases <==> SomeKnown(s, keys)
  {
    forall k | k in keys && k in s.byKey ensures r in s.aliases {
      assert k in At(s.aliases, r);
    }
    if r in s.aliases && !SomeKnown(s, keys) {
      assert OwnName(lib, s, r);
      var k :| k in At(s.aliases, r) && r == RecordId(lib, k);
      SameRecordIdSameKey(lib, s.byKey.Keys + Elements(keys), k, lead);
    }
  }

  // The record of a call exists already exactly when one of the call's keys is known;
  // otherwise it is named after a key of the call.
  lemma TargetIsNewOrKnown(lib: Library, s: Index, ids: Call)
    requires Consistent(lib, s) && !Refused(lib, s, ids)
    requires NoCollision(lib, s.byKey.Keys + Elements(MatterKeys(lib, ids)))
    ensures LeadKey(MatterKeys(lib, ids)).Some?
    ensures Target(lib, s, MatterKeys(lib, ids)) in s.aliases <==> SomeKnown(s, MatterKeys(lib, ids))
    ensures SomeKnown(s, MatterKeys(lib, ids))
         || exists k :: k in MatterKeys(lib, ids) && Target(lib, s, MatterKeys(lib, ids)) == RecordId(lib, k)
  {
    var keys := MatterKeys(lib, ids);
    LeadKeyExists(lib, ids);
    KnownKeysAgree(lib, s, keys);
    NewOrKnown(lib, s, keys, Target(lib, s, keys), LeadKey(keys).value);
  }

  lemma AttachKeepsConsistent(lib: Library, s: Index, keys: seq<string>, r: string)
    requires Consistent(lib, s) && Agrees(s, keys, r)
    requires r !in s.aliases ==> exists k :: k in keys && r == RecordId(lib, k)
    ensures Consistent(lib, Attach(s, keys, r))
  {
    var t := Attach(s, keys, r);
    forall q, k ensures k in At(t.aliases, q) <==> k in t.byKey && t.byKey[k] == q {
      assert k in At(s.aliases, q) <==> k in s.byKey && s.byKey[k] == q;
    }
    forall q | q in t.aliases ensures OwnName(lib, t, q) {
      if q in s.aliases {
        assert OwnName(lib, s, q);
        var k :| k in At(s.aliases, q) && q == RecordId(lib, k);
        assert k in At(t.aliases, q);
      } else {
        var k :| k in keys && r == RecordId(lib, k);
        assert k in At(t.aliases, q);
      }
    }
  }

  lemma AttachKeepsExplained(s: Index, h: seq<set<string>>, keys: seq<string>, r: string)
    requires Explained(s, h) && Agrees(s, keys, r)
    requires r in s.byKey.Values ==> exists k :: k in keys && k in s.byKey
    ensures Explained(Attach(s, keys, r), h + [Elements(keys)])
  {
    var t, x := Attach(s, keys, r), Elements(keys);
    forall k | k in s.byKey ensures k in t.byKey && t.byKey[k] == s.byKey[k] {
    }
    forall a, b | a in t.byKey && b in t.byKey && t.byKey[a] == t.byKey[b] ensures Linked(h + [x], a, b) {
      if a in s.byKey && b in s.byKey {
        ChainMonotone(h, x, a, b);
      } else if a in keys && b in keys {
        assert Chain(h + [x], [|h|], a, b);
      } else {
        assert a in keys || b in keys;
        assert r in s.byKey.Values;
        var k :| k in keys && k in s.byKey;
        ChainOfOldAndNew(s, h, x, k, a, b);
      }
    }
  }

  lemma ChainOfOldAndNew(s: Index, h: seq<set<string>>, x: set<string>, k: string, a: string, b: string)
    requires Explained(s, h) && k in x && k in s.byKey
    requires (a in s.byKey && b in x && s.byKey[a] == s.byKey[k])
          || (a in x && b in s.byKey && s.byKey[b] == s.byKey[k])
    ensures Linked(h + [x], a, b)
  {
    if a in s.byKey && b in x && s.byKey[a] == s.byKey[k] {
      ChainMonotone(h, x, a, k);
      ChainExtend(h + [x], a, k, |h|, b);
    } else {
      ChainMonotone(h, x, k, b);
      ChainPrepend(h + [x], a, k, |h|, b);
    }
  }

  // The key index and aliases after a call.
  lemma ResolveAttaches(lib: Library, s: Index, ids: Call)
    ensures Refused(lib, s, ids) ==> Resolve(lib, s, ids).0 == s
    ensures !Refused(lib, s, ids) ==>
              && LeadKey(MatterKeys(lib, ids)).Some?
              && var t := Attach(s, MatterKeys(lib, ids), Target(lib, s, MatterKeys(lib, ids)));
                 Resolve(lib, s, ids).0.byKey == t.byKey && Resolve(lib, s, ids).0.aliases == t.aliases
  {
    if !Refused(lib, s, ids) {
      LeadKeyExists(lib, ids);
    }
  }

  lemma CallKeepsInvariant(lib: Library, s: Index, h: seq<set<string>>, ids: Call)
    requires Consistent(lib, s) && Explained(s, h) && !Refused(lib, s, ids)
    requires NoCollision(lib, s.byKey.Keys + Elements(MatterKeys(lib, ids)))
    ensures Consistent(lib, Resolve(lib, s, ids).0)
    ensures Explained(Resolve(lib, s, ids).0, h + [Elements(MatterKeys(lib, ids))])
    ensures Resolve(lib, s, ids).0.byKey.Keys == s.byKey.Keys + Elements(MatterKeys(lib, ids))
  {
    var keys := MatterKeys(lib, ids);
    ResolveAttaches(lib, s, ids);
    TargetIsNewOrKnown(lib, s, ids);
    KnownKeysAgree(lib, s, keys);
    var r := Target(lib, s, keys);
    AttachKeepsConsistent(lib, s, keys, r);
    if r in s.byKey.Values {
      var z :| z in s.byKey && s.byKey[z] == r;
      assert z in At(s.aliases, r);
    }
    AttachKeepsExplained(s, h, keys, r);
    SameIndex(lib, Attach(s, keys, r), Resolve(lib, s, ids).0, h + [Elements(keys)]);
  }

  // Neither half of the invariant looks at the document links.
  lemma SameIndex(lib: Library, s: Index, t: Index, h: seq<set<string>>)
    requires s.byKey == t.byKey && s.aliases == t.aliases
    requires Consistent(lib, s) && Explained(s, h)
    ensures Consistent(lib, t) && Explained(t, h)
  {
    forall r | r in t.aliases ensures OwnName(lib, t, r) {
      assert OwnName(lib, s, r);
    }
  }

  lemma {:induction false} RunInvariant(lib: Library, calls: seq<Call>)
    requires NoCollision(lib, AllKeys(lib, calls))
    ensures Consistent(lib, Run(lib, calls)) && Explained(Run(lib, calls), Accepted(lib, calls))
    ensures Run(lib, calls).byKey.Keys <= AllKeys(lib, calls)
  {
    if calls != [] {
      var init, call := calls[..|calls| - 1], calls[|calls| - 1];
      RunInvariant(lib, init);
      var s := Run(lib, init);
      var h := Accepted(lib, init);
      if Refused(lib, s, call) {
        ResolveAttaches(lib, s, call);
        assert h + [] == h;
        assert Accepted(lib, calls) == h;
      } else {
        CallKeepsInvariant(lib, s, h, call);
        assert Accepted(lib, calls) == h + [Elements(MatterKeys(lib, call))];
      }
    }
  }

  // ------------------------------------------------------------------ main results

  // After any run, two known keys belong to one record exactly when a chain of accepted
  // calls with overlapping key sets links them.  A call that raised only for a malformed
  // artifact hash counts as accepted: its keys are stored before it raises.
  lemma SameRecordMeansLinked(lib: Library, calls: seq<Call>, a: string, b: string)
    requires NoCollision(lib, AllKeys(lib, calls))
    ensures Linked(Accepted(lib, calls), a, b)
            <==> (var m := Run(lib, calls).byKey; a in m && b in m && m[a] == m[b])
  {
    RunInvariant(lib, calls);
    var s, h := Run(lib, calls), Accepted(lib, calls);
    if Linked(h, a, b) {
      var path :| Chain(h, path, a, b);
      ChainSound(s, h, path, a, b);
    }
  }

  // `_by_key` and `_aliases` are inverse to each other in every reachable state.
  lemma IndexesAreInverse(lib: Library, calls: seq<Call>, k: string, r: string)
    requires NoCollision(lib, AllKeys(lib, calls))
    ensures k in At(Run(lib, calls).aliases, r)
            <==> k in Run(lib, calls).byKey && Run(lib, calls).byKey[k] == r
  {
    RunInvariant(lib, calls);
  }

  lemma CallKeepsRecords(lib: Library, s: Index, call: Call, k: string)
    requires k in s.byKey
    ensures k in Resolve(lib, s, call).0.byKey && Resolve(lib, s, call).0.byKey[k] == s.byKey[k]
  {
    ResolveAttaches(lib, s, call);
    if !Refused(lib, s, call) {
      KnownKeysAgree(lib, s, MatterKeys(lib, call));
    }
  }

  // A key never moves to another record, and never disappears, whatever calls follow.
  lemma {:induction false} RecordsAreForever(lib: Library, calls: seq<Call>, more: seq<Call>, k: string)
    requires k in Run(lib, calls).byKey
    ensures k in Run(lib, calls + more).byKey
    ensures Run(lib, calls + more).byKey[k] == Run(lib, calls).byKey[k]
    decreases |more|
  {
    if more == [] {
      assert calls + more == calls;
    } else {
      var init := more[..|more| - 1];
      RecordsAreForever(lib, calls, init, k);
      assert (calls + more)[..|calls + more| - 1] == calls + init;
      CallKeepsRecords(lib, Run(lib, calls + init), more[|more| - 1], k);
    }
  }

  // `is_new` is reported exactly when none of the call's keys was known, whatever happened
  // before.
  lemma IsNewMeansNoKeyKnown(lib: Library, calls: seq<Call>, call: Call)
    requires NoCollision(lib, AllKeys(lib, calls + [call]))
    requires Resolve(lib, Run(lib, calls), call).1.Resolved?
    ensures Resolve(lib, Run(lib, calls), call).1.isNew
            <==> forall k | k in MatterKeys(lib, call) :: k !in Run(lib, calls).byKey
  {
    var s := Run(lib, calls);
    AllKeysSnoc(lib, calls, call);
    RunInvariant(lib, calls);
    NewnessOf(lib, s, call);
  }

  lemma AllKeysSnoc(lib: Library, calls: seq<Call>, call: Call)
    ensures AllKeys(lib, calls + [call]) == AllKeys(lib, calls) + Elements(MatterKeys(lib, call))
  {
    assert (calls + [call])[..|calls|] == calls;
  }

  lemma NewnessOf(lib: Library, s: Index, call: Call)
    requires Consistent(lib, s) && Resolve(lib, s, call).1.Resolved?
    requires NoCollision(lib, s.byKey.Keys + Elements(MatterKeys(lib, call)))
    ensures Resolve(lib, s, call).1.isNew <==> forall k | k in MatterKeys(lib, call) :: k !in s.byKey
  {
    TargetIsNewOrKnown(lib, s, call);
    var r := Target(lib, s, MatterKeys(lib, call));
    assert Resolve(lib, s, call).1.isNew <==> At(s.aliases, r) == {};
    if r in s.aliases {
      assert OwnName(lib, s, r);
    }
  }

  // Exact matching is idempotent: whatever calls come after it, a call made again resolves to
  // the record it resolved to the first time, which is not new any more.
  lemma SameCallSameRecord(lib: Library, calls: seq<Call>, call: Call, more: seq<Call>)
    requires Resolve(lib, Run(lib, calls), call).1.Resolved?
    requires NoCollision(lib, AllKeys(lib, calls + [call] + more))
    ensures Resolve(lib, Run(lib, calls + [call] + more), call).1
         == Resolved(Resolve(lib, Run(lib, calls), call).1.recordId, false)
  {
    var s, t := Run(lib, calls), Run(lib, calls + [call] + more);
    var keys, r := MatterKeys(lib, call), Resolve(lib, s, call).1.recordId;
    assert (calls + [call])[..|calls|] == calls;
    ResolveAttaches(lib, s, call);
    assert r == Target(lib, s, keys);
    forall k | k in keys ensures k in t.byKey && t.byKey[k] == r {
      assert Run(lib, calls + [call]).byKey[k] == r;
      RecordsAreForever(lib, calls + [call], more, k);
    }
    RunInvariant(lib, calls + [call] + more);
    KnownCall(lib, t, call, r);
    LinksSucceedAlike(lib, s.documents, t.documents, call, r);
  }

  // A call all of whose keys belong to r resolves to r.
  lemma KnownCall(lib: Library, t: Index, call: Call, r: string)
    requires Consistent(lib, t) && MatterKeys(lib, call) != []
    requires forall k | k in MatterKeys(lib, call) :: k in t.byKey && t.byKey[k] == r
    ensures !Refused(lib, t, call) && LeadKey(MatterKeys(lib, call)).Some?
    ensures Target(lib, t, MatterKeys(lib, call)) == r && At(t.aliases, r) != {}
  {
    var keys := MatterKeys(lib, call);
    LeadKeyExists(lib, call);
    assert keys[0] in keys && keys[0] in At(t.aliases, r);
    assert t.byKey[keys[0]] in Existing(t.byKey, keys);
    assert Existing(t.byKey, keys) == {r};
  }

  lemma {:induction false} LinksSucceedAlike(lib: Library, a: map<string, set<string>>, b: map<string, set<string>>,
                                             ids: seq<Identifier>, r: string)
    ensures LinkAll(lib, a, ids, r).1 == LinkAll(lib, b, ids, r).1
    decreases |ids|
  {
    if ids != [] {
      var n := if ids[0].kind == ARTIFACT then Normalize(lib, ARTIFACT, ids[0].value) else None;
      if n.Some? {
        LinksSucceedAlike(lib, a[n.value := At(a, n.value) + {r}], b[n.value := At(b, n.value) + {r}], ids[1..], r);
      } else {
        LinksSucceedAlike(lib, a, b, ids[1..], r);
      }
    }
  }

  // The record of a call that is not refused: that of each known key of it, and if none is
  // known a new one, named after the first in text order of the keys of its strongest kind.
  lemma ResolvedRecord(lib: Library, s: Index, call: Call)
    requires !Refused(lib, s, call)
    ensures LeadKey(MatterKeys(lib, call)).Some?
    ensures var keys := MatterKeys(lib, call);
      var r := Target(lib, s, keys);
      && (Resolve(lib, s, call).1.Resolved? ==> Resolve(lib, s, call).1.recordId == r)
      && (forall k | k in keys && k in s.byKey :: s.byKey[k] == r)
      && ((forall k | k in keys :: k !in s.byKey) ==>
            exists lead :: lead in keys && r == "rec_" + lib.digest(lead) && forall k | k in keys ::
              && ("authoritative_id:" <= k ==> "authoritative_id:" <= lead)
              && ("docket_id:" <= k ==> "authoritative_id:" <= lead || "docket_id:" <= lead)
              && ("authoritative_id:" <= k && "authoritative_id:" <= lead ==> LexLeq(lead, k))
              && ("docket_id:" <= k && "docket_id:" <= lead ==> LexLeq(lead, k))
              && ("neutral_citation:" <= k && "neutral_citation:" <= lead ==> LexLeq(lead, k)))
  {
    var keys := MatterKeys(lib, call);
    LeadKeyExists(lib, call);
    KnownKeysAgree(lib, s, keys);
    var lead := LeadKey(keys).value;
    forall k | k in keys
      ensures "authoritative_id:" <= k ==> "authoritative_id:" <= lead
      ensures "docket_id:" <= k ==> "authoritative_id:" <= lead || "docket_id:" <= lead
      ensures "authoritative_id:" <= k && "authoritative_id:" <= lead ==> LexLeq(lead, k)
      ensures "docket_id:" <= k && "docket_id:" <= lead ==> LexLeq(lead, k)
      ensures "neutral_citation:" <= k && "neutral_citation:" <= lead ==> LexLeq(lead, k)
    {
      LeadAgainst(keys, k);
    }
  }

  lemma LeadAgainst(keys: seq<string>, k: string)
    requires LeadKey(keys).Some? && k in keys
    ensures var lead := LeadKey(keys).value;
      && ("authoritative_id:" <= k ==> "authoritative_id:" <= lead)
      && ("docket_id:" <= k ==> "authoritative_id:" <= lead || "docket_id:" <= lead)
      && ("authoritative_id:" <= k && "authoritative_id:" <= lead ==> LexLeq(lead, k))
      && ("docket_id:" <= k && "docket_id:" <= lead ==> LexLeq(lead, k))
      && ("neutral_citation:" <= k && "neutral_citation:" <= lead ==> LexLeq(lead, k))
  {
    LeadKeyIsStrongest(keys, k);
    assert AUTHORITATIVE + ":" == "authoritative_id:" && DOCKET + ":" == "docket_id:";
    assert CITATION + ":" == "neutral_citation:";
    KindsDiffer(k);
    KindsDiffer(LeadKey(keys).value);
  }

  // A call that spans two records is refused with the records named and changes nothing;
  // the refusal happens exactly when two of its keys belong to different records.
  lemma ConflictMeansTwoRecords(lib: Library, s: Index, call: Call)
    ensures Resolve(lib, s, call).1.Conflict? <==>
            exists j, k :: j in MatterKeys(lib, call) && k in MatterKeys(lib, call)
              && j in s.byKey && k in s.byKey && s.byKey[j] != s.byKey[k]
    ensures Resolve(lib, s, call).1.Conflict? ==> forall r :: r in Resolve(lib, s, call).1.recordIds <==>
              exists k :: k in MatterKeys(lib, call) && k in s.byKey && s.byKey[k] == r
    ensures Resolve(lib, s, call).1.NoMatterIdentifier? <==>
              forall i | i in call :: i.kind !in {"authoritative_id", "docket_id", "neutral_citation"}
    ensures Resolve(lib, s, call).1.Conflict? || Resolve(lib, s, call).1.NoMatterIdentifier?
            ==> Resolve(lib, s, call).0 == s
  {
    var keys := MatterKeys(lib, call);
    NoKeysExactly(lib, call);
    var e := Existing(s.byKey, keys);
    if |e| > 1 {
      var a :| a in e;
      assert |e - {a}| == |e| - 1;
      var b :| b in e - {a};
      var j :| j in keys && j in s.byKey && s.byKey[j] == a;
      var k :| k in keys && k in s.byKey && s.byKey[k] == b;
      assert s.byKey[j] != s.byKey[k];
    } else if keys != [] {
      LeadKeyExists(lib, call);
      KnownKeysAgree(lib, s, keys);
    }
  }

  lemma {:induction false} NoKeysExactly(lib: Library, ids: seq<Identifier>)
    ensures MatterKeys(lib, ids) == [] <==>
            forall i | i in ids :: i.kind !in {"authoritative_id", "docket_id", "neutral_citation"}
  {
    if ids != [] {
      NoKeysExactly(lib, ids[..|ids| - 1]);
      assert ids == ids[..|ids| - 1] + [ids[|ids| - 1]];
    }
  }

  lemma AttachKeys(s: Index, keys: seq<string>, r: string)
    requires Agrees(s, keys, r)
    ensures forall k | k in keys :: k in Attach(s, keys, r).byKey
    ensures Attach(s, keys, r).byKey == s.byKey <==> forall k | k in keys :: k in s.byKey
  {
    if forall k | k in keys :: k in s.byKey {
      assert Attach(s, keys, r).byKey.Keys == s.byKey.Keys;
    }
  }

  predicate IsMalformed(lib: Library, i: Identifier) {
    i.kind == ARTIFACT && Normalize(lib, ARTIFACT, i.value).None?
  }

  // The artifact hashes before the first malformed one.
  ghost function Linkable(lib: Library, ids: seq<Identifier>): set<string>
    decreases |ids|
  {
    if ids == [] || IsMalformed(lib, ids[0]) then {}
    else
      (if ids[0].kind == ARTIFACT then {Normalize(lib, ARTIFACT, ids[0].value).value} else {})
      + Linkable(lib, ids[1..])
  }

  lemma {:induction false} LinkingFails(lib: Library, documents: map<string, set<string>>, ids: seq<Identifier>,
                                        r: string)
    ensures !LinkAll(lib, documents, ids, r).1 <==> exists i :: i in ids && IsMalformed(lib, i)
    decreases |ids|
  {
    if ids != [] {
      assert ids[0] in ids && forall i :: i in ids <==> i == ids[0] || i in ids[1..];
      if !IsMalformed(lib, ids[0]) {
        var n := if ids[0].kind == ARTIFACT then Normalize(lib, ARTIFACT, ids[0].value) else None;
        LinkFirst(lib, documents, ids, r);
        LinkingFails(lib, Added(documents, n, r), ids[1..], r);
      }
    }
  }

  // What linking leaves under every hash, whether it fails or not.
  lemma {:induction false} LinksMade(lib: Library, documents: map<string, set<string>>, ids: seq<Identifier>,
                                     r: string, h: string)
    ensures var linked := LinkAll(lib, documents, ids, r).0;
      if h in Linkable(lib, ids) then h in linked && linked[h] == At(documents, h) + {r}
      else (h in linked <==> h in documents) && At(linked, h) == At(documents, h)
    decreases |ids|
  {
    if ids != [] && !IsMalformed(lib, ids[0]) {
      var n := if ids[0].kind == ARTIFACT then Normalize(lib, ARTIFACT, ids[0].value) else None;
      LinkFirst(lib, documents, ids, r);
      LinksMade(lib, Added(documents, n, r), ids[1..], r, h);
    }
  }

  ghost predicate SameAt(m: map<string, set<string>>, n: map<string, set<string>>, h: string) {
    (h in m <==> h in n) && At(m, h) == At(n, h)
  }

  lemma LinkIdleExactly(lib: Library, documents: map<string, set<string>>, ids: seq<Identifier>, r: string, h: string)
    ensures SameAt(LinkAll(lib, documents, ids, r).0, documents, h)
            <==> (h in Linkable(lib, ids) ==> r in At(documents, h))
  {
    LinksMade(lib, documents, ids, r, h);
    assert At(documents, h) + {r} == At(documents, h) <==> r in At(documents, h);
  }

  lemma SameEverywhere(m: map<string, set<string>>, n: map<string, set<string>>)
    ensures m == n <==> forall h :: SameAt(m, n, h)
  {
    if forall h :: SameAt(m, n, h) {
      forall h ensures h in m <==> h in n {
        assert SameAt(m, n, h);
      }
      forall h | h in m ensures m[h] == n[h] {
        assert SameAt(m, n, h);
      }
      assert m.Keys == n.Keys;
    }
  }

  lemma LinksIdleExactly(lib: Library, documents: map<string, set<string>>, ids: seq<Identifier>, r: string)
    ensures LinkAll(lib, documents, ids, r).0 == documents
            <==> forall h | h in Linkable(lib, ids) :: r in At(documents, h)
  {
    forall h
      ensures SameAt(LinkAll(lib, documents, ids, r).0, documents, h)
              <==> (h in Linkable(lib, ids) ==> r in At(documents, h))
    {
      LinkIdleExactly(lib, documents, ids, r, h);
    }
    SameEverywhere(LinkAll(lib, documents, ids, r).0, documents);
  }

  lemma ResolveLinks(lib: Library, s: Index, call: Call)
    requires !Refused(lib, s, call)
    ensures LeadKey(MatterKeys(lib, call)).Some?
    ensures var l := LinkAll(lib, s.documents, call, Target(lib, s, MatterKeys(lib, call)));
      Resolve(lib, s, call).0.documents == l.0 && (Resolve(lib, s, call).1.MalformedHash? <==> !l.1)
  {
    LeadKeyExists(lib, call);
  }

  // A call raises for a malformed artifact hash exactly when it is not refused and carries
  // one.  It has stored its matter keys by then: the key index is as it was exactly when every
  // key was known already.
  lemma MalformedHashStoresKeys(lib: Library, s: Index, call: Call)
    ensures Resolve(lib, s, call).1.MalformedHash?
            <==> !Refused(lib, s, call) && exists i :: i in call && IsMalformed(lib, i)
    ensures Resolve(lib, s, call).1.MalformedHash? ==>
              && (forall k | k in MatterKeys(lib, call) :: k in Resolve(lib, s, call).0.byKey)
              && (Resolve(lib, s, call).0.byKey == s.byKey
                  <==> forall k | k in MatterKeys(lib, call) :: k in s.byKey)
  {
    ResolveAttaches(lib, s, call);
    if !Refused(lib, s, call) {
      ResolveLinks(lib, s, call);
      LinkingFails(lib, s.documents, call, Target(lib, s, MatterKeys(lib, call)));
      KnownKeysAgree(lib, s, MatterKeys(lib, call));
      AttachKeys(s, MatterKeys(lib, call), Target(lib, s, MatterKeys(lib, call)));
    }
  }

  // A call that is not refused, raising or not, leaves the whole index of a reachable state as
  // it was exactly when every key is known and every artifact hash before the first malformed
  // one is linked to the record already.
  lemma CallLeavesIndexExactly(lib: Library, calls: seq<Call>, call: Call)
    requires NoCollision(lib, AllKeys(lib, calls)) && !Refused(lib, Run(lib, calls), call)
    ensures LeadKey(MatterKeys(lib, call)).Some?
    ensures var s := Run(lib, calls);
      Resolve(lib, s, call).0 == s <==>
      && (forall k | k in MatterKeys(lib, call) :: k in s.byKey)
      && (forall h | h in Linkable(lib, call) :: Target(lib, s, MatterKeys(lib, call)) in At(s.documents, h))
  {
    RunInvariant(lib, calls);
    var s, keys := Run(lib, calls), MatterKeys(lib, call);
    ResolveAttaches(lib, s, call);
    ResolveLinks(lib, s, call);
    var r := Target(lib, s, keys);
    KnownKeysAgree(lib, s, keys);
    AttachKeys(s, keys, r);
    LinksIdleExactly(lib, s.documents, call, r);
    if forall k | k in keys :: k in s.byKey {
      KnownAliases(lib, s, keys, r);
    }
  }

  lemma KnownAliases(lib: Library, s: Index, keys: seq<string>, r: string)
    requires Consistent(lib, s) && Agrees(s, keys, r) && keys != [] && forall k | k in keys :: k in s.byKey
    ensures Attach(s, keys, r).aliases == s.aliases
  {
    forall k | k in Elements(keys) ensures k in At(s.aliases, r) {
      assert s.byKey[k] == r;
    }
    assert keys[0] in Elements(keys) && At(s.aliases, r) != {};
    assert At(s.aliases, r) + Elements(keys) == s.aliases[r];
  }

  lemma DocketKeys(lib: Library, docket: string, h: string)
    ensures var i := Identifier(DOCKET, docket);
      MatterKeys(lib, [i] + [Identifier(ARTIFACT, h)]) == [Key(lib, i)]
  {
    var i, a := Identifier(DOCKET, docket), Identifier(ARTIFACT, h);
    assert i.kind in MATTER_KINDS && a.kind !in MATTER_KINDS;
    assert MatterKeys(lib, [i]) == [Key(lib, i)] by {
      MatterKeysSnoc(lib, [], i);
      assert [] + [i] == [i] && [] + [Key(lib, i)] == [Key(lib, i)];
    }
    MatterKeysSnoc(lib, [i], a);
    assert [Key(lib, i)] + [] == [Key(lib, i)];
  }

  lemma MatterKeysSnoc(lib: Library, ids: seq<Identifier>, i: Identifier)
    ensures MatterKeys(lib, ids + [i]) == MatterKeys(lib, ids) + if i.kind in MATTER_KINDS then [Key(lib, i)] else []
  {
    assert (ids + [i])[..|ids|] == ids;
  }

  lemma BadHashAfterDocket(lib: Library, docket: string, r: string)
    requires lib.lower("") == ""
    ensures LinkAll(lib, map[], [Identifier(DOCKET, docket), Identifier(ARTIFACT, "")], r) == (map[], false)
  {
    var call := [Identifier(DOCKET, docket), Identifier(ARTIFACT, "")];
    assert Normalize(lib, ARTIFACT, "") == None;
    assert call[1..] == [call[1]];
    assert LinkAll(lib, map[], [call[1]], r) == (map[], false);
  }

  // Such a call, on the empty index: a docket id and an empty artifact hash.
  lemma RaisingCallStoresItsKey(lib: Library, docket: string)
    requires lib.lower("") == ""
    ensures var call := [Identifier(DOCKET, docket), Identifier(ARTIFACT, "")];
      && Resolve(lib, EMPTY, call).1 == MalformedHash
      && Resolve(lib, EMPTY, call).0.byKey.Keys == {Key(lib, call[0])}
  {
    var call := [Identifier(DOCKET, docket), Identifier(ARTIFACT, "")];
    DocketKeys(lib, docket, "");
    assert call == [call[0]] + [call[1]];
    NothingKnown(lib, call, Key(lib, call[0]));
    forall r ensures !LinkAll(lib, map[], call, r).1 {
      BadHashAfterDocket(lib, docket, r);
    }
    BadLinkRaises(lib, EMPTY, call);
  }

  lemma BadLinkRaises(lib: Library, s: Index, call: Call)
    requires !Refused(lib, s, call) && forall r :: !LinkAll(lib, s.documents, call, r).1
    ensures Resolve(lib, s, call).1 == MalformedHash
  {
    LeadKeyExists(lib, call);
  }

  lemma NothingKnown(lib: Library, call: Call, key: string)
    requires MatterKeys(lib, call) == [key]
    ensures !Refused(lib, EMPTY, call) && Resolve(lib, EMPTY, call).0.byKey.Keys == {key}
  {
    assert Existing(map[], MatterKeys(lib, call)) == {};
    ResolveAttaches(lib, EMPTY, call);
  }

  // Artifact hashes never establish or merge a matter: dropping them from a call changes
  // neither the key index nor the aliases.
  lemma {:induction false} ArtifactsCarryNoIdentity(lib: Library, ids: seq<Identifier>)
    ensures MatterKeys(lib, WithoutArtifacts(ids)) == MatterKeys(lib, ids)
  {
    if ids != [] {
      var init, last := ids[..|ids| - 1], ids[|ids| - 1];
      ArtifactsCarryNoIdentity(lib, init);
      var w := WithoutArtifacts(init);
      assert (w + [last])[..|w|] == w;
      assert last.kind == ARTIFACT ==> WithoutArtifacts(ids) == w;
    }
  }

  ghost function WithoutArtifacts(ids: seq<Identifier>): seq<Identifier> {
    if ids == [] then []
    else WithoutArtifacts(ids[..|ids| - 1]) + if ids[|ids| - 1].kind == ARTIFACT then [] else [ids[|ids| - 1]]
  }

  // So two matters that share a document stay two: the outcome of a call, on keys and
  // records, is the same with and without its artifact hashes.
  lemma SharedDocumentUnifiesNothing(lib: Library, s: Index, call: Call)
    ensures Resolve(lib, s, WithoutArtifacts(call)).0.byKey == Resolve(lib, s, call).0.byKey
    ensures Resolve(lib, s, WithoutArtifacts(call)).0.aliases == Resolve(lib, s, call).0.aliases
    ensures Resolve(lib, s, WithoutArtifacts(call)).0.documents == s.documents
  {
    ArtifactsCarryNoIdentity(lib, call);
    ResolveAttaches(lib, s, call);
    ResolveAttaches(lib, s, WithoutArtifacts(call));
    NoArtifactsLeft(call);
    NoLinksMade(lib, s, WithoutArtifacts(call));
  }

  lemma NoLinksMade(lib: Library, s: Index, ids: Call)
    requires forall i | i in ids :: i.kind != ARTIFACT
    ensures Resolve(lib, s, ids).0.documents == s.documents
  {
    NothingToLink(lib, s.documents, ids);
    if !Refused(lib, s, ids) {
      LeadKeyExists(lib, ids);
      assert LinkAll(lib, s.documents, ids, Target(lib, s, MatterKeys(lib, ids))) == (s.documents, true);
    }
  }

  lemma {:induction false} NoArtifactsLeft(ids: seq<Identifier>)
    ensures forall i | i in WithoutArtifacts(ids) :: i.kind != ARTIFACT
  {
    if ids != [] {
      NoArtifactsLeft(ids[..|ids| - 1]);
    }
  }

  lemma {:induction false} NothingToLink(lib: Library, documents: map<string, set<string>>, ids: seq<Identifier>)
    ensures (forall i | i in ids :: i.kind != ARTIFACT)
            ==> forall r :: LinkAll(lib, documents, ids, r) == (documents, true)
  {
    if ids != [] {
      NothingToLink(lib, documents, ids[1..]);
    }
  }

  // Some identifier of the list is an artifact hash that normalises to h.
  ghost predicate Mentions(lib: Library, ids: seq<Identifier>, h: string) {
    exists i :: i in ids && i.kind == ARTIFACT && Normalize(lib, ARTIFACT, i.value) == Some(h)
  }

  lemma MentionsCons(lib: Library, i: Identifier, rest: seq<Identifier>, h: string)
    ensures Mentions(lib, [i] + rest, h)
            <==> (i.kind == ARTIFACT && Normalize(lib, ARTIFACT, i.value) == Some(h)) || Mentions(lib, rest, h)
  {
    var ids := [i] + rest;
    assert forall x :: x in ids <==> x == i || x in rest;
  }

  // The links after an identifier whose artifact hash is n, if it is one.
  ghost function Added(documents: map<string, set<string>>, n: Option<string>, r: string): map<string, set<string>> {
    if n.Some? then documents[n.value := At(documents, n.value) + {r}] else documents
  }

  lemma LinkAdded(documents: map<string, set<string>>, n: Option<string>, r: string, h: string, q: string)
    ensures q in At(Added(documents, n, r), h) <==> q in At(documents, h) || (q == r && n == Some(h))
  {
  }

  // A call none of whose hashes is malformed links its record to exactly the documents it
  // mentions and leaves every other link as it was.
  lemma {:induction false} LinksAreExact(lib: Library, documents: map<string, set<string>>, ids: seq<Identifier>,
                                         r: string, h: string, q: string)
    ensures LinkAll(lib, documents, ids, r).1 ==>
              (q in At(LinkAll(lib, documents, ids, r).0, h)
               <==> q in At(documents, h) || (q == r && Mentions(lib, ids, h)))
    decreases |ids|
  {
    if ids != [] {
      MentionsCons(lib, ids[0], ids[1..], h);
      assert ids == [ids[0]] + ids[1..];
      var n := if ids[0].kind == ARTIFACT then Normalize(lib, ARTIFACT, ids[0].value) else None;
      var next := Added(documents, n, r);
      LinkAdded(documents, n, r, h, q);
      LinkFirst(lib, documents, ids, r);
      LinksAreExact(lib, next, ids[1..], r, h, q);
    }
  }

  lemma LinkFirst(lib: Library, documents: map<string, set<string>>, ids: seq<Identifier>, r: string)
    requires ids != []
    ensures var n := if ids[0].kind == ARTIFACT then Normalize(lib, ARTIFACT, ids[0].value) else None;
      LinkAll(lib, documents, ids, r) ==
      if ids[0].kind == ARTIFACT && n.None? then (documents, false)
      else LinkAll(lib, Added(documents, n, r), ids[1..], r)
  {
  }
}
