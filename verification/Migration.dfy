/** The migration importer: identifiers derived from legacy ids, the idempotent ledger and the
    redirects of a merge. */
module Migration {
  import opened Wrappers
  import opened Strings

  const NAMESPACE := "atlas-migration/ns/v1"

  // Unicode NFC and case folding, the SHA-256 of a payload and the truncated SHA-256 of a
  // text are library functions.
  datatype Library = Library(
    nfc: string -> string,
    casefold: string -> string,
    sha: seq<int> -> string,
    digest: string -> string)

  // The hypothesis on the truncated digest: no two of the given texts share one.
  ghost predicate NoCollision(digest: string -> string, texts: set<string>) {
    forall a, b | a in texts && b in texts && digest(a) == digest(b) :: a == b
  }

  function Normalize(lib: Library, legacyId: string): string {
    Collapsed(lib.casefold(Strip(lib.nfc(legacyId))))
  }

  // Legacy ids whose texts agree word by word, after the library's mappings, are one id, and no
  // others are; so where those change nothing, two ids are one exactly when their words agree.
  lemma NormalizedAlike(lib: Library, a: string, b: string)
    ensures Normalize(lib, a) == Normalize(lib, b)
            <==> Words(lib.casefold(Strip(lib.nfc(a)))) == Words(lib.casefold(Strip(lib.nfc(b))))
    ensures lib.nfc(a) == a && lib.nfc(b) == b
            && lib.casefold(Strip(a)) == Strip(a) && lib.casefold(Strip(b)) == Strip(b)
            ==> (Normalize(lib, a) == Normalize(lib, b) <==> Words(a) == Words(b))
  {
    CollapsedAlike(lib.casefold(Strip(lib.nfc(a))), lib.casefold(Strip(lib.nfc(b))));
    WordsOfStripped(a);
    WordsOfStripped(b);
  }

  // And then nothing but whitespace is lost.
  lemma NormalizedKeepsText(lib: Library, a: string)
    requires lib.nfc(a) == a && lib.casefold(Strip(a)) == Strip(a)
    ensures NonSpace(Normalize(lib, a)) == NonSpace(a)
  {
    CollapsedKeepsText(Strip(a));
    var l, r := StripCutsSpace(a);
    NonSpaceConcat(l + Strip(a), r);
    NonSpaceConcat(l, Strip(a));
    NoText(l);
    NoText(r);
  }

  // ------------------------------------------------------------------ identifiers

  function StableText(norm: string): string {
    NAMESPACE + "\n" + norm
  }

  function SplitText(norm: string, decisionId: string, ordinal: int): string {
    NAMESPACE + "\n" + norm + "\n" + decisionId + "\n" + IntText(ordinal)
  }

  function StableRecordId(lib: Library, legacyId: string): string {
    "rec_" + lib.digest(StableText(Normalize(lib, legacyId)))
  }

  function SplitRecordId(lib: Library, legacyId: string, decisionId: string, ordinal: int): string {
    "rec_" + lib.digest(SplitText(Normalize(lib, legacyId), decisionId, ordinal))
  }

  function SplitRecordIds(lib: Library, legacyId: string, decisionId: string, ordinals: seq<int>): seq<string> {
    seq(|ordinals|, i requires 0 <= i < |ordinals| => SplitRecordId(lib, legacyId, decisionId, ordinals[i]))
  }

  lemma SameIdSameText(digest: string -> string, x: string, y: string)
    requires NoCollision(digest, {x, y})
    ensures "rec_" + digest(x) == "rec_" + digest(y) <==> x == y
  {
    assert digest(x) == ("rec_" + digest(x))[4..];
    assert digest(y) == ("rec_" + digest(y))[4..];
  }

  // The text under a split id determines its three parts, newlines in the decision id
  // notwithstanding: the normalised id ends at the second newline and the ordinal begins
  // after the last.
  lemma SplitTextInjective(m: string, d: string, i: int, n: string, e: string, j: int)
    requires '\n' !in m && '\n' !in n && SplitText(m, d, i) == SplitText(n, e, j)
    ensures m == n && d == e && i == j
  {
    IntTextHasNoNewline(i);
    IntTextHasNoNewline(j);
    LastNewlineSplits(NAMESPACE + "\n" + m + "\n" + d, IntText(i), NAMESPACE + "\n" + n + "\n" + e, IntText(j));
    IntTextInjective(i, j);
    var x, y := m + "\n" + d, n + "\n" + e;
    assert NAMESPACE + "\n" + m + "\n" + d == NAMESPACE + "\n" + x;
    assert NAMESPACE + "\n" + n + "\n" + e == NAMESPACE + "\n" + y;
    FirstNewlineSplits(NAMESPACE, x, NAMESPACE, y);
    FirstNewlineSplits(m, d, n, e);
  }

  lemma SplitTextIsNoStableText(m: string, d: string, i: int, n: string)
    requires '\n' !in m && '\n' !in n
    ensures SplitText(m, d, i) != StableText(n)
  {
    var x := m + "\n" + d + "\n" + IntText(i);
    assert SplitText(m, d, i) == NAMESPACE + "\n" + x;
    assert x[|m|] == '\n';
    if SplitText(m, d, i) == StableText(n) {
      FirstNewlineSplits(NAMESPACE, x, NAMESPACE, n);
    }
  }

  // Two split ids are equal exactly when normalised legacy id, decision id and ordinal are.
  lemma SplitIdsAreDistinct(lib: Library, l: string, d: string, i: int, k: string, e: string, j: int)
    requires NoCollision(lib.digest, {SplitText(Normalize(lib, l), d, i), SplitText(Normalize(lib, k), e, j)})
    ensures SplitRecordId(lib, l, d, i) == SplitRecordId(lib, k, e, j)
            <==> Normalize(lib, l) == Normalize(lib, k) && d == e && i == j
  {
    var m, n := Normalize(lib, l), Normalize(lib, k);
    CollapsedHasNoNewline(lib.casefold(Strip(lib.nfc(l))));
    CollapsedHasNoNewline(lib.casefold(Strip(lib.nfc(k))));
    SameIdSameText(lib.digest, SplitText(m, d, i), SplitText(n, e, j));
    if SplitText(m, d, i) == SplitText(n, e, j) {
      SplitTextInjective(m, d, i, n, e, j);
    }
  }

  // The ids of one split are those of its ordinals, in order, and differ where those do.
  lemma SplitListFollowsOrdinals(lib: Library, legacyId: string, decisionId: string, ordinals: seq<int>, i: nat, j: nat)
    requires i < |ordinals| && j < |ordinals|
    requires NoCollision(lib.digest, {SplitText(Normalize(lib, legacyId), decisionId, ordinals[i]),
                                      SplitText(Normalize(lib, legacyId), decisionId, ordinals[j])})
    ensures var ids := SplitRecordIds(lib, legacyId, decisionId, ordinals);
      && |ids| == |ordinals| && (ids[i] == ids[j] <==> ordinals[i] == ordinals[j])
      && ids[i] == "rec_" + lib.digest("atlas-migration/ns/v1" + "\n" + Normalize(lib, legacyId) + "\n" + decisionId
                                       + "\n" + IntText(ordinals[i]))
  {
    SplitIdsAreDistinct(lib, legacyId, decisionId, ordinals[i], legacyId, decisionId, ordinals[j]);
  }

  // A split never yields the stable id of any legacy record.
  lemma SplitIdIsNeverStable(lib: Library, l: string, d: string, i: int, k: string)
    requires NoCollision(lib.digest, {SplitText(Normalize(lib, l), d, i), StableText(Normalize(lib, k))})
    ensures SplitRecordId(lib, l, d, i) != StableRecordId(lib, k)
  {
    CollapsedHasNoNewline(lib.casefold(Strip(lib.nfc(l))));
    CollapsedHasNoNewline(lib.casefold(Strip(lib.nfc(k))));
    SplitTextIsNoStableText(Normalize(lib, l), d, i, Normalize(lib, k));
    SameIdSameText(lib.digest, SplitText(Normalize(lib, l), d, i), StableText(Normalize(lib, k)));
  }

  // ------------------------------------------------------------------ the importer

  // What the ledger needs of the library functions: normalised ids and hashes.
  datatype Names = Names(normalize: string -> string, sha: seq<int> -> string, digest: string -> string)

  function NamesOf(lib: Library): Names {
    Names(legacyId => Normalize(lib, legacyId), lib.sha, lib.digest)
  }

  function StableId(names: Names, legacyId: string): string {
    "rec_" + names.digest(StableText(names.normalize(legacyId)))
  }

  const UNVERIFIED := "legacy_unverified"

  datatype Entry = Entry(
    legacyId: string,
    payloadSha: string,
    mappingVersion: string,
    targets: seq<string>,
    disposition: string,
    verificationState: string,
    nextAction: Option<string>)

  datatype Import = Import(
    legacyId: string,
    payload: seq<int>,
    mappingVersion: string,
    disposition: string,
    secondaryOnly: bool,
    warnings: seq<string>,
    slug: Option<string>)

  datatype Ledger = Ledger(
    entries: map<string, Entry>,
    payloads: map<string, seq<int>>,
    redirects: map<string, string>)

  const EMPTY := Ledger(map[], map[], map[])

  // A record known only from secondary sources stays awaiting its primary or quarantined.
  function Disposition(r: Import): string {
    if r.secondaryOnly && r.disposition !in {"awaiting_primary", "quarantined"} then "awaiting_primary"
    else r.disposition
  }

  // What a re-import is compared by.
  function Signature(names: Names, r: Import): (string, string, string) {
    (names.sha(r.payload), r.mappingVersion, Disposition(r))
  }

  function EntrySignature(e: Entry): (string, string, string) {
    (e.payloadSha, e.mappingVersion, e.disposition)
  }

  predicate Unchanged(names: Names, s: Ledger, r: Import) {
    var norm := names.normalize(r.legacyId);
    norm in s.entries && EntrySignature(s.entries[norm]) == Signature(names, r)
  }

  function NewEntry(names: Names, r: Import): Entry {
    Entry(r.legacyId, names.sha(r.payload), r.mappingVersion, [StableId(names, r.legacyId)], Disposition(r),
          UNVERIFIED, if r.warnings == [] then None else Some(Join("; ", r.warnings)))
  }

  function Redirected(names: Names, redirects: map<string, string>, r: Import): map<string, string> {
    var id := StableId(names, r.legacyId);
    var own := redirects[names.normalize(r.legacyId) := id];
    if r.slug.Some? && r.slug.value != "" then own[names.normalize(r.slug.value) := id] else own
  }

  function ImportRecord(names: Names, s: Ledger, r: Import): Ledger {
    if Unchanged(names, s, r) then s else Written(names, s, r)
  }

  function Written(names: Names, s: Ledger, r: Import): Ledger {
    Ledger(s.entries[names.normalize(r.legacyId) := NewEntry(names, r)],
           s.payloads[StableId(names, r.legacyId) := r.payload],
           Redirected(names, s.redirects, r))
  }

  // Every redirect to one of the merged records now leads to the survivor; no other changes.
  function MergeRedirects(redirects: map<string, string>, survivor: string, merged: set<string>): map<string, string> {
    map k | k in redirects :: if redirects[k] in merged then survivor else redirects[k]
  }

  function Elements(ids: seq<string>): set<string> {
    set m | m in ids
  }

  predicate IsCitable(e: Entry) {
    e.verificationState != UNVERIFIED
  }

  class MigrationImporter {
    const names: Names
    var entries: map<string, Entry>
    var payloads: map<string, seq<int>>
    var redirects: map<string, string>

    ghost function State(): Ledger
      reads this
    {
      Ledger(entries, payloads, redirects)
    }

    constructor (lib: Library)
      ensures State() == EMPTY && names == NamesOf(lib)
      ensures forall legacyId :: names.normalize(legacyId) == Normalize(lib, legacyId)
      ensures forall legacyId :: StableId(names, legacyId) == StableRecordId(lib, legacyId)
    {
      names := NamesOf(lib);
      entries, payloads, redirects := map[], map[], map[];
    }

    method ImportOne(r: Import) returns (entry: Entry, recordId: string, isNew: bool, changed: bool)
      modifies this
      ensures State() == ImportRecord(names, old(State()), r)
      ensures recordId == StableId(names, r.legacyId)
      ensures names.normalize(r.legacyId) in entries && entry == entries[names.normalize(r.legacyId)]
      ensures isNew <==> names.normalize(r.legacyId) !in old(entries)
      ensures changed <==> !isNew && !Unchanged(names, old(State()), r)
      ensures entry.disposition == r.disposition
           || (r.secondaryOnly && entry.disposition in {"awaiting_primary", "quarantined"})
      ensures r.secondaryOnly ==> entry.disposition in {"awaiting_primary", "quarantined"}
      ensures recordId == "rec_" + names.digest("atlas-migration/ns/v1" + "\n" + names.normalize(r.legacyId))
      ensures var norm := names.normalize(r.legacyId);
        var disposition := if r.secondaryOnly && r.disposition != "awaiting_primary" && r.disposition != "quarantined"
                           then "awaiting_primary" else r.disposition;
        if norm in old(entries) && old(entries)[norm].payloadSha == names.sha(r.payload)
           && old(entries)[norm].mappingVersion == r.mappingVersion && old(entries)[norm].disposition == disposition
        then entries == old(entries) && payloads == old(payloads) && redirects == old(redirects) && !changed
        else && entries == old(entries)[norm := entry]
             && entry == Entry(r.legacyId, names.sha(r.payload), r.mappingVersion, [recordId], disposition,
                               "legacy_unverified", if r.warnings == [] then None else Some(Join("; ", r.warnings)))
             && payloads == old(payloads)[recordId := r.payload]
             && redirects == (if r.slug == None || r.slug == Some("") then old(redirects)[norm := recordId]
                              else old(redirects)[norm := recordId][names.normalize(r.slug.value) := recordId])
             && (changed <==> norm in old(entries))
    {
      var norm := names.normalize(r.legacyId);
      recordId := StableId(names, r.legacyId);
      var disposition := r.disposition;
      if r.secondaryOnly && disposition !in {"awaiting_primary", "quarantined"} {
        disposition := "awaiting_primary";
      }
      var payloadSha := names.sha(r.payload);
      if norm in entries {
        var prior := entries[norm];
        if prior.payloadSha == payloadSha && prior.mappingVersion == r.mappingVersion
           && prior.disposition == disposition {
          return prior, recordId, false, false;
        }
      }
      isNew := norm !in entries;
      entry := Entry(r.legacyId, payloadSha, r.mappingVersion, [recordId], disposition, UNVERIFIED,
                     if r.warnings == [] then None else Some(Join("; ", r.warnings)));
      entries := entries[norm := entry];
      payloads := payloads[recordId := r.payload];
      redirects := redirects[norm := recordId];
      if r.slug.Some? && r.slug.value != "" {
        redirects := redirects[names.normalize(r.slug.value) := recordId];
      }
      changed := !isNew;
    }

    // The relationships recorded, one per merged id, as (merged, survivor).
    method Merge(survivor: string, merged: seq<string>) returns (relationships: seq<(string, string)>)
      modifies this`redirects
      ensures redirects == MergeRedirects(old(redirects), survivor, Elements(merged))
      ensures redirects.Keys == old(redirects).Keys
      ensures forall k | k in redirects ::
          redirects[k] == if old(redirects)[k] in merged then survivor else old(redirects)[k]
      ensures |relationships| == |merged|
      ensures forall i | 0 <= i < |merged| :: relationships[i] == (merged[i], survivor)
    {
      relationships := [];
      for i := 0 to |merged|
        invariant |relationships| == i && forall k | 0 <= k < i :: relationships[k] == (merged[k], survivor)
        invariant redirects == MergeRedirects(old(redirects), survivor, Elements(merged[..i]))
      {
        relationships := relationships + [(merged[i], survivor)];
        RedirectAll(merged[i], survivor);
        assert Elements(merged[..i + 1]) == Elements(merged[..i]) + {merged[i]};
      }
      assert merged[..|merged|] == merged;
    }

    // The inner loop, over a copy of the items taken before it.
    method RedirectAll(mid: string, survivor: string)
      modifies this`redirects
      ensures redirects == MergeRedirects(old(redirects), survivor, {mid})
    {
      var items := redirects;
      var left := items.Keys;
      while left != {}
        invariant left <= items.Keys && items == old(redirects)
        invariant redirects.Keys == items.Keys
        invariant forall k | k in items ::
            redirects[k] == if k !in left && items[k] == mid then survivor else items[k]
        decreases |left|
      {
        var key :| key in left;
        if items[key] == mid {
          redirects := redirects[key := survivor];
        }
        left := left - {key};
      }
    }
  }

  // The key leads to the record.
  predicate LeadsTo(s: Ledger, k: string, id: string) {
    k in s.redirects && s.redirects[k] == id
  }

  // ------------------------------------------------------------------ re-importing a batch

  ghost function After(names: Names, s: Ledger, batch: seq<Import>): Ledger {
    if batch == [] then s
    else ImportRecord(names, After(names, s, batch[..|batch| - 1]), batch[|batch| - 1])
  }

  // The i-th record of the batch, imported in turn, changes nothing.
  ghost predicate Idle(names: Names, s: Ledger, batch: seq<Import>, i: nat)
    requires i < |batch|
  {
    Unchanged(names, After(names, s, batch[..i]), batch[i])
  }

  ghost predicate NoneChanges(names: Names, s: Ledger, batch: seq<Import>) {
    forall i {:trigger Idle(names, s, batch, i)} | 0 <= i < |batch| :: Idle(names, s, batch, i)
  }

  // The records of one normalised id agree on what a re-import compares.
  ghost predicate AgreeAt(names: Names, batch: seq<Import>, n: string) {
    forall q, r | q in batch && r in batch && names.normalize(q.legacyId) == n && names.normalize(r.legacyId) == n ::
      Signature(names, q) == Signature(names, r)
  }

  ghost predicate Agreeing(names: Names, batch: seq<Import>) {
    forall n :: AgreeAt(names, batch, n)
  }

  // Records of one id that agree leave their signature on file.
  lemma {:induction false} SignatureOnFile(names: Names, s: Ledger, batch: seq<Import>, q: Import)
    requires q in batch && AgreeAt(names, batch, names.normalize(q.legacyId))
    ensures Unchanged(names, After(names, s, batch), q)
  {
    var init, last := batch[..|batch| - 1], batch[|batch| - 1];
    assert batch == init + [last];
    if names.normalize(last.legacyId) == names.normalize(q.legacyId) {
      assert Signature(names, last) == Signature(names, q);
    } else {
      SignatureOnFile(names, s, init, q);
    }
  }

  lemma {:induction false} UnchangedKeepsLedger(names: Names, s: Ledger, batch: seq<Import>)
    requires forall r | r in batch :: Unchanged(names, s, r)
    ensures After(names, s, batch) == s
  {
    if batch != [] {
      UnchangedKeepsLedger(names, s, batch[..|batch| - 1]);
      assert batch[|batch| - 1] in batch;
    }
  }

  lemma {:induction false} IdleKeepsLedger(names: Names, s: Ledger, batch: seq<Import>, n: nat)
    requires NoneChanges(names, s, batch) && n <= |batch|
    ensures After(names, s, batch[..n]) == s
  {
    if n > 0 {
      IdleKeepsLedger(names, s, batch, n - 1);
      assert Idle(names, s, batch, n - 1);
      assert batch[..n][..n - 1] == batch[..n - 1];
    } else {
      assert batch[..n] == [];
    }
  }

  // Importing the same batch a second time reports every record unchanged exactly when records
  // of the batch with one normalised id agree, whatever the ledger held before; and then the
  // ledger stays as it is.
  lemma ReimportIsReportedUnchanged(names: Names, s: Ledger, batch: seq<Import>)
    ensures NoneChanges(names, After(names, s, batch), batch) <==> Agreeing(names, batch)
    ensures Agreeing(names, batch) ==> After(names, After(names, s, batch), batch) == After(names, s, batch)
  {
    var t := After(names, s, batch);
    if Agreeing(names, batch) {
      forall r | r in batch ensures Unchanged(names, t, r) {
        assert AgreeAt(names, batch, names.normalize(r.legacyId));
        SignatureOnFile(names, s, batch, r);
      }
      UnchangedKeepsLedger(names, t, batch);
      forall i | 0 <= i < |batch| ensures Idle(names, t, batch, i) {
        UnchangedKeepsLedger(names, t, batch[..i]);
      }
    }
    if NoneChanges(names, t, batch) {
      IdleMeansAgreeing(names, t, batch);
    }
  }

  lemma IdleMeansAgreeing(names: Names, t: Ledger, batch: seq<Import>)
    requires NoneChanges(names, t, batch)
    ensures Agreeing(names, batch)
  {
    forall q, r | q in batch && r in batch && names.normalize(q.legacyId) == names.normalize(r.legacyId)
      ensures Signature(names, q) == Signature(names, r)
    {
      var i :| 0 <= i < |batch| && batch[i] == q;
      var j :| 0 <= j < |batch| && batch[j] == r;
      IdleKeepsLedger(names, t, batch, i);
      IdleKeepsLedger(names, t, batch, j);
      assert Idle(names, t, batch, i) && Idle(names, t, batch, j);
    }
  }

  // ------------------------------------------------------------------ what a re-import writes

  ghost function NormsOf(names: Names, batch: seq<Import>): set<string> {
    set r | r in batch :: names.normalize(r.legacyId)
  }

  // The records of the batch that are not reported unchanged.
  ghost function Changes(names: Names, s: Ledger, batch: seq<Import>): seq<Import> {
    if batch == [] then []
    else
      var init, last := batch[..|batch| - 1], batch[|batch| - 1];
      Changes(names, s, init) + if Unchanged(names, After(names, s, init), last) then [] else [last]
  }

  ghost function WrittenAll(names: Names, s: Ledger, records: seq<Import>): Ledger {
    if records == [] then s
    else Written(names, WrittenAll(names, s, records[..|records| - 1]), records[|records| - 1])
  }

  ghost function Overlaid(s: Ledger, o: Ledger): Ledger {
    Ledger(s.entries + o.entries, s.payloads + o.payloads, s.redirects + o.redirects)
  }

  lemma {:induction false} AfterWritesChanges(names: Names, s: Ledger, batch: seq<Import>)
    ensures After(names, s, batch) == WrittenAll(names, s, Changes(names, s, batch))
  {
    if batch != [] {
      var init, last := batch[..|batch| - 1], batch[|batch| - 1];
      AfterWritesChanges(names, s, init);
      var w := Changes(names, s, init);
      assert (w + [last])[..|w|] == w;
      assert w + [] == w;
    }
  }

  // What is written does not depend on the ledger it is written to.
  lemma {:induction false} WritesOverlay(names: Names, s: Ledger, records: seq<Import>)
    ensures WrittenAll(names, s, records) == Overlaid(s, WrittenAll(names, EMPTY, records))
  {
    if records != [] {
      var init, last := records[..|records| - 1], records[|records| - 1];
      WritesOverlay(names, s, init);
      WriteOverlays(names, s, WrittenAll(names, EMPTY, init), last);
    }
  }

  lemma WriteOverlays(names: Names, s: Ledger, o: Ledger, r: Import)
    ensures Written(names, Overlaid(s, o), r) == Overlaid(s, Written(names, o, r))
  {
    var id, norm := StableId(names, r.legacyId), names.normalize(r.legacyId);
    assert (s.entries + o.entries)[norm := NewEntry(names, r)] == s.entries + o.entries[norm := NewEntry(names, r)];
    assert (s.payloads + o.payloads)[id := r.payload] == s.payloads + o.payloads[id := r.payload];
    assert (s.redirects + o.redirects)[norm := id] == s.redirects + o.redirects[norm := id];
    assert Redirected(names, s.redirects + o.redirects, r) == s.redirects + Redirected(names, o.redirects, r);
  }

  // The ledgers state the same of these normalised ids, as far as a re-import compares it.
  ghost predicate Alike(s: Ledger, t: Ledger, norms: set<string>) {
    forall n | n in norms ::
      && (n in s.entries <==> n in t.entries)
      && (n in s.entries && n in t.entries ==> EntrySignature(s.entries[n]) == EntrySignature(t.entries[n]))
  }

  lemma {:induction false} AlikeChanges(names: Names, s: Ledger, t: Ledger, batch: seq<Import>, norms: set<string>)
    requires Alike(s, t, norms) && NormsOf(names, batch) <= norms
    ensures Changes(names, s, batch) == Changes(names, t, batch)
    ensures Alike(After(names, s, batch), After(names, t, batch), norms)
  {
    if batch != [] {
      var init, last := batch[..|batch| - 1], batch[|batch| - 1];
      NormsSnoc(names, init, last);
      assert batch == init + [last];
      AlikeChanges(names, s, t, init, norms);
      assert names.normalize(last.legacyId) in norms;
    }
  }

  lemma NormsSnoc(names: Names, init: seq<Import>, last: Import)
    ensures NormsOf(names, init + [last]) == NormsOf(names, init) + {names.normalize(last.legacyId)}
  {
    var batch := init + [last];
    assert forall r :: r in batch <==> r in init || r == last;
  }

  // After a batch the ledger states what the batch said last, whatever it held before.
  lemma {:induction false} AfterIsAlike(names: Names, s: Ledger, t: Ledger, batch: seq<Import>)
    ensures Alike(After(names, s, batch), After(names, t, batch), NormsOf(names, batch))
  {
    if batch != [] {
      var init, last := batch[..|batch| - 1], batch[|batch| - 1];
      NormsSnoc(names, init, last);
      assert batch == init + [last];
      AfterIsAlike(names, s, t, init);
    }
  }

  // Importing a batch a third time changes nothing, whether or not its records agree and
  // whatever the ledger held before.
  lemma ThirdImportChangesNothing(names: Names, s: Ledger, batch: seq<Import>)
    ensures var second := After(names, After(names, s, batch), batch);
      After(names, second, batch) == second
  {
    var t := After(names, s, batch);
    var u := After(names, t, batch);
    AfterIsAlike(names, s, t, batch);
    AlikeChanges(names, t, u, batch, NormsOf(names, batch));
    var w := Changes(names, t, batch);
    AfterWritesChanges(names, t, batch);
    AfterWritesChanges(names, u, batch);
    WritingTwice(names, t, w);
  }

  lemma WritingTwice(names: Names, s: Ledger, records: seq<Import>)
    ensures WrittenAll(names, WrittenAll(names, s, records), records) == WrittenAll(names, s, records)
  {
    var o := WrittenAll(names, EMPTY, records);
    WritesOverlay(names, s, records);
    WritesOverlay(names, Overlaid(s, o), records);
    OverlayTwice(s, o);
  }

  lemma OverlayTwice(s: Ledger, o: Ledger)
    ensures Overlaid(Overlaid(s, o), o) == Overlaid(s, o)
  {
    assert s.entries + o.entries + o.entries == s.entries + o.entries;
    assert s.payloads + o.payloads + o.payloads == s.payloads + o.payloads;
    assert s.redirects + o.redirects + o.redirects == s.redirects + o.redirects;
  }

  // ------------------------------------------------------------------ what a re-import changes

  function IdOf(names: Names, n: string): string {
    "rec_" + names.digest(StableText(n))
  }

  // The hypothesis on the truncated digest, for the normalised ids given.
  ghost predicate IdsDiffer(names: Names, norms: set<string>) {
    forall m, n | m in norms && n in norms && IdOf(names, m) == IdOf(names, n) :: m == n
  }

  // What is on file for a normalised id is the same in both ledgers.
  ghost predicate SameFile(names: Names, s: Ledger, t: Ledger, n: string) {
    && n in s.entries && n in t.entries && s.entries[n] == t.entries[n]
    && IdOf(names, n) in s.payloads && IdOf(names, n) in t.payloads
    && s.payloads[IdOf(names, n)] == t.payloads[IdOf(names, n)]
  }

  // What an import leaves as it was.
  lemma ImportElsewhere(names: Names, s: Ledger, r: Import, n: string)
    ensures var t := ImportRecord(names, s, r);
      && (n != names.normalize(r.legacyId) ==>
            (n in t.entries <==> n in s.entries) && (n in s.entries ==> t.entries[n] == s.entries[n]))
      && (IdOf(names, n) != StableId(names, r.legacyId) ==>
            && (IdOf(names, n) in t.payloads <==> IdOf(names, n) in s.payloads)
            && (IdOf(names, n) in s.payloads ==> t.payloads[IdOf(names, n)] == s.payloads[IdOf(names, n)]))
  {
  }

  // Where records of one id disagree, what is on file for it after the batch does not depend
  // on the ledger before.
  lemma {:induction false} DisagreeingFile(names: Names, s: Ledger, t: Ledger, batch: seq<Import>, n: string)
    requires !AgreeAt(names, batch, n) && IdsDiffer(names, NormsOf(names, batch) + {n})
    ensures SameFile(names, After(names, s, batch), After(names, t, batch), n)
  {
    var init, last := batch[..|batch| - 1], batch[|batch| - 1];
    assert batch == init + [last];
    NormsSnoc(names, init, last);
    var x, y := After(names, s, init), After(names, t, init);
    if !AgreeAt(names, init, n) {
      DisagreeingFile(names, s, t, init, n);
      ImportElsewhere(names, x, last, n);
      ImportElsewhere(names, y, last, n);
    } else {
      var q :| q in init && names.normalize(q.legacyId) == n && Signature(names, q) != Signature(names, last);
      SignatureOnFile(names, s, init, q);
      SignatureOnFile(names, t, init, q);
    }
  }

  // Where they agree, and agree with what is on file, the batch leaves the file alone.
  lemma {:induction false} AgreedFileStays(names: Names, s: Ledger, batch: seq<Import>, n: string)
    requires forall r | r in batch && names.normalize(r.legacyId) == n :: Unchanged(names, s, r)
    requires IdsDiffer(names, NormsOf(names, batch) + {n})
    ensures var t := After(names, s, batch);
      && (n in t.entries <==> n in s.entries) && (n in s.entries ==> t.entries[n] == s.entries[n])
      && (IdOf(names, n) in t.payloads <==> IdOf(names, n) in s.payloads)
      && (IdOf(names, n) in s.payloads ==> t.payloads[IdOf(names, n)] == s.payloads[IdOf(names, n)])
  {
    if batch != [] {
      var init, last := batch[..|batch| - 1], batch[|batch| - 1];
      assert batch == init + [last];
      NormsSnoc(names, init, last);
      AgreedFileStays(names, s, init, n);
      ImportElsewhere(names, After(names, s, init), last, n);
      assert names.normalize(last.legacyId) == n ==> Unchanged(names, s, last);
    }
  }

  lemma {:induction false} PayloadsElsewhere(names: Names, s: Ledger, batch: seq<Import>, id: string)
    requires forall n | n in NormsOf(names, batch) :: IdOf(names, n) != id
    ensures var t := After(names, s, batch);
      (id in t.payloads <==> id in s.payloads) && (id in s.payloads ==> t.payloads[id] == s.payloads[id])
  {
    if batch != [] {
      var init, last := batch[..|batch| - 1], batch[|batch| - 1];
      assert batch == init + [last];
      NormsSnoc(names, init, last);
      PayloadsElsewhere(names, s, init, id);
      assert IdOf(names, names.normalize(last.legacyId)) != id;
    }
  }

  // A second import returns what is on file for each normalised id, agreed on or not.
  lemma FileReturns(names: Names, s: Ledger, batch: seq<Import>, n: string)
    requires IdsDiffer(names, NormsOf(names, batch) + {n})
    ensures var t := After(names, s, batch);
      var u := After(names, t, batch);
      && (n in u.entries <==> n in t.entries) && (n in t.entries ==> u.entries[n] == t.entries[n])
      && (IdOf(names, n) in u.payloads <==> IdOf(names, n) in t.payloads)
      && (IdOf(names, n) in t.payloads ==> u.payloads[IdOf(names, n)] == t.payloads[IdOf(names, n)])
  {
    var t := After(names, s, batch);
    if AgreeAt(names, batch, n) {
      forall r | r in batch && names.normalize(r.legacyId) == n ensures Unchanged(names, t, r) {
        SignatureOnFile(names, s, batch, r);
      }
      AgreedFileStays(names, t, batch, n);
    } else {
      DisagreeingFile(names, s, t, batch, n);
    }
  }

  lemma {:induction false} EntriesElsewhere(names: Names, s: Ledger, batch: seq<Import>, n: string)
    requires n !in NormsOf(names, batch)
    ensures var t := After(names, s, batch);
      (n in t.entries <==> n in s.entries) && (n in s.entries ==> t.entries[n] == s.entries[n])
  {
    if batch != [] {
      var init, last := batch[..|batch| - 1], batch[|batch| - 1];
      assert batch == init + [last];
      NormsSnoc(names, init, last);
      EntriesElsewhere(names, s, init, n);
    }
  }

  // So entries and payloads are always as they were after the first import.
  lemma FilesReturn(names: Names, s: Ledger, batch: seq<Import>)
    requires IdsDiffer(names, NormsOf(names, batch))
    ensures var t := After(names, s, batch);
      After(names, t, batch).entries == t.entries && After(names, t, batch).payloads == t.payloads
  {
    var t := After(names, s, batch);
    var u := After(names, t, batch);
    forall n ensures (n in u.entries <==> n in t.entries) && (n in t.entries ==> u.entries[n] == t.entries[n]) {
      if n in NormsOf(names, batch) {
        assert NormsOf(names, batch) + {n} == NormsOf(names, batch);
        FileReturns(names, s, batch, n);
      } else {
        EntriesElsewhere(names, t, batch, n);
      }
    }
    forall id
      ensures (id in u.payloads <==> id in t.payloads) && (id in t.payloads ==> u.payloads[id] == t.payloads[id])
    {
      if n :| n in NormsOf(names, batch) && IdOf(names, n) == id {
        assert NormsOf(names, batch) + {n} == NormsOf(names, batch);
        FileReturns(names, s, batch, n);
      } else {
        PayloadsElsewhere(names, t, batch, id);
      }
    }
    assert u.entries.Keys == t.entries.Keys && u.payloads.Keys == t.payloads.Keys;
  }

  // The last record of a normalised id.
  ghost function LastOf(names: Names, batch: seq<Import>, n: string): (j: Option<nat>)
    ensures j.Some? ==> j.value < |batch| && names.normalize(batch[j.value].legacyId) == n
    ensures j.Some? ==> forall k | j.value < k < |batch| :: names.normalize(batch[k].legacyId) != n
    ensures j.None? ==> forall k | 0 <= k < |batch| :: names.normalize(batch[k].legacyId) != n
  {
    if batch == [] then None
    else if names.normalize(batch[|batch| - 1].legacyId) == n then Some(|batch| - 1)
    else LastOf(names, batch[..|batch| - 1], n)
  }

  // Record i signs otherwise than the nearest record of its id before it, or, for the first of
  // its id, than what the ledger states.
  ghost predicate Rewrites(names: Names, s: Ledger, batch: seq<Import>, i: nat)
    requires i < |batch|
  {
    var j := LastOf(names, batch[..i], names.normalize(batch[i].legacyId));
    if j.Some? then Signature(names, batch[j.value]) != Signature(names, batch[i]) else !Unchanged(names, s, batch[i])
  }

  // The nearest record of the same id before record i, or the last of the batch if none is
  // before it.
  ghost function Predecessor(names: Names, batch: seq<Import>, i: nat): (j: nat)
    requires i < |batch|
    ensures j < |batch| && names.normalize(batch[j].legacyId) == names.normalize(batch[i].legacyId)
  {
    var n := names.normalize(batch[i].legacyId);
    if LastOf(names, batch[..i], n).Some? then LastOf(names, batch[..i], n).value else LastOf(names, batch, n).value
  }

  ghost predicate Disagrees(names: Names, batch: seq<Import>, i: nat)
    requires i < |batch|
  {
    Signature(names, batch[Predecessor(names, batch, i)]) != Signature(names, batch[i])
  }

  // What the ledger states of an id after a batch: what the last record of the id says, or
  // what it stated before.
  lemma {:induction false} LastIsOnFile(names: Names, s: Ledger, batch: seq<Import>, n: string)
    ensures var t, j := After(names, s, batch), LastOf(names, batch, n);
      if j.Some? then n in t.entries && EntrySignature(t.entries[n]) == Signature(names, batch[j.value])
      else (n in t.entries <==> n in s.entries) && (n in s.entries ==> t.entries[n] == s.entries[n])
  {
    if batch != [] {
      LastIsOnFile(names, s, batch[..|batch| - 1], n);
    }
  }

  // Which records an import of a batch reports as changed or new: those that sign otherwise
  // than the record before them.
  lemma ChangedExactly(names: Names, s: Ledger, batch: seq<Import>, i: nat)
    requires i < |batch|
    ensures Idle(names, s, batch, i) <==> !Rewrites(names, s, batch, i)
  {
    LastIsOnFile(names, s, batch[..i], names.normalize(batch[i].legacyId));
  }

  // On a second import the record before the first of an id is the last of it: a record is
  // reported unchanged exactly when it agrees with its predecessor in the batch, whatever the
  // ledger held before.
  lemma UnchangedAgainExactly(names: Names, s: Ledger, batch: seq<Import>, i: nat)
    requires i < |batch|
    ensures Idle(names, After(names, s, batch), batch, i) <==> !Disagrees(names, batch, i)
    ensures Rewrites(names, After(names, s, batch), batch, i) <==> Disagrees(names, batch, i)
  {
    ChangedExactly(names, After(names, s, batch), batch, i);
    LastIsOnFile(names, s, batch, names.normalize(batch[i].legacyId));
  }

  // An import that writes the record redirects this key.
  predicate PointsAt(names: Names, r: Import, k: string) {
    names.normalize(r.legacyId) == k
    || (r.slug.Some? && r.slug.value != "" && names.normalize(r.slug.value) == k)
  }

  // Of the first m records of the batch, the last marked one that redirects the key.
  ghost function LastPointing(names: Names, batch: seq<Import>, marks: seq<bool>, m: nat, k: string): (i: Option<nat>)
    requires m <= |batch| == |marks|
    ensures i.Some? ==> i.value < m && marks[i.value] && PointsAt(names, batch[i.value], k)
    ensures forall j | (if i.Some? then i.value + 1 else 0) <= j < m :: !(marks[j] && PointsAt(names, batch[j], k))
  {
    if m == 0 then None
    else if marks[m - 1] && PointsAt(names, batch[m - 1], k) then Some(m - 1)
    else LastPointing(names, batch, marks, m - 1, k)
  }

  // The records an import of the batch writes.
  ghost function Rewriting(names: Names, s: Ledger, batch: seq<Import>): seq<bool> {
    seq(|batch|, i requires 0 <= i < |batch| => Rewrites(names, s, batch, i))
  }

  ghost function Disagreeing(names: Names, batch: seq<Import>): seq<bool> {
    seq(|batch|, i requires 0 <= i < |batch| => Disagrees(names, batch, i))
  }

  predicate SameRedirect(s: Ledger, t: Ledger, k: string) {
    (k in s.redirects <==> k in t.redirects) && (k in s.redirects ==> s.redirects[k] == t.redirects[k])
  }

  lemma WriteRedirects(names: Names, s: Ledger, r: Import, k: string)
    ensures var t := ImportRecord(names, s, r);
      if !Unchanged(names, s, r) && PointsAt(names, r, k) then LeadsTo(t, k, StableId(names, r.legacyId))
      else SameRedirect(s, t, k)
  {
  }

  // Where a key leads after part of a batch: to the record of the last written one that
  // redirects it, or where it led before.
  lemma {:induction false} RedirectsAfter(names: Names, s: Ledger, batch: seq<Import>, m: nat, k: string)
    requires m <= |batch|
    ensures var t, i := After(names, s, batch[..m]), LastPointing(names, batch, Rewriting(names, s, batch), m, k);
      if i.Some? then LeadsTo(t, k, StableId(names, batch[i.value].legacyId)) else SameRedirect(s, t, k)
  {
    if m > 0 {
      RedirectsAfter(names, s, batch, m - 1, k);
      RedirectsNext(names, s, batch, m - 1, k);
    } else {
      assert batch[..m] == [];
    }
  }

  lemma RedirectsNext(names: Names, s: Ledger, batch: seq<Import>, m: nat, k: string)
    requires m < |batch|
    ensures var t, u := After(names, s, batch[..m]), After(names, s, batch[..m + 1]);
      if Rewrites(names, s, batch, m) && PointsAt(names, batch[m], k)
      then LeadsTo(u, k, StableId(names, batch[m].legacyId)) else SameRedirect(t, u, k)
  {
    var next := batch[..m + 1];
    assert next[..|next| - 1] == batch[..m] && next[|next| - 1] == batch[m];
    ChangedExactly(names, s, batch, m);
    WriteRedirects(names, After(names, s, batch[..m]), batch[m], k);
  }

  lemma RewritingAgain(names: Names, s: Ledger, batch: seq<Import>)
    ensures Rewriting(names, After(names, s, batch), batch) == Disagreeing(names, batch)
  {
    forall i | 0 <= i < |batch|
      ensures Rewrites(names, After(names, s, batch), batch, i) <==> Disagrees(names, batch, i)
    {
      UnchangedAgainExactly(names, s, batch, i);
    }
  }

  // The key leads to the last of the records that redirect it and disagree with their
  // predecessor, if there is one.
  ghost predicate LeadsToDisagreeing(names: Names, t: Ledger, batch: seq<Import>, k: string) {
    var i := LastPointing(names, batch, Disagreeing(names, batch), |batch|, k);
    i.Some? ==> LeadsTo(t, k, StableId(names, batch[i.value].legacyId))
  }

  // A second import leaves the whole ledger as it was exactly when each key that a record
  // redirects which disagrees with its predecessor leads already to the last such record.
  lemma ReimportKeepsLedgerExactly(names: Names, s: Ledger, batch: seq<Import>)
    requires IdsDiffer(names, NormsOf(names, batch))
    ensures var t := After(names, s, batch);
      After(names, t, batch) == t <==> forall k :: LeadsToDisagreeing(names, t, batch, k)
  {
    var t := After(names, s, batch);
    var u := After(names, t, batch);
    FilesReturn(names, s, batch);
    forall k ensures SameRedirect(t, u, k) <==> LeadsToDisagreeing(names, t, batch, k) {
      RedirectReturns(names, s, batch, k);
    }
    SameRedirects(t, u);
  }

  lemma SameRedirects(s: Ledger, t: Ledger)
    ensures s.redirects == t.redirects <==> forall k :: SameRedirect(s, t, k)
  {
    if forall k :: SameRedirect(s, t, k) {
      forall k ensures k in s.redirects <==> k in t.redirects {
        assert SameRedirect(s, t, k);
      }
      forall k | k in s.redirects ensures s.redirects[k] == t.redirects[k] {
        assert SameRedirect(s, t, k);
      }
      assert s.redirects.Keys == t.redirects.Keys;
    }
  }

  lemma RedirectReturns(names: Names, s: Ledger, batch: seq<Import>, k: string)
    ensures var t := After(names, s, batch);
      SameRedirect(t, After(names, t, batch), k) <==> LeadsToDisagreeing(names, t, batch, k)
  {
    assert batch[..|batch|] == batch;
    RewritingAgain(names, s, batch);
    RedirectsAfter(names, After(names, s, batch), batch, |batch|, k);
  }

  // A slug shared with a record in between is what moves: reported changed or not, the second
  // import of this batch redirects the slug to another record than the first.
  lemma SharedSlugMoves(names: Names, payload: seq<int>)
    requires names.normalize("a") != names.normalize("b")
    requires names.normalize("s") != names.normalize("a") && names.normalize("s") != names.normalize("b")
    requires StableId(names, "a") != StableId(names, "b")
    ensures var r := Import("a", payload, "1", "mapped", false, [], Some("s"));
      var batch := [r, r.(mappingVersion := "2"), r.(legacyId := "b")];
      var t := After(names, EMPTY, batch);
      var slug := names.normalize("s");
      && slug in t.redirects && t.redirects[slug] == StableId(names, "b")
      && slug in After(names, t, batch).redirects && After(names, t, batch).redirects[slug] == StableId(names, "a")
  {
    var r := Import("a", payload, "1", "mapped", false, [], Some("s"));
    var batch := [r, r.(mappingVersion := "2"), r.(legacyId := "b")];
    AfterThree(names, EMPTY, batch);
    AfterThree(names, After(names, EMPTY, batch), batch);
  }

  lemma AfterThree(names: Names, s: Ledger, batch: seq<Import>)
    requires |batch| == 3
    ensures After(names, s, batch)
         == ImportRecord(names, ImportRecord(names, ImportRecord(names, s, batch[0]), batch[1]), batch[2])
  {
    var a, b := batch[..1], batch[..2];
    assert b[..1] == a && a[..0] == [];
    assert After(names, s, a) == ImportRecord(names, s, batch[0]);
    assert After(names, s, b) == ImportRecord(names, After(names, s, a), batch[1]);
  }

  predicate NoSlugs(batch: seq<Import>) {
    forall r | r in batch :: r.slug.None? || r.slug.value == ""
  }

  // Where no record has a slug, even a batch whose records disagree leaves the ledger as it
  // was when imported again.
  lemma SlugFreeReimportKeepsLedger(names: Names, s: Ledger, batch: seq<Import>)
    requires IdsDiffer(names, NormsOf(names, batch)) && NoSlugs(batch)
    ensures After(names, After(names, s, batch), batch) == After(names, s, batch)
  {
    var t := After(names, s, batch);
    var u := After(names, t, batch);
    FilesReturn(names, s, batch);
    forall k
      ensures (k in u.redirects <==> k in t.redirects) && (k in t.redirects ==> u.redirects[k] == t.redirects[k])
    {
      if AgreeAt(names, batch, k) {
        forall r | r in batch && names.normalize(r.legacyId) == k ensures Unchanged(names, t, r) {
          SignatureOnFile(names, s, batch, r);
        }
        AgreedRedirectStays(names, t, batch, k);
      } else {
        DisagreeingRedirect(names, s, batch, k);
        DisagreeingRedirect(names, t, batch, k);
      }
    }
    assert u.redirects.Keys == t.redirects.Keys;
  }

  lemma {:induction false} AgreedRedirectStays(names: Names, s: Ledger, batch: seq<Import>, n: string)
    requires forall r | r in batch && names.normalize(r.legacyId) == n :: Unchanged(names, s, r)
    requires NoSlugs(batch)
    ensures var t := After(names, s, batch);
      && (n in t.redirects <==> n in s.redirects) && (n in s.redirects ==> t.redirects[n] == s.redirects[n])
      && (n in t.entries <==> n in s.entries) && (n in s.entries ==> t.entries[n] == s.entries[n])
  {
    if batch != [] {
      var init, last := batch[..|batch| - 1], batch[|batch| - 1];
      assert batch == init + [last];
      AgreedRedirectStays(names, s, init, n);
      assert names.normalize(last.legacyId) == n ==> Unchanged(names, s, last);
    }
  }

  lemma {:induction false} DisagreeingRedirect(names: Names, s: Ledger, batch: seq<Import>, n: string)
    requires !AgreeAt(names, batch, n) && NoSlugs(batch)
    ensures n in After(names, s, batch).redirects && After(names, s, batch).redirects[n] == IdOf(names, n)
  {
    var init, last := batch[..|batch| - 1], batch[|batch| - 1];
    assert batch == init + [last];
    if !AgreeAt(names, init, n) {
      DisagreeingRedirect(names, s, init, n);
    } else {
      var q :| q in init && names.normalize(q.legacyId) == n && Signature(names, q) != Signature(names, last);
      SignatureOnFile(names, s, init, q);
    }
  }

  // ------------------------------------------------------------------ reachable ledgers

  datatype Call = ImportCall(record: Import) | MergeCall(survivor: string, merged: set<string>)

  ghost function Apply(names: Names, s: Ledger, c: Call): Ledger {
    match c
    case ImportCall(r) => ImportRecord(names, s, r)
    case MergeCall(survivor, merged) => s.(redirects := MergeRedirects(s.redirects, survivor, merged))
  }

  ghost function RunFrom(names: Names, s: Ledger, calls: seq<Call>): Ledger {
    if calls == [] then s else Apply(names, RunFrom(names, s, calls[..|calls| - 1]), calls[|calls| - 1])
  }

  ghost function Run(names: Names, calls: seq<Call>): Ledger {
    RunFrom(names, EMPTY, calls)
  }

  ghost function StableTexts(names: Names, calls: seq<Call>): set<string> {
    set c | c in calls && c.ImportCall? :: StableText(names.normalize(c.record.legacyId))
  }

  // The record of a normalised id is on file: its payload under its stable id with the hash
  // the ledger states, a redirect to some record, and nothing citable.
  ghost predicate OnFile(names: Names, s: Ledger, norm: string)
    requires norm in s.entries
  {
    var id := "rec_" + names.digest(StableText(norm));
    && s.entries[norm].targets == [id]
    && id in s.payloads && names.sha(s.payloads[id]) == s.entries[norm].payloadSha
    && norm in s.redirects
    && !IsCitable(s.entries[norm])
  }

  lemma ImportKeepsOnFile(names: Names, s: Ledger, r: Import, norm: string)
    requires norm in ImportRecord(names, s, r).entries
    requires norm in s.entries ==> OnFile(names, s, norm)
    requires NoCollision(names.digest, {StableText(norm), StableText(names.normalize(r.legacyId))})
    ensures OnFile(names, ImportRecord(names, s, r), norm)
  {
    var own := names.normalize(r.legacyId);
    SameIdSameText(names.digest, StableText(norm), StableText(own));
    if StableText(norm) == StableText(own) {
      assert norm == StableText(norm)[|NAMESPACE| + 1..] == StableText(own)[|NAMESPACE| + 1..] == own;
    }
  }

  // Every normalised id on record is that of an import of the run.
  lemma {:induction false} EntriesAreImported(names: Names, calls: seq<Call>)
    ensures forall norm | norm in Run(names, calls).entries :: StableText(norm) in StableTexts(names, calls)
  {
    if calls != [] {
      var init, c := calls[..|calls| - 1], calls[|calls| - 1];
      EntriesAreImported(names, init);
      assert calls == init + [c];
      assert StableTexts(names, init) <= StableTexts(names, calls);
      assert c.ImportCall? ==> StableText(names.normalize(c.record.legacyId)) in StableTexts(names, calls);
    }
  }

  // In every reachable ledger each imported record can be retrieved by its stable id with the
  // payload and hash last imported for it, has a redirect, and is not citable.
  lemma {:induction false} EveryEntryIsOnFile(names: Names, calls: seq<Call>, norm: string)
    requires NoCollision(names.digest, StableTexts(names, calls))
    requires norm in Run(names, calls).entries
    ensures OnFile(names, Run(names, calls), norm)
  {
    var init, c := calls[..|calls| - 1], calls[|calls| - 1];
    assert calls == init + [c];
    assert StableTexts(names, init) <= StableTexts(names, calls);
    if norm in Run(names, init).entries {
      EveryEntryIsOnFile(names, init, norm);
    }
    if c.ImportCall? {
      EntriesAreImported(names, calls);
      var own := names.normalize(c.record.legacyId);
      assert StableText(own) in StableTexts(names, calls);
      assert NoCollision(names.digest, {StableText(norm), StableText(own)});
      ImportKeepsOnFile(names, Run(names, init), c.record, norm);
    }
  }

  // ------------------------------------------------------------------ what a merge lasts for

  // The call points key k away from the record: an import of another record that is not
  // reported unchanged, under this key or with this slug, or a merge of the record itself.
  predicate Diverts(names: Names, s: Ledger, c: Call, k: string, id: string) {
    match c
    case ImportCall(r) =>
      !Unchanged(names, s, r) && StableId(names, r.legacyId) != id && PointsAt(names, r, k)
    case MergeCall(survivor, merged) => id in merged && survivor != id
  }

  ghost predicate LeadsThroughout(names: Names, s: Ledger, calls: seq<Call>, k: string, id: string) {
    LeadsTo(RunFrom(names, s, calls), k, id)
    && (calls == [] || LeadsThroughout(names, s, calls[..|calls| - 1], k, id))
  }

  ghost predicate NoneDiverts(names: Names, s: Ledger, calls: seq<Call>, k: string, id: string) {
    calls == []
    || (NoneDiverts(names, s, calls[..|calls| - 1], k, id)
        && !Diverts(names, RunFrom(names, s, calls[..|calls| - 1]), calls[|calls| - 1], k, id))
  }

  lemma {:induction false} RedirectLasts(names: Names, s: Ledger, calls: seq<Call>, k: string, id: string)
    requires LeadsTo(s, k, id)
    ensures LeadsThroughout(names, s, calls, k, id) <==> NoneDiverts(names, s, calls, k, id)
  {
    if calls != [] {
      RedirectLasts(names, s, calls[..|calls| - 1], k, id);
    }
  }

  // After a merge, each key that led to a merged record leads to the survivor; and it goes on
  // leading there, over any calls, exactly until one of them diverts it.
  lemma {:induction false} MergeLastsUntilDiverted(names: Names, s: Ledger, survivor: string, merged: set<string>,
                                                   k: string, more: seq<Call>)
    requires k in s.redirects && s.redirects[k] in merged + {survivor}
    ensures var t := Apply(names, s, MergeCall(survivor, merged));
      && LeadsTo(t, k, survivor)
      && (LeadsThroughout(names, t, more, k, survivor) <==> NoneDiverts(names, t, more, k, survivor))
  {
    RedirectLasts(names, Apply(names, s, MergeCall(survivor, merged)), more, k, survivor);
  }

  ghost predicate NoneLeadsTo(s: Ledger, ids: set<string>) {
    forall k | k in s.redirects :: s.redirects[k] !in ids
  }

  // The call points some key at one of the records: an import of it that is not reported
  // unchanged, or a merge of something reachable into it.
  ghost predicate Revives(names: Names, s: Ledger, c: Call, ids: set<string>) {
    match c
    case ImportCall(r) => !Unchanged(names, s, r) && StableId(names, r.legacyId) in ids
    case MergeCall(survivor, merged) => survivor in ids && exists k :: k in s.redirects && s.redirects[k] in merged
  }

  ghost predicate NoneLeadsThroughout(names: Names, s: Ledger, calls: seq<Call>, ids: set<string>) {
    NoneLeadsTo(RunFrom(names, s, calls), ids)
    && (calls == [] || NoneLeadsThroughout(names, s, calls[..|calls| - 1], ids))
  }

  ghost predicate NoneRevives(names: Names, s: Ledger, calls: seq<Call>, ids: set<string>) {
    calls == []
    || (NoneRevives(names, s, calls[..|calls| - 1], ids)
        && !Revives(names, RunFrom(names, s, calls[..|calls| - 1]), calls[|calls| - 1], ids))
  }

  lemma StepRevives(names: Names, s: Ledger, c: Call, ids: set<string>)
    requires NoneLeadsTo(s, ids)
    ensures NoneLeadsTo(Apply(names, s, c), ids) <==> !Revives(names, s, c, ids)
  {
    var t := Apply(names, s, c);
    if c.ImportCall? && !Unchanged(names, s, c.record) {
      var norm := names.normalize(c.record.legacyId);
      var slug := if c.record.slug.Some? then names.normalize(c.record.slug.value) else norm;
      assert norm in t.redirects && t.redirects[norm] == StableId(names, c.record.legacyId);
      assert forall k | k in t.redirects && k != norm && k != slug ::
          k in s.redirects && t.redirects[k] == s.redirects[k];
    } else if c.MergeCall? && exists k :: k in s.redirects && s.redirects[k] in c.merged {
      var k :| k in s.redirects && s.redirects[k] in c.merged;
      assert t.redirects[k] == c.survivor;
    }
  }

  lemma {:induction false} UnreachableLasts(names: Names, s: Ledger, calls: seq<Call>, ids: set<string>)
    requires NoneLeadsTo(s, ids)
    ensures NoneLeadsThroughout(names, s, calls, ids) <==> NoneRevives(names, s, calls, ids)
  {
    if calls != [] {
      var init := calls[..|calls| - 1];
      UnreachableLasts(names, s, init, ids);
      if NoneLeadsThroughout(names, s, init, ids) {
        StepRevives(names, RunFrom(names, s, init), calls[|calls| - 1], ids);
      }
    }
  }

  // After a merge no key leads to a merged record other than the survivor, and over any calls
  // that stays so exactly as long as none of them revives one; merging again changes nothing.
  lemma MergedRecordsAreUnreachable(names: Names, s: Ledger, survivor: string, merged: set<string>, more: seq<Call>)
    ensures var merge, dead := MergeCall(survivor, merged), merged - {survivor};
      var t := Apply(names, s, merge);
      && NoneLeadsTo(t, dead) && Apply(names, t, merge) == t
      && (NoneLeadsThroughout(names, t, more, dead) <==> NoneRevives(names, t, more, dead))
  {
    UnreachableLasts(names, Apply(names, s, MergeCall(survivor, merged)), more, merged - {survivor});
  }

  // A changed import of a merged legacy id undoes its redirect.
  lemma ChangedImportUndoesMerge(names: Names, r: Import, mappingVersion: string, survivor: string)
    requires mappingVersion != r.mappingVersion
    ensures var id, key := StableId(names, r.legacyId), names.normalize(r.legacyId);
      var calls := [ImportCall(r), MergeCall(survivor, {id})];
      && LeadsTo(Run(names, calls), key, survivor)
      && LeadsTo(Run(names, calls + [ImportCall(r.(mappingVersion := mappingVersion))]), key, id)
  {
    var calls := [ImportCall(r), MergeCall(survivor, {StableId(names, r.legacyId)})];
    var again := ImportCall(r.(mappingVersion := mappingVersion));
    var first := [ImportCall(r)];
    assert first[..0] == [] && calls[..1] == first && (calls + [again])[..2] == calls;
    assert Run(names, first) == Apply(names, Run(names, []), first[0]) && Run(names, []) == EMPTY;
    assert Run(names, first) == Written(names, EMPTY, r);
    assert Run(names, calls) == Apply(names, Run(names, first), calls[1]);
    assert Run(names, calls + [again]) == Apply(names, Run(names, calls), again);
  }
}
