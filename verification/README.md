# Exposure Atlas: a verified model of the decision core

This project models the deterministic core of Exposure Atlas in Dafny 4.11 and proves what its
documentation promises: the plan tooling, exact identity resolution, canonical text and byte
anchors, the durable job queue, reviewer actions, the weekly decision pack, the evidence pipeline
with its verifier, the two audit ledgers, the migration importer, the workload percentile and the
evaluation partitions.  `dafny verify dfyconfig.toml` checks everything.

Each file holds the module of one source file.  An object whose methods change its fields is a
class with those fields; every method is proved equal to a specification function on its state,
and the theorems are about runs of that function: any sequence of calls, from the empty state.
Loops of the source are loops here, with their invariants.  `Strings`, `Sorting`, `Utf8`,
`States` and `Wrappers` hold what several modules share.

## Conventions

- A `string` is a sequence of Unicode scalar values; octets are integers from 0 to 255.
- SHA-256, its truncated forms, NFC, case mapping, the HTML extractor and the PDF extractor are
  function-valued parameters.  A theorem that needs hashes to be distinct says so as a hypothesis,
  on the texts actually hashed wherever that is possible; `NfcLaws` states what is assumed of NFC.
- Identifiers made from random tokens are fresh: the step that stores one has it as a precondition,
  or treats a clash as the refused insert it is.
- Times are integers.  A timestamp of a reviewer action carries its instant and, separately, the
  calendar date it shows, because the date depends on the offset.  Floats are reals.
- Schema validation is a precondition; what the schemas exclude is not modelled, except where the
  code goes on after a schema error, as `validate` does with repeated dependencies.
- Every queue and audit call is one atomic step on a table.

## Where the code decides

These follow the code, also where its documentation reads differently.  Each names the lemma
that gives the exact condition and the one that shows an input, where they differ.

- `validate` reports a cycle for every plan that declares an id twice, cyclic or not
  (`ValidateVerdict`, `RepeatedIdWithoutCycle`).
- A call to `resolve` that raises for a malformed artifact hash has stored its keys by then
  and linked the artifact hashes before it (`MalformedHashStoresKeys`, `CallLeavesIndexExactly`,
  `RaisingCallStoresItsKey`).
- Canonicalisation is not idempotent on a text whose content starts with a second byte-order mark
  (`CanonicalIdempotent`, `TwoBomsTakeTwoPasses`).
- The verifier of the audit table lets a payload key `prev` override the link it checks, so that
  any history can be put before a given end hash (`SameEndSameRows`, `AnyHistoryFitsTheEnd`).
- The file log protects every event but its last (`EarlierEventsAreProtected`,
  `LastEventIsNotProtected`).
- A bulk review call that raises keeps the requests it applied before (`BulkIsNotAtomic`,
  `RaisingBulkCallKeepsFirst`).
- Importing a batch again reports every record unchanged only if those with one normalised id
  agree, and can move a slug from one record to another (`ReimportIsReportedUnchanged`,
  `ReimportKeepsLedgerExactly`, `SharedSlugMoves`); a third import never changes anything.
- A changed import of a merged legacy id points it back at the merged record
  (`MergeLastsUntilDiverted`, `ChangedImportUndoesMerge`).
- A quotation none of whose edges supports it is accepted with any value
  (`QuotationIsUncheckedExactly`, `UnsupportedQuotationIsAccepted`), and an accepted proposal of
  any other origin needs no anchor (`AnchorsCountForQuotationsOnly`, `UnanchoredIsAccepted`).
- A normalized or derived value passes with parents that are no accepted assertions, although
  the publication invariant of the specification demands them (`ParentsAreOnlyCounted`, `UnanchoredIsAccepted`).
- Takeovers are not bounded by the attempt limit: a job whose workers crash is never
  dead-lettered (`JobsAreBounded`, `AttemptsPassTheLimit`).
- Anchoring and verifying append no audit event, although the kernel's introduction says that
  every state change does (`EveryStepIsAudited`, `UnsupportedQuotationIsAccepted`).

## Model

| member | source | states |
|---|---|---|
| Plan.CountDependencies | tools/atlas_plan.py:123-127 | after the counting loops every id's count is the number of its dependency pairs to known ids, repeated pairs counted each time and unknown ones not at all |
| Plan.IndexDependents | tools/atlas_plan.py:130-133 | the reverse index lists, for any id, the tasks of exactly the pairs that name it, one entry per pair |
| Plan.InitialQueue | tools/atlas_plan.py:128 | the queue starts with the ids whose count is zero, each once even when an id is declared twice |
| Plan.Release | tools/atlas_plan.py:135-140 | popping an id takes one off every pair that names it; the queue afterwards holds once each the unpopped ids whose count is zero |
| Plan.CountPops | tools/atlas_plan.py:134-141 | the queue loop ends, pops each id at most once and only after its known dependencies, and pops all ids exactly when the graph has no cycle |
| Plan.KahnCriterion | tools/atlas_plan.py:134-142 | a dependencies-first list that cannot be extended covers the plan if and only if the dependency graph is acyclic |
| Plan.WalkMeetsItself | tools/atlas_plan.py:141-142 | ids that all keep waiting for one another contain a directed cycle |
| Plan.Validate | tools/atlas_plan.py:106-153 | the whole error list in order: repeated ids, unknown dependencies, the cycle report, done tasks without evidence |
| Plan.DuplicatesListed | tools/atlas_plan.py:115-118 | an id is reported as repeated exactly when it stands at two places of the plan |
| Plan.UnknownListed | tools/atlas_plan.py:119-122 | a dependency is reported as unknown exactly when some task lists it and no task has it as its id |
| Plan.UnevidencedListed | tools/atlas_plan.py:143-153 | a finished task is reported exactly when each of its receipts is self-asserted or has a failed criterion |
| Plan.CycleOfTasks | tools/atlas_plan.py:123-142 | any list of ids, each with a task that lists the next, that returns to its start is a cycle |
| Plan.TasksOfCycle | tools/atlas_plan.py:123-142 | where there is a cycle there is such a list |
| Plan.DuplicatesInOrder | tools/atlas_plan.py:110-118 | repeated ids are reported in plan order, once for each task that repeats one |
| Plan.UnknownInOrder | tools/atlas_plan.py:119-122 | unknown dependencies are reported in the order of the pairs |
| Plan.UnevidencedInOrder | tools/atlas_plan.py:145-153 | finished tasks without evidence are reported in plan order |
| Plan.ValidateVerdict | tools/atlas_plan.py:141-160 | for every task list a cycle is reported exactly when the graph has one or an id repeats, and no error at all exactly for plans with unique ids, resolved references, no cycle and evidence for what is done |
| Plan.RepeatedIdWithoutCycle | tools/atlas_plan.py:141-142 | one task without dependencies declared twice repeats an id, for which `ValidateVerdict` has a cycle reported, and has no cycle |
| Plan.PairMeaning | tools/atlas_plan.py:124-133 | the pair list the graph is built from says what the tasks' depends_on fields say |
| Plan.PlanNext | tools/atlas_plan.py:274-291 | nothing is listed while a cost ceiling is unset; otherwise an id is listed exactly when a task of it is pending or ready, its level does not exceed the current one, its decisions are taken if it requires any, and the last task of each dependency is done |
| Plan.ListedMeansReady | tools/atlas_plan.py:279-291 | an id is listed exactly when a task of that id is open, all its dependencies are done, and its level and decisions allow it |
| Plan.ListedExactly | tools/atlas_plan.py:279-291 | the listed ids, in the tasks' own fields |
| Plan.ListedInOrder | tools/atlas_plan.py:278-291 | the ready tasks are listed in plan order, one entry each |
| Plan.Progress | tools/atlas_plan.py:279-291 | in an acyclic plan where only dependencies hold tasks back, some task is listed while any is unfinished |
| Plan.RunKeepsClosed | tools/atlas_plan.py:283-285 | runs that complete only listed tasks never finish a task before something it depends on |
| Plan.RunFinishesAll | tools/atlas_plan.py:279-291 | such a run of n unfinished tasks has at most n steps and comes to a stop exactly when it has taken n and finished all |
| Plan.FinishingRun | tools/atlas_plan.py:279-291 | a run that finishes the plan exists from every runnable plan |
| Identity.IdentityResolver.ResolveIdentifiers | packages/python/atlas/identity.py:78-104 | one call has exactly the specified effect on all three indexes and the specified outcome, raising cases included |
| Identity.IdsAlike | packages/python/atlas/identity.py:39-54 | docket and authoritative ids are alike if their words agree, and for lower-case texts only then |
| Identity.CitationIsItsText | packages/python/atlas/identity.py:41-49 | of an upper-case citation every character but whitespace counts |
| Identity.HashIsItsDigits | packages/python/atlas/identity.py:42-46 | a lower-case artifact hash is well formed exactly with sixty-four hexadecimal digits, whitespace apart |
| Identity.KeysMeaning | packages/python/atlas/identity.py:57-58 | the matter keys are kind, colon and normal form of the identifiers of the three matter kinds |
| Identity.ResolvedRecord | packages/python/atlas/identity.py:78-104 | a call resolves to the record of its known keys, or to one named after the first in text order of the keys of its strongest kind |
| Strings.WordsOfJoin | packages/python/atlas/identity.py:41 | splitting at whitespace undoes joining words by single spaces |
| Strings.WordsApart | packages/python/atlas/identity.py:41 | any whitespace between two texts separates their words and loses none |
| Strings.CollapsedKeepsText | packages/python/atlas/migration.py:39 | collapsing keeps every character that is not whitespace, in order |
| Strings.StripCutsSpace | packages/python/atlas/migration.py:38 | stripping cuts whitespace only, at both ends |
| Strings.SpaceTable | packages/python/atlas/documents.py:21 | the whitespace characters, one by one |
| Strings.LexMeaning | packages/python/atlas/identity.py:64 | texts are ordered by the first code point in which they differ, a beginning first |
| Strings.DecimalDigits | packages/python/atlas/migration.py:51 | the decimal text of a number ends in its last digit, after the text of the others |
| Identity.LeadKeyIsStrongest | packages/python/atlas/identity.py:60-67 | a new record is named after the lexicographically least key of the strongest kind among the call's keys |
| Identity.LeadKeyOrderFree | packages/python/atlas/identity.py:60-67 | the naming key depends on which keys are given, not on order or repetition |
| Identity.SameRecordMeansLinked | packages/python/atlas/identity.py:78-104 | after any run two keys belong to one record if and only if a chain of accepted calls with overlapping key sets links them |
| Identity.IndexesAreInverse | packages/python/atlas/identity.py:96-98 | the key index and the alias sets are inverse to each other in every reachable state |
| Identity.RecordsAreForever | packages/python/atlas/identity.py:93-98 | a key's record never changes and never disappears, whatever calls follow |
| Identity.SameCallSameRecord | packages/python/atlas/identity.py:93-104 | a call made again after any others resolves to the same record and is not new |
| Identity.IsNewMeansNoKeyKnown | packages/python/atlas/identity.py:93-94 | is_new is reported exactly when none of the call's keys was known before |
| Identity.ConflictMeansTwoRecords | packages/python/atlas/identity.py:90-92 | a call is refused as a conflict exactly when two of its keys belong to different records, which it names, and as without identifier exactly when none is of a matter kind; a refused call changes nothing |
| Identity.MalformedHashStoresKeys | packages/python/atlas/identity.py:96-103 | a call raises for a malformed artifact hash exactly when it is not refused and carries one; its keys are stored by then, and the key index is unchanged exactly when all were known |
| Identity.CallLeavesIndexExactly | packages/python/atlas/identity.py:78-104 | a call that is not refused, raising or not, leaves the whole index of a reachable state as it was exactly when all its keys are known and every artifact hash before the first malformed one is linked to the record already |
| Identity.RaisingCallStoresItsKey | packages/python/atlas/identity.py:96-103 | a docket id with an empty artifact hash raises on the empty index and leaves the docket key stored |
| Identity.SharedDocumentUnifiesNothing | packages/python/atlas/identity.py:99-103 | artifact hashes never influence which record a call resolves to |
| Identity.LinksAreExact | packages/python/atlas/identity.py:100-103 | a call without a malformed hash links its record to exactly the documents it mentions and leaves other links alone |
| Utf8.CodeRecovered | packages/python/atlas/documents.py:25 | the octets of a character determine its scalar value |
| Utf8.EncodingForm | packages/python/atlas/documents.py:25 | length, octet ranges and value of the four forms of section 3 of RFC 3629 |
| Utf8.EncodeInjective | packages/python/atlas/anchors.py:15 | different texts have different UTF-8 encodings |
| Utf8.CharMatchIsByteMatch | packages/python/atlas/anchors.py:20-25 | wherever the quote occurs in the text, its octets occur at the corresponding octet offset |
| Utf8.ByteMatchIsCharMatch | packages/python/atlas/anchors.py:20-25 | every octet occurrence of a non-empty quote is a character occurrence; none starts inside a character |
| Documents.CollapseLoop | packages/python/atlas/documents.py:23-24 | the replace-until-gone loop ends and computes the single pass that shortens every maximal newline run of three or more to two |
| Documents.ShortenAbsorbsReplace | packages/python/atlas/documents.py:23-24 | one leftmost replacement pass never changes what the single pass makes of the text |
| Documents.ShortenHasNoTriple | packages/python/atlas/documents.py:23-24 | the single pass leaves no three newlines in a row and shortens the leading run to at most two |
| Documents.CanonicalizeText | packages/python/atlas/documents.py:16-25 | the octets returned are the UTF-8 encoding of the canonical text |
| Documents.CanonicalOfLines | packages/python/atlas/documents.py:16-25 | lines joined by any of the three line breaks, with a byte-order mark in front or without, have one canonical text; where the normal form changes nothing it is those lines without trailing whitespace, with outer empty lines dropped and inner ones reduced to one |
| Documents.CanonicalIsSqueezed | packages/python/atlas/documents.py:16-25 | for any text the canonical text is the lines of its normal form, trimmed and squeezed in that way |
| Documents.LineBreaksAlike | packages/python/atlas/documents.py:17 | the three line breaks become the same |
| Documents.RStripCutsSpace | packages/python/atlas/documents.py:21 | only whitespace is cut from the end of a line |
| Documents.CanonicalShape | packages/python/atlas/documents.py:16-25 | every canonical text has no carriage return, no trailing whitespace, no triple newline, one final newline and no leading newline unless it is a single newline |
| Documents.ContentIsKept | packages/python/atlas/documents.py:20-25 | the non-empty lines of the canonical text are, in order, those of the normalised text with only trailing whitespace removed |
| Documents.SecondPass | packages/python/atlas/documents.py:16-25 | canonicalising a canonical text gives it back, except that one starting with U+FEFF gets strictly shorter |
| Documents.CanonicalIdempotent | packages/python/atlas/documents.py:16-25 | canonicalising the decoded output yields the same octets if and only if the input's content does not start with a second byte-order mark |
| Documents.TwoBomsTakeTwoPasses | packages/python/atlas/documents.py:16-25 | two byte-order marks and a letter lose one mark in the first pass and the other in the second |
| Documents.PdfToCanonical | packages/python/atlas/documents.py:57-76 | fails exactly when a page is blank; otherwise the page spans are contiguous, cover the text and cut out each page's canonical text |
| Documents.PartitionsMeaning | packages/python/atlas/documents.py:66-76 | each page's label, where its span starts and ends, and that it cuts out the page's canonical text |
| Anchors.FindAll | packages/python/atlas/anchors.py:18-25 | the loop returns every octet position of the quote from the start of the text on |
| Anchors.PositionsExact | packages/python/atlas/anchors.py:18-25 | those positions are all occurrences, overlapping ones included, each once and increasing |
| Anchors.BytePositionsAreCharPositions | packages/python/atlas/anchors.py:15-25 | for UTF-8 text and quote the octet positions correspond one for one, in order, with the code-point positions |
| Anchors.CreateAnchor | packages/python/atlas/anchors.py:11-45 | which error is raised when, counted in the text; the anchor stands where exactly k-1 occurrences come before it, or for a negative ordinal exactly -k after it; and what it records |
| Anchors.VerifyAnchor | packages/python/atlas/anchors.py:48-61 | the failures listed are exactly the comparisons that fail, in order; `FailuresMeaning` names each comparison |
| Anchors.ChosenMeaning | packages/python/atlas/anchors.py:31 | which place of the text an ordinal names, and when there is none |
| Anchors.CreatedAnchorVerifies | packages/python/atlas/anchors.py:33-61 | a created anchor verifies without failure on an artifact exactly when that is the artifact of its own text |
| Anchors.VerifiedAnchorIsPassage | packages/python/atlas/anchors.py:48-61 | the quote of a verifying anchor is a passage of the text, character for character |
| JobQueue.Queue.EnqueueJob | packages/python/atlas/jobs.py:13-24 | returns a job carrying the key, inserting the new row only if there is none |
| JobQueue.Queue.LeaseJob | packages/python/atlas/jobs.py:27-44 | leases the first ready or expired job in id order and writes owner, expiry, heartbeat and attempt on it alone, or nothing when there is none |
| JobQueue.Queue.HeartbeatJob | packages/python/atlas/jobs.py:47-53 | writes heartbeat time and the new expiry exactly for the worker that holds the lease, and nothing else |
| JobQueue.Queue.CompleteJob | packages/python/atlas/jobs.py:56-65 | completes for the holder; otherwise, and for a completed job, nothing changes |
| JobQueue.Queue.FailJob | packages/python/atlas/jobs.py:68-81 | for the holder only, schedules a retry at the given time or buries the job by its attempts |
| JobQueue.Queue.RequeueDueJobs | packages/python/atlas/jobs.py:84-88 | makes exactly the retries due by now ready and counts them |
| JobQueue.EveryChangeIsLegal | packages/python/atlas/jobs.py:27-88 | in every reachable state lease fields and retry time match the state, keys are unique, and each change is a JOB edge, a takeover of an expired lease or the holder's heartbeat |
| JobQueue.JobsAreBounded | packages/python/atlas/jobs.py:40-88 | over any run a job with limit m fails at most m times, is leased afresh at most m times, is rescheduled at most m-1 times and changes state at most 3m-1 times besides takeovers; attempts beyond that are takeovers |
| JobQueue.BoundIsReached | packages/python/atlas/jobs.py:27-88 | for every m there is a run that reaches 3m-1 |
| JobQueue.AttemptsPassTheLimit | packages/python/atlas/jobs.py:28-44 | for every limit and every n there is a run without failure reports in which the job has made n attempts and is still leased, not dead-lettered |
| JobQueue.JobsLast | packages/python/atlas/jobs.py:27-88 | jobs never disappear or change key, work or limit, and completed or dead-lettered rows are frozen |
| JobQueue.KeyNamesOneJob | packages/python/atlas/jobs.py:15-18 | an idempotency key names one job for ever |
| JobQueue.DisplacedWorkerIsPowerless | packages/python/atlas/jobs.py:47-71 | a worker that is not the owner cannot change the job until it is leased to it again, whatever happens in between |
| JobQueue.LeaseIsExclusive | packages/python/atlas/jobs.py:27-88 | over any calls made before a lease expires, none of them by its holder about the job, the job's row does not change |
| JobQueue.HeartbeatExtendsLease | packages/python/atlas/jobs.py:47-53 | after an accepted heartbeat no call by others made by the new expiry changes the row |
| ReviewerActions.ActionProcessor.Process | packages/python/atlas/reviewer_actions.py:187-232 | one request has exactly the specified outcome and effect; `AdmittedExactly` and `DecidedExactly` spell the checks out in the request's own fields |
| ReviewerActions.ActionProcessor.ProcessBulk | packages/python/atlas/reviewer_actions.py:234-239 | refused untouched if any class is sensitive; otherwise the results and effect of the requests up to the first that raises, with the exact condition for no effect at all |
| ReviewerActions.AppliedEffect | packages/python/atlas/reviewer_actions.py:218-232 | the result and the whole state an applied request leaves |
| ReviewerActions.RetryIsSafe | packages/python/atlas/reviewer_actions.py:192-194 | a request sent again after anything else returns its first result and changes nothing |
| ReviewerActions.ReachableInvariant | packages/python/atlas/reviewer_actions.py:218-229 | nonces, cached results and the sum of version numbers are always one number, and each target's results form a gapless unforked chain |
| ReviewerActions.NextVersionIsNumeric | packages/python/atlas/reviewer_actions.py:219-221 | in reachable states version n is followed by n+1; the integer parse never raises and the hash fallback is never taken |
| ReviewerActions.ConfirmationHasItsStaging | packages/python/atlas/reviewer_actions.py:209-216 | each applied cooling-class decision confirms the latest staging of its target, from an earlier date with the same diff, unused since; the class is always material_correction |
| ReviewerActions.StagingsAreNotShared | packages/python/atlas/reviewer_actions.py:230-231 | between two confirmations of one target and class there is a new staging |
| ReviewerActions.ConfirmationsAreStaged | packages/python/atlas/reviewer_actions.py:168-172 | confirmations never outnumber stagings, with one to spare while a staging waits |
| ReviewerActions.BulkConsumesNoStaging | packages/python/atlas/reviewer_actions.py:234-239 | bulk calls never consume a staging |
| ReviewerActions.BulkIsNotAtomic | packages/python/atlas/reviewer_actions.py:234-239 | a bulk call leaves the state as it was exactly when, judged at the state before it, every request that could be applied comes after one that would raise; otherwise it keeps what it applied |
| ReviewerActions.RaisingBulkCallKeepsFirst | packages/python/atlas/reviewer_actions.py:239 | two requests with one nonce: the second raises and the first stays applied |
| DecisionPack.BuildPack | packages/python/atlas/decision_pack.py:52-70 | included and queued items are those the greedy pass picks and leaves in the stable priority order, with their minutes summed |
| DecisionPack.PickedExactly | packages/python/atlas/decision_pack.py:56-70 | an item is picked exactly when it fits what has been picked before it |
| DecisionPack.PackKeepsCaps | packages/python/atlas/decision_pack.py:56-70 | the pack keeps to the four caps, whatever the estimates |
| DecisionPack.SortedItems | packages/python/atlas/decision_pack.py:39-52 | the priority order is sorted, a permutation of the items, and keeps ties in input order; `BeforeExactly` spells the order out in the items' own fields |
| DecisionPack.GreedyIsGreatest | packages/python/atlas/decision_pack.py:56-70 | no selection within the caps all along beats the greedy one, for any estimates |
| DecisionPack.PackIsGreatest | packages/python/atlas/decision_pack.py:56-70 | with non-negative estimates the pack, and no other selection, meets the four caps and is lexicographically at least as great as every selection that meets them |
| DecisionPack.NothingLostOrAdded | packages/python/atlas/decision_pack.py:64-66 | included and queued items together are the input multiset |
| DecisionPack.QueuedItemsDoNotFit | packages/python/atlas/decision_pack.py:60-65 | no queued item would fit the finished pack |
| DecisionPack.LaterItemsChangeNothing | packages/python/atlas/decision_pack.py:52-70 | items put anywhere into the input that rank after those given change neither their order nor the choice among them |
| DecisionPack.EarlierChoiceStands | packages/python/atlas/decision_pack.py:52-70 | for any input, the items that rank before all the others are ordered and chosen as if given alone |
| DecisionPack.InsertedItemChangesNothingEarlier | packages/python/atlas/decision_pack.py:52-70 | one more item of any rank anywhere in the input leaves order and choice of the items that rank before it as they were |
| Sorting.SortSplits | packages/python/atlas/decision_pack.py:52 | sorting elements that lead all others together with the others puts both sorted parts one after the other |
| DecisionPack.LinksAreSingleUse | packages/python/atlas/decision_pack.py:126-147 | over any run a view link opens at most once, even if issued again |
| Verify.VerifyProposal | packages/python/atlas/verify.py:31-119 | the report passes exactly when everything it vouches for holds; semantic support is always left undecided and every check reported once; `VouchedExactly`, `EdgeExactly`, `RolePairs` and `ChecksExactly` spell that out in the fields of proposal and evidence |
| Verify.CheckSupport | packages/python/atlas/verify.py:54-79 | the support checks contain a failure exactly when the value's support, by its origin, is missing |
| Verify.QuotationIsUncheckedExactly | packages/python/atlas/verify.py:54-79 | a quotation passes with any value exactly when none of its edges supports it; otherwise with its own value only |
| Verify.AnchorsCountForQuotationsOnly | packages/python/atlas/verify.py:54-79 | what passes would pass without any anchor exactly when it is no quotation |
| Verify.ParentsAreOnlyCounted | packages/python/atlas/verify.py:72-79 | a normalized or derived value that passes would pass with any parents named, assertions or not, and never with none |
| Kernel.KernelObject.CanonicalizeVersion | packages/python/atlas/kernel.py:134-165 | adds an artifact with the hash of the canonical text of the version's content and an audit event, or changes nothing, exactly when the version is unknown or has no text |
| Kernel.KernelObject.AddAnchorTo | packages/python/atlas/kernel.py:167-175 | adds an anchor at the place the search selects, or changes nothing, exactly when the text is unknown or the search refuses |
| Kernel.KernelObject.VerifyOne | packages/python/atlas/kernel.py:200-213 | stores the report of the evidence now on file, or changes nothing when a lookup fails |
| Kernel.EvidenceExactly | packages/python/atlas/kernel.py:200-210 | the evidence gathered is the first text artifact of the proposal's version, with its text and all anchors |
| Kernel.KernelObject.Approve | packages/python/atlas/kernel.py:215-264 | is refused without a report, for a proposal with an assertion, and for accepting a failing one; otherwise records decision and assertion |
| Kernel.QuotationsAreQuoted | packages/python/atlas/kernel.py:200-264 | every supporting edge of an accepted quotation in any reachable state is anchored in its own source version's canonical text at octets equal to the value |
| Kernel.UnsupportedQuotationIsAccepted | packages/python/atlas/kernel.py:200-264 | for any value and any non-empty text a run of six steps accepts the value as a quotation of the text with a context edge only, and logs four events |
| Kernel.UnanchoredIsAccepted | packages/python/atlas/kernel.py:200-264 | for any value and any origin but a quotation a run accepts the value with no anchor on file and a parent that is no assertion |
| Kernel.AssertionsArePermitted | packages/python/atlas/kernel.py:215-264 | every accepted assertion has a modality its document role permits, a publishable provenance and an acceptance of its own proposal |
| Kernel.OneAssertionPerProposal | packages/python/atlas/kernel.py:222-225 | no proposal gets two assertions, nor any decision after the first assertion |
| Kernel.BackedLasts | packages/python/atlas/kernel.py:200-213 | what a passing report vouched for stays true as documents, texts and anchors are added |
| Kernel.LogRecordsTheRun | packages/python/atlas/kernel.py:54-55 | after any run the audit log verifies and records, in order, exactly the steps other than anchoring and verifying |
| Kernel.EveryStepIsAudited | packages/python/atlas/kernel.py:3-6 | the log has as many events as the run has steps exactly when the run neither anchors nor verifies |
| Kernel.ReportsAreUnaudited | packages/python/atlas/kernel.py:200-213 | every run with a validation report has fewer events than steps |
| Audit.AuditTable.AppendAudit | packages/python/atlas/db.py:143-152 | the table verifies after an append exactly when it did before |
| Audit.AuditTable.VerifyChain | packages/python/atlas/db.py:155-165 | returns the number of rows for a valid chain and fails for any other |
| Audit.ValidRowsExactly | packages/python/atlas/db.py:155-165 | what verification demands of a chain and its next row |
| Audit.AppendsVerify | packages/python/atlas/db.py:143-165 | chains built by appends alone verify and keep the payloads in order |
| Audit.PrefixOfValidRows | packages/python/atlas/db.py:155-165 | every prefix of a chain that verifies verifies |
| Audit.SameEndSameRows | packages/python/atlas/db.py:148-163 | a chain of appended payloads and any verifying chain with the same last hash are the same chain exactly when the other one has no payload with a key prev |
| Audit.EditsNoticedExactly | packages/python/atlas/db.py:160-162 | replacing one payload goes unnoticed only for the payload itself and for it with its own link added under the key prev |
| Audit.PrevKeyHidesHistory | packages/python/atlas/db.py:160 | a payload carrying a prev key verifies after any chain with the same end hash |
| Audit.AnyHistoryFitsTheEnd | packages/python/atlas/db.py:155-165 | any verifying chain can be continued by one row to end in the last hash of any other chain |
| Audit.FileLog.AppendEvent | packages/python/atlas/audit.py:9-25 | the log verifies after an append exactly when it did before |
| Audit.AppendKeepsLog | packages/python/atlas/audit.py:9-25 | the event an append writes keeps a log verifying and repairs none that does not |
| Audit.FileLog.VerifyLog | packages/python/atlas/audit.py:28-38 | accepts exactly the logs whose numbers and links are right |
| Audit.ValidLogExactly | packages/python/atlas/audit.py:28-38 | what verification demands of a log and its next event |
| Audit.SameEndSameLog | packages/python/atlas/audit.py:28-38 | two verifying logs with the same last event are the same log |
| Audit.PrefixOfValidLog | packages/python/atlas/audit.py:28-38 | every prefix of a log that verifies verifies |
| Audit.LastEventIsNotProtected | packages/python/atlas/audit.py:35-38 | exactly the events with the same number and link can replace the last one unnoticed |
| Audit.EarlierEventsAreProtected | packages/python/atlas/audit.py:35-38 | any change to an event before the last is noticed |
| Migration.SplitIdsAreDistinct | packages/python/atlas/migration.py:46-51 | two split ids agree exactly when normalised legacy id, decision id and ordinal do, newlines in the decision id included |
| Migration.NormalizedAlike | packages/python/atlas/migration.py:35-39 | two legacy ids normalise alike exactly when the words of their mapped texts agree |
| Migration.NormalizedKeepsText | packages/python/atlas/migration.py:35-39 | where the mappings change nothing, only whitespace is lost |
| Migration.SplitListFollowsOrdinals | packages/python/atlas/migration.py:46-51 | the ids of one split are one per ordinal, in order, and equal exactly where the ordinals are |
| Migration.SplitIdIsNeverStable | packages/python/atlas/migration.py:42-51 | a split id is never the stable id of any legacy record |
| Migration.MigrationImporter.ImportOne | packages/python/atlas/migration.py:62-99 | the whole ledger, entry and flags after one import, in the fields of the record; secondary-only records stay awaiting or quarantined |
| Migration.ReimportIsReportedUnchanged | packages/python/atlas/migration.py:73-78 | importing a batch a second time reports every record unchanged exactly when its records with one normalised id agree on payload hash, mapping and disposition |
| Migration.ReimportKeepsLedgerExactly | packages/python/atlas/migration.py:62-99 | a second import leaves the whole ledger as it was exactly when each key already leads to the last record that redirects it and disagrees with its predecessor in the batch |
| Migration.UnchangedAgainExactly | packages/python/atlas/migration.py:73-78 | a second import reports a record unchanged exactly when it agrees with the nearest record of its id before it in the batch or, for the first, with the last |
| Migration.RedirectsAfter | packages/python/atlas/migration.py:93-97 | after any part of a batch a key leads to the last record that redirects it and signs otherwise than the record before it, or where it led before |
| Migration.FilesReturn | packages/python/atlas/migration.py:93-94 | a second import always leaves entries and payloads as the first left them, even where records disagree |
| Migration.SlugFreeReimportKeepsLedger | packages/python/atlas/migration.py:95-97 | a second import of a batch without slugs leaves the whole ledger as it was |
| Migration.SharedSlugMoves | packages/python/atlas/migration.py:96-97 | a second import of this three-record batch redirects its slug from one record to another |
| Migration.ThirdImportChangesNothing | packages/python/atlas/migration.py:62-99 | a third import of any batch into any ledger changes nothing |
| Migration.EveryEntryIsOnFile | packages/python/atlas/migration.py:80-105 | in every reachable ledger each entry's payload is retrievable under its stable id with the stated hash, is redirected and is not citable |
| Migration.MigrationImporter.Merge | packages/python/atlas/migration.py:113-126 | the nested loops redirect everything that led to a merged record to the survivor and nothing else |
| Migration.MergedRecordsAreUnreachable | packages/python/atlas/migration.py:113-126 | after a merge no key leads to a merged record, and over any calls that stays so exactly as long as none is a changed import of one or a merge into one |
| Migration.MergeLastsUntilDiverted | packages/python/atlas/migration.py:62-126 | over any calls after a merge a key leads to the survivor exactly until a changed import of another record under that key or slug, or a merge of the survivor |
| Migration.ChangedImportUndoesMerge | packages/python/atlas/migration.py:80-94 | import, merge, changed import: the key leads to the merged record again |
| Calibration.PercentileInRange | packages/python/atlas/calibration.py:32-45 | a percentile lies between the least and the greatest value |
| Calibration.PercentileExactly | packages/python/atlas/calibration.py:32-45 | the percentile is the point on the straight line between the two sorted values around its rank |
| Calibration.PercentileMonotone | packages/python/atlas/calibration.py:32-45 | it does not fall when p rises |
| Calibration.PercentileOrderFree | packages/python/atlas/calibration.py:38 | it does not depend on the order of the values |
| Calibration.PercentileMonotoneInValues | packages/python/atlas/calibration.py:38-45 | it does not fall when any value is raised |
| Calibration.PercentileEnds | packages/python/atlas/calibration.py:41-45 | at 0 it is the minimum and at 100 the maximum |
| Calibration.MedianIsMiddle | packages/python/atlas/calibration.py:48-49 | the median is the middle value or the mean of the two middle values |
| EvalGov.AssignPartition | packages/python/atlas/evalgov.py:50-67 | the item's partition is the one its hash bucket falls in, partitions in name order |
| EvalGov.AssignBucket | packages/python/atlas/evalgov.py:62-67 | the accumulating loop always finds the partition of the bucket; the fallback return is never reached |
| EvalGov.EachPartGetsItsWeight | packages/python/atlas/evalgov.py:60-66 | over all bucket values each partition gets exactly its weight |
| EvalGov.OnlyPart | packages/python/atlas/evalgov.py:62-66 | each bucket belongs to one partition only |
| EvalGov.AssignmentIgnoresListingOrder | packages/python/atlas/evalgov.py:59 | the assignment does not depend on the order in which the weights are listed |

## Left out

- Identity.IdentityResolver.ResolveIdentifiers: case mapping is a parameter, so that two spellings normalise alike is not proved.
- Anchors.CreateAnchor: prefix and suffix are the octets of the context; decoding them with replacement characters is left to the library.
- JobQueue.Queue.LeaseJob: row locks and skipped locked rows are not modelled, since a call is one atomic step; times are compared as numbers, not as text.
- ReviewerActions.ActionProcessor.Process: the decision id, a hash of the decision's fields, is not part of the result; the integer parse accepts decimal digits only, which is all reachable states hold.
- DecisionPack.PackIsGreatest: assumes non-negative estimates, as the item schema does; without them `GreedyIsGreatest` holds for selections that meet the caps all along.
- Calibration.PercentileInRange: over the reals; rounding of floats is not modelled.
- Plan.Validate: errors of the task schema itself are not listed.
- Network, probe and retry code, the evidence store, releases, read paths and suppression: input and output with little state of their own.
- JSON, YAML and HTML parsing, Unicode tables and hashing: library behaviour.
- Review cards, policy, triage, archive, discovery, monitoring, revisions and the review queue: decision tables and simple folds.
- `link_document`, `matters_sharing_document`, `make_relationship`, draft envelopes and expiry of unanswered cards: one lookup or field copy each.
- Per-card-type statistics, capacity, throttle and labelling functions: constants and single comparisons.
- PostgreSQL persistence, triggers and transactions around the kernel.
