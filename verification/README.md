# Verified models of preloop's stateful code

These Dafny modules model the parts of preloop whose correctness depends on more than one function: the cache
store with its crash-interruptible commits, the push-back protocol, the debug session (change lists, sync, retry
selection, the attach marker), the schema audit's graph walks, the `$BROWSER` word splitter and shell quoter, and
three small algorithms from the benchmarks. Each file models one component; imperative code is modelled by
methods that are proved against a specification, and what the specification is for is proved as lemmas.

| files | what they model |
|---|---|
| `CacheIdentity`, `CacheTree`, `CacheStore`, `CacheRuns`, `CacheContents`, `CacheFacts`, `CacheUse`, `CacheLookup` | the cache store: identity of entries, the directory tree as atomic file steps, the operations, whole runs with crashes, the abstract store they refine, and what they keep |
| `CacheInterleaving` | the cache store with commits, hits and enforcements of one process interleaved file step by file step |
| `SchemaGraph`, `SchemaKinds`, `SchemaWalk`, `SchemaWalkFacts`, `SchemaLoss`, `AliasTable` | the schema audit: kinds, the recording walk and what it can lose, alias resolution |
| `PushBack` | the fast-forward-only push, its retries, and other pushers |
| `PushErrors`, `TransientPhrases` | the texts of its errors, and which of them the retries take for transient |
| `ChangeList`, `WorkspaceSync`, `RetrySelection`, `DebugAttach` | the debug session |
| `BrowserWords`, `ShellWords` | the word splitter, the shell quoter, browser commands; a POSIX word splitter and where the two agree |
| `ProcessTree`, `SweepOrder`, `SlotMachine` | process descendants, the sweep order, the concurrency-group model |
| `Walks`, `Texts`, `Common` | reachability in a graph with a search for it; texts searched in lower case; `Option` and `Result` |

## How the models are set up

* **Cache.** The root is a map from directory names to directories; a directory name is the pre-image of the hash,
  so SHA-256 is taken to be injective. Every operation is a sequence of atomic file steps, and the methods return
  the steps they took as ghost output. A run is a list of events (upload, commit, lookup, enforcement, passing
  time), each of which may be cut after any step: that is a crash. The clock strictly increases, there is one
  writer process, and removing a directory is atomic and succeeds. In `CacheInterleaving` the operations are not run one
  after another: any number of commits are under way at once, and every file step of any of them may come next.
* **Push-back.** Commits form a DAG; the local store is a subset of it. The remote is an object whose branches other
  pushers may set to anything between any two actions of this code, and replies may be lost. `git push` without
  force is taken to refuse what is not a fast-forward of the branch it read, and to update only if the branch
  still has the value it read. Errors carry the hashes, branch names and outputs that their messages quote, and are
  classified by searching the message, as the code does.
* **Debug session.** Host and guest are maps from paths to contents. The guest may hold anything before a sync, and the
  host may change in any way between two syncs. The attach protocol is a state machine over the
  steps of the controller, the heartbeat and the engine, in any interleaving.

## Where the code does not do what it says

Each of these has a lemma that gives the exact condition, and all but the last one a lemma with a concrete input.

* **Cache identity.** It is not injective on all triples: keys with a NUL byte clash, and an entry without a namespace
  whose key is the tag can take the directory of a namespaced entry (`PlainIsNeeded`, `TagRequestsCrossNamespaces`).
  A lookup is right exactly when no other stored entry has the directory of the request (`LookupRefinesExactly`).
* **Least-recently-used eviction.** The rename that places an archive keeps the upload time of the staged file. A commit
  that is cut between the rename and the touch therefore ranks by that time, and the entry that was committed last can
  be the first to go (`LastCommittedCanGoFirst`). In every run the rank of an entry is its last commit or hit, with that
  one exception (`ArchiveTimesAreUses`, `RunsEvictLeastRecentlyUsed`).
* **Commits under way.** An enforcement takes an empty directory for debris, also one that a running commit has just
  claimed. In whatever state that happens, a second commit of the same entry can then claim it again, both succeed, and the
  second changes the bytes of a stored entry (`ReapedClaimsOverwrite`). The invariant is kept exactly if no enforcement
  removes a claimed directory (`InvariantIsKeptExactly`), and then every interleaving refines the abstract store
  (`HappeningRefines`, `InterleavedItemsNeverChange`). A claim can be removed exactly if every file in it was written more
  than an hour ago, as when there is none (`OnlyEmptyOrOldClaimsAreReaped`).
* **Contexts by path.** `walk_schema` says it returns the effective contexts by path. Stopping at repeated names loses no
  definition, but it loses contexts that are in force beyond the repeated name. It does so in every schema with a
  reachable cycle along which the path grows (`GrowingCyclesLose`), such as the nesting of steps in parallel steps in
  benchmarks/conformance/schema/workflow-v1.0.json, lines 2168 to 2271 (`NestedListsLose`). Unless a context is set on a
  cycle that keeps the path, these are exactly the schemas that lose something (`LosesNothingExactly`); a context on such
  a cycle can be lost too (`CyclesCanLoseContexts`).
* **Sync, deletions.** A sync deletes from the guest a file that was taken out of the index, is ignored, and is still on
  the host (`KeptButIgnoredIsLost`). Of the paths that a sync lists these are exactly the ones that it does not bring to
  the host's state (`SyncAgreesExactly`).
* **Sync, edits taken back.** A sync lists what differs from the host's last commit, not what differs from the guest. When
  an edit was synced and the host then reverts or commits something else, the next sync finds nothing to do and the edit
  stays in the guest (`RevertedEditStays`). After any syncs the guest is right at a path that the last one did not list
  exactly if what an earlier sync left there, or what it had from the start, is what the host has committed
  (`SyncsAgreeExactly`).
* **Sync, its own changes.** The check for guest edits compares with the guest's checkout, so it takes what an earlier sync
  brought for an edit: syncing the same file a second time is refused without force, though nobody edited it in the guest
  (`SyncedPathsAreReportedExactly`, `OwnSyncIsReported`, and the last clause of `SyncWorkspace`).
* **Sync, conflicts.** A sync without force is said to refuse to overwrite guest edits. It overwrites those that git does
  not report: all of them if `git status` fails in the guest, and files at ignored paths (`HiddenEditIsOverwritten`,
  `UnforcedSyncDestroysExactly`).
* **Permanent push failures.** They are said to surface immediately. The three refusals quote the branch name or commit
  hashes in the message that is searched for phrases such as `502`, and each is retried exactly if a quoted text has such a
  phrase in it (`NotPresentIsTransientExactly`, `DefaultBranchIsTransientExactly`, `DivergedIsTransientExactly`); for a
  hash, if it has the digits 502 or 503 (`HashHasPhraseExactly`). A diverged branch whose hash has them is tried four times
  (`DivergedCanBeRetried`, `DivergedAttempts`).
* **Transient server errors.** 5xx answers are said to be transient. Of 500, 502, 503 and 504 as the answer to a fetch only
  502 and 503 are retried, unless the rest of the message happens to have a phrase in it (`OnlyTwoServerErrorsAreRetried`).
* **Reading a found entry.** `get_scoped` finds an entry and reads it later. It answers with the stored bytes if the entry
  was not removed in between (`UnremovedIsRead`); otherwise with what a later commit has stored there, or with an I/O error
  instead of a miss (`ReadsExactly`, `FoundCanBeGone`).
* **Quoting the way a shell does.** `split_browser_words` differs from sections 2.2.1 and 2.2.3 of the POSIX.1-2017 Shell
  Command Language at a backslash before a newline outside quotes, at a backslash in double quotes before a character that it
  escapes there, and at blanks that are none for a shell, such as a no-break space (`AtEscapedNewlinesTheyDiffer`,
  `InDoubleQuotesTheyDiffer`, `AtOtherBlanksTheyDiffer`). On input that meets none of these it splits as a shell does
  (`SameQuotingSplitsAlike`), and only there are the two in the same state after every prefix (`ReadsAsAShellExactly`).
  Single quotes, section 2.2.2, never make a difference (`SingleQuotesAreAlike`), and a shell reads back what `shell_quote`
  writes (`ShellUndoesQuoting`).
* **Releasing the marker.** `release` leaves ACTIVE behind exactly when the demotion write failed over an ACTIVE marker and
  the engine has not replaced it since (`ActiveSurvivesExactlyAFailedDemotion`).

## Model

| member | source | states |
|---|---|---|
| CacheIdentity.FramedTripleIsInjective | crates/preloop-cache/src/lib.rs:580-583 | three length-prefixed components determine namespace, key and version, whatever bytes they contain |
| CacheIdentity.ReadsBack | crates/preloop-cache/src/lib.rs:580-583 | a reader that takes eight length bytes and that many more recovers a component and what follows it |
| CacheIdentity.NumberReadsBigEndian | crates/preloop-cache/src/lib.rs:581 | big-endian bytes read back as the number they were made from, when it fits |
| CacheIdentity.UnscopedClashesExactly | crates/preloop-cache/src/lib.rs:566-572 | two unscoped entries share a directory exactly when equal or when one key continues the other across a NUL that the other version makes up for |
| CacheIdentity.ScopedClashesExactly | crates/preloop-cache/src/lib.rs:574-585 | entries in named namespaces share a directory exactly when they are equal |
| CacheIdentity.MixedClashesExactly | crates/preloop-cache/src/lib.rs:566-585 | when an unscoped entry shares a directory with a namespaced one, exactly |
| CacheIdentity.PlainTriplesDoNotClash | crates/preloop-cache/src/lib.rs:566-585 | on triples whose unscoped key has no NUL and is not the tag, the identity is injective |
| CacheIdentity.PlainIsNeeded | crates/preloop-cache/src/lib.rs:566-585 | concrete clashes when either half of that condition is dropped |
| CacheIdentity.ClashesChangeKeyOrVersion | crates/preloop-cache/src/lib.rs:566-585 | the namespace alone always separates directories: equal key, version and directory mean equal entries |
| CacheTree.EnforcementRuns | crates/preloop-cache/src/lib.rs:460-531 | enforcement only removes directories, leaves the others as they are, and keeps the protected entry |
| CacheStore.SortKeeps | crates/preloop-cache/src/lib.rs:486-487 | the entries sorted by use are the same entries, in order of mtime |
| CacheStore.SumIsTotal | crates/preloop-cache/src/lib.rs:482 | the sum over the listed entries is the size of all archives under the root |
| CacheStore.NextIsLeastRecent | crates/preloop-cache/src/lib.rs:486-503 | the entry the eviction loop reaches next is least recently used among the unprotected ones that are left |
| CacheStore.EvictionRemoves | crates/preloop-cache/src/lib.rs:497-501 | after a removal the decremented total still equals the surviving sizes, and the subtraction never saturates |
| CacheStore.CommitRuns | crates/preloop-cache/src/lib.rs:95-198 | the seven file steps of a commit can run and leave exactly one new complete directory, consuming the staged file |
| CacheStore.CacheStore.ReadDir | crates/preloop-cache/src/lib.rs:462-467 | the listing names every directory once, in any order |
| CacheStore.IsStale | crates/preloop-cache/src/lib.rs:509-527 | the loop over the files finds out whether every one of them is over the age, which an empty directory always is |
| CacheStore.CacheStore.ReapStaleIncomplete | crates/preloop-cache/src/lib.rs:509-531 | a directory without an archive is removed exactly when every file in it is over the age |
| CacheStore.CacheStore.Scan | crates/preloop-cache/src/lib.rs:461-481 | the listing pass collects the archived entries and reaps only stale debris |
| CacheStore.CacheStore.EnforceQuotaExcept | crates/preloop-cache/src/lib.rs:460-504 | every removal is of stale debris or of a least recently used unprotected entry while over quota; it ends within quota or with the protected entry alone, and no debris that was stale is left |
| CacheStore.CacheStore.EnforceQuota | crates/preloop-cache/src/lib.rs:456-458 | the same with no protected entry |
| CacheStore.CacheStore.BeginCommit | crates/preloop-cache/src/lib.rs:95-131 | refuses an invalid key or an existing directory and changes nothing; otherwise leaves a directory with exactly the four sidecars |
| CacheStore.CacheStore.FinishCommit | crates/preloop-cache/src/lib.rs:138-155 | touches the archive and enforces the quota with that entry protected |
| CacheStore.CacheStore.CommitFileScoped | crates/preloop-cache/src/lib.rs:165-199 | a refused commit changes nothing, the staged file included; otherwise its steps are the commit steps followed by an enforcement that protects the new entry |
| CacheStore.CacheStore.PutScoped | crates/preloop-cache/src/lib.rs:230-244 | the same for bytes in memory |
| CacheStore.CacheStore.FindPrefixScoped | crates/preloop-cache/src/lib.rs:399-450 | a newest complete entry of the namespace and version whose key has the prefix, or none if there is none |
| CacheStore.CacheStore.ResolveScoped | crates/preloop-cache/src/lib.rs:313-359 | invalid requests are refused; otherwise the exact entry, else the first prefix with a match decides, else none |
| CacheStore.CacheStore.LookupScoped | crates/preloop-cache/src/lib.rs:262-276 | resolves, and a hit changes nothing but the entry's time of use |
| CacheStore.CacheStore.GetScoped | crates/preloop-cache/src/lib.rs:292-307 | returns the stored bytes of the resolved entry |
| CacheRuns.MoveIsGood | crates/preloop-cache/src/lib.rs:95-198 | an event cut anywhere takes only steps that keep the invariant of the root |
| CacheRuns.RunsKeepInv | crates/preloop-cache/src/lib.rs:95-199 | the invariant holds after every run, however its events were cut |
| CacheRuns.ArchivesAreComplete | crates/preloop-cache/src/lib.rs:95-199 | in every reachable state a directory with an archive has its four sidecars, and they name that directory |
| CacheContents.ArchivesChangeOnlyByTouch | crates/preloop-cache/src/lib.rs:500-541 | one step can only touch an archive, removing its directory aside; its bytes never change |
| CacheContents.ContentsExact | crates/preloop-cache/src/lib.rs:405-440 | the abstract map of a root holds exactly the entries its complete directories name |
| CacheContents.TotalIsTotalSize | crates/preloop-cache/src/lib.rs:482 | the items of the abstract map add up to the archives under the root |
| CacheContents.EnforcementEvicts | crates/preloop-cache/src/lib.rs:482-503 | an enforcement cut anywhere only removes items, and none from a store that fits its quota |
| CacheContents.CommitRefines | crates/preloop-cache/src/lib.rs:165-199 | of a commit cut anywhere nothing shows before the archive is in place and all of it shows afterwards |
| CacheFacts.MoveRefines | crates/preloop-cache/src/lib.rs:95-199 | every event, cut anywhere, is a step of an abstract map: a refused commit changes nothing; another adds its item, for certain once it is done, and evicts only over quota; an enforcement evicts only over quota and is done when the map fits |
| CacheFacts.EveryRunRefines | crates/preloop-cache/src/lib.rs:95-199 | whole runs refine that abstract map from (namespace, key, version) to bytes |
| CacheFacts.StoredItemsNeverChange | crates/preloop-cache/src/lib.rs:211-217 | as long as an entry stays stored its bytes and creation time never change |
| CacheFacts.CommitStores | crates/preloop-cache/src/lib.rs:157-199 | a completed commit leaves its entry stored with the bytes it was given, whatever it evicts |
| CacheFacts.DuplicateCommitIsInert | crates/preloop-cache/src/lib.rs:103-110 | committing a stored triple again is refused, changes nothing and keeps the staged file |
| CacheFacts.DebrisIsInert | crates/preloop-cache/src/lib.rs:91-94 | what a crashed commit left is never written to again |
| CacheFacts.CrashedDebrisIsFreed | crates/preloop-cache/src/lib.rs:452-455 | debris is gone by the end of any run that ends in a completed enforcement or accepted commit begun after the age, whatever happens in between |
| CacheFacts.OnlyFreshDebrisBlocks | crates/preloop-cache/src/lib.rs:506-531 | after an enforcement a key is refused exactly when its directory has an archive or a file written within the age |
| CacheContents.FittingStoreKeepsItsEntries | crates/preloop-cache/src/lib.rs:482-485 | a store that fits its quota loses no entry |
| CacheFacts.EvictionStopsAtFirstFit | crates/preloop-cache/src/lib.rs:488-502 | in every enforcement an archive is removed only at a moment when the total is over the quota, and never the protected one |
| CacheFacts.OversizedEntriesGoAtTheNextCommit | crates/preloop-cache/src/lib.rs:133-137 | if any other entry survives a commit the store fits the quota, so an older entry larger than the quota is gone |
| CacheUse.ArchiveTimesAreUses | crates/preloop-cache/src/lib.rs:534-541 | in every run from the empty store the time of an archive is its last commit or hit, unless that was a staged commit cut right after the rename; then it is the upload time |
| CacheUse.RunsEvictLeastRecentlyUsed | crates/preloop-cache/src/lib.rs:486-503 | over whole runs an event evicts only entries that rank no later than any unprotected survivor: by their last commit or hit, with that exception |
| CacheUse.CutCommitGoesFirst | crates/preloop-cache/src/lib.rs:179-198 | from any state with one archive used after the upload and no room for both, the entry whose commit was cut after the rename is evicted first |
| CacheUse.LastCommittedCanGoFirst | crates/preloop-cache/src/lib.rs:179-198 | a run from the empty store in which an enforcement evicts the entry that was committed last |
| CacheUse.EnforcementCanComplete | crates/preloop-cache/src/lib.rs:460-504 | from every state an enforcement can go on, by allowed removals, until the store is settled |
| CacheInterleaving.HappeningKeepsOk | crates/preloop-cache/src/lib.rs:95-199 | whatever comes next among interleaved commits, hits and enforcements, the invariant is kept, and running commits stay apart, if enforcements respect running commits |
| CacheInterleaving.InvariantIsKeptExactly | crates/preloop-cache/src/lib.rs:506-531 | a step keeps that invariant exactly if it removes no directory that a running commit has claimed |
| CacheInterleaving.HappeningRefines | crates/preloop-cache/src/lib.rs:95-199 | every interleaved step is a step of the abstract map: the sixth step of a commit adds its item, a removal removes, nothing else changes it |
| CacheInterleaving.InterleavingsKeepOk | crates/preloop-cache/src/lib.rs:95-199 | the invariant over whole interleavings |
| CacheInterleaving.InterleavedItemsNeverChange | crates/preloop-cache/src/lib.rs:211-217 | in every interleaving an entry keeps its bytes and creation time for as long as it stays stored |
| CacheInterleaving.OnlyEmptyOrOldClaimsAreReaped | crates/preloop-cache/src/lib.rs:506-531 | an enforcement may remove the directory of a running commit exactly when every file the commit has written so far is over the age, and so always while there is none |
| CacheInterleaving.ReapedClaimsOverwrite | crates/preloop-cache/src/lib.rs:522-530 | wherever a commit of bytes in memory has just claimed its directory, among any other running commits: if an enforcement removes it and a second commit claims it again, both run through, and the bytes of the entry change while it is stored |
| CacheInterleaving.ReadsExactly | crates/preloop-cache/src/lib.rs:292-307 | in every interleaving the read of a found entry gives what the last removal or commit of its directory in between left, an error included, and otherwise the bytes it had |
| CacheInterleaving.UnremovedIsRead | crates/preloop-cache/src/lib.rs:292-307 | in every interleaving that does not remove the directory, reading a found entry gives the bytes it had when it was found |
| CacheInterleaving.FoundCanBeGone | crates/preloop-cache/src/lib.rs:292-307 | a state and a removal after which the read of an entry that was found fails |
| CacheLookup.FindsAtMostOne | crates/preloop-cache/src/lib.rs:353-358 | when creation times differ the answer is unique, so it does not depend on directory order |
| CacheLookup.FindsWithinNamespaceAndVersion | crates/preloop-cache/src/lib.rs:290-291 | an answer never leaves the namespace and version asked for |
| CacheLookup.CreationTimesDiffer | crates/preloop-cache/src/lib.rs:113-117 | in every reachable state creation times differ |
| CacheLookup.ExactProbeFinds | crates/preloop-cache/src/lib.rs:331-333 | the exact probe hits exactly when the requested entry, or one with its directory, is stored |
| CacheLookup.LookupRefinesExactly | crates/preloop-cache/src/lib.rs:313-359 | a lookup answers what the abstract lookup finds, and describes that entry, exactly when no other stored entry has the directory of the request |
| CacheLookup.PlainRunsStayPlain | crates/preloop-cache/src/lib.rs:566-585 | a run that commits only plain triples stores only plain triples |
| CacheLookup.LookupsRefineInEveryRun | crates/preloop-cache/src/lib.rs:313-359 | after any such run every plain lookup answers what the abstract lookup finds |
| CacheLookup.TagRequestsCrossNamespaces | crates/preloop-cache/src/lib.rs:290-291 | an unscoped request for the tag can be answered with an entry of a namespace |
| SchemaKinds.WalkIsCovered | benchmarks/conformance/check_schema_contexts.py:543-568 | stopping at names on the stack loses nothing: whatever a walk that avoids the stack ends at is found or reported |
| SchemaKinds.LongWalkIsRecursive | benchmarks/conformance/check_schema_contexts.py:552-553 | a walk longer than the definitions left off the stack makes the answer recursive |
| SchemaKinds.AnswerIsJustified | benchmarks/conformance/check_schema_contexts.py:543-568 | everything found, and every failure, has a reachable cause |
| SchemaKinds.AcceptsExactlyTheSound | benchmarks/conformance/check_schema_contexts.py:546-567 | a specification is accepted exactly when no name reachable over one-of edges is faulty |
| SchemaKinds.KindsAreTheReachableOnes | benchmarks/conformance/check_schema_contexts.py:543-568 | the kinds found, `recursive` aside, are exactly those reachable over one-of edges |
| SchemaKinds.RecursiveExactlyOnCycles | benchmarks/conformance/check_schema_contexts.py:552-565 | `recursive` is found exactly when a one-of cycle is reachable |
| SchemaWalk.RecordsExact | benchmarks/conformance/check_schema_contexts.py:590-596 | the two dictionaries hold exactly what was visited |
| SchemaWalk.OneMoreChild | benchmarks/conformance/check_schema_contexts.py:605-625 | walking one more child appends its visits and its records, and fails exactly when it fails |
| SchemaWalk.Walker.Walk | benchmarks/conformance/check_schema_contexts.py:579-599 | the recursive closure terminates and extends both dictionaries by exactly the visits of the specification, or fails when it does |
| SchemaWalk.Walker.WalkFields | benchmarks/conformance/check_schema_contexts.py:601-625 | the same for the fields of a definition, malformed fields included |
| SchemaWalk.Walker.WalkOneOf | benchmarks/conformance/check_schema_contexts.py:601-606 | the alternatives, of which there must be one, likewise |
| SchemaWalk.Walker.WalkMapping | benchmarks/conformance/check_schema_contexts.py:607-620 | the properties of a mapping and its loose value, in this order, likewise |
| SchemaWalk.Walker.WalkSequence | benchmarks/conformance/check_schema_contexts.py:621-625 | the item of a sequence: its visits are recorded, and it fails exactly for a malformed field or a failing walk below |
| SchemaWalk.Walker.WalkEach | benchmarks/conformance/check_schema_contexts.py:605-606 | the same for the children of one field |
| SchemaWalk.WalkSchema | benchmarks/conformance/check_schema_contexts.py:571-630 | the result is the record of the visits from `workflow-root` |
| SchemaWalkFacts.RouteIsVisited | benchmarks/conformance/check_schema_contexts.py:579-625 | every route that leaves no name behind twice is visited |
| SchemaWalkFacts.VisitHasRoute | benchmarks/conformance/check_schema_contexts.py:579-625 | every visit has such a route |
| SchemaWalkFacts.WalkIsCovered | benchmarks/conformance/check_schema_contexts.py:597-599 | stopping at repeated names loses no definition |
| SchemaWalkFacts.AcceptsExactlyTheSound | benchmarks/conformance/check_schema_contexts.py:571-630 | the walk succeeds exactly when no name reachable from the root is faulty |
| SchemaWalkFacts.ContextBearersAreExactlyTheReachableOnes | benchmarks/conformance/check_schema_contexts.py:591-596 | the first dictionary lists exactly the reachable definitions that carry a context |
| SchemaWalkFacts.DictionariesAreExactlyTheSimpleRoutes | benchmarks/conformance/check_schema_contexts.py:571-630 | both dictionaries, entry by entry, are what the simple routes lead to |
| SchemaLoss.RouteClimbs | benchmarks/conformance/check_schema_contexts.py:601-625 | along every route the path only grows, and it does exactly if the graph has a growing edge on the way |
| SchemaLoss.ReturnGrows | benchmarks/conformance/check_schema_contexts.py:597-625 | a route that comes back to a name with another path runs along a reachable cycle that makes the path grow |
| SchemaLoss.StretchIsIdle | benchmarks/conformance/check_schema_contexts.py:597-598 | without growth and without contexts on cycles, coming back to a name changes nothing, so the stretch can be cut out |
| SchemaLoss.GrowingCyclesLose | benchmarks/conformance/check_schema_contexts.py:597-598 | in every schema with a reachable cycle that makes the path grow some context in force is not recorded |
| SchemaLoss.SilentLevelCyclesLoseNothing | benchmarks/conformance/check_schema_contexts.py:571-630 | if no reachable cycle makes the path grow and none that keeps it sets a context, every context in force at every path is recorded |
| SchemaLoss.LosesNothingExactly | benchmarks/conformance/check_schema_contexts.py:571-630 | unless a context is set on a cycle that keeps the path, nothing is lost exactly when no reachable cycle makes the path grow |
| SchemaLoss.NestedListsLose | benchmarks/conformance/check_schema_contexts.py:597-625 | a list whose items have an alternative with the same list as a property, like the steps of the workflow schema, loses something |
| SchemaLoss.AcyclicSchemasLoseNothing | benchmarks/conformance/check_schema_contexts.py:571-574 | without a reachable cycle every context in force at every path is recorded |
| SchemaLoss.CyclesCanLoseContexts | benchmarks/conformance/check_schema_contexts.py:597-598 | a schema with a one-of cycle for which a context in force at a path is not recorded |
| AliasTable.DenotationIsUnique | benchmarks/conformance/check_schema_contexts.py:515-527 | an alias chain ends at one literal at most |
| AliasTable.DefectiveDenotesNothing | benchmarks/conformance/check_schema_contexts.py:517-520 | a chain with a cycle or an unknown name ends at no literal |
| AliasTable.DenotesExactlyWithoutDefect | benchmarks/conformance/check_schema_contexts.py:515-527 | a constant has a literal at the end of its chain exactly when the chain has no cycle and no unknown name |
| AliasTable.ResolvedIsUnique | benchmarks/conformance/check_schema_contexts.py:529-531 | there is one resolved table at most, so the iteration order does not matter |
| AliasTable.ResolvableExactlyWithoutDefect | benchmarks/conformance/check_schema_contexts.py:513-531 | a table can be resolved exactly when no chain is defective |
| AliasTable.Table.Resolve | benchmarks/conformance/check_schema_contexts.py:515-527 | on a partly resolved table it returns the literal of the declared chain, or fails with a defect of the chain |
| AliasTable.Table.ResolveAll | benchmarks/conformance/check_schema_contexts.py:529-531 | the memoising loop, in any order, ends with every constant at its declared literal, and succeeds exactly when no chain is defective |
| PushBack.LocalTestIsSound | crates/preloop-cli/src/push.rs:176-200 | the local test accepts only true ancestors, however partial the store is |
| PushBack.LocalTestIsAncestry | crates/preloop-cli/src/push.rs:176-200 | on a store closed under parents the local test is ancestry |
| PushBack.RefusedAncestorsHaveAGap | crates/preloop-cli/src/push.rs:176-200 | it refuses an ancestor only if some present commit has a missing parent |
| PushBack.AncestryGrows | crates/preloop-cli/src/push.rs:527-555 | new commits do not change who descends from whom |
| PushBack.Checkout.IsAncestor | crates/preloop-cli/src/push.rs:185-197 | the search over present objects finds exactly the commits reachable over present parents |
| PushBack.Checkout.StageWorkingTree | crates/preloop-cli/src/push.rs:598-637 | staging may fail at either command, with or without having written the index file, and touches no other index |
| PushBack.Checkout.EnsureTestedTreeResolvable | crates/preloop-cli/src/push.rs:563-590 | success means the tree is present, or was and is reproduced; on every path, failed staging included, the private index is gone and the other indexes are as they were |
| PushBack.Checkout.MaterializeTestedCommit | crates/preloop-cli/src/push.rs:527-555 | adds one commit with exactly the tested tree and the base as its parent, or nothing |
| PushBack.Checkout.PreparePushSha | crates/preloop-cli/src/push.rs:355-415 | the commit to push has exactly the tested tree and is the base or a child of it; when it can fail; the user's index is as it was |
| PushBack.GitPush | crates/preloop-cli/src/push.rs:212-223 | with others acting before and during it, a push moves the branch at most once, as a fast-forward of its value at that moment; a rejected push moves nothing |
| PushBack.PushTestedCommit | crates/preloop-cli/src/push.rs:123-225 | in every interleaving at most one fast-forward, made while another branch was seen as default; no move when one of the three refusals is the answer; with no other pusher the exact outcome |
| PushBack.AttemptContinues | crates/preloop-cli/src/push.rs:333-349 | an attempt after an attempt still only fast-forwards to the one commit |
| PushBack.PushRunOnce | crates/preloop-cli/src/push.rs:417-512 | an attempt makes at most one such move, also when publishing fails, and none if it sees the branch as default; once landed with no other pusher it moves nothing |
| PushBack.PushRun | crates/preloop-cli/src/push.rs:319-350 | all attempts push one commit with the tested tree; at most four, one more exactly after a failure whose message or type says transient; every move is a fast-forward made while another branch was seen as default; with no other pusher at most one move in all, none of the default branch, and a refusal that is due meets every attempt that reaches the remote |
| PushBack.DivergedAttempts | crates/preloop-cli/src/push.rs:316-349 | if every attempt finds the branch diverged there is one attempt, or four if the branch name or a hash has a phrase in it |
| PushErrors.NotPresentIsTransientExactly | crates/preloop-cli/src/push.rs:131-138 | the refusal of a commit that is not present counts as transient exactly when the hash has a phrase in it |
| PushErrors.DefaultBranchIsTransientExactly | crates/preloop-cli/src/push.rs:159-163 | the refusal of the default branch counts as transient exactly when the branch name has a phrase in it |
| PushErrors.DivergedIsTransientExactly | crates/preloop-cli/src/push.rs:202-206 | the refusal of a diverged branch counts as transient exactly when the branch name or one of the hashes has a phrase in it |
| PushErrors.FetchRefusedIsTransientExactly | crates/preloop-cli/src/push.rs:371-375 | the refusal of a fetch counts as transient exactly when its status line, or the run and the body, have a phrase in them |
| PushErrors.OnlyTwoServerErrorsAreRetried | crates/preloop-cli/src/push.rs:258-260 | of four server errors as answers to a fetch, which count as transient |
| PushErrors.DivergedCanBeRetried | crates/preloop-cli/src/push.rs:202-206 | a remote hash for which the refusal of a diverged branch counts as transient |
| TransientPhrases.HashHasPhraseExactly | crates/preloop-cli/src/push.rs:274-291 | a hash has a phrase of a transient failure in it exactly when it has the digits 502 or 503 |
| ChangeList.ChunksOfTerminated | crates/preloop-cli/src/debug_session.rs:1560-1575 | splitting at NUL recovers the list of non-empty fields that was written |
| ChangeList.ParseNameStatus | crates/preloop-cli/src/debug_session.rs:1573-1594 | the decoding loop collects the lists of its specification, for any stream, truncated ones included |
| ChangeList.RecordIsCollected | crates/preloop-cli/src/debug_session.rs:1576-1593 | one turn consumes the fields of one record: two paths of a rename, the new path of a copy |
| ChangeList.DecodesWhatWasEncoded | crates/preloop-cli/src/debug_session.rs:1572-1594 | decoding an encoded list of records recovers exactly the present and the gone paths it names, in order |
| ChangeList.SortDedupKeeps | crates/preloop-cli/src/debug_session.rs:1597-1600 | the sorted list has the same paths, each once |
| ChangeList.SortedMeansDistinct | crates/preloop-cli/src/debug_session.rs:1597-1600 | any two positions of the sorted list are in strict order |
| ChangeList.HostChanges | crates/preloop-cli/src/debug_session.rs:1543-1603 | both lists are sorted without duplicates and hold exactly the decoded paths, untracked files among the present ones |
| WorkspaceSync.Guest.GuestModified | crates/preloop-cli/src/debug_session.rs:1515-1537 | reports exactly the candidates that git shows as edited; a failing status reports nothing |
| WorkspaceSync.Guest.SyncWorkspace | crates/preloop-cli/src/debug_session.rs:1286-1425 | on success the guest's files are the synced files; after a failure half way every listed path is as it was or as it should be; unlisted paths never change; without force no reported edit is touched and a conflict changes nothing and lists exactly the reported edits |
| WorkspaceSync.SyncedPathByPath | crates/preloop-cli/src/debug_session.rs:1323-1411 | a path listed as present equals the host's even if it is listed as deleted too; one listed only as deleted is gone |
| WorkspaceSync.ListedPathsEqualHostExactly | crates/preloop-cli/src/debug_session.rs:1277-1283 | every listed path equals the host's state exactly when the paths listed only as deleted are gone there too |
| WorkspaceSync.UnforcedSyncDestroysExactly | crates/preloop-cli/src/debug_session.rs:1303-1321 | when a sync without force goes ahead, exactly which guest edits it destroys |
| WorkspaceSync.VisibleEditsSurvive | crates/preloop-cli/src/debug_session.rs:1303-1321 | if git works in the guest, an edit outside the ignored paths always survives a sync without force |
| WorkspaceSync.HiddenEditIsOverwritten | crates/preloop-cli/src/debug_session.rs:1520-1536 | a guest file at an ignored path that is overwritten without a conflict |
| WorkspaceSync.HostLists | crates/preloop-cli/src/debug_session.rs:1572-1602 | from git's two streams `HostChanges` computes lists that describe the host, and every present path is on the host |
| WorkspaceSync.UnlistedIsCommitted | crates/preloop-cli/src/debug_session.rs:1543-1603 | what is listed is visible to git, and a visible path that is not listed is as in the host's commit |
| WorkspaceSync.SyncAgreesExactly | crates/preloop-cli/src/debug_session.rs:1286-1425 | whatever the guest has, after a sync it agrees with the host at a listed path exactly unless that is a kept, ignored, unindexed file, and at another path exactly if it did before |
| WorkspaceSync.SyncsLeave | crates/preloop-cli/src/debug_session.rs:1323-1411 | after any syncs a path is as the last sync that listed it left it, and otherwise as it was at the start |
| WorkspaceSync.SyncsAgreeExactly | crates/preloop-cli/src/debug_session.rs:1286-1425 | after any syncs of a host that changes in any way, at which paths git sees the guest agrees with the host |
| WorkspaceSync.RevertedEditStays | crates/preloop-cli/src/debug_session.rs:1295-1301 | two syncs: an edit is brought over, then the host is clean again at other content, and the edit stays in the guest, whatever the guest had before |
| WorkspaceSync.SyncedPathsAreReportedExactly | crates/preloop-cli/src/debug_session.rs:1511-1537 | which paths of an earlier sync git reports as edits made in the guest, so that the next sync of them is refused without force |
| WorkspaceSync.OwnSyncIsReported | crates/preloop-cli/src/debug_session.rs:1511-1537 | an edited host file that, once synced, git reports as edited in the guest |
| WorkspaceSync.KeptButIgnoredIsLost | crates/preloop-cli/src/debug_session.rs:1572-1595 | such a file, deleted in the guest though the host has it |
| RetrySelection.DecimalParses | crates/preloop-cli/src/debug_session.rs:786 | reading the decimal form of a number gives the number back |
| RetrySelection.AcceptedTargetsHaveRun | crates/preloop-cli/src/debug_session.rs:752-852 | every accepted target is a declared step at or before the failure |
| RetrySelection.NumbersSelectTheirSteps | crates/preloop-cli/src/debug_session.rs:797-805 | text that reads as a number is accepted exactly in the range of the steps that have run, and the position of the chosen step is that number |
| RetrySelection.OldSessionsCountFromOne | crates/preloop-cli/src/debug_session.rs:761-795 | a session without step summaries accepts exactly 1 up to the failed step's position and selects that step |
| RetrySelection.ShownNumbersSelectTheirSteps | crates/preloop-cli/src/debug_session.rs:363-367 | typing the number shown for a step selects that step if it has run, and is refused otherwise |
| RetrySelection.FromStartSelectsTheFirst | crates/preloop-cli/src/debug_session.rs:760-778 | starting over selects the first declared step, exactly when it has run |
| RetrySelection.NamesSelectTheOnlyMatch | crates/preloop-cli/src/debug_session.rs:808-851 | other text is accepted exactly when one declared step matches it and has run |
| DebugAttach.RunsKeepInv | crates/preloop-cli/src/debug_session.rs:82-143 | in every interleaving the heartbeat is over once it was joined, and a completed demotion holds |
| DebugAttach.ReleasedNeverWrites | crates/preloop-cli/src/debug_session.rs:133-143 | after the release this controller never writes ACTIVE again |
| DebugAttach.ReleaseSilencesTheController | crates/preloop-cli/src/debug_session.rs:133-143 | in every run, after a release whose demotion did not fail the marker is idle or missing for good |
| DebugAttach.ActiveSurvivesExactlyAFailedDemotion | crates/preloop-cli/src/debug_session.rs:133-143 | at the end of every run with a whole release the marker is ACTIVE exactly when it was when the demotion write failed and the engine has not replaced it since |
| DebugAttach.JoinIsNear | crates/preloop-cli/src/debug_session.rs:134-139 | in every run after the abort the heartbeat takes at most two steps before the join; until then it can take one, afterwards the join can be taken |
| DebugAttach.TickInFlightOutlivesTheAbort | crates/preloop-cli/src/debug_session.rs:135-138 | a run from the start in which a release without the join demotes the marker and a tick in flight writes ACTIVE again |
| DebugAttach.Attachment.Claim | crates/preloop-cli/src/debug_session.rs:82-114 | ACTIVE is written before the guest is awaited, and no heartbeat runs unless the guest answered |
| DebugAttach.Attachment.AbortAndJoin | crates/preloop-cli/src/debug_session.rs:134-139 | the heartbeat is over when the join returns |
| DebugAttach.Attachment.Release | crates/preloop-cli/src/debug_session.rs:133-143 | with other steps in between everywhere, the marker ends idle or missing unless the demotion write failed |
| BrowserWords.SplitBrowserWords | crates/preloop-cli/src/app_manifest.rs:512-555 | the loop computes the split of its specification |
| BrowserWords.FailsExactlyOnOpenInput | crates/preloop-cli/src/app_manifest.rs:507-511 | the splitter gives up exactly when the input ends inside a quote or right after an unquoted backslash |
| BrowserWords.LinesSplit | crates/preloop-cli/src/app_manifest.rs:512-555 | every line of words, written as bare, escaped and quoted pieces between blanks, is split into the meanings of its words |
| BrowserWords.SplitInputsAreLines | crates/preloop-cli/src/app_manifest.rs:512-555 | every input that is split is such a line |
| BrowserWords.QuotedPiecesRender | crates/preloop-cli/src/debug_session.rs:1606-1608 | a quoted value is one word whose meaning is the value |
| BrowserWords.SplittingUndoesQuoting | crates/preloop-cli/src/debug_session.rs:1605-1608 | for every list of strings, splitting the space-joined quoted strings gives back the list |
| ShellWords.ShellUndoesQuoting | crates/preloop-cli/src/debug_session.rs:1605-1608 | a shell, by sections 2.2.1 to 2.2.3 of the POSIX.1-2017 Shell Command Language, reads the space-joined quoted strings back, for every list of strings |
| ShellWords.ScanIsRun | crates/preloop-cli/src/app_manifest.rs:512-555 | the splitter's scan is the run of an automaton over its states |
| ShellWords.ReadsAsAShellExactly | crates/preloop-cli/src/app_manifest.rs:507-511 | the splitter and a shell are in the same state after every prefix exactly when no rule is met that only one of them has |
| ShellWords.SameQuotingSplitsAlike | crates/preloop-cli/src/app_manifest.rs:507-511 | on such input they give the same words or both give up |
| ShellWords.SingleQuotesAreAlike | crates/preloop-cli/src/app_manifest.rs:519-529 | single quotes never make a difference, whatever they enclose |
| ShellWords.InDoubleQuotesTheyDiffer | crates/preloop-cli/src/app_manifest.rs:519-524 | a backslash in double quotes read both ways |
| ShellWords.AtEscapedNewlinesTheyDiffer | crates/preloop-cli/src/app_manifest.rs:530-534 | an escaped newline read both ways |
| ShellWords.AtOtherBlanksTheyDiffer | crates/preloop-cli/src/app_manifest.rs:535-540 | any blank that is none for a shell, read both ways |
| BrowserWords.SplitColonsExact | crates/preloop-cli/src/app_manifest.rs:480 | the entries hold no colon and, joined with colons, are the input |
| BrowserWords.NoMarkerNoChange | crates/preloop-cli/src/app_manifest.rs:491-496 | a word without the marker is left alone |
| BrowserWords.ReplaceJoins | crates/preloop-cli/src/app_manifest.rs:493 | parts without markers that were joined by markers are joined by the URL: every marker is replaced and nothing else |
| BrowserWords.WordIsJoined | crates/preloop-cli/src/app_manifest.rs:493 | every word is such a join, so the lemma above covers them all |
| BrowserWords.Substitute | crates/preloop-cli/src/app_manifest.rs:487-501 | every marker is replaced; the URL is appended exactly when no word had one |
| BrowserWords.BrowserCommands | crates/preloop-cli/src/app_manifest.rs:478-505 | the commands of the readable, non-blank entries, in order |
| BrowserWords.UrlIsNeverSplit | crates/preloop-cli/src/app_manifest.rs:471-477 | the number of commands and of their arguments does not depend on the URL |
| ProcessTree.ChildTable | benchmarks/real-world/run-three-engine-bench.py:121-125 | the dictionary lists exactly the children of every parent |
| ProcessTree.Descendants | benchmarks/real-world/run-three-engine-bench.py:114-134 | the work list ends on any table, cycles included, with exactly the pids reachable from the root, each pushed once |
| ProcessTree.Expand | benchmarks/real-world/run-three-engine-bench.py:129-133 | one expansion finds every child and pushes each new one once |
| SweepOrder.StateUpdateIsBijective | benchmarks/preloop-perf/src/main.rs:335-339 | the state update has a two-sided inverse on 64-bit words |
| SweepOrder.StatesStayNonZero | benchmarks/preloop-perf/src/main.rs:334-341 | a non-zero state never becomes zero, after any number of updates |
| SweepOrder.SweepStatesAreNonZero | benchmarks/preloop-perf/src/main.rs:351-357 | whatever the seed and the trial, no state of a sweep is zero |
| SweepOrder.WordIsWrappedValue | benchmarks/preloop-perf/src/main.rs:334-341 | a word is what its value wraps to, so words are the numbers below 2^64 |
| SweepOrder.WrappingKeepsTheRemainder | benchmarks/preloop-perf/src/main.rs:351 | a number wrapped to 64 bits is its remainder modulo 2^64, so multiplication on words wraps as the program's does |
| SweepOrder.SweepOrder | benchmarks/preloop-perf/src/main.rs:349-363 | the in-place loop computes the order of its specification |
| SweepOrder.ReverseInPlace | benchmarks/preloop-perf/src/main.rs:359-361 | the array is reversed |
| SweepOrder.ShufflePermutes | benchmarks/preloop-perf/src/main.rs:355-358 | the shuffle permutes any list of levels, whatever is drawn |
| SweepOrder.OrdersArePermutations | benchmarks/preloop-perf/src/main.rs:343-348 | every sweep order is a permutation of the levels, for every seed and trial |
| SweepOrder.PairsAreMirrored | benchmarks/preloop-perf/src/main.rs:345-348 | the odd trial of a pair is the reverse of the even one, and a level's two positions add up to the same number |
| SlotMachine.RunArrivals | benchmarks/real-world/run-concurrency-property-probes.py:349-370 | for any arrivals the final slots in closed form: without cancelling the first runs, the last is pending, the middle are cancelled in order; with it only the last survives |
| SlotMachine.ArrivalsAreConserved | benchmarks/real-world/run-concurrency-property-probes.py:354-370 | every arrival is running, pending or cancelled, exactly once |
| SlotMachine.SettledWithoutCancelling | benchmarks/real-world/run-concurrency-property-probes.py:366-370 | the closed form without cancelling, from what each arrival does |
| SlotMachine.SettledCancelling | benchmarks/real-world/run-concurrency-property-probes.py:359-365 | the closed form with cancelling |
| SlotMachine.DetectContamination | benchmarks/real-world/run-concurrency-property-probes.py:150-178 | the check raises exactly the two issues, each exactly when its label is listed wrongly |
| SlotMachine.OutcomeIsFlaggedExactlyOnRepeats | benchmarks/real-world/run-concurrency-property-probes.py:150-178 | the complete outcome of the model is flagged exactly when the last label also arrived in between |
| SlotMachine.AgreedExpectationsAreNeverFlagged | benchmarks/real-world/run-concurrency-property-probes.py:150-178 | with distinct labels no expectation that agrees with the model is flagged, whatever parts of it are recorded |

## Left out

Cache store:

- The streaming copy when a rename fails, the removal of a directory after a failed write, and
  every other I/O error.
- CacheStore.CacheStore.CommitFileScoped: the streaming copy that the code falls back to when the rename fails, and its
  cleanup, are not modelled.
- CacheStore.CacheStore.PutScoped: `fs::write` is one atomic step; a crash inside the write of the archive is not modelled.
- CacheStore.CacheStore.ResolveScoped: leaves out the probe of the legacy layout.
- Two writer processes. In `CacheInterleaving` the listing passes of enforcements are not tied together: a removal may come at any
  time, and so may the touch of a lookup; how a lookup finds its entry while others act is left out.
- Removals that fail because a reader holds the file, clocks that stand still or go back, and mtimes that cannot be set.
- The sum of sizes is unbounded, not 64 bits wide. Creation times are numbers, not decimal text that may fail to parse,
  and sidecars are always valid UTF-8. Files directly under the root do not occur.

Schema audit:

- SchemaLoss.LosesNothingExactly: leaves out schemas with a context on a reachable cycle that keeps the path. There a lost
  context depends on which routes around the cycle other definitions hide; what is recorded is exact, for every schema, in
  `DictionariesAreExactlyTheSimpleRoutes`.
- A `one-of` that is not a list fails in `schema_kinds`, where Python would iterate over a string or an object's keys.
- Which of several errors is raised first, error texts, the line and source text of constants, and the regular
  expressions that extract them. Property names are always strings.

Push-back:

- PushBack.GitPush: is the assumption about git that is described above, written as a method.
- PushBack.PushTestedCommit: promises that nothing was moved after the three refusals. A failed `git push` is one error
  whether it was rejected or its reply was lost, as in the code, so after it a move may have been made.
- Git and HTTP are abstract operations. Local git commands other than staging do not fail or time out; the delays,
  the pull request options and refs that are not branches are left out. Lower case is that of ASCII letters.
- The hash of a new commit is a parameter that names one content only. Commit messages and identities are left out.
- With other pushers at work nothing is claimed about where the branch ends, only about the moves this code makes.

Debug session:

- WorkspaceSync.Guest.GuestModified: takes the reported paths from the guest's git; the status lines they are read from, with
  their quoting of unusual names, are not modelled.
- WorkspaceSync.Guest.SyncWorkspace: a single file is extracted whole or not at all.
- Paths are flat and whole: no directories, no modes or links. Paths that are
  not UTF-8 are left out. Commits made inside the guest are not edits to `git status`.
- The session record, the macOS path list and the revision label are left out.
- `to_ascii_lowercase` and `contains` are modelled; the text of the session's error messages is not.
- The attach marker: other controllers, a claim whose write fails, and dropping the handle without a release. A claim that
  times out leaves ACTIVE behind, and the model shows that too.

Words and benchmarks:

- Decoding of UTF-8; the whitespace predicate is the Unicode property written out.
- ShellWords.ShellUndoesQuoting: is about quoting and word separation alone; expansions, operators, comments and aliases of
  the shell are ordinary text in `PosixSplit`, and input that ends after a backslash is incomplete.
- Finding and starting the browser.
- Parsing of the process table's text, and its failures other than the ones that return the root.
- The `max` queue of the probe model, arrivals without a label, and a case without a `queue`, which the model treats as
  single and the contamination check skips. `DetectContamination` is for cases whose queue is single.
- The seed's environment variable and everything the benchmark measures.
