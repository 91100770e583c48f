# Alicerce: a verified model of run state, authority and evidence

Alicerce drives software-building runs through a fixed lifecycle and keeps
authoritative state, command authority and evidence on the trusted side. This
project models its five hardest mechanisms and proves what they guarantee.

* **Durable run state** (`State`, `StatePaths`, `StateStore*`). Each run has an identity blob,
  a checkpoint blob and a journal of transition blobs. Every read decodes the
  blobs, replays the journal through the lifecycle policy and compares the result
  with the stored checkpoint; every write is a whole-checkpoint compare-and-swap
  in one transaction. The class `SQLiteStateStore` is written as the adapter is,
  with committed tables, a transaction-local copy, and any statement allowed to
  fail. It is proved to refine a map from run id to identity and events, and, for
  prepared updates, the in-memory store of the contract tests.
* **Canonical JSON** (`Utf8`, `Json*`, `Timestamp`, `StateSerialization`). A sorted
  compact printer, a full lenient reader, and the check that a value's own dump is
  the input again. The codecs are proved two-sided inverses down to the bytes.
* **Command authority** (`Command`, `CommandPolicy`, `CommandAuthority`). The staged filter over
  sorted rules is proved to decide what a declarative permission over the *set* of
  rules says, including which denial is reported.
* **Workspace capabilities** (`Workspace`, `WorkspaceRuns`). The two capability
  tables, and the protocol of publishing, quarantining, removing and rolling back,
  with every host step allowed to fail and the candidate allowed to replace entries
  on the host between operations.
* **Bounded capture and evidence** (`Capture*`, `Elapsed`, `Evidence*`,
  `CommandEvidence`). The two capture loops over arbitrary traces of clocks and
  reads, and the deterministic evidence bytes, against the values of numbers as
  Python compares them (`Numbers`, `Doubles`).

`Documents` and `Names` spell out what the bytes hold and which names are accepted,
member by member and letter by letter. `Order` holds the one ordering of integers,
strings and tuples that all of these share. Where the source updates in place the
model is a class or a loop; its specification is a function, and the theorems are
about that function.

## Findings

Properties that fail as one would first state them, with the exact condition
under which they hold.

* `StateUpdate` does not consult the table of allowed transitions
  (`src/alicerce/domain/state.py:78-118`). The store accepts such an update and
  every later read of the run reports corruption (`SkippedUpdateCorruptsForever`). A
  run is readable directly after an accepted update if and only if the transition is
  in the table (`AppendedRunLoadsIffPermitted`, `SkippingUpdateIsAcceptedAndCorrupts`).
* Whether `strftime` pads `%Y` is fixed by the interpreter and its C library, and
  `pyproject.toml` admits interpreters of both kinds: CPython leaves years before
  1000 unpadded with the usual C library on Linux, except in the releases that pad
  them themselves (the change known as gh-120713). The constant `PADS_YEARS` stands
  for either. Where years are not padded, a timestamp before the year 1000 prints
  short and its own parser refuses it, so that a run with such a creation time can be
  initialized and never loaded; the codecs are exact if and only if `PADS_YEARS` or
  the year is at least 1000 (`TimestampExact`, `InitializedRunLoadsIffYearSurvives`,
  `ShortYearCorruptsForever`, `EarlyRunIsInitializedAndCorrupt`).
* Replacing one journal row goes unnoticed exactly when the new bytes are those of
  the same step with another actor or, for an event that is not the last, a time
  between its neighbours (`ReplacementIsNoticedUnlessStandIn`). Every row of every
  stored run can be replaced so, by different bytes (`ForgedActorIsUnnoticed`).
* Evidence that is equal in Python can have different bytes, and so different hashes:
  an integer equals the float with its value, and zero equals minus zero, but JSON
  writes them differently. Bytes are equal exactly when the evidence is equal and
  every number is spelled alike (`EvidenceBytesExact`, `EqualCommandsCanDiffer`,
  `EqualEvidenceCanDiffer`).
* A baseline of 64 hexadecimal digits is a valid run identity, but evidence accepts
  at most 40, so such a run can have no evidence (`EvidenceNeedsShortBaseline`,
  `LongBaselineHasNoEvidence`).
* A new process forgets its handles but not what is in quarantine. If it prepares a
  handle whose quarantine path is occupied, releasing it fails even when no step fails
  (`PrepareThenReleaseExact`, `LeftoverQuarantineBlocksRelease`).
* A fault-free retry of `release` removes a recorded workspace unless its home and
  its quarantine are both occupied (`FaultFreeReleaseExact`). No sequence of
  operations leads there without interference (`RetryReleases`), and one with
  interference does (`InterferenceBlocksRelease`).

## Model

| member | source | states |
|---|---|---|
| Utf8.DecodeExact | src/alicerce/adapters/local/state_serialization.py:63-72 | strict UTF-8 decoding accepts exactly the encoding of the text it returns: no overlong form, no surrogate |
| Json.DuplicateRejectingObject | src/alicerce/adapters/local/state_serialization.py:42-48 | the dictionary loop fails exactly on a repeated name, and otherwise holds every pair |
| JsonProofs.DocumentRoundTrip | src/alicerce/adapters/local/state_serialization.py:55-80 | the general reader reads the printed text of every value with distinct member names as that value |
| JsonReader.UnicodeEscapeIsRead | src/alicerce/adapters/local/state_serialization.py:68-80 | every character is read from its UTF-16 escape, single or paired, with digits in either case |
| JsonReader.ShortEscapesAreRead | src/alicerce/adapters/local/state_serialization.py:68-80 | the eight short escapes are read, the slash among them |
| JsonReader.SpaceIsSkipped | src/alicerce/adapters/local/state_serialization.py:68-80 | white space is exactly four characters, and any amount of it is skipped |
| JsonProofs.NormalizeIsCanonical | src/alicerce/adapters/local/state_serialization.py:56-62 | sorting keys puts every object at every depth into strict key order |
| JsonProofs.LoadDump | src/alicerce/adapters/local/state_serialization.py:55-88 | loading a dump gives the sorted form of the dumped object, when its floats are spelled as they print, and nothing otherwise |
| JsonProofs.LoadExact | src/alicerce/adapters/local/state_serialization.py:68-88 | loading succeeds exactly on the bytes of the canonical text of an object with sorted members and floats as they print; other orders, spaces, escapes, spellings of floats and repeated names are refused |
| JsonProofs.DumpInjective | src/alicerce/adapters/local/state_serialization.py:55-65 | equal dumps come from values that are equal as Python dictionaries |
| JsonShortest.PrintedCharsAreShortest | src/alicerce/adapters/local/state_serialization.py:55-65 | no text that reads as a string is shorter than the printed one, so every character takes its shortest escape or none |
| JsonShortest.CanonicalTextIsShortest | src/alicerce/adapters/local/state_serialization.py:55-88 | no text that reads as a value, in any order of members, is shorter than its canonical text |
| JsonShortest.EscapedExactly | src/alicerce/adapters/local/state_serialization.py:55-63 | exactly the quote, the backslash and the control characters are escaped |
| JsonShortest.ShortEscapes | src/alicerce/adapters/local/state_serialization.py:55-63 | the seven characters with an escape of two characters, and that escape |
| JsonShortest.ControlEscapes | src/alicerce/adapters/local/state_serialization.py:55-63 | every other control character is written with four lower-case hexadecimal digits |
| Timestamp.BeforeIsLexicographic | src/alicerce/domain/state.py:64-64 | instants in UTC are ordered field by field |
| Timestamp.InstantExact | src/alicerce/adapters/local/state_serialization.py:125-139 | the instants are the dates of the Gregorian calendar from year 1 to 9999 with a time of day in microseconds |
| Timestamp.TimestampExact | src/alicerce/adapters/local/state_serialization.py:125-139 | whether or not years are padded, a text parses to an instant exactly when it is the printed form of that instant and the year prints with four digits |
| StateSerialization.FieldsExact | src/alicerce/adapters/local/state_serialization.py:91-97 | reading a canonical object by exact field names inverts writing it |
| StateSerialization.LoadFieldsExact | src/alicerce/adapters/local/state_serialization.py:68-97 | the same through bytes |
| StateSerialization.IdentityCodecExact | src/alicerce/adapters/local/state_serialization.py:142-197 | bytes decode to an identity exactly when they are its encoding and its year prints with four digits |
| StateSerialization.IdentityReaderExact | src/alicerce/adapters/local/state_serialization.py:195-197 | decoding finds the one identity that the bytes encode, if there is one |
| StateSerialization.CheckpointCodecExact | src/alicerce/adapters/local/state_serialization.py:200-247 | the same for checkpoints, whose lifecycle run id is not written and is recovered from the identity |
| StateSerialization.TransitionCodecExact | src/alicerce/adapters/local/state_serialization.py:250-304 | the same for transitions |
| StateSerialization.IdentityBytesTellYear | src/alicerce/adapters/local/state_serialization.py:125-154 | no identity with a short year shares its bytes with a readable one |
| Documents.IdentityBytesAre | src/alicerce/adapters/local/state_serialization.py:142-154 | identity bytes load as nine members with these names, values, format and version |
| Documents.CheckpointBytesAre | src/alicerce/adapters/local/state_serialization.py:200-214 | checkpoint bytes load as seven members with these names, values, format and version, the identity document among them |
| Documents.TransitionBytesAre | src/alicerce/adapters/local/state_serialization.py:250-269 | transition bytes load as nine members with these names, values, format and version |
| Names.SafeIdExact | src/alicerce/domain/run_identity.py:8-8 | run and workspace identifiers match the pattern, character by character |
| Names.ComponentNameExact | src/alicerce/domain/lifecycle.py:12-12 | actor and executable names match the pattern, character by character |
| Names.DigestExact | src/alicerce/domain/run_identity.py:9-10 | digests are 64 lower-case hexadecimal digits, and baselines 40 or 64 |
| Names.TrimmedTextExact | src/alicerce/domain/run_identity.py:13-18 | contract texts are exactly those that are not empty and that stripping leaves as they are |
| State.UpdateCharacterization | src/alicerce/domain/state.py:78-118 | an update that passes its constructor equals the prepared update of its own event exactly when the transition is allowed; otherwise preparing it is refused with the cause given |
| State.PreparedPassesConstructor | src/alicerce/domain/state.py:138-155 | preparation is refused only by the lifecycle policy, never by the update's own checks, and carries the requested event |
| State.AcceptedUpdateExact | src/alicerce/domain/state.py:78-118 | the constructor of an update accepts exactly an event that continues the checkpoint together with the snapshot that it leads to |
| State.FirstViolationIsReported | src/alicerce/domain/state.py:94-118 | a refused update reports the first of the five causes that it violates |
| State.CheckpointRefusals | src/alicerce/domain/state.py:47-68 | a checkpoint is refused for a lifecycle of another run first, and then for a time before the creation |
| State.FoldCounts | src/alicerce/domain/state.py:120-135 | along any chain of updates the revision is the number of events and the identity never changes |
| State.HistoryClimbs | src/alicerce/domain/lifecycle.py:63-75 | every reachable history counts revisions from one, climbs the state order strictly and has at most six transitions |
| StatePaths.LegalExact | src/alicerce/domain/lifecycle.py:63-75 | a list of events is a legal history exactly when its targets are the first states of workspace_prepared, building, verifying, deciding, review_pending, then at most completed, its events repeat the run and count from one, and its times never fall; said without the table |
| StatePaths.EveryJourneyIsLegal | src/alicerce/domain/lifecycle.py:197-256 | conversely every such list of targets, with any times that never fall and any actors, is the history of a run |
| StatePaths.TableExact | src/alicerce/domain/lifecycle.py:63-75 | a state leads to the next state of that path or to completed, and completed leads nowhere |
| StatePaths.AdvanceExact | src/alicerce/domain/lifecycle.py:197-256 | an advance is refused for the first reason that applies, in the order of the checks, and otherwise yields this event and this snapshot |
| State.HistoryTimes | src/alicerce/domain/lifecycle.py:221-225 | times never fall below the creation time or any earlier event |
| State.FinalStateIsLast | src/alicerce/domain/lifecycle.py:226-235 | a final state is carried at most once, by the last event, exactly on completion |
| State.ReplayStep | src/alicerce/domain/lifecycle.py:197-256 | advancing with an event's own fields reproduces the event exactly when it continues the chain and is allowed |
| StateStore.SelectJournal | src/alicerce/adapters/local/sqlite_state_store.py:145-153 | the selected rows are the run's journal in ascending revision order |
| StateStore.CheckRow | src/alicerce/adapters/local/sqlite_state_store.py:154-171 | one turn of the replay loop accepts exactly the next revision, decodable and reproduced by the lifecycle policy |
| StateStore.ReplayJournal | src/alicerce/adapters/local/sqlite_state_store.py:143-172 | the replay loop is the fold of that step over the rows |
| StateStore.ValidatedRun | src/alicerce/adapters/local/sqlite_state_store.py:126-179 | validation with failing statements: the two SELECTs, decoding, replay and the comparison with the stored checkpoint |
| StateStore.ReplayExact | src/alicerce/adapters/local/sqlite_state_store.py:143-172 | replay succeeds exactly on the encodings of a legal event list, and returns its fold |
| StateStore.ValidationExact | src/alicerce/adapters/local/sqlite_state_store.py:126-179 | validation returns a checkpoint and events exactly when the rows are byte for byte the encoding of an identity with this run id, of a legal event list at revisions 1..n and of its fold |
| StateStore.ValidationOutcomes | src/alicerce/adapters/local/sqlite_state_store.py:135-179 | any other present run is corrupt; only an absent run is absent |
| StateStore.ByteCasAgrees | src/alicerce/adapters/local/sqlite_state_store.py:256-292 | once the checkpoint values are equal, the byte comparison of the UPDATE must match and the journal key is free, so the row-count conflict cannot be reached |
| StateStore.SQLiteStateStore.constructor | src/alicerce/adapters/local/sqlite_state_store.py:54-68 | a new database has no rows |
| StateStore.SQLiteStateStore.Initialize | src/alicerce/adapters/local/sqlite_state_store.py:181-225 | inserts one row with both blobs, or changes nothing and reports why |
| StateStore.SQLiteStateStore.Load | src/alicerce/adapters/local/sqlite_state_store.py:227-241 | answers the validated checkpoint and changes nothing |
| StateStore.SQLiteStateStore.CompareAndAppend | src/alicerce/adapters/local/sqlite_state_store.py:243-305 | writes the journal row and the new checkpoint together, or nothing, whichever statement fails |
| StateStore.SQLiteStateStore.WriteBoth | src/alicerce/adapters/local/sqlite_state_store.py:263-294 | once the current checkpoint is the expected one, both rows are written and committed, or neither, and the row-count conflict is never reported |
| StateStore.SQLiteStateStore.History | src/alicerce/adapters/local/sqlite_state_store.py:307-323 | answers the validated events and changes nothing |
| StateStoreRuns.ValidateRepresented | src/alicerce/adapters/local/sqlite_state_store.py:126-179 | on tables that represent an abstract store, validation answers what the abstract store holds |
| StateStoreRuns.StepSimulates | src/alicerce/adapters/local/sqlite_state_store.py:181-323 | each call takes the abstract step with the abstract answer, or fails in storage and leaves every row unchanged |
| StateStoreTheorems.EveryCallSequenceRuns | src/alicerce/adapters/local/sqlite_state_store.py:181-323 | every sequence of calls with any failing statements has a run, so the theorems below range over all of them |
| StateStoreTheorems.TablesRepresentSpec | src/alicerce/adapters/local/sqlite_state_store.py:181-305 | refinement: after any calls from an empty database the tables are the bytes of the abstract store |
| StateStoreTheorems.EveryCallIsAtomic | src/alicerce/adapters/local/sqlite_state_store.py:193-225 | every answer in a run is the abstract one with the whole abstract effect, or a storage failure with none |
| StateStoreTheorems.HistoriesOnlyGrow | src/alicerce/adapters/local/sqlite_state_store.py:243-294 | a history keeps its identity, only grows, and changes only when a call appends to that run |
| StateStoreTheorems.AcceptedAdvances | src/alicerce/adapters/local/sqlite_state_store.py:256-294 | an accepted update found its expected checkpoint current and made its next one current |
| StateStoreTheorems.SupersededForever | src/alicerce/adapters/local/sqlite_state_store.py:243-294 | a superseded checkpoint never becomes current again |
| StateStoreTheorems.OneWinnerEver | src/alicerce/adapters/local/sqlite_state_store.py:243-294 | over any interleaving of clients at most one update is ever accepted for one expected checkpoint |
| StateStoreTheorems.AcceptedUpdatesFormTheJournal | src/alicerce/adapters/local/sqlite_state_store.py:265-294 | the journal is exactly the accepted updates, in order |
| StateStoreTheorems.TornReadIsCaught | src/alicerce/adapters/local/sqlite_state_store.py:131-174 | a read whose two SELECTs are separated by other calls answers the state at the first SELECT, and reports corruption exactly when an append to that run committed in between |
| StateStoreDouble.AppendedRunLoadsIffPermitted | src/alicerce/domain/state.py:94-118 | directly after an accepted update the run can be loaded exactly when the transition is allowed |
| StateStoreDouble.UnhealthyForever | src/alicerce/adapters/local/sqlite_state_store.py:227-323 | a run that cannot be read back never can be again, whatever is called: every later load and history reports corruption |
| StateStoreDouble.SkippedUpdateCorruptsForever | src/alicerce/adapters/local/sqlite_state_store.py:158-167 | after an accepted update outside the table every later read of the run reports corruption |
| StateStoreDouble.InitializedRunLoadsIffYearSurvives | src/alicerce/adapters/local/state_serialization.py:125-139 | directly after its initialization a run can be loaded exactly when its creation year prints with four digits |
| StateStoreDouble.ShortYearCorruptsForever | src/alicerce/adapters/local/state_serialization.py:125-139 | a run that is initialized in a year that prints short can never be read |
| StateStoreDouble.SkippingUpdateIsAcceptedAndCorrupts | src/alicerce/adapters/local/sqlite_state_store.py:243-294 | a concrete update outside the table that is accepted, after which no read of its run succeeds |
| StateStoreDouble.EarlyRunIsInitializedAndCorrupt | src/alicerce/adapters/local/sqlite_state_store.py:181-214 | a concrete run of the year 999 that is initialized, and that can be loaded where years are padded and never where they are not |
| StateStoreDouble.StoreRefinesReference | tests/test_state_store_contract.py:30-68 | for every sequence of prepared calls the store answers as the in-memory store does, apart from storage failures and from which of two refusals of initialize is reported, and never reports corruption |
| StateStoreDamage.ReachableRowsAreStored | src/alicerce/adapters/local/sqlite_state_store.py:181-305 | after any prepared calls with any failing statements, every existing run validates, so the damage results apply to all reachable rows |
| StateStoreDamage.IdentityDamageIsNoticed | src/alicerce/adapters/local/sqlite_state_store.py:137-141 | replacing only the identity bytes is reported as corruption |
| StateStoreDamage.CheckpointDamageIsNoticed | src/alicerce/adapters/local/sqlite_state_store.py:139-174 | replacing only the checkpoint bytes is reported as corruption |
| StateStoreDamage.DeletionIsNoticed | src/alicerce/adapters/local/sqlite_state_store.py:154-174 | deleting any non-empty set of journal rows is reported as corruption |
| StateStoreDamage.AdditionIsNoticed | src/alicerce/adapters/local/sqlite_state_store.py:154-174 | adding a row at an unused revision is reported as corruption, whatever its bytes |
| StateStoreDamage.ReplacementIsNoticedUnlessStandIn | src/alicerce/adapters/local/sqlite_state_store.py:158-174 | exactly which replacements of one journal row go unnoticed |
| StateStoreDamage.ForgedActorIsUnnoticed | src/alicerce/adapters/local/sqlite_state_store.py:158-174 | every journal row of every stored run has a replacement by different bytes that goes unnoticed |
| Command.WorkingDirectoryExact | src/alicerce/domain/command.py:90-104 | a working directory is "." or the join of a non-empty list of clean segments, and nothing else is accepted |
| Command.WorkingDirectoryStaysBelow | src/alicerce/adapters/local/command_executor.py:208-212 | splitting an accepted directory recovers its segments, and appending them to any root stays lexically under the root |
| Command.ResolveClimbs | src/alicerce/domain/command.py:90-104 | what the refused segments would do to a resolved path: climbing undoes a descent, and staying changes nothing |
| Command.VariablesAreDistinct | src/alicerce/domain/command.py:206-208 | no accepted request sets a variable twice |
| Command.RequestCheckExact | src/alicerce/domain/command.py:167-214 | the constructor check as written accepts exactly the requests whose workspace is bound to the run and whose variables strictly ascend |
| Names.ActionNameExact | src/alicerce/domain/command.py:14-14 | action names match the pattern, character by character |
| Names.VariableNameExact | src/alicerce/domain/command.py:15-15 | variable names match the pattern, character by character |
| Names.ArgumentExact | src/alicerce/domain/command.py:125-128 | a value of a variable may hold any characters but NUL |
| Names.LimitExact | src/alicerce/domain/command.py:137-151 | every limit is any positive integer |
| Order.SortedByKeyExact | src/alicerce/domain/command_policy.py:92-94 | keys that equal their own sorting with no repetition are exactly the strictly ascending ones; rules, variable names and request environments are all checked this way |
| Order.SortedIsUnique | src/alicerce/domain/command_policy.py:92-94 | a strictly sorted tuple is determined by the set of its elements |
| CommandPolicy.PolicyChecksExact | src/alicerce/domain/command_policy.py:61-99 | the constructor checks of rules and policies as written are strict order of variable names and of rules |
| CommandPolicy.RuleKeyInjective | src/alicerce/domain/command_policy.py:140-152 | the sort key determines the rule |
| CommandPolicy.DistinctRulesHaveDistinctKeys | src/alicerce/domain/command_policy.py:92-94 | any two different rules of a policy are strictly ordered |
| CommandPolicy.MatchingRule | src/alicerce/domain/command_policy.py:159-211 | the staged filter and the final loop decide as the greatest depth of any rule does |
| CommandPolicy.FirstFit | src/alicerce/domain/command_policy.py:201-211 | the loop over the last candidates finds the rule that the whole policy decides on, or denies the limits |
| CommandPolicy.DecideDecides | src/alicerce/domain/command_policy.py:159-211 | a success is the least rule by key that permits the request, and a denial names the first stage whose cumulative filter is empty |
| CommandPolicy.DecisionIsUnique | src/alicerce/domain/command_policy.py:159-211 | that description determines the decision, from the rules as a set |
| CommandPolicy.AuthorizationExact | src/alicerce/domain/command_policy.py:159-222 | a request is authorized exactly when the hash matches, the action is allowed and not denied, and some rule permits it |
| CommandAuthority.AuthorizationGrants | src/alicerce/domain/command_policy.py:159-222 | a request is authorized exactly when the policy hash matches, the action is allowed and not denied, and some rule has its action, executable, arguments, directory and network policy, lists each of its variables and reaches each of its four limits; said field by field |
| CommandAuthority.RefusalIsDenial | src/alicerce/domain/command_policy.py:213-222 | a request that is not authorized is refused with the denial that the rules decide on, and for no other reason |
| CommandAuthority.ExcessIsDenied | src/alicerce/domain/command_policy.py:201-210 | a request above the maximum of every rule in any one of the four limits is never authorized |
| CommandAuthority.LoweringKeepsAuthority | src/alicerce/domain/command_policy.py:201-210 | lowering any one limit never loses authorization |
| CommandAuthority.RuleOrder | src/alicerce/domain/command_policy.py:140-152 | rules are ordered by action, executable, arguments, directory, variable names and the four limits, in this order |
| CommandPolicy.OnlyTheDecidedRuleAuthorizes | src/alicerce/domain/command_policy.py:131-137 | an authorized command can be built exactly with the least permitting rule |
| CommandPolicy.DecisionDependsOnTheRuleSet | src/alicerce/domain/command_policy.py:84-99 | policies with the same hash, allowed actions and set of rules have the same rule tuple and decide alike |
| CommandPolicy.AuthorizationIsMonotone | src/alicerce/domain/command_policy.py:188-210 | asking for fewer variables or lower limits never loses authorization |
| Workspace.HandlesAreSegments | src/alicerce/adapters/local/git_workspace.py:288-295 | a capability handle and its quarantine are each one segment directly below the root |
| Workspace.PathsAreApart | src/alicerce/adapters/local/git_workspace.py:185-191 | homes and quarantines of all handles are pairwise different paths |
| WorkspaceRuns.PathsOfAHandle | src/alicerce/adapters/local/git_workspace.py:185-191 | the names of the home and of the quarantine of a handle |
| Workspace.BelowIsUnprotected | src/alicerce/adapters/local/git_workspace.py:77-80 | what lies directly below a disjoint root overlaps no protected root |
| Workspace.OverlapsExact | src/alicerce/adapters/local/git_workspace.py:270-272 | two paths overlap exactly when some path lies at or below both |
| Workspace.ProtectedExact | src/alicerce/adapters/local/git_workspace.py:379-380 | a path is protected exactly when it lies at, below or above some protected root |
| Workspace.Open | src/alicerce/adapters/local/git_workspace.py:65-89 | an adapter can be built exactly when every configured path is a real directory and the root lies neither at, below nor above the source repository or a protected root; it starts with no records |
| Workspace.LocalGitWorkspace.PathFor | src/alicerce/adapters/local/git_workspace.py:288-295 | the path of a handle never escapes the root |
| Workspace.LocalGitWorkspace.DiscardUnpublished | src/alicerce/adapters/local/git_workspace.py:382-391 | removes what a rejected preparation left, only inside the root, as far as the host lets it |
| Workspace.LocalGitWorkspace.Forget | src/alicerce/adapters/local/git_workspace.py:393-395 | drops a handle from both tables |
| Workspace.LocalGitWorkspace.Prepare | src/alicerce/adapters/local/git_workspace.py:91-138 | publishes a new handle, or publishes nothing and discards, keeping the invariant |
| Workspace.LocalGitWorkspace.Load | src/alicerce/adapters/local/git_workspace.py:140-152 | answers by the record and what inspection of the directory finds |
| Workspace.LocalGitWorkspace.RecoverQuarantine | src/alicerce/adapters/local/git_workspace.py:192-205 | finishes a release whose directory was already detached |
| Workspace.LocalGitWorkspace.DetachAndRemove | src/alicerce/adapters/local/git_workspace.py:212-239 | renames, inspects, removes and rolls back, with the exact outcome for every combination of failures |
| Workspace.LocalGitWorkspace.Release | src/alicerce/adapters/local/git_workspace.py:171-239 | the whole release, by what is at the two paths and what fails, keeping the invariant |
| WorkspaceRuns.EveryRunIsSound | src/alicerce/adapters/local/git_workspace.py:135-137 | over every run with any failures and any interference on the host, given only a disjoint root: the two tables are mutual inverses and every record has its own path, directly below the root and neither at, below nor above a protected root |
| WorkspaceRuns.EveryQuarantineIsOwned | src/alicerce/adapters/local/git_workspace.py:191-239 | where nobody else writes to quarantine paths, a quarantined entry exists only while its handle is recorded |
| WorkspaceRuns.OneWorkspacePerRun | src/alicerce/adapters/local/git_workspace.py:96-106 | over every run with any interference, no two handles are recorded for one run id |
| WorkspaceRuns.OnlyOwnPathsChange | src/alicerce/adapters/local/git_workspace.py:171-239 | an operation changes the host only at the two paths of its own handle |
| WorkspaceRuns.ProtectedPathsAreUntouched | src/alicerce/adapters/local/git_workspace.py:379-391 | when the root lies neither at, below nor above a protected root, no run of operations changes anything at, above or below one |
| WorkspaceRuns.OtherHandlesAreUnaffected | src/alicerce/adapters/local/git_workspace.py:140-152 | an operation on one handle does not change what loading another answers |
| WorkspaceRuns.ReleaseIsFinal | src/alicerce/adapters/local/git_workspace.py:179-239 | after a successful release in any run, over any later operations that do not prepare the handle again, nothing is recorded or left for it and releasing again succeeds without change |
| WorkspaceRuns.FaultFreeReleaseExact | src/alicerce/adapters/local/git_workspace.py:192-239 | after any run with any failures and interference, a release in which nothing fails removes the workspace completely, exactly unless home and quarantine are both occupied |
| WorkspaceRuns.RetryReleases | src/alicerce/adapters/local/git_workspace.py:192-239 | after any run of operations and failures, one fault-free release removes a recorded workspace completely |
| WorkspaceRuns.FailedReleaseKeepsOneCopy | src/alicerce/adapters/local/git_workspace.py:231-238 | after any run of operations, a release that fails in storage keeps its record and leaves the entry in one place only |
| WorkspaceRuns.RejectedPreparationsErase | src/alicerce/adapters/local/git_workspace.py:113-133 | a rejected preparation whose clean-up works can be erased from any run without changing where the run leads |
| WorkspaceRuns.PrepareThenReleaseExact | src/alicerce/adapters/local/git_workspace.py:91-239 | preparing and then releasing restores every table and every entry, unless the quarantine path was occupied before |
| WorkspaceRuns.LeftoverQuarantineBlocksRelease | src/alicerce/adapters/local/git_workspace.py:207-211 | a concrete start in which a prepared handle cannot be released although nothing fails |
| WorkspaceRuns.InterferenceBlocksRelease | src/alicerce/adapters/local/git_workspace.py:207-238 | a concrete run after which a recorded handle is not released by any host on which nothing fails |
| WorkspaceRuns.LoadExact | src/alicerce/adapters/local/git_workspace.py:305-326 | after any run with any interference, loading answers the recorded identity exactly on a directory with its links inside and its recorded configuration, when no step fails |
| WorkspaceRuns.PreparedWorkspaceLoads | src/alicerce/adapters/local/git_workspace.py:140-152 | a prepared workspace can be loaded after any operations on other handles |
| WorkspaceRuns.PreparedExact | src/alicerce/adapters/local/git_workspace.py:91-138 | a run gets a workspace exactly when nothing is recorded or present in its way, every step works and the clone passes each inspection |
| WorkspaceRuns.GitFailuresAnswer | src/alicerce/adapters/local/git_workspace.py:397-410 | which failures of Git count as a breach of isolation and which as a storage failure |
| WorkspaceRuns.RootFailuresAnswer | src/alicerce/adapters/local/git_workspace.py:274-286 | a root that cannot be resolved or is not the configured one stops every operation without effect |
| WorkspaceRuns.ReplacedEntriesAreReported | src/alicerce/adapters/local/git_workspace.py:212-239 | a release without failures removes whatever stands at the home and reports it when it is not a directory |
| Capture.CaptureSandbox | src/alicerce/adapters/local/linux_process_sandbox.py:166-219 | for every trace: each buffer is the first bytes of its stream up to its ceiling, and the termination is the one that the consumed reads imply |
| Capture.ReadEvent | src/alicerce/adapters/local/linux_process_sandbox.py:180-199 | one read extends one buffer by what still fits, and stops on excess |
| Capture.SandboxTerminationExact | src/alicerce/adapters/local/linux_process_sandbox.py:172-206 | when no read raises, the output limit is reported exactly when the bytes offered before the deadline exceed a ceiling, and an exit exactly when both streams end below their ceilings, with every byte captured |
| Capture.CapturedFits | src/alicerce/domain/command.py:238-262 | what is captured makes a valid execution result exactly when the wall clock has not gone back |
| CaptureTiming.SandboxInTime | src/alicerce/adapters/local/linux_process_sandbox.py:166-206 | when less than the timeout in milliseconds has passed at every turn and no read raises, the whole trace counts: an excess over a ceiling, both streams ended, or neither decides the termination |
| CaptureTiming.SandboxTooLate | src/alicerce/adapters/local/linux_process_sandbox.py:170-178 | when the first turn comes at or past the timeout, the command has timed out and nothing is captured |
| CaptureTiming.LateTurnsAreIgnored | src/alicerce/adapters/local/linux_process_sandbox.py:170-178 | a turn at or past the timeout, and everything after it, changes nothing |
| Capture.CaptureBounded | src/alicerce/adapters/local/git_cli.py:405-446 | the Git loop returns, times out, exceeds its limit or fails as the reads before its timeout imply |
| Capture.ReadGitEvent | src/alicerce/adapters/local/git_cli.py:432-443 | one read extends one buffer, and the limit is on both together |
| Capture.GitBuffersAreBounded | src/alicerce/adapters/local/git_cli.py:433-443 | at every moment both buffers together hold at most the limit and one read, and each read is at most 65536 bytes |
| Capture.GitCaptureExact | src/alicerce/adapters/local/git_cli.py:417-446 | a normal return holds every byte offered on both streams within the limit; without a failing read the limit is reported exactly when those bytes exceed it |
| CaptureTiming.GitInTime | src/alicerce/adapters/local/git_cli.py:405-446 | when every turn comes within the timeout, reports something and reads bytes, the whole trace counts: all of it is returned, or the limit or the timeout is reported |
| CaptureTiming.GitTooLate | src/alicerce/adapters/local/git_cli.py:412-431 | when the first turn comes at or past the timeout, or reports nothing, the command has timed out |
| Elapsed.ElapsedExact | src/alicerce/adapters/local/evidence_serialization.py:281-282 | a duration is negative exactly when the end precedes the start, and zero exactly when they are equal |
| Elapsed.OneMicrosecondExact | src/alicerce/adapters/local/evidence_serialization.py:281-282 | two instants are one microsecond apart exactly when no instant lies between them, across ends of months and leap years |
| Elapsed.ElapsedAdds | src/alicerce/adapters/local/evidence_serialization.py:281-282 | durations add up, so that the step of one microsecond fixes every duration |
| Evidence.EnvironmentPayload | src/alicerce/adapters/local/evidence_serialization.py:124-145 | the loop over tool versions accepts and builds exactly the environment document |
| EvidenceProofs.UsageAgrees | src/alicerce/adapters/local/evidence_serialization.py:191-211 | the usage document determines the usage with its numbers as spelled, including whether a cost is known |
| EvidenceProofs.EnvironmentsAgree | src/alicerce/adapters/local/evidence_serialization.py:124-145 | environment documents agree exactly for environments whose tool versions are equal as dictionaries |
| Numbers.WholeEqualsFloat | src/alicerce/adapters/local/evidence_serialization.py:74-79 | every integer below two to the fifty-third equals, as Python compares numbers, the float with its value |
| Doubles.DoubleIsNearest | src/alicerce/adapters/local/evidence_serialization.py:74-79 | no binary64 value is nearer to a real number than the one that it is rounded to, and of two that are as near the one with the even significand is taken |
| Doubles.ToDoubleIsDouble | src/alicerce/adapters/local/evidence_serialization.py:74-79 | what rounding gives is a binary64 value, up to the overflow threshold and down to the subnormal ones |
| Doubles.FloatIsNearest | src/alicerce/adapters/local/evidence_serialization.py:74-79 | the value of a float text is a nearest binary64 value to the decimal that the text denotes, with its sign |
| Doubles.MagnitudeExact | src/alicerce/adapters/local/evidence_serialization.py:74-79 | a text with a fraction and an exponent denotes its digits times the power of ten |
| Doubles.DecimalExact | src/alicerce/adapters/local/evidence_serialization.py:74-79 | shifting the point by one place is a factor of ten, and without an exponent an integer is itself |
| EvidenceProofs.CommandBytesExact | src/alicerce/adapters/local/evidence_serialization.py:148-188 | command bytes are equal exactly for command results that are equal in Python and spell their duration alike |
| EvidenceProofs.EqualCommandsCanDiffer | src/alicerce/adapters/local/evidence_serialization.py:74-79 | for every whole number of seconds, two command results that are equal in Python and have different bytes |
| EvidenceProofs.EvidenceBytesExact | src/alicerce/adapters/local/evidence_serialization.py:214-256 | evidence bytes are equal exactly for evidence that is equal in Python and spells every number alike; the insertion order of tool versions is not seen |
| EvidenceProofs.EqualEvidenceCanDiffer | src/alicerce/adapters/local/evidence_serialization.py:206-210 | for any evidence, costs of zero and of minus zero make equal evidence with different bytes |
| EvidenceProofs.EnvironmentIsEmbedded | src/alicerce/adapters/local/evidence_serialization.py:296-324 | the stand-alone environment bytes are the text of the environment inside the evidence bytes |
| EvidenceProofs.CommandsAreEmbedded | src/alicerce/adapters/local/evidence_serialization.py:306-329 | the stand-alone bytes of each command are its text inside the evidence bytes |
| Names.VersionExact | src/alicerce/adapters/local/evidence_serialization.py:20-20 | a version is three runs of digits joined by dots, and nothing else |
| Documents.EnvironmentBytesAre | src/alicerce/adapters/local/evidence_serialization.py:124-145 | environment bytes load as three members with these names and values |
| Documents.CommandBytesAre | src/alicerce/adapters/local/evidence_serialization.py:148-188 | command bytes load as seven members with these names and values |
| Documents.EvidenceBytesAre | src/alicerce/adapters/local/evidence_serialization.py:214-256 | evidence bytes load as eleven members with these names and values, a cost only when it is known |
| Documents.CommandAcceptedExact | src/alicerce/adapters/local/evidence_serialization.py:148-188 | which command results are refused |
| Documents.EnvironmentAcceptedExact | src/alicerce/adapters/local/evidence_serialization.py:124-145 | which environments are refused |
| Documents.EvidenceAcceptedExact | src/alicerce/adapters/local/evidence_serialization.py:214-256 | which evidence is refused: by its identifiers, its instants, a version that is not three numbers joined by dots, a refused part, or no command |
| CommandEvidence.ArgvIsRecoverable | src/alicerce/adapters/local/evidence_serialization.py:114-121 | reading the command text gives an array of the executable and then every argument in order |
| CommandEvidence.CommandIdentityExact | src/alicerce/adapters/local/evidence_serialization.py:114-121 | command texts are equal exactly for the same executable and arguments |
| CommandEvidence.BuildExact | src/alicerce/adapters/local/evidence_serialization.py:266-293 | every valid execution result becomes a command record unless its specification is empty |
| CommandEvidence.ResultExact | src/alicerce/domain/command.py:238-262 | an execution result is valid exactly when it has an exit code just when it exited, keeps both ceilings and takes no negative time |
| Documents.BuiltRecordBytesAre | src/alicerce/adapters/local/evidence_serialization.py:266-293 | the bytes of a built record hold the digests of its output, errors and specification, its duration, its exit code and the name of its termination, each under its own name |
| CommandEvidence.CommandBytesTell | src/alicerce/adapters/local/evidence_serialization.py:266-313 | record bytes tell the executable, arguments, termination, exit code and the three digests |
| CommandEvidence.EvidenceNeedsShortBaseline | src/alicerce/adapters/local/evidence_serialization.py:224-233 | a run bound to a baseline of 64 digits can have no evidence |
| CommandEvidence.LongBaselineHasNoEvidence | src/alicerce/adapters/local/evidence_serialization.py:224-233 | a concrete identity of 64 digits, for which otherwise valid evidence is refused |

## Left out

- JsonProofs.LoadExact: the texts that floats print as are a constant set of which only the plain integral ones are known. Lone surrogates cannot occur in a Dafny string, so escapes that denote one are refused, where Python would decode them and then fail to encode. Python's limits on integer digits and nesting depth are not modelled.
- Timestamp.TimestampExact: `strptime` is modelled by the fixed layout only; every other text that it reads is refused afterwards because it does not print back. Instants are in UTC by type. A platform that pads years with anything but zeros is not modelled.
- StateStore.ValidatedRun: columns that do not hold bytes or integers, and the text of error messages, are not modelled.
- StateStore.ValidationOutcomes: a blob nested so deeply that Python's JSON reader raises a recursion error is reported as corrupt here; in the source that error is not caught and reaches the caller.
- StateStoreDamage.IdentityDamageIsNoticed: except, for the same reason, replacement bytes that nest that deeply.
- StateStoreDamage.CheckpointDamageIsNoticed: except bytes that nest that deeply.
- StateStoreDamage.AdditionIsNoticed: except bytes that nest that deeply.
- StateStoreDamage.ReplacementIsNoticedUnlessStandIn: except bytes that nest that deeply.
- StateStore.SQLiteStateStore.CompareAndAppend: `BEGIN IMMEDIATE` is taken as mutual exclusion of writers and commit as atomic; a rollback that fails is not modelled.
- StateStoreTheorems.TornReadIsCaught: stated on the two steps of a read without failing statements.
- StateStoreDouble.StoreRefinesReference: assumes prepared updates and creation years that print with four digits, since the other lemmas of that module show that the store differs otherwise. Initialize with a checkpoint that is both stale and present may be refused for either reason. A contract text with a lone surrogate, which the in-memory store takes and for which `initialize` raises an uncaught serialization error, cannot occur in a Dafny string.
- State.HistoryClimbs: the final states are those of docs/adr/0005; the package that defines them, loop_schemas, is not part of this model.
- Command.WorkingDirectoryStaysBelow: lexical only; the symbolic-link and resolution checks of the command executor belong to the host.
- CommandPolicy.MatchingRule: type checks on request and policy fields are carried by the types; detail texts of denials are left out.
- Workspace.Open: what the host answers about each configured path is a parameter; argument type checks are carried by the types.
- Workspace.LocalGitWorkspace.Prepare: cloning, link inspection, the configuration digest and baseline verification are host steps that succeed or fail; a clone that succeeds leaves a directory. Exceptions other than the three kinds that are caught are not modelled.
- Workspace.LocalGitWorkspace.Release: a directory is one entry with summarised content; a failing recursive removal may leave anything or nothing. Interference during a call is not modelled, only between calls.
- WorkspaceRuns.OnlyOwnPathsChange: the temporary control directory that Git operations create beside the homes, also for a load, and that stays below the root when its removal fails, is not modelled.
- Capture.CaptureSandbox: spawning, signals, process-tree termination and sandbox verification are left out; the exit status is a parameter. Reads offered for a stream that has ended are ignored, as the selector no longer reports it.
- Capture.CaptureBounded: process termination is left out, and a read that raises stands for every operating-system error in the loop.
- Evidence.EnvironmentPayload: type checks on values are carried by the types. Floats are kept as the text that they print as. Which texts are ISO 8601 timestamps, which characters are decimal digits, the text of a duration and SHA-256 are supplied by the runtime as functions.
- Documents.EvidenceAcceptedExact: assumes that the runtime does not count a dot as a decimal digit.
- Doubles.DoubleIsNearest: rounding is stated for values, and overflow to infinity is not modelled, since the texts that floats print as never overflow.
- EvidenceProofs.EvidenceBytesExact: an integer cost or duration too large for a float makes the source's finiteness check raise an overflow error; the model serializes it.
- CommandEvidence.BuildExact: assumes that the runtime prints a duration that is not negative as a finite number that is not negative. An argument with a lone surrogate, which a request accepts and for which the source refuses to build evidence, cannot occur in a Dafny string.
- Snapshots and execution leases of workspaces, Git operations, bubblewrap arguments, sandbox error translation, resuming a run, contract binding, schema creation and connection settings: outside the five mechanisms, and thin or input and output.
