# Odinn Forge: verified models

Dafny models of the parts of Odinn Forge whose correctness rests on a protocol, an analysis, an
ordering or a parser, with proofs of what they promise.

| part | source | modules |
|---|---|---|
| installer activation protocol | `scripts/install.ts` | `InstallerModel`, `InstallerLaunchers`, `InstallerActivation`, `InstallerRecovery`, `InstallerSwitches`, `InstallerAtomicity`, `InstallerOutcomes`, `InstallPrefix` |
| install lock | `scripts/install.ts`, `apps/cli/src/lifecycle.ts` | `InstallLock` |
| alias analysis, escape check, package exports | `scripts/ci/check-dependency-direction.ts` | `AliasAnalysis`, `AliasSoundness`, `EscapeCheck`, `ExportResolution` |
| durable event dispatch | `apps/gateway/src/durable-dispatch.ts` | `CanonicalJson`, `EventBinding`, `TerminalWait` |
| versions, updates and rollbacks | `apps/cli/src/lifecycle.ts` | `VersionOrder`, `Lifecycle` |
| binary readers | `scripts/release/node-runtime.ts`, `scripts/release/native-launcher.ts` | `Bytes`, `ZipDirectory`, `NativeLauncher` |
| host sessions and login throttle | `apps/gateway/src/host.ts` | `HostSessions`, `LoginThrottle` |

`Common`, `Strings` and `InsertionMap` (the JavaScript `Map` with its stable sort) hold what the parts share. `dafny verify dfyconfig.toml` verifies everything.

How the parts are modelled:

- **Installer.** A command is a sequence of atomic file operations computed from the disk and the
  environment (platform, live processes, clock, fresh tokens, an injected fault). A crash leaves any
  prefix of it. `InstallerModel` gives the sequences; `InstallPrefix.Prefix` is the object whose
  fields are the files, and each of its methods is proved to perform exactly those operations in
  that order. Theorems about cuts are stated on the sequences and so hold of the object. Commands run
  one at a time, under the lock whose exclusion `InstallLock` proves.
- **Interleavings.** The lock, the session handlers and the throttle processes are state machines
  whose steps are the stretches between two file operations or two `await`s. Runs are arbitrary
  sequences of steps.
- **Assumptions on the outside** appear as predicates: `Faithful` (SHA-256 is injective; `Number` is
  exact on safe integers; `localeCompare` is a total order), `Timely` (the clock; no stale rename while a
  live process is inside), `Provides` (what properties the analysis takes the loader to have),
  `FreshTokens` (random tokens do not repeat), `Durable` (terminal job states are absorbing).

Findings, each with its exact condition or an input:

- An upgrade or rollback is not atomic beside a live marker of another switch, which a cut upgrade
  leaves (`InstallerAtomicity.UpgradeIsAtomic`, `CutUpgradeThreatens`); what comes out then is still an
  installation that one of the run's switches leads to (`EveryRunRecovers`).
- A first installation is not atomic: without a state file the pointer is not looked at
  (`FirstInstallIsNotAtomic`; `PointerNeedsStateFile` is the remark behind it).
- A plain `install` keeps a pending activation. Once due, that activation replaces the installed
  version exactly if it is the version the activation starts from (`PlainInstallKeepsMarker`,
  `PendingActivationUndoes`, `ReinstallIsUndone`).
- The lock is exclusive exactly as long as no stale rename moves a directory that a live process is
  inside (`InstallLock.StaleRenameIsExact`), which two timings break (`OvertakenCheckBreaksExclusion`,
  `AgedCheckBreaksExclusion`). `StartsSafe` and `AdjacentRenameIsTimely` are remarks.
- `moduleLoaderRoots` is sound exactly as far as nothing else feeds a variable: it does not start from
  import specifiers that name the default export, and does not follow destructured properties other
  than `Module` and `default`, accessed ones other than its four names, or the value of an assignment
  (`AliasSoundness.SoundnessIsExact`, `SeedsCoverImports`, `DestructuredPropertyIsMissed`,
  `AccessedPropertyIsMissed`, `AssignmentValueIsMissed`).
- `compareVersions` is an order exactly on versions without leading zeros in their prerelease
  (`VersionOrder.TidyIsExact`, `LeadingZerosBreakTheOrder`).
- The active version can fall below the state's minimum in exactly two situations, both of them a
  migration followed by a return to the older release (`Lifecycle.StrandedUpdateHappens`,
  `StrandedRollbackHappens`).
- With `k` overlapping logins a user can reach exactly `perUser - 1 + k` sessions, up to the global
  cap (`HostSessions.MostIsExact`).
- Clearing a counter after a successful login does not lower the persisted one
  (`LoginThrottle.PersistedCountHolds` ranges over such steps; `UnlockedFloor` is how it starts).

## Model

| member | source | states |
|---|---|---|
| InstallerAtomicity.UpgradeIsAtomic | scripts/install.ts:134-156 | From every existing installation with any marker, an upgrade is atomic (for every cut, every environment and every sequence of recovering commands, themselves cut or failing, one complete command leaves exactly the old or exactly the new installation) if and only if no live marker diverts it: none with attempts left that admits the source, leads neither back to it nor to the switch itself, and whose version is installed or gets installed by the upgrade |
| InstallerAtomicity.RollbackIsAtomic | scripts/install.ts:531-599 | The same if and only if for a rollback, deferred or synchronous |
| InstallerSwitches.EveryRunRecovers | scripts/install.ts:455-472 | Over any run of upgrades, rollbacks and recoveries, each cut anywhere, from any coherent disk with any marker, one complete command leaves exactly the installation before or after the switch then pending, and it comes from the first by completing some of the run's switches in order; never a mix |
| InstallerSwitches.EveryRunIsWhole | scripts/install.ts:134-156 | Over any run of any commands, plain installs included, each cut anywhere, one complete command leaves exactly an installation, pointer and state file in agreement: the one `CommitPoint` says |
| InstallerSwitches.PlainInstallKeeps | scripts/install.ts:134-156 | Every cut of a plain install, beside any marker, leaves a coherent disk, and a complete one leaves its switch |
| InstallerRecovery.CommitPoint | scripts/install.ts:376-472 | Which of the two it is, for every marker: the one the activation leads to if and only if the activation is due (admitted, attempts left, version installed, awaited process dead or already applying), and otherwise exactly the one `current` points at |
| InstallerRecovery.RepairKeeps | scripts/install.ts:601-644 | On every coherent disk `readState` does not throw, finishes a half-made switch exactly, and changes nothing otherwise |
| InstallerSwitches.CommandKeeps | scripts/install.ts:71-166 | At every cut of an upgrade, rollback or recovering command nothing can come out but what could before, or its own switch of that |
| InstallerSwitches.RollbackCommandKeeps | scripts/install.ts:531-599 | The same for a rollback by itself, which if it does not throw leaves exactly the previous version installed |
| InstallerRecovery.RecoveryKeeps | scripts/install.ts:376-529 | Every cut of a recovering command or detached finalizer, also one whose activation fails, keeps the set of what can come out |
| InstallerAtomicity.CompletedUpgradeSettles | scripts/install.ts:134-156 | An upgrade that runs to its end leaves exactly its switch of the installation it found, and nothing else can come out of that disk |
| InstallerAtomicity.CompletedRollbackSettles | scripts/install.ts:531-599 | The same for a rollback |
| InstallerAtomicity.CutUpgradeThreatens | scripts/install.ts:148-154 | From every installation without a marker, a deferred upgrade cut just before its pointer leaves a marker that makes an upgrade to any third version not atomic |
| InstallerAtomicity.FirstInstallIsNotAtomic | scripts/install.ts:608-614 | On every platform, a first install cut just before its state file has moved the pointer, and the next command still reports nothing installed |
| InstallerAtomicity.PlainInstallKeepsMarker | scripts/install.ts:168-173 | A plain install leaves any pending activation marker as it was |
| InstallerAtomicity.PendingActivationUndoes | scripts/install.ts:376-453 | A pending activation of another version, once due, leaves the installed version if and only if that version is not the one the activation starts from |
| InstallerAtomicity.ReinstallIsUndone | scripts/install.ts:168-173 | An input: the version an activation started from is installed again and reported installed, and the next command after the caller exits goes back |
| InstallerOutcomes.UpgradeGoesThrough | scripts/install.ts:71-182 | From every coherent disk (no marker away from Windows), an upgrade goes through if and only if the stored metadata of its version agrees and, on Windows, the process given, or else the parent, is positive and alive, or, elsewhere, no process is given. It then leaves exactly its switch with its operation, launchers of its own generation and, on Windows, its own marker with every field; otherwise the old installation and marker stay |
| InstallerOutcomes.PlainInstallGoesThrough | scripts/install.ts:134-182 | A plain install goes through if and only if the stored metadata agrees and no process to wait for is given; it then leaves its switch |
| InstallerOutcomes.RollbackGoesThrough | scripts/install.ts:531-599 | A rollback goes through if and only if there is a previous version, it is installed, and a process to wait for is given only on Windows and alive. Deferred, it then leaves its switch, launchers and marker; synchronous, its switch and no marker, on Windows with self-contained launchers and no generation files; otherwise the old installation and marker stay |
| InstallerOutcomes.PointerComesLast | scripts/install.ts:143-155 | At every cut of an upgrade the pointer has moved only if the launchers of the new generation and, on Windows, the marker are in place |
| InstallerOutcomes.ApplyOutcome | scripts/install.ts:376-453 | Without a failing file operation an activation leaves, installation, marker and launchers, exactly what its marker and the installed version determine: applied and retired; retired as overtaken; failed for want of attempts; or failed and counted because a version is missing, the one case in which it throws |
| InstallerOutcomes.FaultIsRecorded | scripts/install.ts:395-453 | A file operation that fails inside an activation is passed on, and the marker records the failure and the attempt |
| InstallerOutcomes.FinalizerApplies | scripts/install.ts:474-529 | With the token, version and process of the marker, the finalizer applies its activation once the process has exited and after a timeout changes the phase only; with any other it does nothing |
| InstallerOutcomes.ForcedReconciliationApplies | scripts/install.ts:455-472 | A forced reconciliation with the token of the marker applies the activation whether or not the process lives; with another it does nothing |
| InstallerOutcomes.StatusApplies | scripts/install.ts:455-472 | An ordinary command applies the activation if the process has exited or it was already applying; otherwise it changes at most the phase, to failed once the deadline has passed |
| InstallerOutcomes.UnreadableStates | scripts/install.ts:601-644 | Reading the state fails if and only if there is a state file and the pointer, or without one the current version of the state, does not name an installed version with its metadata |
| InstallerOutcomes.MissingPointerIsRestored | scripts/install.ts:601-644 | A missing pointer is restored from the state file, and nothing else changes |
| InstallerActivation.ActivationPartAuthorised | scripts/install.ts:376-453 | In every command, everything a pending activation does is done while its own token holds the marker, within its admitted versions, and launcher files only inside a counted attempt |
| InstallerActivation.PointerMoves | scripts/install.ts:380-395 | At any point of any step, an activation changes the pointer only to its own version, and only from that version or from the one it replaces; a missing pointer is only restored from the state file |
| InstallerActivation.StepMarker | scripts/install.ts:328-363 | A step cut anywhere leaves no marker, the marker held before with as many attempts or more, or a fresh marker with no attempts; a launcher write counts an attempt below the maximum |
| InstallerActivation.RetiredTokenNeverActs | scripts/install.ts:342-363 | Over every run of commands and finalizers, cut anywhere, a token that lost the marker never holds it and never acts again |
| InstallerActivation.SynchronousRollbackRetires | scripts/install.ts:554-577 | A complete synchronous rollback leaves no marker |
| InstallerActivation.NoneActsAfterSynchronousRollback | scripts/install.ts:554-561 | No activation that was pending before a complete synchronous rollback acts after it, in any continuation of the run |
| InstallerActivation.AtMostHundredAttempts | scripts/install.ts:386-395 | Over every run the activation of one token writes launchers on its own behalf in at most 100 commands |
| InstallerActivation.AtMostHundredAndOneWrites | scripts/install.ts:143-152 | Counting the command that draws the token and installs its launchers, launchers are written under one token in at most 101 commands |
| InstallerLaunchers.WriteLaunchersCuts | scripts/install.ts:944-954 | At every cut of `writeLaunchers`, each stable launcher is self-contained or names an existing generation file |
| InstallerLaunchers.LegacyLaunchersCuts | scripts/install.ts:929-943 | The same while generations are removed, which ends with both launchers self-contained |
| InstallerLaunchers.CommandKeepsLaunchers | scripts/install.ts:563-577 | The same at every cut of every command |
| InstallerLaunchers.RunsKeepLaunchers | scripts/install.ts:929-954 | The same over every run of commands, each cut anywhere |
| InstallPrefix.Prefix.ReadInstallState | scripts/install.ts:601-644 | Performs exactly the specified operations, and returns what the specification reads |
| InstallPrefix.Prefix.WriteMarker | scripts/install.ts:328-340 | Writes the marker if the expected token holds it, otherwise fails and writes nothing |
| InstallPrefix.Prefix.RetireActivation | scripts/install.ts:353-363 | Removes the marker exactly if the token holds it |
| InstallPrefix.Prefix.UpdateMarker | scripts/install.ts:342-351 | Changes phase and attempts of the marker exactly if the token holds it |
| InstallPrefix.Prefix.WriteLaunchers | scripts/install.ts:944-954 | Performs the launcher writes in the specified order, or stops at the first that fails |
| InstallPrefix.Prefix.RemoveGenerationFiles | scripts/install.ts:937-941 | Removes the listed generation files in directory order, or stops at the first that fails |
| InstallPrefix.Prefix.ApplyLauncherActivation | scripts/install.ts:376-453 | Performs exactly the operations of the specified activation, also where a file operation inside it fails |
| InstallPrefix.Prefix.ReconcileActivation | scripts/install.ts:455-472 | Performs exactly the operations of the specified reconciliation |
| InstallPrefix.Prefix.FinalizeDeferredLaunchers | scripts/install.ts:474-529 | Performs exactly the operations of the specified finalizer |
| InstallPrefix.Prefix.Install | scripts/install.ts:71-166 | Performs exactly the operations of the specified install or upgrade |
| InstallPrefix.Prefix.RollBackInstallation | scripts/install.ts:531-599 | Performs exactly the operations of the specified rollback |
| InstallPrefix.Prefix.Execute | scripts/install.ts:455-472 | A whole command of the object performs exactly the operations whose cuts the theorems above range over |
| InstallLock.StepKeepsInv | scripts/install.ts:1224-1309 | Every timely step of every process keeps the directory in place owned by the one live process past its creation |
| InstallLock.AtMostOneHolder | apps/cli/src/lifecycle.ts:472-547 | In every interleaving of installers and uninstallers, with crashes, in which a stale directory is renamed only while no live process is inside, at most one live process is between creating the lock and renaming it away |
| InstallLock.StaleRenameIsExact | scripts/install.ts:1287-1299 | That assumption is exact: in any world that runs lead to, a stale rename keeps exclusion in every timely continuation if and only if no live process is inside the directory it moves |
| InstallLock.CheckAndRenameIsExact | scripts/install.ts:1287-1299 | Check and rename as one step: finding a dead owner is always safe; finding a directory ten minutes without owner file is safe if and only if its creator is not alive and inside |
| InstallLock.PromptRunsAreTimely | scripts/install.ts:1287-1299 | The assumption is met if no rename is overtaken since its check and a live process writes its owner file within ten minutes |
| InstallLock.OvertakenCheckBreaksExclusion | scripts/install.ts:1287-1299 | A run from the start in which two installers check the same dead owner before either renames, and both end up holding the lock |
| InstallLock.AgedCheckBreaksExclusion | scripts/install.ts:1290-1299 | A run from the start in which a slow creator and the installer that finds its directory old are both inside |
| InstallLock.AttemptSucceeds | scripts/install.ts:1224-1309 | An undisturbed attempt by any live process ends holding the lock if and only if there is none or it looks stale; any other lock, and everything else, stays as it is |
| InstallLock.ReleaseFrees | scripts/install.ts:1233-1259 | The holder's release frees the lock, so that the next attempt of any idle process takes it, and leaves every other process where it is |
| InstallLock.DeadHolderLosesLock | scripts/install.ts:1270-1306 | Whoever dies inside, in whatever stage, loses the lock to the next attempt; before its owner file, once the directory has aged |
| InstallLock.FailedCreationFrees | scripts/install.ts:1260-1269 | A creation that fails at the owner file and is cleaned up leaves the lock free and every other process where it is |
| AliasAnalysis.ScopedKeyIsInnermost | scripts/ci/check-dependency-direction.ts:973-981 | The key of an identifier is its innermost declaring scope, or ambient exactly if no scope declares it |
| AliasAnalysis.IsLoaderMonotone | scripts/ci/check-dependency-direction.ts:1021-1081 | More aliases never make fewer expressions loader objects |
| AliasAnalysis.ModuleLoaderRoots | scripts/ci/check-dependency-direction.ts:1125-1171 | The iteration terminates with the least set that contains the import seeds and is closed under the alias rules |
| AliasAnalysis.OrderIndependent | scripts/ci/check-dependency-direction.ts:1125-1171 | The result does not depend on order or repetition of the declarations |
| AliasSoundness.FragmentSound | scripts/ci/check-dependency-direction.ts:1021-1081 | If a fragment expression can evaluate to the loader, it is recognised as a loader object or leads there by a way the analysis does not follow, and every such way does lead there; what properties the loader and ambient objects have at run time is a parameter |
| AliasSoundness.SoundnessIsExact | scripts/ci/check-dependency-direction.ts:1099-1171 | Exactly when the least closed set is sound for every execution of fragment declarations, assignments and destructurings, in any order and any number of times: if and only if every default specifier, every accessed or destructured property that reaches the loader by a way the analysis does not follow, and every loader-valued assignment used as a value feeds only keys that are aliases anyway |
| AliasSoundness.Reached | scripts/ci/check-dependency-direction.ts:1099-1171 | The keys that can hold the loader at run time are the least set closed under the run-time rules, and one execution lets them all hold it at once |
| AliasSoundness.AnalysisIsSound | scripts/ci/check-dependency-direction.ts:1099-1171 | From any store: if such gaps feed only aliases when the aliases hold the loader, then in every execution only aliases ever do |
| AliasSoundness.SeedsCoverImports | scripts/ci/check-dependency-direction.ts:1102-1123 | The seeds cover what imports bind at run time if and only if every specifier that names the default export binds a key seeded otherwise |
| AliasSoundness.ProgramIsSound | scripts/ci/check-dependency-direction.ts:1099-1171 | A program in which none of these gaps is written is analysed soundly from its imports on, and its loader expressions without a gap are all recognised |
| AliasSoundness.RecognisedRuns | scripts/ci/check-dependency-direction.ts:1021-1081 | Precision: on the fragment, in any execution environment that has what the four names and `process.mainModule` assume, whatever is recognised as a loader object can be the loader |
| AliasSoundness.AliasesAreLive | scripts/ci/check-dependency-direction.ts:1099-1171 | Hence every alias of a fragment program is among the keys that can hold the loader |
| AliasSoundness.AliasesCanHoldLoader | scripts/ci/check-dependency-direction.ts:1099-1171 | And for every alias there is an execution from the imports on after which it holds the loader |
| AliasSoundness.GapFreeIsExact | scripts/ci/check-dependency-direction.ts:1099-1171 | Where no gap is written the aliases are exactly the keys that can hold the loader |
| AliasSoundness.DestructuredPropertyIsMissed | scripts/ci/check-dependency-direction.ts:1137-1143 | An input: every property that reaches the loader, other than `Module` and `default`, is missed when destructured from it, `constructor` in `const { constructor: M } = module` for one |
| AliasSoundness.AccessedPropertyIsMissed | scripts/ci/check-dependency-direction.ts:1074-1079 | An input: every such property outside the four names is missed when accessed |
| AliasSoundness.AssignmentValueIsMissed | scripts/ci/check-dependency-direction.ts:1156-1166 | An input: in `const a = b = module` the key of `b` is found and that of `a` is not |
| EscapeCheck.GuardIsExact | scripts/ci/check-dependency-direction.ts:1877-1934 | Refusing a parameter that is already active loses nothing: a parameter is closed if and only if its uses are closed without passing through it again |
| EscapeCheck.Checker.ValueUse | scripts/ci/check-dependency-direction.ts:2108-2146 | Terminates on every program, mutually recursive callbacks included; decides closedness exactly; leaves the active parameters as it found them |
| EscapeCheck.Checker.ArgumentUse | scripts/ci/check-dependency-direction.ts:1962-1988 | The same for a call argument: it must reach only stable arrow callbacks with closed parameters, and at least one |
| EscapeCheck.Checker.ParameterUses | scripts/ci/check-dependency-direction.ts:1877-1934 | The same for a callback parameter |
| EscapeCheck.Checker.References | scripts/ci/check-dependency-direction.ts:2039-2106 | The same for the traversal of a body or of the users of a local object |
| EscapeCheck.AuthorityEscapes | scripts/ci/check-dependency-direction.ts:2148-2151 | Reports an escape if and only if the use has no derivation of being closed |
| EscapeCheck.ClosedNeverReachesOpen | scripts/ci/check-dependency-direction.ts:2108-2146 | An admitted value reaches no unaudited use along any chain of callbacks and local objects, and goes round no cycle |
| EscapeCheck.AdmitsExactlyFine | scripts/ci/check-dependency-direction.ts:2108-2151 | A use is admitted if and only if every use its value reaches is fine by itself (audited, an argument that reaches only stable arrow callbacks with declared parameters, or a local object at the start) and it goes round no cycle |
| ExportResolution.ResolvedIsInside | scripts/ci/check-dependency-direction.ts:2679-2716 | Through any nesting of arrays and conditions, a resolved target starts in the package and has no `..` or `node_modules` segment |
| ExportResolution.InsideWalks | scripts/ci/check-dependency-direction.ts:2679-2686 | Walking such a path never leaves the package root and enters no `node_modules` |
| ExportResolution.TextResolves | scripts/ci/check-dependency-direction.ts:2679-2698 | A target text, its stars replaced by plain text, resolves to itself if it is relative, unescaped and inside the package, and is invalid otherwise |
| ExportResolution.ListResolves | scripts/ci/check-dependency-direction.ts:2698-2708 | A list resolves to its first item that resolves; if none does it is invalid if some item is, and otherwise blocked |
| ExportResolution.ConditionsResolve | scripts/ci/check-dependency-direction.ts:2708-2716 | Of conditions the first that is active or `default` and matches something decides; without one nothing matches |
| ExportResolution.MatchMeaning | scripts/ci/check-dependency-direction.ts:2731-2739 | A key matches exactly if some text in place of its star gives the subpath, and that text is what is returned |
| ExportResolution.DistinctMatchesNeverTie | scripts/ci/check-dependency-direction.ts:2741-2746 | Two keys that match one subpath and compare equal are the same key |
| ExportResolution.SelectedKeyIsUnique | scripts/ci/check-dependency-direction.ts:2772-2776 | The selected key strictly beats every other match |
| ExportResolution.MapResolves | scripts/ci/check-dependency-direction.ts:2748-2782 | In a subpath map an exact key decides; otherwise the match with the longest text before its star, then the longest key, with the text in place of its star; without a match nothing |
| ExportResolution.MatchesCompare | scripts/ci/check-dependency-direction.ts:2741-2746 | Of two different matches exactly one is better in that sense |
| ExportResolution.SubpathResolves | scripts/ci/check-dependency-direction.ts:2748-2782 | The members are subpaths exactly if every key begins with a dot; mixed maps are invalid; anything else stands for the main entry only |
| ExportResolution.MapOrderIrrelevant | scripts/ci/check-dependency-direction.ts:2748-2782 | Resolution through a subpath map does not depend on the order of its members |
| ExportResolution.SubpathStaysInside | scripts/ci/check-dependency-direction.ts:2748-2782 | Whatever subpath is asked for, a resolved file lies inside the package |
| CanonicalJson.ParseInvertsPrint | apps/gateway/src/durable-dispatch.ts:45-52 | Parsing printed JSON text, whatever follows it, gives back the value: strings with every escape and lone surrogate, numbers, arrays, objects |
| CanonicalJson.PrintInjective | apps/gateway/src/durable-dispatch.ts:45-52 | Two values that print alike are the same |
| CanonicalJson.CanonicalIsExact | apps/gateway/src/durable-dispatch.ts:45-52 | Two JSON values have equal canonical text if and only if they are equal up to object key order at every depth |
| CanonicalJson.CanonicalRoundTrips | apps/gateway/src/durable-dispatch.ts:45-52 | Canonical text parses back to a value equal up to key order |
| CanonicalJson.LessMeans | apps/gateway/src/durable-dispatch.ts:45-52 | The key order is decided by the smaller code unit at the first difference, and a proper prefix comes first |
| CanonicalJson.CanonicalKeysIncrease | apps/gateway/src/durable-dispatch.ts:45-52 | The canonical text of an object prints its keys in increasing order |
| CanonicalJson.CanonicalIsEncodable | apps/gateway/src/durable-dispatch.ts:45-56 | The canonical text of every value, with whatever strings in it, has no lone surrogate and no control unit, so that the UTF-8 bytes the digest is taken of determine it |
| CanonicalJson.PlainTextStays | apps/gateway/src/durable-dispatch.ts:45-52 | String contents print as themselves if and only if they have no lone surrogate, control unit, quote or backslash |
| EventBinding.HashDetermines | apps/gateway/src/durable-dispatch.ts:54-81 | Two request digests are equal if and only if candidate and payload are equal up to key order |
| EventBinding.RequestText | apps/gateway/src/durable-dispatch.ts:58-81 | The id of a request is the idempotency key, and the canonical text of its payload and of what its digest covers is, unit for unit, the stated one: each field of candidate and scope under its key, in order |
| EventBinding.BindingIsExact | apps/gateway/src/durable-dispatch.ts:83-110 | The binding test passes if and only if id, digest and retry flag match, the stored payload equals the projected one up to key order, and the projection keeps the three identifiers scalar |
| EventBinding.OneRequestPerHash | apps/gateway/src/durable-dispatch.ts:58-81 | Requests with equal digests come from equal candidates, payloads and scopes |
| EventBinding.OneRequestPerJob | apps/gateway/src/durable-dispatch.ts:58-110 | A job bound to the requests of two events has the same candidate, payload and scope in both |
| EventBinding.Supervisor.Submit | apps/gateway/src/durable-dispatch.ts:123-128 | Idempotent submission never changes a stored job; a new one is stored exactly as requested |
| EventBinding.Supervisor.SubmitEvent | apps/gateway/src/durable-dispatch.ts:112-131 | Succeeds if and only if the job under the id is bound to this request; a job stored for an event, here or by a racing submission, was then stored for this same candidate, payload and scope; resubmission and races never rebind an id |
| TerminalWait.Wait | apps/gateway/src/durable-dispatch.ts:172-203 | Ends at the first look that gives a verdict, with that verdict, or in the first turn that finds the abort signal, whose due renewal is refused or whose sleep is interrupted, with that outcome; renews in exactly the turns in which a renewal is due; sleeps as specified; and keeps the lease throughout |
| TerminalWait.VerdictMeans | apps/gateway/src/durable-dispatch.ts:160-203 | Waiting goes on exactly for a bound job in one of the four nonterminal states; it settles as completed exactly for a bound completed job, as failed exactly for a bound failed or cancelled one, and for review exactly for a missing or differently bound job or any other state |
| TerminalWait.LeaseIsKept | apps/gateway/src/durable-dispatch.ts:181-200 | For all positive intervals and any number of turns: the lease is renewed in the first turn, consecutive renewals and every later look are at most the interval, 1 ms and the lateness of the turns apart, and no sleep ends later than one turn after the next renewal is due |
| TerminalWait.NoNeedlessWork | apps/gateway/src/durable-dispatch.ts:181-200 | Consecutive renewals are at least the interval apart, and a sleep is the whole poll interval unless it ends when the renewal is due, or after 1 ms if that is past |
| TerminalWait.TurnIsTimely | apps/gateway/src/durable-dispatch.ts:181-200 | However long a turn waits, the next renewal test comes at most 1 ms and that lateness after the renewal is due |
| TerminalWait.VerdictsAgree | apps/gateway/src/durable-dispatch.ts:160-170 | Verdicts on one durable job at any two moments are equal |
| TerminalWait.WaitersAgree | apps/gateway/src/durable-dispatch.ts:172-203 | Any two waiters, at any polling times and across restarts, settle the delivery the same way |
| VersionOrder.CompareVersions | apps/cli/src/lifecycle.ts:1244-1278 | The two index loops compute the comparison the order laws are about |
| VersionOrder.ComparesBySection11 | apps/cli/src/lifecycle.ts:1244-1278 | On valid versions with safe integers the sign of the comparison is the precedence of section 11 of Semantic Versioning 2.0.0, in both directions: cores by their first different number, a prerelease below its release, identifiers at the first difference by number, numbers below words, words in the locale order, a proper prefix lower |
| VersionOrder.InvalidIsZero | apps/cli/src/lifecycle.ts:1240-1247 | Text that is not a version compares as the release 0.0.0 |
| VersionOrder.PartsTie | apps/cli/src/lifecycle.ts:1262-1278 | For all identifier lists, a tie is identity or two spellings of one number in the first place of difference; never the latter without leading zeros |
| VersionOrder.CompareOpposite | apps/cli/src/lifecycle.ts:1244-1278 | Swapping the arguments swaps the sign, for all strings |
| VersionOrder.CompareTransitive | apps/cli/src/lifecycle.ts:1244-1278 | The order is transitive on versions whose prerelease numbers are safe integers without leading zeros, whatever their core, strictly so if either step is strict |
| VersionOrder.TidyIsExact | apps/cli/src/lifecycle.ts:1244-1278 | The condition is exact, version by version: a version with safe prerelease numbers can stand between any two tidy versions without breaking the order if and only if its prerelease has no leading zero |
| VersionOrder.TiesAreBuildMetadata | apps/cli/src/lifecycle.ts:1244-1278 | Two such versions tie if and only if they differ in build metadata at most |
| VersionOrder.LeadingZerosBreakTheOrder | apps/cli/src/lifecycle.ts:1272 | Every version with a leading zero in its prerelease ties with two tidy versions that are strictly ordered |
| Lifecycle.Session.Update | apps/cli/src/lifecycle.ts:131-290 | The transaction with its flags `switched` and `recoveryBackup` leaves exactly the specified application and state minimum |
| Lifecycle.Session.Rollback | apps/cli/src/lifecycle.ts:292-345 | The same for the rollback transaction |
| Lifecycle.UpdateSucceeds | apps/cli/src/lifecycle.ts:131-255 | An update succeeds if and only if the release is newer, accepted, published and healthy; it is then current, the release before it is previous, and the minimum is what its migration set |
| Lifecycle.FailedUpdateLeaves | apps/cli/src/lifecycle.ts:255-290 | A failed update changes nothing before it is published; undone, the old release is current with the failed one behind it and a planned migration's minimum is restored if the backup can be; otherwise the new release stays |
| Lifecycle.RollbackSucceeds | apps/cli/src/lifecycle.ts:292-345 | A rollback succeeds if and only if there is a previous release not below the minimum and it is published and healthy; it exchanges the two, and a failed one leaves them as they were unless it cannot be undone |
| Lifecycle.UpdateKeepsCompatible | apps/cli/src/lifecycle.ts:195-277 | After an update, failed or not, the active version satisfies the state's minimum if and only if it is not the one stranding case: the migration demanded more than the old release, the new one failed its health check, and it was undone without restoring a backup |
| Lifecycle.StrandedUpdateHappens | apps/cli/src/lifecycle.ts:256-277 | An input of that case, from a compatible state |
| Lifecycle.RollbackKeepsCompatible | apps/cli/src/lifecycle.ts:304-339 | The same for a rollback, whose one stranding case is being undone after its target migrated the state past the release it returns to |
| Lifecycle.StrandedRollbackHappens | apps/cli/src/lifecycle.ts:330-339 | An input of that case: a second rollback goes forward again, migrates, and is undone |
| Lifecycle.UndoneRollbackRestores | apps/cli/src/lifecycle.ts:330-339 | A rollback undone after a failed health check restores current and previous exactly |
| Lifecycle.AlwaysCompatible | apps/cli/src/lifecycle.ts:131-345 | Over every run of updates, rollbacks and migrations outside the two stranding cases, the active version satisfies the minimum |
| Lifecycle.UpdatesStrictlyIncrease | apps/cli/src/lifecycle.ts:137-144 | The active version strictly increases over every run of successful updates |
| ZipDirectory.ListZipEntries | scripts/release/node-runtime.ts:221-260 | For every byte string, reads in bounds only, and returns the entries the archive lists, or rejects an archive that lists none |
| ZipDirectory.AcceptsUnique | scripts/release/node-runtime.ts:221-260 | An archive lists one sequence of entries |
| ZipDirectory.AcceptedLayout | scripts/release/node-runtime.ts:221-258 | An accepted archive is on one disk and has no ZIP64 value; its records are as many as the end record declares, begin at the declared offset, are not encrypted, contiguous and pairwise disjoint, and end at most 20 bytes before the last end record |
| ZipDirectory.ArchiveLists | scripts/release/node-runtime.ts:221-260 | Every archive written with sections 4.3.12 and 4.3.16 of APPNOTE.TXT, with any comment that holds no later end signature, lists the entries it was written from, whatever the local data, extra fields and record comments |
| ZipDirectory.WriteThenList | scripts/release/node-runtime.ts:221-260 | Reading a written archive returns exactly those entries |
| ZipDirectory.EntryMeans | scripts/release/node-runtime.ts:246-255 | A written header lists as a directory if and only if its name ends in a slash, its DOS directory bit is set or a Unix host gives it type 4; otherwise as a link for Unix type 10, as a file for types 8 and 0 and for every other host, and as a device for the rest; and its text is UTF-8 exactly by bit 11 of its flags |
| ZipDirectory.SignaturesWritten | scripts/release/node-runtime.ts:225-238 | The two signatures are `PK` 1 2 and `PK` 5 6, byte for byte |
| NativeLauncher.VerifyDynamic | scripts/release/native-launcher.ts:98-105 | A dynamic section is accepted if and only if it lies in the file, is a whole number of entries and none is DT_NEEDED |
| NativeLauncher.VerifyStaticLinux | scripts/release/native-launcher.ts:76-108 | For every byte string, reads in bounds only, and accepts if and only if it is an x64 PIE with program headers inside the file, no PT_INTERP, no DT_NEEDED in any dynamic segment and at least one PT_LOAD |
| NativeLauncher.WalkCommands | scripts/release/native-launcher.ts:118-134 | Finds a signature command exactly if the load commands tile their region exactly and one of them, alone, is a signature command with room for its fields |
| NativeLauncher.SignatureUnique | scripts/release/native-launcher.ts:118-134 | The bytes force one reading of the load commands and one signature |
| NativeLauncher.VerifyHardenedDarwin | scripts/release/native-launcher.ts:110-138 | For every byte string, reads in bounds only, and accepts if and only if it is an x64 PIE whose commands tile their region and whose one signature lies in the file and is hardened |
| NativeLauncher.VerifyHardenedSignature | scripts/release/native-launcher.ts:140-168 | Accepts if and only if every slot lies inside the declared length, none is an entitlement, some code directory enables the hardened runtime, and only zeros follow |
| HostSessions.ReplaceMakesRoom | apps/gateway/src/host.ts:192-202 | Leaves a user at the cap one session below it, a user under it unchanged; removes only the oldest, and nobody else's |
| HostSessions.TotalCapHolds | apps/gateway/src/host.ts:423-441 | From a start within it, the global session cap holds in every interleaving of handlers at their `await` points |
| HostSessions.StepKeepsUser | apps/gateway/src/host.ts:423-441 | Each stretch of a handler keeps sessions plus reserved room of a user within the cap less one plus the overlapping logins |
| HostSessions.OverlapBounds | apps/gateway/src/host.ts:423-441 | With at most `k` overlapping logins a user never holds more than `perUser - 1 + k` sessions, nor more than the global cap |
| HostSessions.UserCapHolds | apps/gateway/src/host.ts:423-441 | The per-user cap holds in every run where logins of the user do not overlap |
| HostSessions.MostIsExact | apps/gateway/src/host.ts:423-441 | That bound is reached by a run from an empty host for every `k`; so the per-user cap holds for all runs if and only if logins do not overlap or the global cap is no larger |
| HostSessions.LoginCreatesSession | apps/gateway/src/host.ts:423-441 | An undisturbed login creates its session if and only if it is admitted and there is a free place or the user gives one up: of that user, issued then, for the whole duration; no login is left over, only live sessions remain, and all live ones of other users |
| HostSessions.LivesUntilExpiry | apps/gateway/src/host.ts:177-186 | At any later clock a sweep keeps a session exactly if its expiry lies ahead |
| HostSessions.Host.Retain | apps/gateway/src/host.ts:177-191 | Sweeping and revoking remove exactly the sessions that fail the test, and report whether any did |
| HostSessions.Host.ReplaceOldestAtCapacity | apps/gateway/src/host.ts:192-202 | The eviction loop does the replacement above, and reports a change exactly if the user was at the cap |
| HostSessions.Host.ArriveLogin | apps/gateway/src/host.ts:423-441 | A login up to its first `await` does that step of the interleaving model |
| HostSessions.Host.ResumeLogin | apps/gateway/src/host.ts:424-441 | A login after an `await` does that step of the interleaving model |
| LoginThrottle.GetMerge | apps/gateway/src/host.ts:282-287 | The merge loop is pointwise: each key's record is combined from the two sides |
| LoginThrottle.MergeTakesMax | apps/gateway/src/host.ts:269-287 | A key has a merged record exactly if it is live in the file or in memory; its count is the larger of the two, and its expiry that of the side with the larger count, or the later one |
| LoginThrottle.TrimDropsLowest | apps/gateway/src/host.ts:230-241 | Trimming keeps as many records as the limit allows and drops none with a higher count, or the same count and a later update, than one it keeps |
| LoginThrottle.FailKeepsLimit | apps/gateway/src/host.ts:408-418 | Counting a failed login never exceeds the record limit |
| LoginThrottle.IncrementMeans | apps/gateway/src/host.ts:741-749 | An increment makes the count of its key one more than before, or 1; keeps the end of its window, or opens one from now; marks it updated now; and changes no other record |
| LoginThrottle.IncrementAllRaises | apps/gateway/src/host.ts:414-416 | A failed login does this once to each of its keys and to no other |
| LoginThrottle.FailuresAddUp | apps/gateway/src/host.ts:408-418 | With room for the first, any number of failed logins adds that number to the count of each key |
| LoginThrottle.FailuresBlock | apps/gateway/src/host.ts:391-418 | So the next login is refused if and only if the failures reach the maximum of its pair, its address or all logins |
| LoginThrottle.GetSweep | apps/gateway/src/host.ts:220-229 | A sweep keeps the record of a key exactly if it has not expired |
| LoginThrottle.RunKeepsValid | apps/gateway/src/host.ts:262-303 | Over every run of all processes the record limit holds in the file and in every memory, and only the lock holder persists |
| LoginThrottle.PersistedCountHolds | apps/gateway/src/host.ts:262-303 | Over any interleaving of processes that start, count, clear, expire, persist, fail and crash, a key's persisted count never falls while its record is alive and no trim drops it |
| LoginThrottle.PersistRecords | apps/gateway/src/host.ts:262-303 | An uninterrupted persist puts every count of the process into the file, unless the file is full of records with counts at least as high |
| LoginThrottle.Throttle.SweepAttempts | apps/gateway/src/host.ts:220-229 | Removes exactly the expired records and reports whether there were any |
| LoginThrottle.Throttle.TrimAttempts | apps/gateway/src/host.ts:230-241 | Brings the memory within the limit by the trim above |
| LoginThrottle.Throttle.FailLogin | apps/gateway/src/host.ts:408-418 | With room for the new records, and only then, raises the records of pair, address and global key each by one and leaves every other; without room nothing changes |
| LoginThrottle.Throttle.ClearAttempt | apps/gateway/src/host.ts:421 | Removes the record of the key from memory, and nothing else, and reports whether there was one |
| LoginThrottle.Throttle.MergeAttempts | apps/gateway/src/host.ts:269-293 | The merge loop leaves in memory, and returns for writing, the trimmed merge of file and memory |

## Left out

- InstallerSwitches.EveryRunRecovers: ranges over upgrades, rollbacks and recoveries; beside plain installs, which do not make room for their switch, `EveryRunIsWhole` promises an installation but not which switches it comes from. In both the platform stays the same, and no file operation of the last command fails.
- InstallLock.AtMostOneHolder: assumes that a stale directory is renamed only while no live process is inside; `mkdir` errors other than an existing directory are not modelled.
- AliasAnalysis.ModuleLoaderRoots: the syntax tree is a list of declarations in traversal order.
- AliasSoundness.SoundnessIsExact: the fragment of `InFragment` only. Other calls, array literals with spreads or holes, computed property names and unknown expressions are in the fixpoint but nothing is claimed of them at run time; the loader kept in a property of another object is followed only along the ambient paths of the parameter.
- TerminalWait.Wait: the environment's readings of the clock and outcomes of renewals are inputs; timer overshoot with one look-up, and the duration of a turn, bound the lateness.
- VersionOrder.ComparesBySection11: the locale order is a parameter, so words follow it and not the ASCII order of that section.
- VersionOrder.CompareTransitive: on prereleases with numbers above the safe range nothing is claimed, because the rounding of doubles is not modelled.
- Lifecycle.AlwaysCompatible: assumes that the installer child publishes and exits 0 or fails before publishing, and that a migration never demands more than the migrating release.
- ZipDirectory.ListZipEntries: names stay bytes with their declared encoding; decoding to text is not modelled.
- HostSessions.TotalCapHolds: a stored session file larger than the cap is not a start within it.
- LoginThrottle.PersistedCountHolds: keys are never shortened, since the program's own keys are below 256 characters; the migration from schema version 1 is not modelled.
- `dynamicCodeRoots`: not monotone in its descriptors, because of early returns, so it has no least closed set to prove; its termination and closure would repeat the argument of `ModuleLoaderRoots`.
- The extraction of uses, callbacks and references from TypeScript syntax, and the operator tables of the dependency check.
- Launcher text, PowerShell, Unix launchers, file digests, symbolic links and permissions: only the order of writes and which launcher names which generation are modelled.
- Timestamps, `lastError`, the removal of a retired marker file and the cleaning of stale temporary entries in the installer.
- The finalizer's wait for its parent process: only its outcome, dead parent or timeout, is modelled.
- Downloading, attestation, archive extraction, state backup contents, `doctor` and schema inspection.
- `persistSessions` and its dirty flag: the claim that its promise means the caller's change is on disk does not hold in every scheduling of microtasks.
- HTTP, cookies, passwords, tenants and the control plane of the host; failed tenant membership is an input of the session model.
