# Verified models of the platform's stateful cores

The platform serves small apps in a tree of projects, signs people in, carries
live connections for apps, gives each app a host name and unpacks uploaded
bundles. This project models those parts in Dafny 4.11 and proves what their
code and comments promise, for every input, every run and every interleaving.
`dafny verify dfyconfig.toml` checks all of it.

| module | what it is about |
|---|---|
| `Text`, `Slug`, `Paths` | strings taken apart, which names are accepted, places in the tree and how one covers another |
| `Folders`, `ProjectTree`, `TreeRuns`, `TreeRows`, `OldLinks` | the project tree: as a value, changed in place, over whole runs of changes, row by row, and where links to places that were left lead |
| `Scopes`, `Gates`, `Moves`, `MoveSteps` | who may do what at a place, how open an app is, what moving a project does to both, and what the states between its steps give |
| `Attempts`, `Tries`, `Totp` | the limits on wrong codes and the one use of each code, with requests interleaved at every store call |
| `SignIn`, `Codes`, `Accounts`, `SignInRuns`, `PendingRuns` | two-step sign-in: each operation, what it comes to in terms of a right code, its store calls over the tables' rows, and whole runs: of sessions, and of sign-ins that wait |
| `Connection` | a live connection: the reader loop, the worker, the bounded queue and the outgoing queue |
| `Labels`, `Origins`, `LabelCatalog`, `OriginRuns` | host labels: deriving them, assigning them, looking them up, and many requests at once |
| `Bundle`, `Unpacking` | unpacking an archive in two passes: which are refused, what becomes of each entry, and what the store is handed |
| `Cookies` | the cookie filter and the cookie parser |

Objects the source changes in place are classes (`Tree`, `ScopeTable`,
`FailureTable`, `Store`, `Catalog`, `Sink`), each method proved equal to a
function of the old state; the theorems are about those functions. Code that
runs concurrently is a state machine whose steps are the points where the code
waits or calls the store, and a run is any sequence of enabled steps.

## Where the code and its comments part

Each of these is stated here as it is in the code, with the exact condition
under which the comment holds.

- The limit of ten wrong codes in fifteen minutes (`src/accounts/mfa.rs`,
  lines 318-329) is not kept for windows of the full fifteen minutes when a
  request reads the clock before it inserts its row: `try_attempt` forgets the
  rows of every account at or before its own start, so another account's
  attempt can drop a row a late request would still have counted.
  `Attempts.LimitHoldsExactlyWhen`: with clocks at most `d` seconds stale it
  holds for windows of `w` seconds if and only if `w + d <= 900`.
- A one-time step is spent on whatever secret row the account has when it is
  spent (`advance_step` names the account only), so a code read before a reset
  and a new setup can be accepted before it and once more after.
  `Totp.OncePerSecretExactlyWhen`: over all interleavings a step is spent once
  per secret checked if and only if it may be spent only on the row it was
  checked against; `Totp.OncePerSecretInARun` says it of one run. Per row it is
  once in any case.
- A provider sign-in is asked for a code only with `for_providers` set
  (`src/accounts/mfa.rs`, line 522). `SignInRuns.EveryDoorPassesExactlyWhen`:
  every session of an account that is on passed the second step, in every run,
  if and only if it is set.
- The comment on the steps of a move (`src/platform/projects.rs`, lines
  311-318) says every state in between is no more open than before or after.
  For what moves, compared at its new place:
  - With the apps naming their new project and the tree still old, an account
    has there what it has at the place the project is moving into
    (`MoveSteps.NamedAheadIsTheParent`). That is more than before if and only
    if a row there outranks all it had, or the app itself was hidden by a lock
    that is not over that place (`MoveSteps.NamedAheadNoMoreThanBefore`); for a
    rename, only if the app itself was hidden by a lock at or under the project
    (`MoveSteps.RenamedAheadNoMoreThanBefore`). It is more than after if and
    only if the app itself is to be hidden by a lock that moves, with no row
    that will count (`MoveSteps.NamedAheadNoMoreThanAfter`). Both happen:
    `MoveSteps.NamedAheadOutranked`, `MoveSteps.NamedAheadWithMore`. (The app's
    own gate is restricted meanwhile: `MoveSteps.NamedAheadIsRestricted`.)
  - With the tree moved and the rows not, a rename gives no more than before
    (`MoveSteps.RenamedHalfwayNoMoreThanItHad`); a move elsewhere, again, unless
    a row outranks or an app was hidden (`MoveSteps.HalfwayNoMoreThanItHad`).
    It is more than after exactly at the place that is left, where that gave more
    than the place above it (`MoveSteps.HalfwayNoMoreThanAfter`): the rows still
    give there what they gave (`MoveSteps.ThePlaceLeft`).
- A link to a place that a project left "still arrives" (`src/content/store.rs`,
  lines 473-475) right after a move if and only if no older alias further up is in
  the way (`OldLinks.OldLinkArrives`; `OldLinks.LedToTheHolder` is a run in which
  one is), always so where projects are only renamed in place
  (`OldLinks.RenamedLinksAlwaysArrive`). It does not outlast a rename further up
  (`OldLinks.RenamedTwiceLost`).
- An app published again under its old name gets its own label back
  (`src/content/origins.rs`, lines 158-164) if and only if some label issued to
  it is not by now the name of another app that has no label stored
  (`Origins.OldLabelComesBack`; `Origins.OldLabelLost` for every app whose name
  is not a label).
- A label is given even when the list of issued labels cannot be written
  (`src/content/catalog/files.rs`, lines 300-325). `OriginRuns.OneHolderExactlyWhen`:
  no two apps ever hold one label if and only if no write of the list may fail, and
  in one run (`OriginRuns.OneHolderInARun`) only where one was given it that way.

## Model

| member | source | states |
|---|---|---|
| `Slug.AssetPathsNeverClimb` | src/content/slug.rs:23-35 | an accepted asset path has no `.` or `..` segment and does not start at the root |
| `Slug.AcceptedPathsAre` | src/content/slug.rs:23-35 | character by character: letters, digits, `-`, `_`, `.` and single slashes in between, with no dot first in a name |
| `Slug.KeysAre` | src/content/files/mod.rs:53-63 | a store keeps exactly accepted paths of up to 900 characters, with no stretch of more than 255 between slashes |
| `Slug.AssetPathBelow` | src/content/slug.rs:26-35 | what an accepted path leaves below its top directory is accepted |
| `Paths.PrefixCoversIsCovers` | src/accounts/users.rs:558-560 | the string test on two paths holds exactly when one path's segments are a prefix of the other's |
| `Paths.WrittenRoundTrip` | src/accounts/users.rs:550-560 | splitting the text of a place on `/` gives the place back |
| `Paths.WrittenLengthOrdersPrefixes` | src/accounts/users.rs:621-627 | among places over one place, shortest text is outermost, so `min_by_key` on length finds the outermost lock |
| `Paths.MovedWritten` | src/content/store.rs:754-792 | replacing the text prefix `from` by `to` is moving the place, segment by segment |
| `Paths.SwappedKeepsCovers` | src/accounts/users.rs:740-745 | renaming one segment in place keeps which place covers which |
| `Folders.SortByPath` | src/content/store.rs:737-737 | sorting keeps every row and leaves them ascending by path text |
| `Folders.NewestAreRemembered` | src/content/store.rs:764-770 | a moved project keeps the place it left and, ahead of it in order, the four newest aliases there were that are not its new place |
| `Folders.RelocatedElements` | src/content/store.rs:754-792 | the rows after a move are exactly the old rows, each arrived at its new place with the aliases it keeps |
| `Folders.RelocatedLive` | src/content/store.rs:754-792 | the live places after a move are the old ones moved, and no others |
| `Folders.NewestAliasAnswers` | src/content/store.rs:815-823 | the last alias that is the place or above it answers, with the rest of the place under the project's own; none answers exactly when none is over it |
| `Folders.OldPlaces` | src/content/store.rs:498-530 | the old places of a pending move are those of the locks now at or under its target, and only those |
| `ProjectTree.Tree.DropAlias` | src/content/store.rs:744-750 | in every row, in place, exactly the aliases at or under the path go |
| `ProjectTree.Tree.CreateFolder` | src/content/store.rs:702-742 | succeeds exactly when the name and parent are valid, the parent is there and nothing else is; else the tree is unchanged |
| `ProjectTree.Tree.SetLocked` | src/content/store.rs:538-548 | sets the lock of the first row at the path and nothing else, or reports there is none |
| `ProjectTree.Tree.SetFolderGate` | src/content/store.rs:550-566 | a word that names no level is refused unchanged; else the first row's own gate is set or cleared |
| `ProjectTree.Tree.RelocateFolder` | src/content/store.rs:754-792 | the in-place loops, drain, retain and sort make exactly the relocated tree; with no such project nothing changes |
| `ProjectTree.Tree.MoveRows` | src/content/store.rs:759-773 | every row at or under `from` is rehomed, with its alias list retained, pushed and drained, and no other row touched |
| `ProjectTree.Tree.YieldPaths` | src/content/store.rs:774-786 | each place now taken goes from every other project's aliases, whatever order they are taken in |
| `ProjectTree.Tree.RemoveFolder` | src/content/store.rs:795-806 | the row at the path goes, all others stay in order, or it reports there was none |
| `TreeRuns.Perform` | src/content/store.rs:702-806 | the in-place tree steps through exactly the states the run theorems are about |
| `TreeRuns.RunsAreWellFormed` | src/content/store.rs:702-806 | after any run of creates, moves, removals and settings: paths unique, sorted and parent-closed, at most five aliases, none the whole site, and a live alias strictly below its holder |
| `TreeRows.RowsOfCreate` | src/content/store.rs:702-750 | after a create: one row more, open, with no alias, and every other row the same but for aliases at or under the place |
| `TreeRows.RowsOfSetting` | src/content/store.rs:538-566 | after a lock or gate setting: the first row at the path with that one field set, every row else as it was |
| `TreeRows.RowsOfMove` | src/content/store.rs:754-792 | after a move, for each row: the project renamed, the rows below moved along, and no alias of another row lost or moved in order but those that are places now |
| `TreeRows.LinksLead` | src/content/store.rs:810-824 | a place that is a project is led nowhere; another by the first row with an alias over it, the newest it has; none exactly when no row has one |
| `OldLinks.OldLinkArrives` | src/content/store.rs:810-824 | a link to a place of a project that moved arrives at its new place exactly when no older alias, in the tree before, is in the way: held by the topmost row with one over the place, that row above the project and before the new place, and not leading there anyway |
| `OldLinks.LedToTheHolder` | src/content/store.rs:774-785 | it happens, for any names, in a run of creates and moves: the link is led to the row above |
| `OldLinks.OldLinksArrive` | src/content/store.rs:810-824 | from a well-formed tree where no alias is live, every old link to the moved project arrives at its moved place, which is live |
| `OldLinks.RenamedLinksAlwaysArrive` | src/content/store.rs:810-824 | in every run that moves projects only among siblings, the same holds with no condition on aliases |
| `OldLinks.RenamedTwiceLost` | src/content/store.rs:473-475 | but a link does not outlast a rename further up: it is led to a place that is no project, while the row still has its alias |
| `Scopes.LockOver` | src/accounts/users.rs:617-627 | answers a lock over the place of least length, and none exactly when none covers it |
| `Scopes.OutermostLock` | src/accounts/users.rs:617-627 | the lock answered is the one that covers every other lock over the place |
| `Scopes.Best` | src/accounts/users.rs:668-693 | the best row counts and no row that counts beats it, by scope and then by depth; none exactly when no row counts |
| `Scopes.BestIsUnique` | src/accounts/users.rs:668-693 | the deciding row does not depend on the order the rows are listed in |
| `Scopes.ScopeIsTheStrongestHeld` | src/accounts/users.rs:646-693 | admin everywhere for a site admin; else admin, editor or viewer exactly when a row of that scope covers the place from at or above any lock over it and none stronger does, or, for viewer on an app, the app itself is given and no lock is over it |
| `Scopes.SourceIsTheNearest` | src/accounts/users.rs:679-692 | the row named is the nearest that holds with that scope; the app itself only where no row holds |
| `Scopes.ScopeNeverShrinksDown` | src/accounts/users.rs:629-654 | whatever is locked, the scope below a place is at least the scope at it |
| `Scopes.MoreRowsNeverLower` | src/accounts/users.rs:668-693 | adding rows never lowers a scope, on a project or an app |
| `Scopes.MoreLocksNeverRaise` | src/accounts/users.rs:617-633 | adding locks never raises a scope, on a project or an app |
| `Scopes.WholeSiteLockedIsLeast` | src/content/store.rs:494-506 | the answer `[""]` gives the least scope there is; then only a row for the whole site gives any |
| `Scopes.LockedSubtreeIsUniform` | src/accounts/users.rs:617-693 | under the outermost lock every place and app has what the locked project has, from the same row |
| `Gates.LastOfTheLongestDecides` | src/content/store.rs:234-243 | of the rules whose prefix the path starts with, the last of the longest decides, and one does exactly when one applies |
| `Gates.LockedByIsOutermost` | src/content/store.rs:616-622 | the lock found over a project is the outermost one at or above it |
| `Gates.FirstLockedIs` | src/content/store.rs:616-622 | the first locked place of the folder chain is the lock nearest the top |
| `Gates.NoLongerIsTheLocksChain` | src/content/store.rs:633-636 | the places of the chain whose text is no longer than the lock's are the lock's own chain |
| `Gates.SearchUpIs` | src/content/store.rs:661-673 | searching the folder chain from its end is going up from the project to the nearest setting |
| `Gates.ResolveGateIs` | src/content/store.rs:614-657 | the chain cut by text length and searched backwards resolves to: closed, or the lock's nearest setting, or rule, app, nearest setting |
| `Gates.LockedAppsOpenAsTheLock` | src/content/store.rs:633-656 | under a lock every app opens as the locked project does, whatever its gate, rules or path; one whose project is gone is restricted |
| `Gates.UnlockedAppsDecideFirst` | src/content/store.rs:614-657 | with no lock: a rule, then the app's gate, then the nearest project, then the site, each exactly when those before say nothing |
| `Gates.NearestGateSource` | src/content/store.rs:661-673 | the project a gate comes from is the nearest at or above with a gate of its own; the site only when none has |
| `Gates.ProjectGateIs` | src/content/store.rs:659-673 | the level the nearest project with one names, by which words; where none does the level the site default names, else public |
| `Gates.GateIs` | src/content/store.rs:614-657 | which gate is answered, for every source: restricted for a project that is gone, the locked project's under a lock, else the deciding rule's, the app's own, or the project's |
| `Moves.ScopeTable.MoveScopeTree` | src/accounts/store/sqlite.rs:412-424 | every row at or under `from` moves in one step, a row in the way gives way, others stay, and the count is the rows moved |
| `Moves.OneLockForBoth` | src/content/store.rs:616-622 | the lock that closes an app's gate is the one that discards permission rows: the outermost locked project over the place |
| `Moves.MovingTwiceIsMovingOnce` | src/accounts/users.rs:740-742 | running the row move again changes nothing |
| `Moves.RenameKeepsAccess` | src/accounts/users.rs:668-693 | after a rename in place every account has at every renamed place and app what it had, with the source row renamed along |
| `Moves.RenameKeepsGates` | src/content/store.rs:614-657 | and every app has the same gate at every path within it, with source project and lock renamed along |
| `MoveSteps.HalfwayHoldsOldLocks` | src/content/store.rs:498-530 | with the tree moved and the move pending, every lock of the old tree is still answered |
| `MoveSteps.HalfwayNoMoreThanBefore` | src/platform/projects.rs:311-318 | with the tree moved and the rows not, no account has more at any one place, or on any app there, than before |
| `MoveSteps.HalfwayNoMoreThanAfter` | src/platform/projects.rs:311-318 | nor more than once the rows have moved, except exactly at or under the place that is left, where in the rows and locks before a row outranks, or the app is all there is over, what the place above gives |
| `MoveSteps.ThePlaceLeft` | src/platform/projects.rs:311-318 | at and under the place that is left: halfway exactly what it gave, and after exactly what the place above it gives |
| `MoveSteps.NoMoreExactlyWhen` | src/accounts/users.rs:668-693 | one place gives no more than another exactly when no row that counts outranks all that count there, and the app itself is not all there is |
| `MoveSteps.NamedAheadIsRestricted` | src/platform/projects.rs:311-315 | an app that names its new project ahead of the tree is restricted, whatever its own gate and rules |
| `MoveSteps.NamedAheadIsTheParent` | src/platform/projects.rs:311-315 | an app named ahead gets at its new place what the place the project moves into gives |
| `MoveSteps.NamedAheadNoMoreThanBefore` | src/platform/projects.rs:311-318 | that is no more than it gave at its old place, except exactly when a row over the new parent outranks, or the app itself was hidden by a lock not over it |
| `MoveSteps.RenamedAheadNoMoreThanBefore` | src/platform/projects.rs:311-318 | for a rename only the second, and the lock is one at or under the project |
| `MoveSteps.NamedAheadOutranked` | src/platform/projects.rs:311-318 | the first case happens, for every place moved into that is not above the old one |
| `MoveSteps.NamedAheadNoMoreThanAfter` | src/platform/projects.rs:311-318 | nor more than after, except exactly when, in the rows and locks before, the app is all the account will have and a lock that moves is to hide it |
| `MoveSteps.NamedAheadWithMore` | src/platform/projects.rs:311-318 | that case happens and is more than before as well, for every locked project: none, some, none |
| `MoveSteps.HalfwayIsTheParent` | src/platform/projects.rs:311-318 | with the tree moved, what moved gets at its new place what the new parent gives, and app access only where no lock moved with it |
| `MoveSteps.HalfwayNoMoreThanItHad` | src/platform/projects.rs:311-318 | that is no more than it had at its old place, except exactly when a row over the new parent outranks, or the app was hidden by a lock that did not move |
| `MoveSteps.RenamedHalfwayNoMoreThanItHad` | src/platform/projects.rs:311-318 | halfway through a rename nothing that moves is more open at its new place than at its old one |
| `MoveSteps.UnreadableTreeOpensNothing` | src/content/store.rs:494-507 | while the tree or the move record cannot be read, an account has everywhere exactly what it has for the whole site, and so no more than under any locks |
| `Attempts.FailureTable.TryAttempt` | src/accounts/store/sqlite.rs:604-619 | counts and inserts in one step under the limit after pruning every account's old rows; refused, it changes nothing |
| `Attempts.FailureTable.ReleaseAttempt` | src/accounts/store/sqlite.rs:621-629 | takes back one row of that account and clock, if there is one |
| `Attempts.RunsKeep` | src/accounts/mfa.rs:318-352 | in every interleaving every code wrong or still being checked has its row while it counts, and every window stays within ten |
| `Attempts.RightCodesLeaveNoRow` | src/accounts/mfa.rs:333-352 | the converse: in every run in which no take-back fails, every row stands for a code that was wrong or not yet found right |
| `Attempts.LimitHoldsExactlyWhen` | src/accounts/mfa.rs:318-352 | at most ten wrong codes of an account in any `w` seconds, for clocks up to `d` seconds stale, if and only if `w + d <= 900` |
| `Attempts.ElevenReached` | src/accounts/store/sqlite.rs:604-619 | the run that breaks it: ten wrong codes, another account's code a window later, and one more whose clock was read before that |
| `Tries.FiveCodesAtMost` | src/accounts/mfa.rs:599-623 | however requests interleave, at most five codes are ever checked for one pending sign-in, each on a try of its own |
| `Tries.TriesAreHad` | src/accounts/store/sqlite.rs:655-664 | a request has its code checked exactly while the row is there with fewer than five tries had; with none left the row goes |
| `Tries.FiveAreReached` | src/accounts/mfa.rs:599-623 | and five are had: no fewer is the limit |
| `Tries.WhatEndsIt` | src/accounts/mfa.rs:602-656 | the row goes for a right code, a fifth wrong one, a sixth try or a deletion, and for nothing else; then no more codes are checked |
| `Totp.MatchingStep` | src/accounts/mfa.rs:180-188 | the first step later than the last spent, within one of the clock's, that shows the code; none exactly when there is none |
| `Totp.StepsAreSpentOnce` | src/accounts/mfa.rs:277-303 | over all interleavings the steps accepted into one secret row go strictly up, each within one of its clock and of the code shown |
| `Totp.WhatIsOnStays` | src/accounts/store/sqlite.rs:522-556 | what is on stays the same row with the same secret, its last step never lower, whatever happens but its removal |
| `Totp.WhatIsNotOn` | src/accounts/store/sqlite.rs:522-556 | another setup makes a new row, with no step spent, in place of one that is not on; turned on it is the same row; cancelled or removed it is gone |
| `Totp.FewAcceptedBetween` | src/accounts/mfa.rs:180-188 | codes checked at clocks between t1 and t2 are accepted at most t2/30 - t1/30 + 3 times |
| `Totp.OncePerSecretExactlyWhen` | src/accounts/mfa.rs:300-303 | per secret a code was checked against, accepted steps go strictly up in every interleaving exactly when a step may be spent only on the row it was checked against |
| `Totp.OncePerSecretInARun` | src/accounts/mfa.rs:300-303 | and in any one run, exactly when none of its codes is accepted again on a row that came after the one it was checked against |
| `Totp.SpentTwiceAcrossAReplacement` | src/accounts/store/sqlite.rs:551-556 | the exception: one code accepted before a reset and a new setup and once more after |
| `Codes.AcceptsRightCodes` | src/accounts/mfa.rs:277-309 | a code is accepted exactly when the secret shows it at an unspent step near the clock, or it is a recovery code left; then it is spent, and anything else changes nothing |
| `Codes.CountedExactly` | src/accounts/mfa.rs:333-352 | checked exactly while the account is under its limit; a right code, and only that, changes more than the counts |
| `Codes.WrongCodesStayCounted` | src/accounts/mfa.rs:318-352 | at the limit nothing changes; a wrong code's count stays |
| `Codes.OnlyWrongCodesCount` | src/accounts/mfa.rs:318-352 | of every account, the rows of the last fifteen minutes are as many after a check as before, and one more of this one exactly when its code was wrong |
| `Codes.CodesAreReadLoosely` | src/accounts/mfa.rs:233-236 | one character of a typed code at a time: small letters and digits stay, capitals are lowered, anything else is dropped |
| `Codes.FinishWithCodeExactly` | src/accounts/mfa.rs:632-656 | a session follows exactly when the row is there for its code stage, not expired, its account active, with a try left and under the limit, for a right code, which is spent; otherwise only counts and pending sign-ins change, as said, with the first reason there is for an answer |
| `Codes.FinishSetupExactly` | src/accounts/mfa.rs:668-692 | it is turned on and a session follows exactly when the row waits for setup, not expired, with a try left, for a right code of the setup this sign-in began; that session is the account's only one; otherwise only the pending row changes, as said |
| `Codes.BeginSetupExactly` | src/accounts/mfa.rs:380-402 | refused exactly when on; a setup of one's own that can be read is shown again with nothing changed but the log; any other is replaced by the secret drawn, and the account then has no setup of anyone else's |
| `Codes.ConfirmSetupExactly` | src/accounts/mfa.rs:433-445 | it is turned on from the account page exactly with a right code of the setup that session began, which alone stays signed in; nobody else's rows change |
| `Codes.TurnOffExactly` | src/accounts/mfa.rs:464-480 | turned off exactly when allowed, on, and the code right under the limit; then no secret, code or pending sign-in of it is left, and all of everybody else's; else the answer is the first reason there is |
| `Codes.RegenerateExactly` | src/accounts/mfa.rs:447-462 | new recovery codes exactly for a right code of the app, never for a recovery code |
| `Codes.WhoIsSignedOut` | src/accounts/mfa.rs:485-496 | after a reset, a password change or an accepted invite: which sessions and pending sign-ins are left, and that only a reset takes two-step sign-in |
| `Codes.DisabledAreSignedOut` | src/accounts/users.rs:1801-1815 | disabling ends exactly the account's sessions, and a session is live only while its account is not disabled |
| `Codes.LogOutAndApps` | src/accounts/store/sqlite.rs:259-269 | signing out takes that session and the account's app sessions, and no other |
| `Codes.CancelTakesOnlySetups` | src/accounts/store/sqlite.rs:534-539 | cancelling takes a setup under way and never a secret that is on |
| `Accounts.Store.SpendRecoveryCode` | src/accounts/store/sqlite.rs:572-580 | marking a row used takes exactly that code from those left |
| `Accounts.Store.ReplaceRecoveryCodes` | src/accounts/store/sqlite.rs:558-570 | the account's rows go and the new ones are inserted one by one: its codes are the new ones, all others stay |
| `Accounts.Store.AcceptCode` | src/accounts/mfa.rs:277-309 | over the rows: accepted exactly when the code was right, and then spent |
| `Accounts.Store.AcceptFromAccount` | src/accounts/mfa.rs:333-352 | over the rows: good exactly for a right code under the limit, which is then spent |
| `Accounts.Store.Begin` | src/accounts/mfa.rs:392-402 | refused exactly when on; else the owner's secret is in the row and nobody else's setup is |
| `Accounts.Store.TurnOn` | src/accounts/mfa.rs:423-431 | the sessions left are those of others and the one kept; nothing of the account is pending |
| `Accounts.Store.Confirm` | src/accounts/mfa.rs:436-445 | Ok exactly for a right code of that session's setup; then on, that session alone, the code spent |
| `Accounts.Store.SignInAfterPrimary` | src/accounts/mfa.rs:521-538 | with a code owed no session changes and the pending sign-in has all its tries; a session exactly when nothing is owed and the account is active |
| `Accounts.Store.TakeOneTry` | src/accounts/mfa.rs:602-612 | Ok exactly while fewer than five tries were had, with the row counting this one; else the row is gone |
| `Accounts.Store.SubmitCode` | src/accounts/mfa.rs:632-656 | over the rows: a session exactly for a right code under both limits, which is then spent; else no session changes |
| `Accounts.Store.SubmitSetupCode` | src/accounts/mfa.rs:668-692 | over the rows: on and a session exactly for a right code of the setup this sign-in began; else neither changes |
| `SignInRuns.SessionsPassTheSecondStep` | src/accounts/mfa.rs:418-445 | in every run in which it is asked of every sign-in, each session of an account that is on is, or descends from, one issued or kept alone in a step that spent a right code of it, and it has been on ever since |
| `SignInRuns.SecretShownOnlyToItsConfirmer` | src/accounts/mfa.rs:388-402 | in every run the secret that is on was turned on in a step that spent a code it shows, by one sign-in, and was shown to that sign-in and no other |
| `SignInRuns.EveryDoorPassesExactlyWhen` | src/accounts/mfa.rs:521-530 | every session of an account that is on passed the second step, in every run, exactly when the site asks it of provider sign-ins |
| `PendingRuns.SessionsFollowASignIn` | src/accounts/mfa.rs:520-692 | in every run, a session a code is answered with is for the account of an earlier sign-in, at most five minutes before by the clock, with the code page when it was on then and the setup page when it was not and must be |
| `PendingRuns.SignInsWait` | src/accounts/mfa.rs:520-692 | the other half: a sign-in waits the whole five minutes, with a try left, through every run in which nothing ends it and fewer than five codes are sent for it |
| `Connection.RunsInOrder` | src/platform/connections.rs:233-408 | what every step of reader, worker, hub and clock keeps: the stream to the handler and the replies, in order |
| `Connection.HandlerSeesEverythingInOrder` | src/platform/connections.rs:246-276 | at every point the handler has seen connect, a prefix of the frames received in order, and at most one close, last; the registration is gone only after it |
| `Connection.FinishedSawEverything` | src/platform/connections.rs:381-408 | at the end, however it came, exactly one close after every frame that got a place: all received, or all but the one there was no room for |
| `Connection.HoldingBackNeverLags` | src/platform/connections.rs:314-333 | a transport that holds back is never closed for lag: the room it waited for is there when the frame comes |
| `Connection.LoopEndsExactly` | src/platform/connections.rs:288-381 | the loop is left exactly for these: the other side ended, no place for a frame, a close or a cut-off, a failed send, a check the visitor may not stay by, and a ping unanswered or not sent |
| `Connection.ChecksKeepExactly` | src/platform/connections.rs:342-379 | in every run a check leaves the connection up exactly when the visitor may stay and, where pings are answered, its ping goes out and no check before it is without a pong since |
| `Connection.KeptChecksWereAnswered` | src/platform/connections.rs:335-349 | so between two checks that leave it up a pong was received, no earlier than the first |
| `Connection.HalfClosedExactly` | src/platform/connections.rs:284-339 | a connection counts as half-closed exactly once the other side has ended |
| `Connection.SentIsWhatWasPushedFirst` | src/platform/connections.rs:288-401 | what is sent is what was pushed first, in order, and nothing pushed after a close |
| `Connection.FallingBehindLetsGo` | src/runtime/connections.rs:380-413 | a message is queued exactly while fewer than sixty-four wait; with that many the connection is let go |
| `Connection.TrapsClose` | src/platform/connections.rs:255-267 | a handler that trapped has its connection closed, unless the hub has let go of it already |
| `Connection.RepliesAreSent` | src/platform/connections.rs:383-401 | after a half-close everything pushed ahead of the first close is sent, in order, unless a send fails |
| `Connection.HandlerGetsDone` | src/platform/connections.rs:251-276 | past the loop the worker or the close can always move, and only so many times, however much the hub pushes |
| `Connection.ConnectionEnds` | src/platform/connections.rs:383-408 | with the worker gone every move brings the end nearer and one can always be made |
| `Labels.DeriveLabel` | src/content/origins.rs:136-156 | the popping loop computes the derived label |
| `Labels.DerivedIsLegal` | src/content/origins.rs:108-156 | for every app name and attempt the label is 1 to 63 of `[a-z0-9-]` without a hyphen at an end, and none that IDNA reserves |
| `Labels.BaseSpellsTheName` | src/content/origins.rs:140-147 | what a label that is not the name itself spells: the name from its first letter or digit, capitals lowered and `_` as `-`, for up to fifty-four characters, with no hyphen at the end |
| `Labels.LabelsSpellNames` | src/content/origins.rs:148-155 | behind it the hash of the exact name and attempt; `app` in front only where nothing is spelled or what is would be reserved |
| `Labels.OwnNamesAreLabels` | src/content/origins.rs:126-139 | a name that is a label is its own label |
| `Labels.AttemptsPart` | src/content/origins.rs:136-156 | different suffixes make different labels, so attempts never repeat but for the name itself |
| `Labels.FreeLabel` | src/content/origins.rs:224-229 | with any derived label free the search stops, at the first that nobody holds |
| `Labels.StopsWithin` | src/content/origins.rs:224-229 | with suffixes that differ over the first `\|held\| + 2` attempts it stops within those |
| `Labels.DistinctSuffixesGiveMore` | src/content/origins.rs:224-229 | and no `n` labels held leave none free, if `n + 2` suffixes differ |
| `Origins.ChoicesAreNeverRefused` | src/content/catalog/files.rs:300-325 | a choice made over the list held is never refused, the list only grows, and the label is the app's on it exactly unless it was new and could not be written |
| `Origins.NeverRecordedTwice` | src/content/catalog/files.rs:300-325 | whatever is asked of the list: a label that is someone else's is refused, naming them, and the list only grows, by that label for that app |
| `Origins.IssuingKeeps` | src/content/origins.rs:197-242 | a request alone gives an app that exists a valid label recorded as its own, and touches no other app's |
| `Origins.LabelsStay` | src/content/origins.rs:174-183 | asked again, an app has the label it has |
| `Origins.NoTwoShareALabel` | src/content/origins.rs:174-183 | two apps that exist are given different labels, in either order |
| `Origins.OwnNameStaysFree` | src/content/origins.rs:178-183 | a published name that is a label and has none stored is given to nobody else, unless it is already their stored label |
| `Origins.OwnNameFirst` | src/content/origins.rs:127-139 | asked for the first time, an app whose name is a label gets that name exactly when it was never issued to another |
| `Origins.OldLabelComesBack` | src/content/origins.rs:158-164 | an app published again gets a label it had exactly when one is not by now the name of another app without a stored label |
| `Origins.OldLabelLost` | src/content/origins.rs:158-164 | the exception, for every app whose name is not a label |
| `LabelCatalog.Catalog.FirstUsable` | src/content/origins.rs:220-223 | the first of its own issued labels still free, in the list's order, or none when there is none |
| `LabelCatalog.Catalog.HeldByOthers` | src/content/origins.rs:201-215 | the loop gathers exactly the labels other published apps hold, by meta or by name |
| `LabelCatalog.Catalog.IssuedLabel` | src/content/origins.rs:197-242 | the label is the stored one, or one chosen, issued and stored as the model says |
| `LabelCatalog.Catalog.AskEach` | src/content/origins.rs:268-268 | each app in turn is given its label; it stops at the one that has the label asked for, or all have another, and nothing stored or issued before has changed |
| `LabelCatalog.Catalog.AppForLabel` | src/content/origins.rs:255-269 | answers the app that exists and is given the label, and nobody exactly when there is none; all it leaves is labels issued to apps that exist, with everything stored or issued before as it was |
| `LabelCatalog.HoldersAnswer` | src/content/origins.rs:255-269 | an app that has the label stored before the lookup is the answer, and an app that has another is not |
| `LabelCatalog.LookupInverts` | src/content/origins.rs:255-269 | an app that exists is asked for its label, other calls follow, and the label is looked up: the answer is the app |
| `LabelCatalog.LabelInverts` | src/content/origins.rs:255-269 | and the app a lookup answers, asked for its label, has just that one, and nothing more is issued |
| `OriginRuns.InvKeeps` | src/content/origins.rs:197-242 | each step of any interleaving, the list being written, keeps every stored, chosen and answered label recorded as its app's |
| `OriginRuns.LookSees` | src/content/origins.rs:201-215 | a look at another app adds the label it has stored, or, with none stored or its meta not read, its name where that is a label |
| `OriginRuns.AloneIssues` | src/content/origins.rs:197-242 | a request whose steps nothing comes between answers and leaves exactly what the one-request model says |
| `OriginRuns.NeverReissued` | src/content/origins.rs:158-164 | over any interleaving of publishes, removals, restores and requests, writes that fail among them, a recorded label never goes to another app |
| `OriginRuns.RemovedComesBack` | src/content/origins.rs:158-164 | an app removed and put back has the label it had, and everyone else what they had |
| `OriginRuns.NoTwoHoldOneLabel` | src/content/origins.rs:174-183 | no two apps store or are answered one label, and no request is refused |
| `OriginRuns.OneHolderExactlyWhen` | src/content/catalog/files.rs:300-325 | no two apps ever hold one label exactly when no write of the list may fail |
| `OriginRuns.OneHolderInARun` | src/content/catalog/files.rs:300-325 | in any one run two apps come to have one label exactly where one of the two was given it in a step that could not write the list |
| `OriginRuns.AnswersLast` | src/content/origins.rs:158-164 | a label answered and recorded is that app's in every later state |
| `Bundle.TakenExactly` | src/content/bundle.rs:32-51 | an entry is taken exactly when it is a regular file whose path is accepted; one that climbs or starts at the root is always rejected, a special file always skipped |
| `Bundle.SidecarsAnywhere` | src/content/store.rs:63-68 | a path that ends in a dot and a sidecar extension is the platform's, wherever it is; beyond an app's root nothing else is |
| `Bundle.EntryPaths` | src/content/bundle.rs:53-84 | the first pass succeeds exactly when all is decoded, nothing rejected, within both ceilings and not empty, and answers the paths in order; else it blames the first thing that is wrong |
| `Bundle.TopGoesWhenShared` | src/content/bundle.rs:86-96 | a top directory is stripped exactly when every path is under one and the same |
| `Bundle.SecondCeilingHolds` | src/content/bundle.rs:252-259 | once the first pass succeeded the second's sum never passes the ceiling, at any entry |
| `Unpacking.HandMayGo` | src/content/bundle.rs:252-264 | nor can its check of a name fail |
| `Unpacking.CheckKeys` | src/content/bundle.rs:205-213 | refuses exactly when some path, stripped, makes a key no store keeps, and names such a one |
| `Unpacking.HandedAreSafe` | src/content/store.rs:54-68 | every path handed over is an accepted path and key, none of the platform's files, and where a path of the archive lands |
| `Unpacking.SecondPass` | src/content/bundle.rs:215-274 | hands over the files one by one until the store refuses one; answers what it handed over, sorted, and the reasons others were left out |
| `Unpacking.UnpackInto` | src/content/bundle.rs:197-274 | all or nothing: a failure not the store's comes exactly with a bundle that may not be unpacked, and then the store was never called; success means it took every file, in order |
| `Unpacking.FilesAreHandedOver` | src/content/bundle.rs:197-274 | one handing, in the archive's order, for each regular file whose path is accepted and is not the platform's where it goes: with `d/` gone where every path is under one directory `d`, else at its own path, with that entry's content and size |
| `Unpacking.KeysFitWhereTheyLand` | src/content/bundle.rs:205-213 | the keys checked are those of the places the files go to |
| `Unpacking.LeftOutIsReported` | src/content/bundle.rs:215-274 | the reasons answered are exactly those for which some entry was left out, each once |
| `Unpacking.BundlesThatFit` | src/content/bundle.rs:53-84 | taken at all exactly when it is read to its end, no entry is forbidden, and it has 1 to 2000 files that claim no more than 128 MiB |
| `Unpacking.RejectedExactly` | src/content/bundle.rs:21-51 | an entry is forbidden exactly when it is a regular file whose path cannot be read, climbs, or is not accepted and not just hidden |
| `Unpacking.LandingIgnoresStyle` | src/content/bundle.rs:31-35 | slashes either way and any `./` in front come to the same path |
| `Unpacking.PlatformFilesAre` | src/content/store.rs:57-68 | the platform's files, named: a path that ends in a sidecar extension, or the handler or a database file right inside an app |
| `Cookies.PairsOfFiltered` | src/accounts/users.rs:62-70 | the filtered header comes apart into exactly the pairs kept |
| `Cookies.FilterKeeps` | src/accounts/users.rs:62-70 | pair by pair, in order: what is empty or named for the platform goes, all else stays; there is no header exactly where nothing stays |
| `Cookies.PlatformNames` | src/accounts/users.rs:44-56 | the platform's cookies, named: `ts_`, `__host-ts_` or `__secure-ts_` at the start, in any case, with space around |
| `Cookies.FirstValueIs` | src/accounts/users.rs:802-808 | the value read is that of the first pair with the name in front of its first `=` |
| `Cookies.FilterAgreesWithParser` | src/accounts/users.rs:47-70 | reading any name from the filtered header gives nothing for a platform cookie and else what the whole header gives |
| `Cookies.FilteringTwice` | src/accounts/users.rs:58-70 | filtering a filtered header changes nothing |

## Left out

- `Moves.RenameKeepsAccess`: only for a rename in place, where `to` has the parent `from` has and nothing is at or under it; a move to another parent changes which rows above count, so it does not keep access.
- `LabelCatalog.Catalog.AppForLabel`: asks that each app it may ask has more derived labels than apps and labels there are, which the source's unbounded search takes for granted; and the list is written.
- `Connection.HandlerSeesEverythingInOrder`: for an accepted connection; the refusals of `open` before that, and what is held for it meanwhile, are one starting state with any messages already queued.
- `SignInRuns.SessionsPassTheSecondStep`: sessions never expire in the model, so every stored session is covered; each operation is one step, as the limits alone depend on how they interleave.
- `SignInRuns.EveryDoorPassesExactlyWhen`: for a site that can open its secrets and shows six-digit codes, without which nothing could ever be turned on.
- HMAC, digests, sealing and random tokens: `hotp`, the label hash and whether a secret opens are parameters, a token stands for its digest, and what is drawn is new.
- Store errors: a store call either happens or the operation is not run, except where the model names the failure (an unreadable tree or meta, a label not stored, a count not taken back, a file refused by the store).
- The files and apps a project tree cannot see (`app_at_path`, whether an app sits at a path a move would produce): a caller's answer given as an argument, or not part of the model.
- The label of a site address: parsing `TOOLSITE_APPS_DOMAIN`, `label_of` and `classify` would add easy members.
- Preview sessions, which have no site session behind them, and provider sign-in and the OAuth server: outside the sign-in runs.
- Deleting an account's rows when it is removed from the store, and what a password change checks before it ends sessions.
- The archive decoder: an archive is what it decodes to, the same both times; the content of a file is what the store is handed.
- HTTP handlers, pages, redirects and the command line.
