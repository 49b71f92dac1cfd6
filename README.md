# clean-local-repository-maven-plugin: the retention engine

This project models the decision engine of the `clean-local-repository` Maven
plugin in Dafny. The engine lives in `AbstractLocalRepositoryMojo`. It decides
which folders and files of a local Maven repository the `list` goal reports
and the `clean` goal deletes.

The model covers:

- **Validation** (`initializeAndCheckMojoContext`). The repository root must
  exist and be writable. No retention knob may be below -1. A non-empty
  regular expression must compile. When no retention knob and no expression
  is set, the default policy is written into the parameters: keep one version,
  keep 7 days, and apply both rules to the current artifact's snapshots and
  releases.
- **The whole-repository purge** (`deleteAll`). It runs from the execution
  root only.
- **The rules on the current artifact** (`getLocalRepositoryPathForCurrentArtefact`,
  then `deleteArtifactOnVersionExpiration` and `deleteArtifactOnDelayExpiration`).
  They apply to the snapshot folders and to the release folders of
  `<root>/<groupId with '.' as separator>/<artifactId>`, listed by name.
- **The repository-wide passes**, from the execution root only:
  - `deleteFromRegularExpression` over every file;
  - `deleteAllSnapshots`, both rules over every artifact that holds a snapshot
    version;
  - `deleteEmptyFolders`, deepest folder first.
- **`getArtifactElapsedDays`**: the age of a folder, taken from its first
  listed child.

Layout:

- `paths.dfy`: paths as segment lists, and the string form of the artifact path.
- `ordering.dfy`: the order by folder name that version folders are listed in.
- `disks.dfy`: the disk as a sequence of items in host listing order, and its
  listings.
- `configuration.dfy`: the parameters and their validation.
- `retention.dfy`: every pass as a fold (`Sweep`) over a listing, and
  `Execute`, the whole goal as one function.
- `sweep_laws.dfy`, `pass_laws.dfy` and `run_laws.dfy`: what the passes and
  the goal promise.
- `mojo.dfy`: the mojo as a class. Its parameters and its log are fields. The
  filesystem is an object with the delete primitive. Every method is proved to
  leave the state that the matching function of `retention.dfy` computes.
- `scenarios.dfy`: the plugin's own test fixture (three snapshot versions of
  `org.maven.test:test-example`), on the log and on the disk, and a release
  count of 0.

A disk is a `seq<Item>`: a path plus a file or folder entry, with its
modification time in milliseconds and whether it is writable. Deleting a path
removes it and everything beneath it. A deletion deferred to JVM exit
(`executeDeleteOnExit`) is appended to a `pending` queue instead. Each log line
is reduced to its verb (`DELETE`, `LIST`, `DELETE_EMPTY`, ...) and its path.

Where the design notes and the code disagree, the model follows the code:

- The default policy ignores `deleteWholeLocalRepository`. It is applied
  whenever the four knobs are -1 and no expression is set, even if the whole
  purge is requested.
- An empty expression `""` is not compiled at validation. It still counts as
  configured: it blocks the default policy, and the expression pass runs with it.
- The current-artifact rules give the delay rule the same list the count rule
  saw (lines 207-211). In the clean goal, a folder the count rule deleted no
  longer exists, so it reads as modified at time 0 and is logged a second time
  by the delay rule (`PassLaws.CleanRelogsCountExpired`). In the list goal,
  every folder both rules flag is listed twice (`PassLaws.ListCurrentRules`).
  There is no single log line per folder.
- A folder counts as empty when no file lies anywhere beneath it (recursive
  `Tools.listFiles`), not only when it has no files of its own.
- The count rule keeps the first folders in the order `Tools.listSubFoldersOrdered`
  returns, which is an ascending lexical sort by name. It is not a version
  order, so `10.0` sorts before `9.0` (`Scenarios.LexicalNotSemantic`).

## Model

| member | source | states |
|---|---|---|
| Mojo.LocalRepositoryMojo.ExecuteCleanLocalRepositoryGoals | src/main/java/org/apache/maven/plugins/AbstractLocalRepositoryMojo.java:182-257 | The error raised, the parameters and the disk, deferred-deletion queue and log afterwards are exactly those of `Execute` for the parameters, project, goal and state the call starts from. |
| Mojo.LocalRepositoryMojo.InitializeAndCheckMojoContext | src/main/java/org/apache/maven/plugins/AbstractLocalRepositoryMojo.java:444-509 | On failure it returns the first failing check's error and leaves the parameters. On success it returns the root and writes the validated parameters, with the default policy filled in when nothing is configured. It never writes to the log. |
| Mojo.LocalRepositoryMojo.DeleteArtifactOnDelayExpiration | src/main/java/org/apache/maven/plugins/AbstractLocalRepositoryMojo.java:267-280 | The state afterwards is the delay rule swept over the list. Each folder's age is read on the disk left by the earlier deletions. A negative delay does nothing. |
| Mojo.LocalRepositoryMojo.DeleteArtifactOnVersionExpiration | src/main/java/org/apache/maven/plugins/AbstractLocalRepositoryMojo.java:290-300 | The state afterwards is every folder from position `retentionVersion` on, logged and deleted in order. A negative count does nothing. |
| Mojo.LocalRepositoryMojo.DeleteArtifactSnapshots | src/main/java/org/apache/maven/plugins/AbstractLocalRepositoryMojo.java:317-319 | For one artifact: the count rule over its snapshot folders, then the delay rule over the snapshot folders listed again afterwards. |
| Mojo.LocalRepositoryMojo.DeleteAllSnapshots | src/main/java/org/apache/maven/plugins/AbstractLocalRepositoryMojo.java:311-322 | Both rules run for every artifact holding a snapshot version, one artifact after another, in the order the artifacts are first seen among the files. |
| Mojo.LocalRepositoryMojo.DeleteFromRegularExpression | src/main/java/org/apache/maven/plugins/AbstractLocalRepositoryMojo.java:332-346 | Every listed file whose rendered absolute path matches the expression is logged and deleted, in listing order. |
| Mojo.LocalRepositoryMojo.DeleteEmptyFolders | src/main/java/org/apache/maven/plugins/AbstractLocalRepositoryMojo.java:358-375 | The folder listing is reversed in an array. Each folder with no file beneath it on the current disk is logged with the empty-folder verbs and deleted. |
| Mojo.LocalRepositoryMojo.DeleteAll | src/main/java/org/apache/maven/plugins/AbstractLocalRepositoryMojo.java:385-394 | From the execution root, the repository root is logged with the whole-purge verbs and deleted. Elsewhere nothing changes. |
| Mojo.LocalRepositoryMojo.DeleteCurrentArtifactVersions | src/main/java/org/apache/maven/plugins/AbstractLocalRepositoryMojo.java:205-224 | Both rules run over the snapshot folders when `deleteCurrentSnapshot` is set, then over the release folders when `deleteCurrentRelease` is set. Each pair of rules shares one list. |
| Mojo.LocalRepositoryMojo.DeleteFromRepository | src/main/java/org/apache/maven/plugins/AbstractLocalRepositoryMojo.java:227-255 | The expression pass, the all-snapshots pass and the empty-folder pass, each when configured. The first two use the one file listing taken before the passes. |
| Mojo.LocalRepositoryMojo.Handle | src/main/java/org/apache/maven/plugins/AbstractLocalRepositoryMojo.java:275-277 | The path is logged with the goal's verb. In the clean goal it is then deleted now, or queued when deletion is deferred. |
| Mojo.FileSystem.Delete | src/main/java/org/apache/maven/plugins/AbstractLocalRepositoryMojo.java:277 | An immediate delete removes the path and everything beneath it and nothing else. A deferred one only queues the path. |
| Mojo.ReverseInPlace | src/main/java/org/apache/maven/plugins/AbstractLocalRepositoryMojo.java:362 | The array afterwards holds the old contents in reverse order. |
| Configuration.ValidationFailsExactly | src/main/java/org/apache/maven/plugins/AbstractLocalRepositoryMojo.java:446-492 | Validation fails if and only if one of these holds: the root is missing, the root is not writable, a knob is below -1, or a non-empty expression does not compile. Only the missing root is an execution exception. |
| Configuration.MinusOneIsTheOnlySentinel | src/main/java/org/apache/maven/plugins/AbstractLocalRepositoryMojo.java:459-481 | On an existing, writable root, once any knob is below -1, validation fails with the error of the first knob below -1 in the order the checks run (snapshot delay, snapshot count, release delay, release count), whatever the other parameters are. |
| Configuration.KnobErrorNamesOffendingKnob | src/main/java/org/apache/maven/plugins/AbstractLocalRepositoryMojo.java:459-481 | The corrected validation's negative-number error names a knob whose value is the one reported and is below -1. |
| Configuration.ReleaseDelayReportedAsSnapshotDelay | src/main/java/org/apache/maven/plugins/AbstractLocalRepositoryMojo.java:471-475 | As written, a release delay of -2 beside valid snapshot knobs is reported against the snapshot delay option. The snapshot delay does not hold that value. |
| Configuration.DefaultPolicyExactly | src/main/java/org/apache/maven/plugins/AbstractLocalRepositoryMojo.java:494-506 | Validation changes the parameters exactly when nothing is configured. It then sets both delays to 7 and both counts to 1, and turns both current-artifact switches on. Every other parameter is left as it was. |
| Configuration.ValidateIdempotent | src/main/java/org/apache/maven/plugins/AbstractLocalRepositoryMojo.java:497-506 | Validating parameters that already passed validation gives them back unchanged. |
| Paths.ArtifactPathNamesArtifactFolder | src/main/java/org/apache/maven/plugins/AbstractLocalRepositoryMojo.java:421-431 | The string the method builds (root, separator, groupId with dots turned into separators, separator, artifactId) is the rendering of the artifact folder's path. |
| Paths.ReplaceRoundTrip | src/main/java/org/apache/maven/plugins/AbstractLocalRepositoryMojo.java:427 | Turning the groupId's dots into separators loses nothing when the groupId holds no separator. |
| Paths.JoinSplit | src/main/java/org/apache/maven/plugins/AbstractLocalRepositoryMojo.java:427 | Joining the groupId's dot-separated parts with the separator equals replacing the dots by the separator. |
| Paths.SplitJoinRoundTrip | src/main/java/org/apache/maven/plugins/AbstractLocalRepositoryMojo.java:427 | Splitting a groupId at the dots and joining the parts with dots gives it back. |
| Ordering.SortByNameSorted | src/main/java/org/apache/maven/plugins/AbstractLocalRepositoryMojo.java:199 | The version folders come out in ascending lexical order of their names. |
| Ordering.SortByName | src/main/java/org/apache/maven/plugins/AbstractLocalRepositoryMojo.java:199 | The ordered listing holds the same folders, each as often as before. |
| Ordering.SortByNameDistinct | src/main/java/org/apache/maven/plugins/AbstractLocalRepositoryMojo.java:199 | Sorting distinct folders keeps them distinct. |
| Ordering.NameLeTotal | src/main/java/org/apache/maven/plugins/AbstractLocalRepositoryMojo.java:199 | Any two folder names are ordered one way or the other. |
| Ordering.NameLeTransitive | src/main/java/org/apache/maven/plugins/AbstractLocalRepositoryMojo.java:199 | The name order is transitive. |
| Disks.SubFolders | src/main/java/org/apache/maven/plugins/AbstractLocalRepositoryMojo.java:199 | The ordered listing holds exactly the folders that are immediate children of the artifact folder. |
| Disks.SubFoldersDistinct | src/main/java/org/apache/maven/plugins/AbstractLocalRepositoryMojo.java:199 | On a disk that names each path once, the ordered listing names each child folder once. |
| Disks.FilesBeneath | src/main/java/org/apache/maven/plugins/AbstractLocalRepositoryMojo.java:229 | The file listing holds exactly the files strictly beneath the root. |
| Disks.FoldersBeneath | src/main/java/org/apache/maven/plugins/AbstractLocalRepositoryMojo.java:360 | The folder listing holds exactly the folders strictly beneath the root. |
| Disks.FoldersBeneathAncestorsFirst | src/main/java/org/apache/maven/plugins/AbstractLocalRepositoryMojo.java:360 | When the host lists a parent before its children, the folder listing puts every folder before the folders beneath it. |
| Disks.ReversedDescendantsFirst | src/main/java/org/apache/maven/plugins/AbstractLocalRepositoryMojo.java:362 | The reversed listing puts every folder after the folders beneath it. |
| Disks.Removed | src/main/java/org/apache/maven/plugins/AbstractLocalRepositoryMojo.java:277 | After a delete, the disk holds exactly the items not at or beneath the deleted path. |
| Disks.RemovedKeepsOthers | src/main/java/org/apache/maven/plugins/AbstractLocalRepositoryMojo.java:277 | A delete leaves the entry of every path outside the deleted subtree unchanged. |
| Disks.Pruned | src/main/java/org/apache/maven/plugins/AbstractLocalRepositoryMojo.java:277 | After a series of deletes, the disk holds exactly the items at or beneath none of the deleted paths. |
| Disks.PrunedAppend | src/main/java/org/apache/maven/plugins/AbstractLocalRepositoryMojo.java:277 | Deleting one series of paths and then another equals deleting the two series in turn as one. |
| Disks.PrunedKeepsOthers | src/main/java/org/apache/maven/plugins/AbstractLocalRepositoryMojo.java:277 | A series of deletes leaves the entry of every path outside all the deleted subtrees unchanged. |
| Disks.RemovedWellFormed | src/main/java/org/apache/maven/plugins/AbstractLocalRepositoryMojo.java:277 | A delete keeps a disk that names each path once in that state. |
| Disks.ElapsedOfAbsent | src/main/java/org/apache/maven/plugins/AbstractLocalRepositoryMojo.java:403-412 | A folder that no longer exists lists nothing and has modification time 0, so its age is the number of days since the epoch. |
| Disks.ElapsedKeptByUnrelatedRemoval | src/main/java/org/apache/maven/plugins/AbstractLocalRepositoryMojo.java:403-412 | Deleting a path that is neither the folder, nor above it, nor one of its children leaves the folder's age unchanged. |
| Retention.Snapshots | src/main/java/org/apache/maven/plugins/AbstractLocalRepositoryMojo.java:207 | The snapshot list holds exactly the listed folders whose name ends in `-SNAPSHOT`. |
| Retention.Releases | src/main/java/org/apache/maven/plugins/AbstractLocalRepositoryMojo.java:219 | The release list holds exactly the listed folders whose name does not end in `-SNAPSHOT`. |
| Retention.SnapshotArtifactsDistinct | src/main/java/org/apache/maven/plugins/AbstractLocalRepositoryMojo.java:313 | Each artifact folder holding a snapshot version is visited once. |
| Retention.SnapshotArtifactsComplete | src/main/java/org/apache/maven/plugins/AbstractLocalRepositoryMojo.java:313 | The artifact folder of every file in a snapshot version folder is visited. |
| Retention.SnapshotArtifactsSound | src/main/java/org/apache/maven/plugins/AbstractLocalRepositoryMojo.java:313 | Every folder visited is the artifact folder of some file in a snapshot version folder. |
| SweepLaws.SweepWithoutDeletion | src/main/java/org/apache/maven/plugins/AbstractLocalRepositoryMojo.java:275-277 | Without immediate deletion, a pass leaves the disk as it was and logs exactly the flagged paths, in order. In the clean goal it also queues those paths for shutdown. |
| SweepLaws.SweepPrunes | src/main/java/org/apache/maven/plugins/AbstractLocalRepositoryMojo.java:269-279 | With immediate deletion, a pass only appends to the log, and the disk afterwards is the starting disk with exactly the paths it logged deleted, in log order. |
| SweepLaws.DeletesLoggedChain | src/main/java/org/apache/maven/plugins/AbstractLocalRepositoryMojo.java:182-257 | Two stretches of a run that each delete exactly what they log together delete exactly what they log together. |
| SweepLaws.SweepDeletesLogged | src/main/java/org/apache/maven/plugins/AbstractLocalRepositoryMojo.java:269-279 | With immediate deletion, a pass whose log adds a list of paths leaves the starting disk with exactly those paths deleted. |
| SweepLaws.SweepExtends | src/main/java/org/apache/maven/plugins/AbstractLocalRepositoryMojo.java:269-279 | A pass only appends to the log, and each line it appends names one of the listed paths with the pass's verb. |
| SweepLaws.SweepKeepsOutside | src/main/java/org/apache/maven/plugins/AbstractLocalRepositoryMojo.java:269-279 | A pass leaves every path that lies at or beneath none of the listed paths as it was. |
| SweepLaws.CountSweepLogsAll | src/main/java/org/apache/maven/plugins/AbstractLocalRepositoryMojo.java:292-299 | The count rule logs every folder it is given, in order. With immediate deletion, none of those folders is left on the disk. |
| SweepLaws.DelaySweepOverSiblings | src/main/java/org/apache/maven/plugins/AbstractLocalRepositoryMojo.java:267-280 | Over version folders of one artifact, the delay rule logs exactly the folders that are too old on the disk it started from. Earlier deletions do not change a sibling's age. |
| SweepLaws.PatternSweep | src/main/java/org/apache/maven/plugins/AbstractLocalRepositoryMojo.java:336-344 | The expression pass logs exactly the matching files. |
| SweepLaws.NoFilesSweep | src/main/java/org/apache/maven/plugins/AbstractLocalRepositoryMojo.java:364-374 | The empty-folder pass logs exactly the folders that are empty on the disk it started from. Deleting an empty folder removes no file, so no later folder's emptiness changes. |
| SweepLaws.NoFilesSweepKeepsFiles | src/main/java/org/apache/maven/plugins/AbstractLocalRepositoryMojo.java:368-372 | The empty-folder pass deletes no file. |
| SweepLaws.FlaggedKeepsDescendantsFirst | src/main/java/org/apache/maven/plugins/AbstractLocalRepositoryMojo.java:362-374 | The empty folders are handled deepest first: no folder is handled before one beneath it. |
| PassLaws.VersionFoldersSiblings | src/main/java/org/apache/maven/plugins/AbstractLocalRepositoryMojo.java:199-219 | The snapshot and release lists are distinct children of the artifact folder. |
| PassLaws.VersionFoldersByName | src/main/java/org/apache/maven/plugins/AbstractLocalRepositoryMojo.java:199-219 | The snapshot and release lists are each in ascending name order. |
| PassLaws.CountCandidatesExactly | src/main/java/org/apache/maven/plugins/AbstractLocalRepositoryMojo.java:292 | A version folder is flagged by the count rule if and only if the count is not negative and the folder's position is at least the count. |
| PassLaws.CountKeepsFirstByName | src/main/java/org/apache/maven/plugins/AbstractLocalRepositoryMojo.java:292 | Every folder the count rule keeps comes before, and has a name no greater than, every folder it flags. |
| PassLaws.VersionExpirationExactly | src/main/java/org/apache/maven/plugins/AbstractLocalRepositoryMojo.java:290-300 | The count rule logs exactly its candidates and leaves the kept folders untouched. With immediate deletion, the disk afterwards is the starting disk with exactly the candidates, and everything beneath them, deleted. |
| PassLaws.DelayExpirationExactly | src/main/java/org/apache/maven/plugins/AbstractLocalRepositoryMojo.java:267-280 | The delay rule logs a folder if and only if the delay is not negative and the folder is more than `delay` days old. With immediate deletion, the disk afterwards is the starting disk with exactly those folders, and everything beneath them, deleted. |
| PassLaws.ListCurrentRules | src/main/java/org/apache/maven/plugins/AbstractLocalRepositoryMojo.java:205-212 | In the list goal, the two rules leave the disk and queue alone and log the count candidates followed by the expired folders. A folder in both is logged twice. |
| PassLaws.CleanRelogsCountExpired | src/main/java/org/apache/maven/plugins/AbstractLocalRepositoryMojo.java:207-211 | In the clean goal, every folder the count rule deleted is logged again by the delay rule on the shared list. |
| PassLaws.RegularExpressionExactly | src/main/java/org/apache/maven/plugins/AbstractLocalRepositoryMojo.java:332-346 | The expression pass logs a file if and only if it is listed and its rendered path matches. With immediate deletion, the disk afterwards is the starting disk with exactly those files deleted. |
| PassLaws.EmptyFoldersExactly | src/main/java/org/apache/maven/plugins/AbstractLocalRepositoryMojo.java:358-375 | The empty-folder pass logs a folder if and only if it lies beneath the root and has no file beneath it. It logs them deepest first and deletes no file. With immediate deletion, the disk afterwards is the starting disk with exactly those folders deleted. |
| PassLaws.ArtifactSnapshotsWithoutDeletion | src/main/java/org/apache/maven/plugins/AbstractLocalRepositoryMojo.java:317-319 | Without immediate deletion, one artifact's two rules leave the disk alone and log the count candidates followed by the expired snapshots. |
| PassLaws.ArtifactSnapshotsWithDeletion | src/main/java/org/apache/maven/plugins/AbstractLocalRepositoryMojo.java:317-319 | With immediate deletion, the delay rule sees the snapshot folders listed again after the count rule, so no folder is logged by both rules. The disk afterwards is the starting disk with exactly the count candidates and then the expired folders deleted. |
| PassLaws.AllSnapshotsDeletesLogged | src/main/java/org/apache/maven/plugins/AbstractLocalRepositoryMojo.java:311-322 | With immediate deletion, the all-snapshots pass leaves the starting disk with exactly the folders it logged deleted. |
| PassLaws.AllSnapshotsWithoutDeletion | src/main/java/org/apache/maven/plugins/AbstractLocalRepositoryMojo.java:311-322 | Without immediate deletion, the all-snapshots pass leaves the disk alone and logs, artifact by artifact, what both rules flag. |
| RunLaws.FailureChangesNothing | src/main/java/org/apache/maven/plugins/AbstractLocalRepositoryMojo.java:185 | The goal fails if and only if validation fails, and then the disk, queue and log are untouched. |
| RunLaws.ListGoalLeavesDiskAlone | src/main/java/org/apache/maven/plugins/AbstractLocalRepositoryMojo.java:182-257 | The list goal neither deletes nor queues anything. |
| RunLaws.DeferredLeavesDiskAlone | src/main/java/org/apache/maven/plugins/AbstractLocalRepositoryMojo.java:182-257 | With `executeDeleteOnExit`, the goal does not change the disk during the run. |
| RunLaws.ListGoalRepeatable | src/main/java/org/apache/maven/plugins/AbstractLocalRepositoryMojo.java:182-257 | A second list run, started from the first run's validated parameters and state, fails the same way and appends the same report again. |
| RunLaws.WholeRepositoryPurge | src/main/java/org/apache/maven/plugins/AbstractLocalRepositoryMojo.java:189-194 | With the whole purge requested, only the execution root acts: it logs the root once and, in the clean goal, deletes or queues the root. Other modules change nothing. |
| RunLaws.NonRootTouchesOnlyCurrentArtifact | src/main/java/org/apache/maven/plugins/AbstractLocalRepositoryMojo.java:197-227 | Outside the execution root, the goal changes nothing outside the current artifact folder and logs only version folders of that artifact. |
| RunLaws.CurrentRulesScope | src/main/java/org/apache/maven/plugins/AbstractLocalRepositoryMojo.java:205-224 | The current-artifact rules log only the folders they are given and change nothing outside the artifact folder. |
| RunLaws.CleanDeletesExactlyLogged | src/main/java/org/apache/maven/plugins/AbstractLocalRepositoryMojo.java:182-257 | In the clean goal without `executeDeleteOnExit`, the goal only appends to the log, and the disk afterwards is the starting disk with exactly the logged paths, and everything beneath them, deleted. |
| RunLaws.PassesDeletesLogged | src/main/java/org/apache/maven/plugins/AbstractLocalRepositoryMojo.java:189-255 | With immediate deletion, all the passes after validation delete exactly what they log. |
| RunLaws.RepositoryPassesDeletesLogged | src/main/java/org/apache/maven/plugins/AbstractLocalRepositoryMojo.java:227-255 | With immediate deletion, the expression, all-snapshots and empty-folder passes together delete exactly what they log. |
| RunLaws.CurrentRulesDeletesLogged | src/main/java/org/apache/maven/plugins/AbstractLocalRepositoryMojo.java:205-224 | With immediate deletion, the count rule followed by the delay rule deletes exactly what they log. |
| RunLaws.PassesWithoutDeletion | src/main/java/org/apache/maven/plugins/AbstractLocalRepositoryMojo.java:196-255 | In the list goal or with deferred deletion, all the passes together leave the disk as it was. |
| RunLaws.DefaultPolicyIsExplicitPolicy | src/main/java/org/apache/maven/plugins/AbstractLocalRepositoryMojo.java:497-506 | With nothing configured, a run fails and ends exactly as a run given the default policy explicitly. |
| Scenarios.FixtureCountKeepsTwo | src/test/java/org/apache/maven/plugins/TestLocalRepositoryMojo.java:126-144 | However the host lists the fixture's folders 1.0, 2.0 and 3.0-SNAPSHOT, the ordered listing is 1.0, 2.0, 3.0, and a count of 2 flags only 3.0-SNAPSHOT. |
| Scenarios.FixtureCountOnDisk | src/test/java/org/apache/maven/plugins/TestLocalRepositoryMojo.java:126-144 | On the fixture's disk, with immediate deletion, a count of 2 deletes 3.0-SNAPSHOT and its jar and keeps 1.0-SNAPSHOT and 2.0-SNAPSHOT with their jars. |
| Scenarios.FixtureAges | src/test/java/org/apache/maven/plugins/TestLocalRepositoryMojo.java:101-118 | Jars last changed 1, 2 and 3 days ago make their version folders 1, 2 and 3 days old. |
| Scenarios.FixtureDelayOfOne | src/test/java/org/apache/maven/plugins/TestLocalRepositoryMojo.java:101-118 | With a delay of 1, 2.0-SNAPSHOT and 3.0-SNAPSHOT are flagged and 1.0-SNAPSHOT stays. This holds at any time of day. |
| Scenarios.FixtureDelayOnDisk | src/test/java/org/apache/maven/plugins/TestLocalRepositoryMojo.java:101-118 | On the fixture's disk, with immediate deletion, a delay of 1 deletes 2.0-SNAPSHOT and 3.0-SNAPSHOT with their jars and keeps 1.0-SNAPSHOT with its jar. |
| Scenarios.ReleaseCountZeroDeletesAll | src/test/java/org/apache/maven/plugins/TestLocalRepositoryMojo.java:178-196 | A release count of 0 logs every release folder of the artifact, in order. With immediate deletion, it deletes each of them with everything beneath it and nothing else. |
| Scenarios.LexicalNotSemantic | src/main/java/org/apache/maven/plugins/AbstractLocalRepositoryMojo.java:199 | `10.0` sorts before `9.0`, so a count of 1 flags `9.0`. |

## Left out

- `Tools`, `MavenUtils` and `Enumeres` are not part of this model. Their behaviour is stated from how the mojo uses them:
  - `listSubFoldersOrdered` is taken as an ascending lexical sort by name.
  - `listFiles` and `listFolders` are taken as recursive listings in host order that exclude the root.
  - `getSnapshotArtifacts` is taken as the grandparent folders of the files in a `-SNAPSHOT` folder.
  - `getSnapshots` and `getReleases` are taken as filters on the `-SNAPSHOT` name suffix. The listing they filter is taken as sorted by name, as `listSubFoldersOrdered` returns it, and the filters keep that order.
- The `Set` that `getSnapshotArtifacts` returns has no defined iteration order. The model visits artifacts in the order they are first seen among the files.
- The regular expression engine (`Pattern.compile`, case-insensitive matching) is given as two parameters: `compiles` and `matches`.
- `Tools.compareDaysBetweenDates` is not part of this model. A day count is the difference of UTC day numbers, with the clock `now` given as a parameter. Time zones and daylight saving are not modelled.
- Deletion always succeeds. The failures that `deleteQuietly` swallows, and partial deletes, are not modelled.
- Log lines are reduced to their verb and path. The prefix strings and the logger are not modelled.
- Maven plumbing is given as parameters: parameter injection, `MavenProject`, `isExecutionRoot` and `ArtifactRepository.getBasedir`.
- `CleanLocalRepositoryMojo` and the list goal's subclass are folded into the `Mode` parameter that `isDeleteModeActivated` reads.
- Retention knobs and day counts are unbounded integers. Java's 32-bit `int` overflow on knob values near `Integer.MAX_VALUE` is not modelled.
- Validation's exception messages are reduced to the error's kind, option and value.
- Mojo.LocalRepositoryMojo.InitializeAndCheckMojoContext: reports a release knob below -1 under its own option (`Configuration.Validate`). The source names the snapshot options at lines 473 and 479. That as-written behaviour is `Configuration.ValidateAsWritten`, and the Findings table records the difference.
- Mojo.LocalRepositoryMojo.ExecuteCleanLocalRepositoryGoals: fails with the corrected error of `Configuration.Validate` for a release knob below -1, not the snapshot option named at lines 473 and 479 (see `Configuration.ValidateAsWritten` and Findings).

## Findings

| source | as written | input that shows it | evidently intended | confidence | as-written member | corrected member |
|---|---|---|---|---|---|---|
| src/main/java/org/apache/maven/plugins/AbstractLocalRepositoryMojo.java:471-481 | The errors for `releaseRetentionDelay` and `releaseVersionsRetention` below -1 name the options `SNAPSHOT_RETENTION_DELAY` and `SNAPSHOT_VERSIONS_RETENTION`. | snapshot knobs 0, `releaseRetentionDelay` = -2: the error names the snapshot delay option with value -2, while the snapshot delay is 0. | Each error names the release option whose value is out of range. | not executed | Configuration.ReleaseDelayReportedAsSnapshotDelay | Configuration.KnobErrorNamesOffendingKnob |
