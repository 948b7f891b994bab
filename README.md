# Task-scanner reporter of the Pipeline Maven plugin, modelled in Dafny

After a Maven build, `TasksScannerReporter.process` reads the build-event log
written by the Maven spy. It collects the source directories of the projects
that succeeded or failed. It hands their glob pattern to the Task Scanner
plugin, which looks for `FIXME` (high) and `TODO` (normal) markers.

This project models that run and proves what the pattern holds:

- `spy_log.dfy` (module `SpyLog`) describes the event log as datatypes:
  `Event(eventType, project)`, `Project(.., build)`, `Build(sourceDirectory, directory)`.
  It also holds the lookup of the `project/build` child and the filter that
  selects events by type.
- `strings.dfy` (module `Strings`) defines joining with a separator and its
  inverse, splitting at a separator character.
- `tasks_scanner.dfy` (module `TasksScanner`) holds `Process`, the run itself.
  It is a method with a loop that appends to a local sequence. The source
  appends to an `ArrayList` that nothing else refers to, so no behaviour is
  lost. The loop invariant ties the list to the specification
  function `SourceDirectoriesPatterns` over the events processed so far.
  Lemmas about that specification prove the filtering, ordering and
  joined-string properties.

The workspace and the other collaborators are given as parameters:

- `resolve: string -> string` stands for `XmlUtils.getPathInWorkspace`. It
  turns a declared source directory into a workspace-relative path. Its body
  is not part of this model. The only assumption is that it always returns a
  path: as a total function it never fails or throws.
- `existing: set<string>` holds the relative paths that exist in the
  workspace. It stands for `workspace.child(p).exists()`.
- `scannerAvailable: bool` is the result of the probe for the Task Scanner
  plugin's class.
- `perform: ScanConfig -> DispatchResult` stands for the external scanner
  call. It either completes or throws an exception (`Threw(message)`).

`Outcome` records how a run ends. `ScannerNotFound` means the run stopped
early. `Scanned(config, ignoredException)` gives the configuration handed to
the scanner and the exception it threw, if any. That exception is swallowed,
so within the model the run still ends normally.

Three behaviours of `process` are worth noting:

- An empty `sourceDirectory` is resolved and checked like any other value
  (lines 81-85). It is not skipped specially.
- The list is not deduplicated (line 86). Two events with the same existing
  directory give the same entry twice.
- The entries are joined with `,` and nothing escapes a comma (line 94). A
  directory whose name contains a comma therefore breaks the pattern into
  the wrong pieces. For example, an existing path `a,b` gives `a,b/**/*`,
  which splits into two pieces for one entry. This is why
  `TasksScanner.PatternPieces` requires comma-free paths.

## Model

| member | source | states |
|---|---|---|
| `SpyLog.ExecutionEvents` | jenkins-plugin/src/main/java/org/jenkinsci/plugins/pipeline/maven/reporters/TasksScannerReporter.java:62 | the events selected from the log are no more than the log's, and each has one of the requested types |
| `SpyLog.ExecutionEventsMembership` | jenkins-plugin/src/main/java/org/jenkinsci/plugins/pipeline/maven/reporters/TasksScannerReporter.java:62 | an event is selected exactly when it is in the log and its type is requested (both directions) |
| `SpyLog.ExecutionEventsAppend` | jenkins-plugin/src/main/java/org/jenkinsci/plugins/pipeline/maven/reporters/TasksScannerReporter.java:62 | selection keeps log order: selecting from `a + b` is selecting from `a` followed by selecting from `b` |
| `Strings.SplitJoin` | jenkins-plugin/src/main/java/org/jenkinsci/plugins/pipeline/maven/reporters/TasksScannerReporter.java:94 | splitting a join of one or more separator-free parts gives the parts back, so there are as many pieces as parts |
| `Strings.JoinSplit` | jenkins-plugin/src/main/java/org/jenkinsci/plugins/pipeline/maven/reporters/TasksScannerReporter.java:94 | joining the pieces of any string with the separator rebuilds that string |
| `TasksScanner.Process` | jenkins-plugin/src/main/java/org/jenkinsci/plugins/pipeline/maven/reporters/TasksScannerReporter.java:41-105 | with the scanner absent the run ends with `ScannerNotFound` and nothing else; otherwise the scanner gets the entries of the log joined with `,`, `FIXME` as high and `TODO` as normal marker; an exception from the scanner is recorded and, within the model, the run still ends normally |
| `TasksScanner.PatternsAppend` | jenkins-plugin/src/main/java/org/jenkinsci/plugins/pipeline/maven/reporters/TasksScannerReporter.java:61-91 | the list only grows at its end: the entries of `a + b` are those of `a` followed by those of `b` |
| `TasksScanner.LogPatternsAppend` | jenkins-plugin/src/main/java/org/jenkinsci/plugins/pipeline/maven/reporters/TasksScannerReporter.java:61-91 | the same for the whole log, including the type filter, so earlier events' entries come first |
| `TasksScanner.LogPatternsSingle` | jenkins-plugin/src/main/java/org/jenkinsci/plugins/pipeline/maven/reporters/TasksScannerReporter.java:62-90 | one event gives at most one entry; an entry is given exactly when the event is a project success or failure with a `project/build` child whose resolved directory exists, and it is that directory plus `/**/*` |
| `TasksScanner.SkippedEvent` | jenkins-plugin/src/main/java/org/jenkinsci/plugins/pipeline/maven/reporters/TasksScannerReporter.java:62-90 | an event that gives nothing (other type, no `project/build`, missing directory) leaves the entries of all other events, before and after it, unchanged |
| `TasksScanner.LogPatternsMembership` | jenkins-plugin/src/main/java/org/jenkinsci/plugins/pipeline/maven/reporters/TasksScannerReporter.java:81-90 | a string is an entry exactly when some event of the log gives it, that is, it is `resolve(sourceDirectory) + "/**/*"` for an event whose resolved directory exists (both directions) |
| `TasksScanner.NoContributorsEmptyPattern` | jenkins-plugin/src/main/java/org/jenkinsci/plugins/pipeline/maven/reporters/TasksScannerReporter.java:61-94 | when no event gives an entry, the list is empty and the joined pattern is the empty string |
| `TasksScanner.OrderPreserved` | jenkins-plugin/src/main/java/org/jenkinsci/plugins/pipeline/maven/reporters/TasksScannerReporter.java:61-91 | when an earlier and a later event both give entries, the earlier one's entry comes before the later one's in the list |
| `TasksScanner.PatternPieces` | jenkins-plugin/src/main/java/org/jenkinsci/plugins/pipeline/maven/reporters/TasksScannerReporter.java:94 | for a non-empty list, when no existing path holds a comma, splitting the pattern at commas gives exactly the entries, in order, one piece per entry |
| `TasksScanner.TwoProjectsInOrder` | jenkins-plugin/src/main/java/org/jenkinsci/plugins/pipeline/maven/reporters/TasksScannerReporter.java:61-94 | two succeeded projects whose resolved directories `r1`, `r2` exist give exactly the pattern `r1/**/*,r2/**/*`, in event order |
| `TasksScanner.FailedWithoutBuildEmpty` | jenkins-plugin/src/main/java/org/jenkinsci/plugins/pipeline/maven/reporters/TasksScannerReporter.java:72-94 | a failed project event without a `build` child gives the empty pattern, whatever the workspace |

## Left out

- Getting the listener, workspace, run and launcher from the step context, and falling back to stderr when there is no listener (lines 42-49): this is host wiring.
- The reflective class probe (line 53) is the boolean `scannerAvailable`.
- All logging, the hyperlink, and the artifact identity built only for messages (lines 55-57, 74-75, 78-79, 87, 89, 102-103). `Project` keeps the identity attributes, but nothing reads them.
- XML parsing and the `XmlUtils` helpers are not part of this model. The DOM is the `Event`/`Project`/`Build` datatypes. `getExecutionEvents` is a type filter that keeps document order. `getUniqueChildElementOrNull` is `BuildElement`. `getPathInWorkspace` is the parameter `resolve`, assumed only to always return a path, so the path-stripping heuristic is not modelled. `join` is a conventional separator join.
- Workspace existence checks are not modelled as I/O. They are membership in the set `existing`, taken as fixed for the whole run.
- `TasksPublisher` is external. Its configuration through setters (lines 93-97) is the value `ScanConfig`, and `perform` (line 100) is the parameter `perform`. The model does not say what the scanner does with the pattern.
- Only an `Exception` from `perform` is caught (line 101); an `Error` thrown by the scanner propagates out of `process`, and the model does not represent that.
- The `IOException` and `InterruptedException` that `process` declares (line 41) are not modelled, for example from the existence check at line 85. Neither is any exception from `getPathInWorkspace` at line 83, which is outside the `try`. Both would escape `process`.
