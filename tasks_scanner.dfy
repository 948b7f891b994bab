/** The task-scanner reporter: from the build-event log it derives the glob
    pattern of the source directories to scan for FIXME and TODO markers, and
    hands it to the external task scanner.

    The workspace is given by two collaborators: `resolve` turns a declared
    (possibly foreign, absolute) source directory into a workspace-relative
    path, and `existing` is the set of relative paths that exist in the
    workspace. */
module TasksScanner {
  import opened SpyLog
  import Strings

  const ProjectSucceeded := "ProjectSucceeded"
  const ProjectFailed := "ProjectFailed"
  /** The event types whose events are walked. */
  const ExecutionEventTypes: set<string> := {ProjectSucceeded, ProjectFailed}
  /** Appended to a relative source directory to match every file below it. */
  const GlobSuffix := "/**/*"
  const PatternSeparator := ","
  const HighMarker := "FIXME"
  const NormalMarker := "TODO"

  /** What the external scanner is configured with. */
  datatype ScanConfig = ScanConfig(pattern: string, high: string, normal: string)

  /** How a call of the external scanner ends: normally, or with an exception. */
  datatype DispatchResult = Performed | Threw(exception: string)

  /** How a run of the reporter ends; within the model it always ends
      normally. Either the scanner is not installed and nothing is done, or the
      scanner was called
      with `config`, and `ignoredException` holds the exception it raised, which
      is reported and not propagated. */
  datatype Outcome =
    | ScannerNotFound
    | Scanned(config: ScanConfig, ignoredException: Option<string>)

  /** The entries one event adds to the pattern list: none when it has no
      `project/build` child or when its resolved directory does not exist,
      otherwise that directory followed by the glob suffix. */
  function EventPatterns(e: Event, resolve: string -> string, existing: set<string>): seq<string>
  {
    match BuildElement(e)
    case None => []
    case Some(b) =>
      var rel := resolve(b.sourceDirectory);
      if rel in existing then [rel + GlobSuffix] else []
  }

  /** The pattern list built from a sequence of (already type-filtered) events. */
  function SourceDirectoriesPatterns(events: seq<Event>, resolve: string -> string, existing: set<string>): seq<string>
  {
    if events == [] then []
    else EventPatterns(events[0], resolve, existing) + SourceDirectoriesPatterns(events[1..], resolve, existing)
  }

  /** The pattern list built from the whole log. */
  function LogPatterns(log: seq<Event>, resolve: string -> string, existing: set<string>): seq<string>
  {
    SourceDirectoriesPatterns(ExecutionEvents(log, ExecutionEventTypes), resolve, existing)
  }

  /** Independent description of when event `e` yields pattern entry `p`:
      it is a project success or failure, it declares a build, the declared
      source directory resolves to an existing path, and `p` is that path
      with the glob suffix. */
  ghost predicate Yields(e: Event, p: string, resolve: string -> string, existing: set<string>)
  {
    && e.eventType in ExecutionEventTypes
    && e.project.Some?
    && e.project.value.build.Some?
    && resolve(e.project.value.build.value.sourceDirectory) in existing
    && p == resolve(e.project.value.build.value.sourceDirectory) + GlobSuffix
  }

  /** Whether an event of the log yields any entry at all. */
  ghost predicate Contributes(e: Event, resolve: string -> string, existing: set<string>)
  {
    exists p :: Yields(e, p, resolve, existing)
  }

  /** Processing one more event appends that event's entries: the list only grows at its end. */
  lemma {:induction false} PatternsAppend(a: seq<Event>, b: seq<Event>, resolve: string -> string, existing: set<string>)
    ensures SourceDirectoriesPatterns(a + b, resolve, existing)
         == SourceDirectoriesPatterns(a, resolve, existing) + SourceDirectoriesPatterns(b, resolve, existing)
  {
    if a != [] {
      assert (a + b)[0] == a[0];
      assert (a + b)[1..] == a[1..] + b;
      PatternsAppend(a[1..], b, resolve, existing);
    } else {
      assert a + b == b;
    }
  }

  /** Processing one more event appends exactly that event's entries. */
  lemma PatternsStep(done: seq<Event>, e: Event, resolve: string -> string, existing: set<string>)
    ensures SourceDirectoriesPatterns(done + [e], resolve, existing)
         == SourceDirectoriesPatterns(done, resolve, existing) + EventPatterns(e, resolve, existing)
  {
    assert [e][1..] == [];
    PatternsAppend(done, [e], resolve, existing);
  }

  /** The entries of one event, in terms of `Yields`: at most one entry, and
      there is one exactly when the event (type aside) yields it. */
  lemma EventPatternsYield(e: Event, resolve: string -> string, existing: set<string>)
    requires e.eventType in ExecutionEventTypes
    ensures |EventPatterns(e, resolve, existing)| <= 1
    ensures forall p :: p in EventPatterns(e, resolve, existing) <==> Yields(e, p, resolve, existing)
  {
  }

  /** The log's pattern list splits along any split of the log, so the
      entries of earlier events come before the entries of later ones. */
  lemma LogPatternsAppend(a: seq<Event>, b: seq<Event>, resolve: string -> string, existing: set<string>)
    ensures LogPatterns(a + b, resolve, existing) == LogPatterns(a, resolve, existing) + LogPatterns(b, resolve, existing)
  {
    ExecutionEventsAppend(a, b, ExecutionEventTypes);
    PatternsAppend(ExecutionEvents(a, ExecutionEventTypes), ExecutionEvents(b, ExecutionEventTypes), resolve, existing);
  }

  /** The entries of a single-event log are exactly what that event yields. */
  lemma {:induction false} LogPatternsSingle(e: Event, resolve: string -> string, existing: set<string>)
    ensures |LogPatterns([e], resolve, existing)| <= 1
    ensures forall p :: p in LogPatterns([e], resolve, existing) <==> Yields(e, p, resolve, existing)
    ensures LogPatterns([e], resolve, existing) == [] <==> !Contributes(e, resolve, existing)
  {
    assert [e][1..] == [];
    if e.eventType in ExecutionEventTypes {
      assert ExecutionEvents([e], ExecutionEventTypes) == [e];
      assert SourceDirectoriesPatterns([e], resolve, existing) == EventPatterns(e, resolve, existing) + [];
      EventPatternsYield(e, resolve, existing);
      if EventPatterns(e, resolve, existing) != [] {
        assert Yields(e, EventPatterns(e, resolve, existing)[0], resolve, existing);
      }
    } else {
      assert ExecutionEvents([e], ExecutionEventTypes) == [];
    }
  }

  /** An event that yields nothing (wrong type, no `project/build` child, or a
      directory that does not exist) is skipped and processing carries on with
      the events after it. */
  lemma SkippedEvent(a: seq<Event>, e: Event, b: seq<Event>, resolve: string -> string, existing: set<string>)
    requires !Contributes(e, resolve, existing)
    ensures LogPatterns(a + [e] + b, resolve, existing) == LogPatterns(a + b, resolve, existing)
  {
    LogPatternsAppend(a + [e], b, resolve, existing);
    LogPatternsAppend(a, [e], resolve, existing);
    LogPatternsAppend(a, b, resolve, existing);
    LogPatternsSingle(e, resolve, existing);
  }

  /** Every entry of the pattern list comes from some event of the log that
      yields it, and every entry some event yields is in the list. */
  lemma {:induction false} LogPatternsMembership(log: seq<Event>, p: string, resolve: string -> string, existing: set<string>)
    ensures p in LogPatterns(log, resolve, existing) <==> exists k :: 0 <= k < |log| && Yields(log[k], p, resolve, existing)
  {
    if log != [] {
      assert log == [log[0]] + log[1..];
      LogPatternsAppend([log[0]], log[1..], resolve, existing);
      LogPatternsSingle(log[0], resolve, existing);
      LogPatternsMembership(log[1..], p, resolve, existing);
      if exists k :: 0 <= k < |log| && Yields(log[k], p, resolve, existing) {
        var k :| 0 <= k < |log| && Yields(log[k], p, resolve, existing);
        if k > 0 {
          assert log[1..][k - 1] == log[k];
        }
      }
      if exists k :: 0 <= k < |log[1..]| && Yields(log[1..][k], p, resolve, existing) {
        var k :| 0 <= k < |log[1..]| && Yields(log[1..][k], p, resolve, existing);
        assert log[k + 1] == log[1..][k];
      }
    }
  }

  /** A log in which no event contributes gives an empty list, and so an empty pattern. */
  lemma {:induction false} NoContributorsEmptyPattern(log: seq<Event>, resolve: string -> string, existing: set<string>)
    requires forall k :: 0 <= k < |log| ==> !Contributes(log[k], resolve, existing)
    ensures LogPatterns(log, resolve, existing) == []
    ensures Strings.Join(LogPatterns(log, resolve, existing), PatternSeparator) == ""
  {
    if log != [] {
      assert log == [log[0]] + log[1..];
      LogPatternsAppend([log[0]], log[1..], resolve, existing);
      LogPatternsSingle(log[0], resolve, existing);
      assert forall k :: 0 <= k < |log[1..]| ==> log[1..][k] == log[k + 1];
      NoContributorsEmptyPattern(log[1..], resolve, existing);
    }
  }

  /** Event order is kept: when an earlier event `i` and a later event `j`
      both contribute, the entry of `i` stands before the entry of `j`. */
  lemma OrderPreserved(log: seq<Event>, i: nat, j: nat, pi: string, pj: string,
                       resolve: string -> string, existing: set<string>)
    requires i < j < |log|
    requires Yields(log[i], pi, resolve, existing) && Yields(log[j], pj, resolve, existing)
    ensures exists m, n :: 0 <= m < n < |LogPatterns(log, resolve, existing)|
                        && LogPatterns(log, resolve, existing)[m] == pi
                        && LogPatterns(log, resolve, existing)[n] == pj
  {
    var front, back := log[..j], log[j..];
    assert log == front + back;
    LogPatternsAppend(front, back, resolve, existing);
    assert front[i] == log[i];
    LogPatternsMembership(front, pi, resolve, existing);
    var P1 := LogPatterns(front, resolve, existing);
    var m :| 0 <= m < |P1| && P1[m] == pi;
    assert back == [log[j]] + back[1..];
    LogPatternsAppend([log[j]], back[1..], resolve, existing);
    LogPatternsSingle(log[j], resolve, existing);
    var P2 := LogPatterns(back, resolve, existing);
    assert P2[0] in LogPatterns([log[j]], resolve, existing);
    assert P2[0] == pj;
    var P := LogPatterns(log, resolve, existing);
    assert P == P1 + P2;
    assert P[m] == pi && P[|P1|] == pj;
  }

  /** When no existing path contains a comma, the comma-separated pattern has
      exactly one piece per entry, and the pieces are the entries in order. */
  lemma PatternPieces(log: seq<Event>, resolve: string -> string, existing: set<string>)
    requires forall rel :: rel in existing ==> ',' !in rel
    requires LogPatterns(log, resolve, existing) != []
    ensures Strings.Split(Strings.Join(LogPatterns(log, resolve, existing), PatternSeparator), ',')
         == LogPatterns(log, resolve, existing)
  {
    var P := LogPatterns(log, resolve, existing);
    forall k | 0 <= k < |P| ensures ',' !in P[k] {
      LogPatternsMembership(log, P[k], resolve, existing);
      var i :| 0 <= i < |log| && Yields(log[i], P[k], resolve, existing);
      var rel := resolve(log[i].project.value.build.value.sourceDirectory);
      assert P[k] == rel + GlobSuffix;
      assert ',' !in GlobSuffix;
    }
    Strings.SplitJoin(P, ',');
  }

  /** One run of the reporter.

      When the scanner is not installed the run ends at once. Otherwise the
      project success and failure events are walked in log order; an event
      without a `project/build` child is skipped; the declared source
      directory is resolved against the workspace and, when it exists, its
      glob is appended. The list is joined with commas and passed to the
      scanner with FIXME as high and TODO as normal marker; an exception from
      the scanner is recorded in the outcome and, within the model, the run
      still ends normally. */
  method Process(log: seq<Event>, scannerAvailable: bool, resolve: string -> string,
                 existing: set<string>, perform: ScanConfig -> DispatchResult)
    returns (outcome: Outcome)
    ensures !scannerAvailable <==> outcome == ScannerNotFound
    ensures scannerAvailable ==>
      var config := ScanConfig(Strings.Join(LogPatterns(log, resolve, existing), PatternSeparator),
                               HighMarker, NormalMarker);
      && outcome.Scanned?
      && outcome.config == config
      && (outcome.ignoredException.Some? <==> perform(config).Threw?)
      && (outcome.ignoredException.Some? ==> outcome.ignoredException.value == perform(config).exception)
  {
    if !scannerAvailable {
      return ScannerNotFound;
    }

    var events := ExecutionEvents(log, ExecutionEventTypes);
    var sourceDirectoriesPatterns: seq<string> := [];
    for i := 0 to |events|
      invariant sourceDirectoriesPatterns == SourceDirectoriesPatterns(events[..i], resolve, existing)
    {
      var executionEvent := events[i];
      assert events[..i + 1] == events[..i] + [executionEvent];
      PatternsStep(events[..i], executionEvent, resolve, existing);

      var buildElement := BuildElement(executionEvent);
      if buildElement.None? {
        assert EventPatterns(executionEvent, resolve, existing) == [];
        continue;
      }
      var sourceDirectory := buildElement.value.sourceDirectory;
      var sourceDirectoryRelativePath := resolve(sourceDirectory);
      assert EventPatterns(executionEvent, resolve, existing)
          == if sourceDirectoryRelativePath in existing then [sourceDirectoryRelativePath + GlobSuffix] else [];
      if sourceDirectoryRelativePath in existing {
        sourceDirectoriesPatterns := sourceDirectoriesPatterns + [sourceDirectoryRelativePath + GlobSuffix];
      }
    }
    assert events[..|events|] == events;

    var pattern := Strings.Join(sourceDirectoriesPatterns, PatternSeparator);
    var config := ScanConfig(pattern, HighMarker, NormalMarker);
    match perform(config)
    case Performed =>
      outcome := Scanned(config, None);
    case Threw(e) =>
      outcome := Scanned(config, Some(e));
  }

  /** Example: two succeeded projects whose directories exist give their
      globs joined with a comma, in event order. */
  lemma TwoProjectsInOrder(p1: Project, p2: Project, resolve: string -> string, existing: set<string>)
    requires p1.build.Some? && resolve(p1.build.value.sourceDirectory) in existing
    requires p2.build.Some? && resolve(p2.build.value.sourceDirectory) in existing
    ensures
      var log := [Event(ProjectSucceeded, Some(p1)), Event(ProjectSucceeded, Some(p2))];
      Strings.Join(LogPatterns(log, resolve, existing), PatternSeparator)
        == resolve(p1.build.value.sourceDirectory) + "/**/*" + "," + resolve(p2.build.value.sourceDirectory) + "/**/*"
  {
    var e1, e2 := Event(ProjectSucceeded, Some(p1)), Event(ProjectSucceeded, Some(p2));
    var r1, r2 := resolve(p1.build.value.sourceDirectory), resolve(p2.build.value.sourceDirectory);
    var log := [e1, e2];
    assert log[1..] == [e2] && [e2][1..] == [];
    assert ExecutionEvents(log, ExecutionEventTypes) == log;
    assert EventPatterns(e1, resolve, existing) == [r1 + GlobSuffix];
    assert EventPatterns(e2, resolve, existing) == [r2 + GlobSuffix];
    assert SourceDirectoriesPatterns([e2], resolve, existing) == [r2 + GlobSuffix];
    assert SourceDirectoriesPatterns(log, resolve, existing) == [r1 + GlobSuffix, r2 + GlobSuffix];
  }

  /** Example: a failed project event without a `build` child gives the empty pattern. */
  lemma FailedWithoutBuildEmpty(resolve: string -> string, existing: set<string>)
    ensures
      var log := [Event(ProjectFailed, Some(Project("g", "a", "1", "A", "", "", None)))];
      Strings.Join(LogPatterns(log, resolve, existing), PatternSeparator) == ""
  {
    var e := Event(ProjectFailed, Some(Project("g", "a", "1", "A", "", "", None)));
    LogPatternsSingle(e, resolve, existing);
  }
}
