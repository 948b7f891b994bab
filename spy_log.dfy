/** The build-event log written by the Maven spy, as values.
    An `ExecutionEvent` element carries a `type` attribute and, for project
    lifecycle events, a nested `project` element that may itself hold a
    `build` element with the declared source directory. */
module SpyLog {

  datatype Option<+T> = None | Some(value: T)

  /** `<build sourceDirectory=".." directory=".."/>`; an attribute that is not
      declared reads as the empty string, as a DOM attribute lookup does. */
  datatype Build = Build(sourceDirectory: string, directory: string)

  /** `<project ..>`; the identity attributes only serve diagnostics. */
  datatype Project = Project(
    groupId: string,
    artifactId: string,
    version: string,
    name: string,
    baseDir: string,
    file: string,
    build: Option<Build>)

  /** `<ExecutionEvent type=".."> <project ..> .. </ExecutionEvent>` */
  datatype Event = Event(eventType: string, project: Option<Project>)

  /** The `build` element below the event's `project` element, or None when
      either of the two is missing. */
  function BuildElement(e: Event): Option<Build>
  {
    match e.project
    case None => None
    case Some(p) => p.build
  }

  /** The events of the log whose type is one of `types`, in log order. */
  function ExecutionEvents(log: seq<Event>, types: set<string>): (r: seq<Event>)
    ensures |r| <= |log|
    ensures forall k :: 0 <= k < |r| ==> r[k].eventType in types
  {
    if log == [] then []
    else (if log[0].eventType in types then [log[0]] else []) + ExecutionEvents(log[1..], types)
  }

  /** Filtering distributes over concatenation: what is kept from a log is
      what is kept from its first part followed by what is kept from the rest. */
  lemma {:induction false} ExecutionEventsAppend(a: seq<Event>, b: seq<Event>, types: set<string>)
    ensures ExecutionEvents(a + b, types) == ExecutionEvents(a, types) + ExecutionEvents(b, types)
  {
    if a != [] {
      assert (a + b)[0] == a[0];
      assert (a + b)[1..] == a[1..] + b;
      ExecutionEventsAppend(a[1..], b, types);
    } else {
      assert a + b == b;
    }
  }

  /** An event is kept exactly when it occurs in the log with a matching type. */
  lemma {:induction false} ExecutionEventsMembership(log: seq<Event>, types: set<string>, e: Event)
    ensures e in ExecutionEvents(log, types) <==> e in log && e.eventType in types
  {
    if log != [] {
      ExecutionEventsMembership(log[1..], types, e);
      assert log == [log[0]] + log[1..];
    }
  }
}
