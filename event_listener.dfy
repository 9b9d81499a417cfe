/**
 * `MemoryStreamEventListener`: which event sources it subscribes to, which
 * lifecycle events it reports, and the line it composes from an event's
 * payload — the joined arguments, and for a finalized (leaked) stream the
 * stack trace captured when the stream was created.
 */
module MemoryStreamEvents {
  import opened Wrappers
  import opened DotNetStrings

  const MemoryStreamCreated := "MemoryStreamCreated"
  const MemoryStreamDisposed := "MemoryStreamDisposed"
  const MemoryStreamFinalized := "MemoryStreamFinalized"

  /** The events reported, compared ordinally (case-sensitively). */
  const Events: set<string> := {MemoryStreamCreated, MemoryStreamDisposed, MemoryStreamFinalized}

  /** The event source of the recyclable memory stream library. */
  const SourceName := "Microsoft-IO-RecyclableMemoryStream"

  /** How every captured allocation stack trace begins. */
  const StackTracePrefix := "   at System.Environment.get_StackTrace()"

  // ---------------------------------------------------------------------------
  // Subscribing
  // ---------------------------------------------------------------------------

  datatype EventLevel = LogAlways | Critical | Error | Warning | Informational | Verbose

  /** The arguments of `EnableEvents`: level, whether all keywords are on, and the extra arguments. */
  datatype Subscription = Subscription(level: EventLevel, allKeywords: bool, arguments: map<string, string>)

  /**
   * `OnEventSourceCreated`: only the recyclable memory stream source is
   * enabled, at the verbose level with every keyword and a one-second
   * counter interval.
   */
  function OnEventSourceCreated(sourceName: string): (s: Option<Subscription>)
    ensures s.Some? <==> sourceName == SourceName
    ensures s.Some? ==> s.value.level == Verbose && s.value.allKeywords
                        && s.value.arguments == map["EventCounterIntervalSec" := "1"]
  {
    if sourceName == SourceName then Some(Subscription(Verbose, true, map["EventCounterIntervalSec" := "1"]))
    else None
  }

  // ---------------------------------------------------------------------------
  // Payload
  // ---------------------------------------------------------------------------

  /** A payload argument: a string, or another object shown by its `ToString()`. */
  datatype Arg = Str(s: string) | Other(text: string)

  /** The text `string.Join` writes for an argument. */
  function ArgText(a: Arg): string {
    match a
    case Str(s) => s
    case Other(text) => text
  }

  /** A string argument holding a captured stack trace; other objects never count as one. */
  predicate IsStackTrace(a: Arg) {
    a.Str? && StartsWith(a.s, StackTracePrefix)
  }

  /** `Where(x => x != null)`: the entries that are present, in order. */
  function Compact(entries: seq<Option<Arg>>): (args: seq<Arg>)
    ensures |args| <= |entries|
  {
    if entries == [] then []
    else if entries[0].Some? then [entries[0].value] + Compact(entries[1..])
    else Compact(entries[1..])
  }

  /** `Compact` keeps exactly the present entries. */
  lemma {:induction false} CompactMembers(entries: seq<Option<Arg>>, a: Arg)
    ensures a in Compact(entries) <==> Some(a) in entries
    decreases |entries|
  {
    if entries != [] {
      CompactMembers(entries[1..], a);
      assert Some(a) in entries <==> Some(a) == entries[0] || Some(a) in entries[1..];
    }
  }

  /** `Payload?.Where(x => x != null).ToList() ?? new List<object>()`. */
  function NonNullArgs(payload: Option<seq<Option<Arg>>>): (args: seq<Arg>)
    ensures payload.None? ==> args == []
    ensures payload.Some? ==> |args| <= |payload.value|
  {
    match payload
    case None => []
    case Some(entries) => Compact(entries)
  }

  lemma {:induction false} CompactConcat(a: seq<Option<Arg>>, b: seq<Option<Arg>>)
    ensures Compact(a + b) == Compact(a) + Compact(b)
    decreases |a|
  {
    if a == [] {
      assert a + b == b;
    } else {
      assert (a + b)[1..] == a[1..] + b;
      CompactConcat(a[1..], b);
    }
  }

  /** The arguments that go into the message: every one that is not a stack trace, in order. */
  function MessageArgs(args: seq<Arg>): (kept: seq<Arg>)
    ensures |kept| <= |args|
  {
    if args == [] then []
    else if IsStackTrace(args[0]) then MessageArgs(args[1..])
    else [args[0]] + MessageArgs(args[1..])
  }

  /** `MessageArgs` keeps exactly the arguments that are not stack traces. */
  lemma {:induction false} MessageArgsMembers(args: seq<Arg>, a: Arg)
    ensures a in MessageArgs(args) <==> a in args && !IsStackTrace(a)
    decreases |args|
  {
    if args != [] {
      MessageArgsMembers(args[1..], a);
      assert a in args <==> a == args[0] || a in args[1..];
    }
  }

  lemma {:induction false} MessageArgsConcat(a: seq<Arg>, b: seq<Arg>)
    ensures MessageArgs(a + b) == MessageArgs(a) + MessageArgs(b)
    decreases |a|
  {
    if a == [] {
      assert a + b == b;
    } else {
      assert (a + b)[1..] == a[1..] + b;
      MessageArgsConcat(a[1..], b);
    }
  }

  /** The texts of the arguments, in order. */
  function Texts(args: seq<Arg>): (ts: seq<string>)
    ensures |ts| == |args|
    ensures forall i :: 0 <= i < |args| ==> ts[i] == ArgText(args[i])
  {
    seq(|args|, i requires 0 <= i < |args| => ArgText(args[i]))
  }

  /** `string.Join(", ", args.Where(x => !IsStackTrace(x)))`. */
  function Message(args: seq<Arg>): string {
    Join(", ", Texts(MessageArgs(args)))
  }

  /**
   * `FirstOrDefault(IsStackTrace) as string`: the first stack-trace argument,
   * or none when there is none.
   */
  function FirstStackTrace(args: seq<Arg>): (r: Option<string>)
    ensures r.None? <==> forall i :: 0 <= i < |args| ==> !IsStackTrace(args[i])
    ensures r.Some? ==> exists i :: 0 <= i < |args| && args[i] == Str(r.value) && IsStackTrace(args[i])
                                    && forall j :: 0 <= j < i ==> !IsStackTrace(args[j])
  {
    if args == [] then None
    else if IsStackTrace(args[0]) then
      assert args[0] == Str(args[0].s);
      Some(args[0].s)
    else
      var r := FirstStackTrace(args[1..]);
      assert forall i :: 1 <= i < |args| ==> args[i] == args[1..][i - 1];
      r
  }

  // ---------------------------------------------------------------------------
  // Reporting
  // ---------------------------------------------------------------------------

  /** `new MemoryStreamException(message, stackTrace)`: the stack trace may be null. */
  datatype MemoryStreamException = MemoryStreamException(message: string, stackTrace: Option<string>)

  /** What one reported event writes: its name, its message and, for a finalized stream, the exception. */
  datatype Report = Report(eventName: string, message: string, exception: Option<MemoryStreamException>)

  /**
   * `OnEventWritten`: an event named outside `Events` (or with no name) is not
   * reported. A reported event carries the message of its present, non-stack-
   * trace arguments; a finalized one also carries an exception named after the
   * event whose stack trace is the first stack-trace argument.
   */
  function OnEventWritten(eventName: Option<string>, payload: Option<seq<Option<Arg>>>): (r: Option<Report>)
    ensures r.Some? <==> eventName.Some? && eventName.value in Events
    ensures r.Some? ==> r.value.eventName == eventName.value
                        && r.value.message == Message(NonNullArgs(payload))
                        && (r.value.exception.Some? <==> eventName.value == MemoryStreamFinalized)
    ensures r.Some? && r.value.exception.Some? ==>
              r.value.exception.value
              == MemoryStreamException(MemoryStreamFinalized, FirstStackTrace(NonNullArgs(payload)))
  {
    match eventName
    case None => None
    case Some(name) =>
      if name !in Events then None
      else
        var args := NonNullArgs(payload);
        var message := Message(args);
        if name == MemoryStreamFinalized then
          Some(Report(name, message, Some(MemoryStreamException(name, FirstStackTrace(args)))))
        else
          Some(Report(name, message, None))
  }

  /**
   * The console line: `[{name}] {message}`, followed by `, {exception}` for a
   * finalized stream; how the exception renders itself is `showException`.
   */
  function Line(report: Report, showException: MemoryStreamException -> string): (line: string)
    ensures StartsWith(line, "[" + report.eventName + "] " + report.message)
    ensures report.exception.None? ==> line == "[" + report.eventName + "] " + report.message
    ensures report.exception.Some? ==>
              line == "[" + report.eventName + "] " + report.message + ", " + showException(report.exception.value)
  {
    var head := "[" + report.eventName + "] " + report.message;
    match report.exception
    case None => head
    case Some(e) => head + ", " + showException(e)
  }

  // ---------------------------------------------------------------------------
  // Properties
  // ---------------------------------------------------------------------------

  /** Names are compared case-sensitively: a differently cased name is not reported. */
  lemma EventNamesAreCaseSensitive(payload: Option<seq<Option<Arg>>>)
    ensures OnEventWritten(Some("memorystreamcreated"), payload).None?
    ensures OnEventWritten(Some(MemoryStreamCreated), payload).Some?
  {
    assert "memorystreamcreated"[0] != MemoryStreamCreated[0];
    assert "memorystreamcreated"[0] != MemoryStreamDisposed[0];
    assert "memorystreamcreated"[0] != MemoryStreamFinalized[0];
  }

  /** A null payload reads as an empty one. */
  lemma NullPayloadIsEmpty(eventName: Option<string>)
    ensures OnEventWritten(eventName, None) == OnEventWritten(eventName, Some([]))
  {
  }

  /** Null entries are dropped before anything else looks at the payload. */
  lemma NullEntriesAreIgnored(eventName: Option<string>, before: seq<Option<Arg>>, after: seq<Option<Arg>>)
    ensures OnEventWritten(eventName, Some(before + [None] + after))
            == OnEventWritten(eventName, Some(before + after))
  {
    CompactConcat(before + [None], after);
    CompactConcat(before, [None]);
    CompactConcat(before, after);
    assert Compact([None]) == [];
    assert Compact(before + [None]) == Compact(before);
    assert Compact(before + [None] + after) == Compact(before + after);
  }

  /** No stack-trace argument ever reaches the message's parts. */
  lemma MessageHasNoStackTrace(args: seq<Arg>, i: int)
    requires 0 <= i < |MessageArgs(args)|
    ensures !IsStackTrace(MessageArgs(args)[i])
  {
    MessageArgsMembers(args, MessageArgs(args)[i]);
  }

  /** A stack-trace argument added to the payload leaves the message unchanged. */
  lemma StackTraceLeavesMessageUnchanged(args: seq<Arg>, st: Arg)
    requires IsStackTrace(st)
    ensures Message(args + [st]) == Message(args)
  {
    MessageArgsConcat(args, [st]);
    assert MessageArgs([st]) == [];
    assert MessageArgs(args) + [] == MessageArgs(args);
  }

  /** Any other argument added to the payload is appended to the message after ", ". */
  lemma ArgumentExtendsMessage(args: seq<Arg>, a: Arg)
    requires !IsStackTrace(a) && MessageArgs(args) != []
    ensures Message(args + [a]) == Message(args) + ", " + ArgText(a)
  {
    MessageArgsConcat(args, [a]);
    assert MessageArgs([a]) == [a];
    assert Texts(MessageArgs(args) + [a]) == Texts(MessageArgs(args)) + [ArgText(a)];
    JoinSnoc(", ", Texts(MessageArgs(args)), ArgText(a));
  }

  /** The stack trace reported for a finalized stream is one of the payload's own entries. */
  lemma ReportedStackTraceIsInPayload(payload: Option<seq<Option<Arg>>>)
    requires OnEventWritten(Some(MemoryStreamFinalized), payload).value.exception.value.stackTrace.Some?
    ensures var st := OnEventWritten(Some(MemoryStreamFinalized), payload).value.exception.value.stackTrace.value;
            payload.Some? && Some(Str(st)) in payload.value && StartsWith(st, StackTracePrefix)
  {
    var args := NonNullArgs(payload);
    var st := FirstStackTrace(args).value;
    var i :| 0 <= i < |args| && args[i] == Str(st) && IsStackTrace(args[i]);
    assert Str(st) in args;
    CompactMembers(payload.value, Str(st));
  }

  /**
   * A finalized stream with an identifier, a null entry, two stack traces and a
   * size: the message joins the identifier and the size, and the first trace
   * is the one reported.
   */
  lemma FinalizedExample(id: string, first: string, second: string, size: string)
    requires !StartsWith(id, StackTracePrefix)
    requires StartsWith(first, StackTracePrefix) && StartsWith(second, StackTracePrefix)
    ensures OnEventWritten(Some(MemoryStreamFinalized),
                           Some([Some(Str(id)), None, Some(Str(first)), Some(Str(second)), Some(Other(size))]))
            == Some(Report(MemoryStreamFinalized, id + ", " + size,
                           Some(MemoryStreamException(MemoryStreamFinalized, Some(first)))))
  {
    FinalizedExamplePayload(id, first, second, size);
    FinalizedExampleParts(id, first, second, size);
  }

  lemma FinalizedExamplePayload(id: string, first: string, second: string, size: string)
    ensures NonNullArgs(Some([Some(Str(id)), None, Some(Str(first)), Some(Str(second)), Some(Other(size))]))
            == [Str(id), Str(first), Str(second), Other(size)]
  {
    var entries := [Some(Str(id)), None, Some(Str(first)), Some(Str(second)), Some(Other(size))];
    assert Compact(entries[4..]) == [Other(size)];
    assert Compact(entries[3..]) == [Str(second), Other(size)];
    assert Compact(entries[2..]) == [Str(first), Str(second), Other(size)];
    assert Compact(entries[1..]) == [Str(first), Str(second), Other(size)];
  }

  lemma FinalizedExampleParts(id: string, first: string, second: string, size: string)
    requires !StartsWith(id, StackTracePrefix)
    requires StartsWith(first, StackTracePrefix) && StartsWith(second, StackTracePrefix)
    ensures Message([Str(id), Str(first), Str(second), Other(size)]) == id + ", " + size
    ensures FirstStackTrace([Str(id), Str(first), Str(second), Other(size)]) == Some(first)
  {
    var args := [Str(id), Str(first), Str(second), Other(size)];
    assert MessageArgs(args[3..]) == [Other(size)];
    assert MessageArgs(args[2..]) == [Other(size)];
    assert MessageArgs(args[1..]) == [Other(size)];
    assert MessageArgs(args) == [Str(id), Other(size)];
    assert Texts([Str(id), Other(size)]) == [id, size];
    assert FirstStackTrace(args[1..]) == Some(first);
  }
}
