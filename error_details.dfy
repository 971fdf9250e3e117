/** SasatoRes.ErrorDetails: the captured error fields, the process-wide debug
    flag, and the getters that consult the flag every time they are called. */
module ErrorDetail {
  import opened Wrappers
  import opened Sanitizer

  /** What getExceptionType and getRequestDetails return while debug mode is off. */
  const Hidden: string := "Hidden"

  /** What getStackTrace returns while debug mode is off. */
  const AccessDenied: string := "Access Denied: Set debug mode to true to see details."

  // ---------------------------------------------------------------------------
  // The debug flag
  // ---------------------------------------------------------------------------

  /** The static `isDebugMode` of SasatoRes: one mutable switch that every
      ErrorDetails reads at access time. */
  class DebugFlag {
    var isDebugMode: bool

    /** The class initialiser: the flag starts off (masking on). */
    constructor()
      ensures !isDebugMode
    {
      isDebugMode := false;
    }

    /** `setDebugMode(debug)` */
    method SetDebugMode(debug: bool)
      modifies this
      ensures isDebugMode == debug
    {
      isDebugMode := debug;
    }
  }

  // ---------------------------------------------------------------------------
  // Throwables and their stack traces
  // ---------------------------------------------------------------------------

  /** A throwable as far as ErrorDetails looks at it: the class name that
      getClass().getName() yields and the toString() of each stack frame. */
  datatype Throwable = Throwable(typeName: string, frames: seq<string>)

  /** `Collectors.joining("\n")`: the lines with one '\n' between neighbours. */
  function JoinLines(lines: seq<string>): string
    decreases |lines|
  {
    if |lines| == 0 then ""
    else if |lines| == 1 then lines[0]
    else lines[0] + "\n" + JoinLines(lines[1..])
  }

  /** The inverse reading: the pieces of s between its '\n' characters. */
  function SplitLines(s: string): (r: seq<string>)
    ensures |r| >= 1
    decreases |s|
  {
    if s == [] then [""]
    else
      var rest := SplitLines(s[1..]);
      if s[0] == '\n' then [""] + rest else [[s[0]] + rest[0]] + rest[1..]
  }

  /** No line holds a '\n'. */
  predicate SingleLines(lines: seq<string>)
  {
    forall i :: 0 <= i < |lines| ==> '\n' !in lines[i]
  }

  /** A line without '\n' splits into itself. */
  lemma {:induction false} SplitSingleLine(a: string)
    requires '\n' !in a
    ensures SplitLines(a) == [a]
    decreases |a|
  {
    if a != [] {
      assert '\n' !in a[1..] by {
        forall c | c in a[1..] ensures c in a { }
      }
      SplitSingleLine(a[1..]);
      assert [a[0]] + a[1..] == a;
    }
  }

  /** A '\n' after a line without '\n' ends that line. */
  lemma {:induction false} SplitAtNewline(a: string, b: string)
    requires '\n' !in a
    ensures SplitLines(a + "\n" + b) == [a] + SplitLines(b)
    decreases |a|
  {
    var s := a + "\n" + b;
    if a == [] {
      assert s == ['\n'] + b;
      assert s[1..] == b;
    } else {
      assert s[0] == a[0] && s[1..] == a[1..] + "\n" + b;
      assert '\n' !in a[1..] by {
        forall c | c in a[1..] ensures c in a { }
      }
      SplitAtNewline(a[1..], b);
      assert [a[0]] + a[1..] == a;
    }
  }

  /** Splitting the joined stack trace gives back the frames, when there is at
      least one frame and no frame spans several lines. */
  lemma {:induction false} SplitJoinLines(lines: seq<string>)
    requires |lines| >= 1 && SingleLines(lines)
    ensures SplitLines(JoinLines(lines)) == lines
    decreases |lines|
  {
    if |lines| == 1 {
      SplitSingleLine(lines[0]);
    } else {
      assert SingleLines(lines[1..]) by {
        forall i | 0 <= i < |lines[1..]| ensures '\n' !in lines[1..][i] {
          assert lines[1..][i] == lines[i + 1];
        }
      }
      SplitJoinLines(lines[1..]);
      SplitAtNewline(lines[0], JoinLines(lines[1..]));
      assert [lines[0]] + lines[1..] == lines;
    }
  }

  /** The joined text is the frames and the separators, nothing else: each
      frame contributes its length and each gap one '\n'. */
  lemma {:induction false} JoinLinesLength(lines: seq<string>)
    requires |lines| >= 1
    ensures |JoinLines(lines)| == TotalLength(lines) + |lines| - 1
    decreases |lines|
  {
    if |lines| > 1 {
      JoinLinesLength(lines[1..]);
    }
  }

  /** Sum of the lengths of the lines. */
  function TotalLength(lines: seq<string>): nat
    decreases |lines|
  {
    if lines == [] then 0 else |lines[0]| + TotalLength(lines[1..])
  }

  /** `getStackTraceAsString`: the frames joined with "\n". */
  function StackTraceAsString(t: Throwable): (r: string)
    ensures |t.frames| >= 1 && SingleLines(t.frames) ==> SplitLines(r) == t.frames
    ensures |t.frames| == 0 ==> r == ""
  {
    if |t.frames| >= 1 && SingleLines(t.frames) then
      SplitJoinLines(t.frames);
      JoinLines(t.frames)
    else
      JoinLines(t.frames)
  }

  // ---------------------------------------------------------------------------
  // ErrorDetails
  // ---------------------------------------------------------------------------

  /** The five final fields of ErrorDetails; None stands for a null field. */
  datatype ErrorDetails = ErrorDetails(
    code: string,
    message: string,
    exceptionType: Option<string>,
    stackTrace: Option<string>,
    requestDetails: Option<string>)
  {
    /** `getExceptionType()`: the stored class name in debug mode, "Hidden" otherwise. */
    function GetExceptionType(flag: DebugFlag): (r: Option<string>)
      reads flag
      ensures flag.isDebugMode ==> r == exceptionType
      ensures !flag.isDebugMode ==> r == Some(Hidden)
    {
      if flag.isDebugMode then exceptionType else Some(Hidden)
    }

    /** `getStackTrace()`: the stored trace in debug mode, the refusal otherwise. */
    function GetStackTrace(flag: DebugFlag): (r: Option<string>)
      reads flag
      ensures flag.isDebugMode ==> r == stackTrace
      ensures !flag.isDebugMode ==> r == Some(AccessDenied)
    {
      if flag.isDebugMode then stackTrace else Some(AccessDenied)
    }

    /** `getRequestDetails()`: the stored (sanitised) details in debug mode, "Hidden" otherwise. */
    function GetRequestDetails(flag: DebugFlag): (r: Option<string>)
      reads flag
      ensures flag.isDebugMode ==> r == requestDetails
      ensures !flag.isDebugMode ==> r == Some(Hidden)
    {
      if flag.isDebugMode then requestDetails else Some(Hidden)
    }
  }

  /** The ErrorDetails constructor: the type name and the joined frames when a
      throwable is present (null otherwise), and the request details sanitised
      at construction, whatever the flag is then or later. */
  function NewErrorDetails(code: string, message: string, throwable: Option<Throwable>,
                           requestDetails: Option<string>): (e: ErrorDetails)
    ensures e.code == code && e.message == message
    ensures e.exceptionType.Some? <==> throwable.Some?
    ensures e.stackTrace.Some? <==> throwable.Some?
    ensures throwable.Some? ==> e.exceptionType == Some(throwable.value.typeName)
    ensures throwable.Some? ==> e.stackTrace == Some(StackTraceAsString(throwable.value))
    ensures e.requestDetails.Some? <==> requestDetails.Some?
    ensures e.requestDetails.Some? ==>
      e.requestDetails.value == Sanitize(requestDetails.value) && Redacted(e.requestDetails.value)
  {
    ErrorDetails(
      code,
      message,
      throwable.Map((t: Throwable) => t.typeName),
      throwable.Map(StackTraceAsString),
      SanitizeOption(requestDetails))
  }

  // ---------------------------------------------------------------------------
  // What the getters promise
  // ---------------------------------------------------------------------------

  /** With debug mode off, every gated getter returns its placeholder, whatever
      the details hold. */
  lemma DebugOffHidesDetails(e: ErrorDetails, flag: DebugFlag)
    requires !flag.isDebugMode
    ensures e.GetExceptionType(flag) == Some("Hidden")
    ensures e.GetRequestDetails(flag) == Some("Hidden")
    ensures e.GetStackTrace(flag) == Some("Access Denied: Set debug mode to true to see details.")
  {
  }

  /** With debug mode on, the getters return what the constructor captured: the
      class name, the frames joined by "\n" (recoverable by splitting), and the
      request details already sanitised. */
  lemma DebugOnShowsDetails(code: string, message: string, t: Throwable, details: string, flag: DebugFlag)
    requires flag.isDebugMode
    ensures var e := NewErrorDetails(code, message, Some(t), Some(details));
      e.GetExceptionType(flag) == Some(t.typeName)
      && e.GetStackTrace(flag) == Some(JoinLines(t.frames))
      && e.GetRequestDetails(flag) == Some(Sanitize(details))
  {
  }

  /** A null throwable or null details stay null even in debug mode. */
  lemma DebugOnKeepsNulls(code: string, message: string, flag: DebugFlag)
    requires flag.isDebugMode
    ensures var e := NewErrorDetails(code, message, None, None);
      e.GetExceptionType(flag) == None
      && e.GetStackTrace(flag) == None
      && e.GetRequestDetails(flag) == None
  {
  }

  /** The placeholder holds no key followed by '='. */
  lemma HiddenIsRedacted()
    ensures Redacted(Hidden)
  {
    forall i | 0 <= i < |Hidden| ensures RedactedAt(Hidden[i..]) {
      assert forall c :: c in Hidden[i..] ==> c in Hidden;
      NoMatchWithoutEquals(Hidden[i..]);
    }
  }

  /** Whatever the flag, getRequestDetails never yields a sensitive value that
      is not masked: what it returns is null, the placeholder, or redacted. */
  lemma RequestDetailsNeverLeak(code: string, message: string, throwable: Option<Throwable>,
                                details: Option<string>, flag: DebugFlag)
    ensures var r := NewErrorDetails(code, message, throwable, details).GetRequestDetails(flag);
      r.Some? ==> Redacted(r.value) && Sanitize(r.value) == r.value
  {
    var r := NewErrorDetails(code, message, throwable, details).GetRequestDetails(flag);
    if r.Some? {
      if !flag.isDebugMode {
        HiddenIsRedacted();
      }
      SanitizeFixpoints(r.value);
    }
  }

  /** The flag is read at access time: the same details answer differently
      before and after setDebugMode, while code and message are unaffected. */
  method ReadAcrossToggle(e: ErrorDetails, flag: DebugFlag)
    returns (before: Option<string>, after: Option<string>, codeBefore: string, codeAfter: string)
    modifies flag
    ensures before == Some(Hidden) && after == e.exceptionType
    ensures codeBefore == codeAfter == e.code
    ensures flag.isDebugMode
  {
    flag.SetDebugMode(false);
    before := e.GetExceptionType(flag);
    codeBefore := e.code;
    flag.SetDebugMode(true);
    after := e.GetExceptionType(flag);
    codeAfter := e.code;
  }
}
