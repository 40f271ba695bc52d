/**
 * The eglib output layer: the module statics of the logging code (the fatal
 * mask, the default log function and its user data, the stdout and stderr
 * print handlers, the stored assertion message) as the fields of a `Logger`,
 * and the operations that read and update them.
 *
 * What reaches the outside world (`fprintf`, `fflush`, `__android_log_write`,
 * `asl_log`, a call into a user-installed handler) is appended, in order, to
 * `output`; `abort ()` and `exit ()` set `exit`, after which nothing runs.
 * The platform chosen at build time (`HOST_ANDROID`, `HOST_IOS`, anything
 * else) is the constant `platform`.
 */
module Output {
  import opened Nullable
  import opened LogLevels
  import AndroidLog
  import AslLog

  datatype Platform = Android | Ios | Desktop

  datatype Stream = Stdout | Stderr

  /** A `gpointer` passed through untouched; 0 is NULL. */
  type Pointer = nat

  /** A `GLogFunc`: the library's own default handler or a caller's function. */
  datatype LogFunc = DefaultLogHandler | UserLogFunc(id: nat)

  /** A `GPrintFunc`: one of the two private defaults or a caller's function. */
  datatype PrintFunc = DefaultStdoutHandler | DefaultStderrHandler | UserPrintFunc(id: nat)

  /** One observable effect. */
  datatype Event =
    | AndroidWrite(priority: AndroidLog.Priority, tag: Option<string>, text: string)
    | AslWrite(aslLevel: AslLog.Level, text: string)
    | StreamWrite(stream: Stream, text: string)
    | StreamFlush(stream: Stream)
    | LogFuncCall(logId: nat, domain: Option<string>, level: Mask, message: string, userData: Pointer)
    | PrintFuncCall(printId: nat, printed: string)

  /** How the process ended: `abort ()` or `exit (status)`. */
  datatype Exit = Aborted | Exited(status: int)

  /** The tag the Android print handlers write under. */
  const MonoTag: string := "mono"

  /** The line the desktop default handler prints: `domain: message` and a
      newline, or just the message and a newline when the domain is NULL. */
  function FormatLine(domain: Option<string>, message: string): (line: string)
    ensures |line| == |message| + 1 + (if domain.Some? then |domain.value| + 2 else 0)
    ensures line[|line| - 1] == '\n'
    ensures line[|line| - 1 - |message|..|line| - 1] == message
    ensures domain.Some? ==> line[..|domain.value| + 2] == domain.value + ": "
    ensures domain.None? ==> line[..|message|] == message
  {
    (if domain.Some? then domain.value + ": " else "") + message + "\n"
  }

  /** The message can be read back from the line: different messages under
      the same domain give different lines, and a NULL domain is told apart
      from an empty one. */
  lemma FormatLineInjective(domain: Option<string>, m1: string, m2: string)
    ensures FormatLine(domain, m1) == FormatLine(domain, m2) ==> m1 == m2
    ensures FormatLine(None, m1) != FormatLine(Some(""), m1)
  {
    var l1, l2 := FormatLine(domain, m1), FormatLine(domain, m2);
    if l1 == l2 {
      assert m1 == l1[|l1| - 1 - |m1|..|l1| - 1];
    }
  }

  /** One `__android_log_write` per record, in order. */
  function AndroidWrites(priority: AndroidLog.Priority, tag: Option<string>, texts: seq<string>): seq<Event>
  {
    seq(|texts|, k requires 0 <= k < |texts| => AndroidWrite(priority, tag, texts[k]))
  }

  /** `android_log`: the writes a message becomes. */
  function AndroidLogWrites(priority: AndroidLog.Priority, tag: Option<string>, message: string): seq<Event> {
    AndroidWrites(priority, tag, AndroidLog.Records(message))
  }

  /** What `g_log_default_handler` writes before it looks at the fatal mask. */
  function DefaultHandlerWrites(platform: Platform, domain: Option<string>, level: Mask, message: string): seq<Event> {
    match platform
    case Android => AndroidLogWrites(AndroidLog.ToAndroidPriority(level), domain, message)
    case Ios => [AslWrite(AslLog.ToAslLevel(level), message)]
    case Desktop => [StreamWrite(Stdout, FormatLine(domain, message))]
  }

  /** What the default handler does just before `abort ()`. */
  function AbortFlushes(platform: Platform): seq<Event> {
    if platform == Desktop then [StreamFlush(Stdout), StreamFlush(Stderr)] else []
  }

  /** Everything `g_log_default_handler` emits under the fatal mask `fatal`. */
  function DefaultHandlerOutput(platform: Platform, fatal: Mask, domain: Option<string>, level: Mask, message: string): seq<Event> {
    DefaultHandlerWrites(platform, domain, level, message) +
    (if Intersects(level, fatal) then AbortFlushes(platform) else [])
  }

  /** What `default_stdout_handler` (to `stream` Stdout) or
      `default_stderr_handler` (Stderr) writes. */
  function DefaultPrintWrites(platform: Platform, stream: Stream, message: string): seq<Event> {
    match platform
    case Android => AndroidLogWrites(AndroidLog.Error, Some(MonoTag), message)
    case Ios => [AslWrite(AslLog.Warning, message)]
    case Desktop => [StreamWrite(stream, message)]
  }

  /** What calling the print function `handler` with `message` emits. */
  function PrintWrites(platform: Platform, handler: PrintFunc, message: string): seq<Event> {
    match handler
    case DefaultStdoutHandler => DefaultPrintWrites(platform, Stdout, message)
    case DefaultStderrHandler => DefaultPrintWrites(platform, Stderr, message)
    case UserPrintFunc(id) => [PrintFuncCall(id, message)]
  }

  /** Writing the records one at a time adds one write per record. */
  lemma AndroidWritesSnoc(priority: AndroidLog.Priority, tag: Option<string>, texts: seq<string>, text: string)
    ensures AndroidWrites(priority, tag, texts + [text]) == AndroidWrites(priority, tag, texts) + [AndroidWrite(priority, tag, text)]
  {
    assert (texts + [text])[..|texts|] == texts;
  }

  /** One more write after the writes of `texts` gives the writes of `texts` and one more record. */
  lemma AppendWrite(start: seq<Event>, before: seq<Event>, after: seq<Event>,
                    priority: AndroidLog.Priority, tag: Option<string>, texts: seq<string>, text: string)
    requires before == start + AndroidWrites(priority, tag, texts)
    requires after == before + [AndroidWrite(priority, tag, text)]
    ensures after == start + AndroidWrites(priority, tag, texts + [text])
  {
    AndroidWritesSnoc(priority, tag, texts, text);
  }

  /** Under a fatal level the default handler flushes after its writes. */
  lemma FatalOutput(platform: Platform, fatal: Mask, domain: Option<string>, level: Mask, message: string)
    requires Intersects(level, fatal)
    ensures DefaultHandlerOutput(platform, fatal, domain, level, message) ==
            DefaultHandlerWrites(platform, domain, level, message) + AbortFlushes(platform)
  {
  }

  /** A message that fits the buffer is a single write. */
  lemma ShortMessageWrites(priority: AndroidLog.Priority, tag: Option<string>, message: string)
    requires |message| <= AndroidLog.MaxLen
    ensures AndroidLogWrites(priority, tag, message) == [AndroidWrite(priority, tag, message)]
  {
    AndroidWritesSnoc(priority, tag, [], message);
    assert [] + [message] == [message];
  }

  /** A longer message is written line by line. */
  lemma LongMessageWrites(priority: AndroidLog.Priority, tag: Option<string>, message: string)
    requires |message| > AndroidLog.MaxLen
    ensures AndroidLogWrites(priority, tag, message) == AndroidWrites(priority, tag, AndroidLog.Lines(message))
  {
  }

  class Logger {
    const platform: Platform
    /** `fatal`: the levels on which the default handler aborts. */
    var fatal: Mask
    /** `default_log_func`, NULL until first use or until set. */
    var logFunc: Option<LogFunc>
    /** `default_log_func_user_data`. */
    var logFuncUserData: Pointer
    /** `stdout_handler` and `stderr_handler`, NULL until first use or until set. */
    var stdoutHandler: Option<PrintFunc>
    var stderrHandler: Option<PrintFunc>
    /** `failure_assertion`: the message of the last failed assertion. */
    var failureAssertion: Option<string>
    /** Everything written so far, in order. */
    var output: seq<Event>
    /** Set once the process has aborted or exited. */
    var exit: Option<Exit>

    /** ERROR is always fatal: it starts in the mask and bits are never cleared. */
    ghost predicate Valid()
      reads this
    {
      LevelError in fatal
    }

    /** The statics as the program starts. */
    constructor (platform: Platform)
      ensures Valid()
      ensures this.platform == platform
      ensures fatal == {LevelError}
      ensures logFunc == None && logFuncUserData == 0
      ensures stdoutHandler == None && stderrHandler == None
      ensures failureAssertion == None && output == [] && exit == None
    {
      this.platform := platform;
      fatal := {LevelError};
      logFunc := None;
      logFuncUserData := 0;
      stdoutHandler := None;
      stderrHandler := None;
      failureAssertion := None;
      output := [];
      exit := None;
    }

    /** `g_log_set_always_fatal`: adds levels to the fatal mask and returns the
        mask it replaced; no level is ever taken out. */
    method SetAlwaysFatal(fatalMask: Mask) returns (previous: Mask)
      requires Valid()
      modifies this`fatal
      ensures Valid()
      ensures previous == old(fatal)
      ensures fatal == old(fatal) + fatalMask
    {
      previous := fatal;
      fatal := fatal + fatalMask;
    }

    /** `g_log_set_fatal_mask`: per-domain masks are not kept; the argument is
        returned and nothing changes. */
    method SetFatalMask(domain: Option<string>, fatalMask: Mask) returns (r: Mask)
      ensures r == fatalMask
    {
      r := fatalMask;
    }

    /** `g_log_set_default_handler`: installs `func` with `userData` and
        returns the function it replaced. */
    method SetDefaultHandler(func: Option<LogFunc>, userData: Pointer) returns (previous: Option<LogFunc>)
      modifies this`logFunc, this`logFuncUserData
      ensures previous == old(logFunc)
      ensures logFunc == func && logFuncUserData == userData
    {
      previous := logFunc;
      logFunc := func;
      logFuncUserData := userData;
    }

    /** `g_set_print_handler`: installs `func` and returns the handler it replaced. */
    method SetPrintHandler(func: Option<PrintFunc>) returns (previous: Option<PrintFunc>)
      modifies this`stdoutHandler
      ensures previous == old(stdoutHandler)
      ensures stdoutHandler == func
    {
      previous := stdoutHandler;
      stdoutHandler := func;
    }

    /** `g_set_printerr_handler`: installs `func` and returns the handler it replaced. */
    method SetPrinterrHandler(func: Option<PrintFunc>) returns (previous: Option<PrintFunc>)
      modifies this`stderrHandler
      ensures previous == old(stderrHandler)
      ensures stderrHandler == func
    {
      previous := stderrHandler;
      stderrHandler := func;
    }

    /** `g_get_assertion_message`. */
    method GetAssertionMessage() returns (message: Option<string>)
      ensures message == failureAssertion
    {
      message := failureAssertion;
    }

    /** `android_log_line`: copies at most `logLen` characters of the message,
        from position `from`, into a fresh buffer and writes the buffer. */
    method AndroidLogLine(priority: AndroidLog.Priority, tag: Option<string>, message: string, from: nat, logLen: nat)
      requires from <= |message|
      requires logLen <= AndroidLog.LineMax
      modifies this`output
      ensures output == old(output) + [AndroidWrite(priority, tag, AndroidLog.Take(message[from..], logLen))]
    {
      var buf := new char[AndroidLog.MaxLen];
      var n := 0;
      // strncpy stops at logLen characters or at the end of the string
      while n < logLen && from + n < |message|
        invariant n <= logLen && from + n <= |message|
        invariant buf[..n] == message[from..from + n]
        invariant output == old(output)
      {
        buf[n] := message[from + n];
        n := n + 1;
      }
      assert buf[..n] == AndroidLog.Take(message[from..], logLen);
      var line := buf[..n];
      buf[n] := '\0';
      output := output + [AndroidWrite(priority, tag, line)];
    }

    /** `android_log`: a message of at most MaxLen characters is written
        whole; a longer one is written piece by piece, cut at each newline. */
    method AndroidLogMessage(priority: AndroidLog.Priority, tag: Option<string>, message: string)
      modifies this`output
      ensures output == old(output) + AndroidLogWrites(priority, tag, message)
    {
      if |message| <= AndroidLog.MaxLen {
        output := output + [AndroidWrite(priority, tag, message)];
        ShortMessageWrites(priority, tag, message);
        return;
      }
      var p := 0;
      ghost var records := AndroidLog.Lines(message);
      ghost var written: seq<string> := [];
      while p < |message|
        invariant p <= |message|
        invariant records == written + AndroidLog.LinesFrom(message, p)
        invariant output == old(output) + AndroidWrites(priority, tag, written)
      {
        var nl := AndroidLog.FindNewline(message, p);
        ghost var before := output;
        if nl.None? {
          // no more newlines: the tail, clipped
          AndroidLogLine(priority, tag, message, p, AndroidLog.LineMax);
          AndroidLog.LinesAtTail(message, records, written, p);
          AppendWrite(old(output), before, output, priority, tag, written, AndroidLog.Clip(message[p..]));
          written := written + [AndroidLog.Clip(message[p..])];
          p := |message|;
        } else {
          var q := nl.value;
          var len := q - p;
          if len > AndroidLog.LineMax {
            len := AndroidLog.LineMax;
          }
          AndroidLogLine(priority, tag, message, p, len);
          AndroidLog.LinesAt(message, records, written, p, q);
          AppendWrite(old(output), before, output, priority, tag, written, AndroidLog.Clip(message[p..q]));
          written := written + [AndroidLog.Clip(message[p..q])];
          p := q + 1;
        }
      }
      assert written + [] == written;
      LongMessageWrites(priority, tag, message);
    }

    /** `g_log_default_handler`: writes the message the platform's way, then
        aborts exactly when the level shares a bit with the fatal mask. */
    method DefaultHandler(domain: Option<string>, level: Mask, message: string, unusedData: Pointer)
      requires Valid() && exit == None
      modifies this`output, this`exit
      ensures Valid()
      ensures output == old(output) + DefaultHandlerOutput(platform, fatal, domain, level, message)
      ensures exit == if Intersects(level, fatal) then Some(Aborted) else None
      ensures LevelError in level ==> exit == Some(Aborted)
    {
      ghost var start := output;
      match platform {
        case Android =>
          AndroidLogMessage(AndroidLog.ToAndroidPriority(level), domain, message);
        case Ios =>
          output := output + [AslWrite(AslLog.ToAslLevel(level), message)];
        case Desktop =>
          output := output + [StreamWrite(Stdout, FormatLine(domain, message))];
      }
      assert output == start + DefaultHandlerWrites(platform, domain, level, message);
      if Intersects(level, fatal) {
        output := output + AbortFlushes(platform);
        exit := Some(Aborted);
      }
      assert LevelError in level ==> LevelError in level * fatal;
    }

    /** Calls the print function `handler` with `message`. */
    method CallPrintFunc(handler: PrintFunc, message: string)
      modifies this`output
      ensures output == old(output) + PrintWrites(platform, handler, message)
    {
      match handler
      case UserPrintFunc(id) =>
        output := output + [PrintFuncCall(id, message)];
      case _ =>
        var stream := if handler == DefaultStdoutHandler then Stdout else Stderr;
        match platform
        case Android =>
          AndroidLogMessage(AndroidLog.Error, Some(MonoTag), message);
        case Ios =>
          output := output + [AslWrite(AslLog.Warning, message)];
        case Desktop =>
          output := output + [StreamWrite(stream, message)];
    }

    /** `g_printv` (and `g_print`): when formatting fails nothing happens;
        otherwise the stdout handler, installed first if none is set, is
        called once with the formatted text. `formatted` is the outcome of
        `g_vasprintf`. */
    method PrintV(formatted: Option<string>)
      modifies this`stdoutHandler, this`output
      ensures formatted.None? ==> stdoutHandler == old(stdoutHandler) && output == old(output)
      ensures formatted.Some? ==>
                stdoutHandler == Some(old(stdoutHandler).GetOr(DefaultStdoutHandler)) &&
                output == old(output) + PrintWrites(platform, stdoutHandler.value, formatted.value)
    {
      if formatted.None? {
        return;
      }
      if stdoutHandler.None? {
        stdoutHandler := Some(DefaultStdoutHandler);
      }
      CallPrintFunc(stdoutHandler.value, formatted.value);
    }

    /** `g_printerr`: as `PrintV`, with the stderr handler. */
    method PrintErr(formatted: Option<string>)
      modifies this`stderrHandler, this`output
      ensures formatted.None? ==> stderrHandler == old(stderrHandler) && output == old(output)
      ensures formatted.Some? ==>
                stderrHandler == Some(old(stderrHandler).GetOr(DefaultStderrHandler)) &&
                output == old(output) + PrintWrites(platform, stderrHandler.value, formatted.value)
    {
      if formatted.None? {
        return;
      }
      if stderrHandler.None? {
        stderrHandler := Some(DefaultStderrHandler);
      }
      CallPrintFunc(stderrHandler.value, formatted.value);
    }

    /** `g_logv` (and `g_log`): installs the default log function if none is
        set, before formatting; when formatting fails nothing else happens;
        otherwise the log function is called once with the formatted text. */
    method LogV(domain: Option<string>, level: Mask, formatted: Option<string>)
      requires Valid() && exit == None
      modifies this`logFunc, this`output, this`exit
      ensures Valid()
      ensures logFunc == Some(old(logFunc).GetOr(DefaultLogHandler))
      ensures formatted.None? ==> output == old(output) && exit == None
      ensures formatted.Some? && logFunc.value == DefaultLogHandler ==>
                output == old(output) + DefaultHandlerOutput(platform, fatal, domain, level, formatted.value) &&
                exit == (if Intersects(level, fatal) then Some(Aborted) else None)
      ensures formatted.Some? && logFunc.value.UserLogFunc? ==>
                output == old(output) + [LogFuncCall(logFunc.value.id, domain, level, formatted.value, logFuncUserData)] &&
                exit == None
    {
      if logFunc.None? {
        logFunc := Some(DefaultLogHandler);
      }
      if formatted.None? {
        return;
      }
      match logFunc.value
      case DefaultLogHandler =>
        DefaultHandler(domain, level, formatted.value, logFuncUserData);
      case UserLogFunc(id) =>
        output := output + [LogFuncCall(id, domain, level, formatted.value, logFuncUserData)];
    }

    /** `g_assertion_message`: stores the formatted message (`stored`, the
        outcome of the first `g_vasprintf`), logs the message again at ERROR
        level (`relogged`, the outcome of formatting a second time) and exits
        with status 0. With the default log function and a message to log,
        the handler aborts first, since ERROR is always fatal. */
    method AssertionMessage(domain: Option<string>, stored: Option<string>, relogged: Option<string>)
      requires Valid() && exit == None
      modifies this`failureAssertion, this`logFunc, this`output, this`exit
      ensures Valid()
      ensures failureAssertion == stored
      ensures logFunc == Some(old(logFunc).GetOr(DefaultLogHandler))
      ensures relogged.None? ==> output == old(output)
      ensures relogged.Some? && logFunc.value == DefaultLogHandler ==>
                output == old(output) + DefaultHandlerWrites(platform, domain, {LevelError}, relogged.value) + AbortFlushes(platform)
      ensures relogged.Some? && logFunc.value.UserLogFunc? ==>
                output == old(output) + [LogFuncCall(logFunc.value.id, domain, {LevelError}, relogged.value, logFuncUserData)]
      ensures exit == if relogged.Some? && logFunc.value == DefaultLogHandler then Some(Aborted) else Some(Exited(0))
    {
      failureAssertion := stored;
      assert Intersects({LevelError}, fatal) by {
        assert LevelError in {LevelError} * fatal;
      }
      LogV(domain, {LevelError}, relogged);
      FatalOutput(platform, fatal, domain, {LevelError}, relogged.GetOr(""));
      if exit.None? {
        exit := Some(Exited(0));
      }
    }
  }
}
