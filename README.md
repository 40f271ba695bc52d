# eglib output layer, modelled in Dafny

This project models `mono/eglib/goutput.c`, the printing and logging layer of
eglib (Mono's small GLib replacement). It has three parts:

- **Logging state.** The module statics are the fields of `Output.Logger`:
  - `fatal`, the levels on which the default handler aborts;
  - `default_log_func` and `default_log_func_user_data`;
  - `stdout_handler` and `stderr_handler`;
  - `failure_assertion`.
  
  The operations that read and change them are the setters
  (`g_log_set_always_fatal`, `g_log_set_fatal_mask`,
  `g_log_set_default_handler`, `g_set_print_handler`,
  `g_set_printerr_handler`). Lazy installation and dispatch are `g_printv`,
  `g_printerr` and `g_logv`. Also modelled are `g_log_default_handler` for
  Android, iOS and other hosts, the two default print handlers, and
  `g_assertion_message` / `g_get_assertion_message`.
- **Android long-message chunking** (`android_log`, `android_log_line`). This
  is module `AndroidLog`. `Records` is the specification: the sequence of
  records written for a message. `Output.Logger.AndroidLogMessage` is the
  pointer-walking loop, proved to write exactly those records.
  `Output.Logger.AndroidLogLine` is the copy into a 4096-character buffer.
- **Level mappings and line formatting.** `AndroidLog.ToAndroidPriority`,
  `AslLog.ToAslLevel` and `Output.FormatLine`.

Modelling choices:

- **Level flags.** A `GLogLevelFlags` word is the set of its flags (`LogLevels`).
  - `&` is set intersection and `|` is union.
  - `G_LOG_LEVEL_MASK` keeps every flag except the recursion and fatal flag bits.
  - The numeric bit values and the platform priority constants are kept abstract.
- **Effects.** Each effect on the outside world is one `Event`, appended in
  order to `Logger.output`. These are `fprintf`, `fflush`,
  `__android_log_write`, `asl_log`, and a call into a user-installed log or
  print function.
- **Process end.** `abort ()` and `exit ()` set `Logger.exit`. The operations
  that can end the process require that it has not ended yet.
- **Build-time platform.** The `#if HOST_ANDROID` / `#elif HOST_IOS` / `#else`
  choice is the constant `Logger.platform`.
- **Formatting.** `g_vasprintf` is not modelled. Its outcome is a parameter
  (`formatted`, `stored`, `relogged`), where `None` means formatting failed.
- **NULL.** A possibly-NULL `const gchar *` or function pointer is an
  `Option`, and `None` is NULL.

## Model

| member | source | states |
|---|---|---|
| `LogLevels.LevelBits` | mono/eglib/goutput.c:161 | `level & G_LOG_LEVEL_MASK` keeps exactly the level bits of `level` and drops the recursion and fatal flags |
| `LogLevels.LevelBitsIgnoreFlags` | mono/eglib/goutput.c:161 | setting the recursion or fatal flag bits does not change the masked level |
| `AndroidLog.ToAndroidPriority` | mono/eglib/goutput.c:158-171 | total mapping; the result is not UNKNOWN exactly when the masked level is a single standard level (no bits, several bits or a user level give UNKNOWN) |
| `AndroidLog.AndroidPriorityTable` | mono/eglib/goutput.c:161-170 | ERROR→FATAL, CRITICAL→ERROR, WARNING→WARN, MESSAGE→INFO, INFO→DEBUG, DEBUG→VERBOSE, with or without the flag bits |
| `AndroidLog.AndroidPriorityPreservesSeverity` | mono/eglib/goutput.c:163-168 | one standard level is more severe than another exactly when its Android priority is more urgent |
| `AslLog.ToAslLevel` | mono/eglib/goutput.c:246-259 | total mapping; the result is ASL_LEVEL_ERR exactly for CRITICAL and for every level word that is not a single standard level |
| `AslLog.AslLevelTable` | mono/eglib/goutput.c:249-258 | ERROR→CRIT, CRITICAL→ERR, WARNING→WARNING, MESSAGE→NOTICE, INFO→INFO, DEBUG→DEBUG, with or without the flag bits |
| `AslLog.AslLevelPreservesSeverity` | mono/eglib/goutput.c:251-256 | one standard level is more severe than another exactly when its ASL level is more urgent |
| `AndroidLog.Take` | mono/eglib/goutput.c:183-184 | copying at most `n` characters yields exactly min(len, n) of them |
| `AndroidLog.TakeIsPrefix` | mono/eglib/goutput.c:183-184 | those characters are the first ones of the string, and all of it when it is no longer than `n` |
| `AndroidLog.Clip` | mono/eglib/goutput.c:180-184 | a clipped line fits the buffer: at most 4095 characters |
| `AndroidLog.ClipKeepsStart` | mono/eglib/goutput.c:180-184 | a clipped line is the start of the line: the line itself when it fits, its first 4095 characters otherwise |
| `AndroidLog.NextNewline` | mono/eglib/goutput.c:202 | the search from `from` stops at a position at or after `from` that holds a newline, or at the end |
| `AndroidLog.NextNewlineSkips` | mono/eglib/goutput.c:202 | no newline lies between `from` and where the search stops, so it stops at the first one |
| `AndroidLog.FindNewline` | mono/eglib/goutput.c:202 | the scan returns a newline position with no newline before it, or reports that none is left |
| `AndroidLog.JoinSegments` | mono/eglib/goutput.c:201-217 | splitting a message at its newlines and joining the pieces with newlines gives the message back |
| `AndroidLog.SegmentsOfJoin` | mono/eglib/goutput.c:201-217 | joining newline-free pieces and splitting again gives the same pieces (the other direction of the round trip) |
| `AndroidLog.SegmentsHaveNoNewline` | mono/eglib/goutput.c:202-209 | no piece contains a newline |
| `AndroidLog.SegmentCount` | mono/eglib/goutput.c:201-217 | there is one more piece than there are newlines |
| `AndroidLog.LinesAt` | mono/eglib/goutput.c:209-216 | one loop step: the piece up to the next newline, cut at 4095, is the next record; the scan resumes after the newline |
| `AndroidLog.LinesAtTail` | mono/eglib/goutput.c:202-206 | the last step: a newline-free rest becomes one record cut at 4095, and nothing follows |
| `AndroidLog.LinesAreClippedSegments` | mono/eglib/goutput.c:201-217 | record k of a long message is piece k cut to 4095; an empty last piece yields no record |
| `AndroidLog.LinesBounded` | mono/eglib/goutput.c:180-184 | every record of a long message has at most 4095 characters and no newline |
| `AndroidLog.LastSegmentEmpty` | mono/eglib/goutput.c:201 | the last piece is empty exactly when the message ends in a newline |
| `AndroidLog.LinesCount` | mono/eglib/goutput.c:201-217 | a long message gives one record per newline, plus one for a tail that does not end in a newline |
| `AndroidLog.LinesLossless` | mono/eglib/goutput.c:182 | when no line exceeds 4095 characters, joining the records with newlines restores the message, minus a final newline |
| `AndroidLog.BoundaryAsymmetry` | mono/eglib/goutput.c:196-205 | a newline-free message of 4096 characters goes out whole; a longer one goes out cut to 4095 |
| `AndroidLog.Records` | mono/eglib/goutput.c:189-218 | every message, the empty one included, becomes at least one record, and no record is longer than 4096 characters |
| `AndroidLog.RecordsBounded` | mono/eglib/goutput.c:195-217 | a message of at most 4096 characters is one record equal to it; a longer one gives records of at most 4095 characters without newlines |
| `Output.FormatLine` | mono/eglib/goutput.c:288-291 | the line is `domain ": " message "\n"` for a non-NULL domain and `message "\n"` otherwise |
| `Output.FormatLineInjective` | mono/eglib/goutput.c:288-291 | the message can be read back from the line, and a NULL domain is told apart from an empty one |
| `Output.Logger.constructor` | mono/eglib/goutput.c:34-38 | the statics start with only ERROR fatal, no handlers installed and NULL user data |
| `Output.Logger.SetAlwaysFatal` | mono/eglib/goutput.c:87-95 | returns the previous mask; the new mask is the old one with the argument's bits added, so ERROR stays fatal |
| `Output.Logger.SetFatalMask` | mono/eglib/goutput.c:97-106 | returns its argument and changes no state |
| `Output.Logger.SetDefaultHandler` | mono/eglib/goutput.c:314-321 | returns the previous log function; installs the new one and its user data; nothing else changes |
| `Output.Logger.SetPrintHandler` | mono/eglib/goutput.c:323-329 | returns the previous stdout handler, installs the new one, nothing else changes |
| `Output.Logger.SetPrinterrHandler` | mono/eglib/goutput.c:331-337 | returns the previous stderr handler, installs the new one, nothing else changes |
| `Output.Logger.GetAssertionMessage` | mono/eglib/goutput.c:135-139 | returns the stored assertion message and changes nothing |
| `Output.Logger.AndroidLogLine` | mono/eglib/goutput.c:175-187 | writes one record: the first min(`logLen`, rest) characters from `from`, copied through the buffer |
| `Output.Logger.AndroidLogMessage` | mono/eglib/goutput.c:189-218 | appends one `__android_log_write` per record of `AndroidLog.Records`, in order, and nothing else |
| `Output.Logger.DefaultHandler` | mono/eglib/goutput.c:220-298 | writes the message the platform's way, then flushes both streams on desktop and aborts, exactly when the level intersects the fatal mask; ERROR always aborts |
| `Output.Logger.CallPrintFunc` | mono/eglib/goutput.c:228-310 | a default print handler writes the text to its stream, or under tag "mono" on Android and at WARNING on iOS; a user handler gets exactly one call |
| `Output.Logger.PrintV` | mono/eglib/goutput.c:43-65 | on a formatting failure nothing changes; otherwise the stdout handler is installed if missing and called exactly once with the text |
| `Output.Logger.PrintErr` | mono/eglib/goutput.c:67-85 | the same for the stderr handler |
| `Output.Logger.LogV` | mono/eglib/goutput.c:108-131 | installs the default log function before formatting; on a formatting failure nothing else happens; otherwise exactly one call of the log function with the text and the user data |
| `Output.Logger.AssertionMessage` | mono/eglib/goutput.c:141-153 | stores the message, logs at ERROR, then exits with status 0; with the default log function and a successful format it aborts first, because ERROR is always fatal |

## Left out

- `g_vasprintf` and varargs handling. Formatting is a parameter whose value is the formatted text, or `None` when formatting fails. `g_print` and `g_log` only pass their varargs on, so they are the same operations as `PrintV` and `LogV`.
- `Output.Logger.AssertionMessage`: the second formatting, which reuses a `va_list` that has already been consumed, is an independent parameter. Nothing is claimed about its value.
- What a user-installed log or print function does. The call is recorded as an event; its effects, including calls back into this layer, are not modelled.
- The text written by `fprintf`, `__android_log_write` and `asl_log` is recorded, not rendered. The NUL padding `strncpy` leaves in the unused part of the buffer is not modelled, because the record ends at the first NUL.
- Strings are the characters before the terminating NUL. A NUL inside a message cannot occur in C and is not looked for.
- The numeric values of the `G_LOG_LEVEL_*` flags, `ANDROID_LOG_*` and `ASL_LEVEL_*`. These constants are defined in headers that are not part of this model. The `Urgency` orders are the usual severity orders of those enumerations.
- A `char` stands for one `gchar` byte. Lengths, the 4096 whole-message test and the 4095 cut therefore count bytes, as `strlen` and `strncpy` do. A multi-byte UTF-8 character is several `char`s here, and a cut at 4095 may fall inside such a sequence; the model does not decode UTF-8.
- `Output.Logger.AndroidLogMessage`: the message length and the line lengths are `gint` in `android_log`, and the model's lengths are unbounded. Messages and lines are assumed shorter than 2^31 bytes. The model does not capture the wrapped length of a longer message, which the source would write whole. It also does not capture a negative `log_len` for a longer line.
- Thread safety of the module statics. The source does not address it.
- `mcs/class/Managed.Windows.Forms/Test/System.Windows.Forms/ControlBindingsCollectionTest.cs` is not part of this model. It is a unit test of `ControlBindingsCollection`, and that class's implementation is not in the files modelled here.
