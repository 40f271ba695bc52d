/**
 * The Android branch of the eglib output layer: the mapping from GLib levels
 * to `android_LogPriority`, and the rule that cuts a long message into the
 * records handed to `__android_log_write`.
 */
module AndroidLog {
  import opened Nullable
  import opened LogLevels

  /** The `android_LogPriority` values the handler produces. */
  datatype Priority = Unknown | Verbose | Debug | Info | Warn | Error | Fatal

  /** The order of the priorities, from least to most urgent. */
  function Urgency(p: Priority): nat {
    match p
    case Unknown => 0
    case Verbose => 1
    case Debug => 2
    case Info => 3
    case Warn => 4
    case Error => 5
    case Fatal => 6
  }

  /** `to_android_priority`: a switch on `level & G_LOG_LEVEL_MASK` with a default. */
  function ToAndroidPriority(level: Mask): (p: Priority)
    ensures p != Unknown <==> LevelBits(level) in StandardSingletons
  {
    var bits := LevelBits(level);
    if bits == {LevelError} then Fatal
    else if bits == {LevelCritical} then Error
    else if bits == {LevelWarning} then Warn
    else if bits == {LevelMessage} then Info
    else if bits == {LevelInfo} then Debug
    else if bits == {LevelDebug} then Verbose
    else Unknown
  }

  /** The six named cases, with or without the two flag bits set. */
  lemma AndroidPriorityTable(extra: Mask)
    requires extra <= {FlagRecursion, FlagFatal}
    ensures ToAndroidPriority({LevelError} + extra) == Fatal
    ensures ToAndroidPriority({LevelCritical} + extra) == Error
    ensures ToAndroidPriority({LevelWarning} + extra) == Warn
    ensures ToAndroidPriority({LevelMessage} + extra) == Info
    ensures ToAndroidPriority({LevelInfo} + extra) == Debug
    ensures ToAndroidPriority({LevelDebug} + extra) == Verbose
  {
    forall f | f in StandardLevels ensures LevelBits({f} + extra) == {f} {
      LevelBitsIgnoreFlags({f}, extra);
      StandardLevelBits(f);
    }
  }

  /** More severe GLib levels get strictly more urgent Android priorities. */
  lemma AndroidPriorityPreservesSeverity(f: Flag, g: Flag)
    requires f in StandardLevels && g in StandardLevels
    ensures Severity(f) < Severity(g) <==> Urgency(ToAndroidPriority({f})) < Urgency(ToAndroidPriority({g}))
  {
    StandardLevelBits(f);
    StandardLevelBits(g);
  }

  // ---------------------------------------------------------------------
  // Long-message chunking

  /** LOG_MESSAGE_MAX_LEN: the size of the line buffer, terminator included. */
  const MaxLen: nat := 4096

  /** The longest piece a line record can carry. */
  const LineMax: nat := MaxLen - 1

  /** The first `n` characters of `s`, or all of `s` when it is shorter. */
  function Take(s: string, n: nat): (r: string)
    ensures |r| == if |s| <= n then |s| else n
  {
    if |s| <= n then s else s[..n]
  }

  /** A line cut to what the buffer holds. */
  function Clip(s: string): (r: string)
    ensures |r| <= LineMax
  {
    Take(s, LineMax)
  }

  /** The copy keeps the first characters: it is the start of `s`. */
  lemma TakeIsPrefix(s: string, n: nat)
    ensures Take(s, n) <= s
    ensures |s| <= n ==> Take(s, n) == s
  {
  }

  /** A clipped line is the start of the line, and the line itself when it fits. */
  lemma ClipKeepsStart(s: string)
    ensures Clip(s) <= s
    ensures |s| <= LineMax ==> Clip(s) == s
    ensures |s| > LineMax ==> Clip(s) == s[..LineMax]
  {
    TakeIsPrefix(s, LineMax);
  }

  /** The position of the first newline at or after `from`, or `|s|` when
      there is none (what `strstr (p, "\n")` finds). */
  function NextNewline(s: string, from: nat): (i: nat)
    requires from <= |s|
    ensures from <= i <= |s|
    ensures i < |s| ==> s[i] == '\n'
    decreases |s| - from
  {
    if from == |s| || s[from] == '\n' then from else NextNewline(s, from + 1)
  }

  /** The search passes over no newline. */
  lemma {:induction false} NextNewlineSkips(s: string, from: nat)
    requires from <= |s|
    ensures forall j :: from <= j < NextNewline(s, from) ==> s[j] != '\n'
    decreases |s| - from
  {
    if from < |s| && s[from] != '\n' {
      NextNewlineSkips(s, from + 1);
    }
  }

  /** The first newline is the one with no newline before it. */
  lemma {:induction false} NextNewlineIs(s: string, from: nat, i: nat)
    requires from <= i <= |s|
    requires i < |s| ==> s[i] == '\n'
    requires forall j :: from <= j < i ==> s[j] != '\n'
    ensures NextNewline(s, from) == i
    decreases i - from
  {
    if from < i {
      NextNewlineIs(s, from + 1, i);
    }
  }

  /** The pieces of `s[p..]` between newlines: one more piece than there are newlines. */
  function SegmentsFrom(s: string, p: nat): (parts: seq<string>)
    requires p <= |s|
    ensures |parts| >= 1
    decreases |s| - p
  {
    var i := NextNewline(s, p);
    if i < |s| then [s[p..i]] + SegmentsFrom(s, i + 1) else [s[p..]]
  }

  function Segments(s: string): (parts: seq<string>)
    ensures |parts| >= 1
  {
    SegmentsFrom(s, 0)
  }

  /** Pieces glued back together with a newline between neighbours. */
  function Join(parts: seq<string>): string
    requires |parts| >= 1
  {
    if |parts| == 1 then parts[0] else parts[0] + "\n" + Join(parts[1..])
  }

  /** The records written for `s[p..]` when the message is longer than MaxLen,
      following the loop of `android_log`: nothing for an empty rest; the
      piece up to the next newline, clipped, then the records after it; or,
      when no newline is left, the clipped rest. */
  function LinesFrom(s: string, p: nat): seq<string>
    requires p <= |s|
    decreases |s| - p
  {
    if p == |s| then []
    else
      var i := NextNewline(s, p);
      if i < |s| then [Clip(s[p..i])] + LinesFrom(s, i + 1) else [Clip(s[p..])]
  }

  function Lines(s: string): seq<string> {
    LinesFrom(s, 0)
  }

  /** `android_log`: the records a message becomes. */
  function Records(message: string): (recs: seq<string>)
    ensures |recs| >= 1
    ensures forall k :: 0 <= k < |recs| ==> |recs[k]| <= MaxLen
  {
    if |message| <= MaxLen then [message]
    else
      LinesBounded(message);
      Lines(message)
  }

  /** The number of newlines in `s`. */
  function NewlineCount(s: string): nat {
    multiset(s)['\n']
  }

  // ---- Segments and Join are inverse to each other

  /** The step of JoinSegmentsFrom across the newline at `i`. */
  lemma JoinStep(s: string, p: nat, i: nat)
    requires p <= i < |s| && i == NextNewline(s, p)
    requires Join(SegmentsFrom(s, i + 1)) == s[i + 1..]
    ensures Join(SegmentsFrom(s, p)) == s[p..]
  {
    var rest := SegmentsFrom(s, i + 1);
    SegmentsAtNewline(s, p, i);
    assert ([s[p..i]] + rest)[1..] == rest;
    assert s[p..] == s[p..i] + "\n" + s[i + 1..];
  }

  lemma {:induction false} JoinSegmentsFrom(s: string, p: nat)
    requires p <= |s|
    ensures Join(SegmentsFrom(s, p)) == s[p..]
    decreases |s| - p
  {
    var i := NextNewline(s, p);
    if i < |s| {
      JoinSegmentsFrom(s, i + 1);
      JoinStep(s, p, i);
    } else {
      PiecesAtEnd(s, p);
    }
  }

  lemma JoinSegments(s: string)
    ensures Join(Segments(s)) == s
  {
    JoinSegmentsFrom(s, 0);
  }

  /** A stretch the search passed over holds no newline. */
  lemma NoNewlineBetween(s: string, p: nat, i: nat)
    requires p <= i <= |s|
    requires forall j :: p <= j < i ==> s[j] != '\n'
    ensures '\n' !in s[p..i]
  {
    forall j | 0 <= j < i - p ensures s[p..i][j] != '\n' {
      assert s[p..i][j] == s[p + j];
    }
  }

  /** ... and so counts none. */
  lemma NoNewlineCount(s: string, p: nat, i: nat)
    requires p <= i <= |s|
    requires forall j :: p <= j < i ==> s[j] != '\n'
    ensures NewlineCount(s[p..i]) == 0
  {
    NoNewlineBetween(s, p, i);
  }

  lemma {:induction false} SegmentsFromHaveNoNewline(s: string, p: nat)
    requires p <= |s|
    ensures forall k :: 0 <= k < |SegmentsFrom(s, p)| ==> '\n' !in SegmentsFrom(s, p)[k]
    decreases |s| - p
  {
    var i := NextNewline(s, p);
    NextNewlineSkips(s, p);
    NoNewlineBetween(s, p, i);
    if i < |s| {
      SegmentsFromHaveNoNewline(s, i + 1);
    } else {
      assert s[p..] == s[p..i];
    }
  }

  lemma SegmentsHaveNoNewline(s: string)
    ensures forall k :: 0 <= k < |Segments(s)| ==> '\n' !in Segments(s)[k]
  {
    SegmentsFromHaveNoNewline(s, 0);
  }

  /** Searching a string placed after a prefix ignores the prefix. */
  lemma NextNewlineShift(pre: string, t: string, j: nat)
    requires j <= |t|
    ensures NextNewline(pre + t, |pre| + j) == |pre| + NextNewline(t, j)
  {
    var s := pre + t;
    var i := NextNewline(t, j);
    NextNewlineSkips(t, j);
    forall k | |pre| + j <= k < |pre| + i ensures s[k] != '\n' {
      assert s[k] == t[k - |pre|];
    }
    NextNewlineIs(s, |pre| + j, |pre| + i);
  }

  lemma SliceAfterPrefix(pre: string, t: string, a: nat, b: nat)
    requires a <= b <= |t|
    ensures (pre + t)[|pre| + a..|pre| + b] == t[a..b]
    ensures (pre + t)[|pre| + a..] == t[a..]
  {
  }

  /** The step of SegmentsFromShift across the newline at `i`. */
  lemma ShiftStep(pre: string, t: string, j: nat, i: nat)
    requires j <= i < |t| && i == NextNewline(t, j)
    requires SegmentsFrom(pre + t, |pre| + (i + 1)) == SegmentsFrom(t, i + 1)
    ensures SegmentsFrom(pre + t, |pre| + j) == SegmentsFrom(t, j)
  {
    var b := |pre| + i;
    assert b + 1 == |pre| + (i + 1);
    NextNewlineShift(pre, t, j);
    SliceAfterPrefix(pre, t, j, i);
    SameFirstSegment(pre + t, |pre| + j, |pre| + i, t, j, i);
  }

  /** Two strings whose next pieces agree and whose pieces after them agree
      have the same pieces. */
  lemma SameFirstSegment(u: string, a: nat, b: nat, t: string, j: nat, i: nat)
    requires a <= b < |u| && b == NextNewline(u, a)
    requires j <= i < |t| && i == NextNewline(t, j)
    requires u[a..b] == t[j..i]
    requires SegmentsFrom(u, b + 1) == SegmentsFrom(t, i + 1)
    ensures SegmentsFrom(u, a) == SegmentsFrom(t, j)
  {
    SegmentsAtNewline(u, a, b);
    SegmentsAtNewline(t, j, i);
  }

  /** The last piece of SegmentsFromShift. */
  lemma ShiftEnd(pre: string, t: string, j: nat)
    requires j <= |t| && NextNewline(t, j) == |t|
    ensures SegmentsFrom(pre + t, |pre| + j) == SegmentsFrom(t, j)
  {
    NextNewlineShift(pre, t, j);
    SliceAfterPrefix(pre, t, j, |t|);
    PiecesAtEnd(pre + t, |pre| + j);
    PiecesAtEnd(t, j);
  }

  /** Splitting a string placed after a prefix ignores the prefix. */
  lemma {:induction false} SegmentsFromShift(pre: string, t: string, j: nat)
    requires j <= |t|
    ensures SegmentsFrom(pre + t, |pre| + j) == SegmentsFrom(t, j)
    decreases |t| - j
  {
    var i := NextNewline(t, j);
    if i < |t| {
      SegmentsFromShift(pre, t, i + 1);
      ShiftStep(pre, t, j, i);
    } else {
      ShiftEnd(pre, t, j);
    }
  }

  lemma {:induction false} SegmentsOfJoin(parts: seq<string>)
    requires |parts| >= 1
    requires forall k :: 0 <= k < |parts| ==> '\n' !in parts[k]
    ensures Segments(Join(parts)) == parts
  {
    var p0 := parts[0];
    if |parts| == 1 {
      NextNewlineIs(p0, 0, |p0|);
      assert p0[0..] == p0;
    } else {
      var rest := Join(parts[1..]);
      var pre := p0 + "\n";
      var s := Join(parts);
      assert s == pre + rest;
      forall j | 0 <= j < |p0| ensures s[j] != '\n' {
        assert s[j] == p0[j];
      }
      NextNewlineIs(s, 0, |p0|);
      assert s[0..|p0|] == p0;
      SegmentsFromShift(pre, rest, 0);
      SegmentsOfJoin(parts[1..]);
      assert parts == [p0] + parts[1..];
    }
  }

  lemma NewlineCountConcat(a: string, b: string)
    ensures NewlineCount(a + b) == NewlineCount(a) + NewlineCount(b)
  {
    assert multiset(a + b) == multiset(a) + multiset(b);
  }

  /** Counting from `p` past the first newline, at `i`, counts that newline once. */
  lemma CountPastNewline(s: string, p: nat, i: nat)
    requires p <= i < |s| && s[i] == '\n'
    requires forall j :: p <= j < i ==> s[j] != '\n'
    ensures NewlineCount(s[p..]) == NewlineCount(s[i + 1..]) + 1
  {
    NoNewlineCount(s, p, i);
    assert s[p..] == s[p..i] + (['\n'] + s[i + 1..]);
    NewlineCountConcat(s[p..i], ['\n'] + s[i + 1..]);
    NewlineCountConcat(['\n'], s[i + 1..]);
    assert NewlineCount(['\n']) == 1;
  }

  /** The newlines from `p` on are the one at NextNewline, if any, and those after it. */
  lemma CountFromNext(s: string, p: nat)
    requires p <= |s|
    ensures var i := NextNewline(s, p);
            NewlineCount(s[p..]) == if i < |s| then NewlineCount(s[i + 1..]) + 1 else 0
  {
    var i := NextNewline(s, p);
    NextNewlineSkips(s, p);
    if i < |s| {
      CountPastNewline(s, p, i);
    } else {
      NoNewlineCount(s, p, i);
      assert s[p..] == s[p..i];
    }
  }

  /** The step of SegmentCountFrom across the newline at `i`. */
  lemma SegmentCountStep(s: string, p: nat, i: nat)
    requires p <= i < |s| && i == NextNewline(s, p)
    requires |SegmentsFrom(s, i + 1)| == NewlineCount(s[i + 1..]) + 1
    ensures |SegmentsFrom(s, p)| == NewlineCount(s[p..]) + 1
  {
    CountFromNext(s, p);
    SegmentsAtNewline(s, p, i);
  }

  /** The last piece: no newline is left after `p`. */
  lemma SegmentCountEnd(s: string, p: nat)
    requires p <= |s| && NextNewline(s, p) == |s|
    ensures |SegmentsFrom(s, p)| == NewlineCount(s[p..]) + 1
  {
    CountFromNext(s, p);
    PiecesAtEnd(s, p);
  }

  lemma {:induction false} SegmentCountFrom(s: string, p: nat)
    requires p <= |s|
    ensures |SegmentsFrom(s, p)| == NewlineCount(s[p..]) + 1
    decreases |s| - p
  {
    var i := NextNewline(s, p);
    if i < |s| {
      SegmentCountFrom(s, i + 1);
      SegmentCountStep(s, p, i);
    } else {
      SegmentCountEnd(s, p);
    }
  }

  lemma SegmentCount(s: string)
    ensures |Segments(s)| == NewlineCount(s) + 1
  {
    SegmentCountFrom(s, 0);
    assert s[0..] == s;
  }

  lemma {:induction false} JoinSnoc(parts: seq<string>, x: string)
    requires |parts| >= 1
    ensures Join(parts + [x]) == Join(parts) + "\n" + x
    decreases |parts|
  {
    if |parts| > 1 {
      assert (parts + [x])[1..] == parts[1..] + [x];
      JoinSnoc(parts[1..], x);
    } else {
      assert (parts + [x])[1..] == [x];
    }
  }

  // ---- The steps of the loop

  /** The step `android_log` takes from position `p` to the newline at `q`,
      after writing the records `done`: the piece between them, cut at
      LineMax, is the next record, and it is what a copy of at most that many
      characters from `p` holds. */
  lemma LinesAt(s: string, records: seq<string>, done: seq<string>, p: nat, q: nat)
    requires p <= q < |s| && s[q] == '\n'
    requires forall j :: p <= j < q ==> s[j] != '\n'
    requires records == done + LinesFrom(s, p)
    ensures records == (done + [Clip(s[p..q])]) + LinesFrom(s, q + 1)
    ensures Take(s[p..], if q - p > LineMax then LineMax else q - p) == Clip(s[p..q])
  {
    NextNewlineIs(s, p, q);
    assert s[p..][..q - p] == s[p..q];
  }

  /** The last step of `android_log`: no newline is left after `p`, and the
      clipped rest is the last record. */
  lemma LinesAtTail(s: string, records: seq<string>, done: seq<string>, p: nat)
    requires p < |s|
    requires forall j :: p <= j < |s| ==> s[j] != '\n'
    requires records == done + LinesFrom(s, p)
    ensures records == done + [Clip(s[p..])]
    ensures Take(s[p..], LineMax) == Clip(s[p..])
  {
    NextNewlineIs(s, p, |s|);
  }

  // ---- What the records of a long message are

  /** One unfolding of SegmentsFrom and LinesFrom at a newline. */
  lemma PiecesAtNewline(s: string, p: nat, i: nat)
    requires p <= i < |s| && i == NextNewline(s, p)
    ensures SegmentsFrom(s, p) == [s[p..i]] + SegmentsFrom(s, i + 1)
    ensures LinesFrom(s, p) == [Clip(s[p..i])] + LinesFrom(s, i + 1)
  {
    SegmentsAtNewline(s, p, i);
    LinesAtNewline(s, p, i);
  }

  lemma SegmentsAtNewline(s: string, p: nat, i: nat)
    requires p <= i < |s| && i == NextNewline(s, p)
    ensures SegmentsFrom(s, p) == [s[p..i]] + SegmentsFrom(s, i + 1)
  {
  }

  lemma LinesAtNewline(s: string, p: nat, i: nat)
    requires p <= i < |s| && i == NextNewline(s, p)
    ensures LinesFrom(s, p) == [Clip(s[p..i])] + LinesFrom(s, i + 1)
  {
  }

  /** One unfolding of SegmentsFrom and LinesFrom past the last newline. */
  lemma PiecesAtEnd(s: string, p: nat)
    requires p <= |s| && NextNewline(s, p) == |s|
    ensures SegmentsFrom(s, p) == [s[p..]]
    ensures LinesFrom(s, p) == if p == |s| then [] else [Clip(s[p..])]
  {
  }

  /** Whether the pieces end in an empty one, which yields no record. */
  predicate EndsEmpty(segs: seq<string>)
    requires |segs| >= 1
  {
    segs[|segs| - 1] == ""
  }

  lemma LinesCountStep(s: string, p: nat, i: nat)
    requires p <= i < |s| && i == NextNewline(s, p)
    requires var segs := SegmentsFrom(s, i + 1);
             |LinesFrom(s, i + 1)| == (if EndsEmpty(segs) then |segs| - 1 else |segs|)
    ensures var segs := SegmentsFrom(s, p);
            |LinesFrom(s, p)| == (if EndsEmpty(segs) then |segs| - 1 else |segs|)
  {
    PiecesAtNewline(s, p, i);
  }

  lemma LinesCountEnd(s: string, p: nat)
    requires p <= |s| && NextNewline(s, p) == |s|
    ensures var segs := SegmentsFrom(s, p);
            |LinesFrom(s, p)| == (if EndsEmpty(segs) then |segs| - 1 else |segs|)
  {
    PiecesAtEnd(s, p);
  }

  lemma {:induction false} LinesFromCount(s: string, p: nat)
    requires p <= |s|
    ensures var segs := SegmentsFrom(s, p);
            |LinesFrom(s, p)| == (if EndsEmpty(segs) then |segs| - 1 else |segs|)
    decreases |s| - p
  {
    var i := NextNewline(s, p);
    if i < |s| {
      LinesFromCount(s, i + 1);
      LinesCountStep(s, p, i);
    } else {
      LinesCountEnd(s, p);
    }
  }

  /** Past the newline at `i`, there is a record `k - 1` of the rest. */
  lemma LinesAtShift(s: string, p: nat, i: nat, k: nat)
    requires p <= i < |s| && i == NextNewline(s, p)
    requires 0 < k < |LinesFrom(s, p)|
    ensures k - 1 < |LinesFrom(s, i + 1)|
  {
    LinesAtNewline(s, p, i);
  }

  /** Record and piece `k` are record and piece `k - 1` of the rest. */
  lemma LinesAtStep(s: string, p: nat, i: nat, k: nat)
    requires p <= i < |s| && i == NextNewline(s, p)
    requires 0 < k < |LinesFrom(s, p)|
    requires k - 1 < |LinesFrom(s, i + 1)| && k - 1 < |SegmentsFrom(s, i + 1)|
    requires LinesFrom(s, i + 1)[k - 1] == Clip(SegmentsFrom(s, i + 1)[k - 1])
    ensures k < |SegmentsFrom(s, p)| && LinesFrom(s, p)[k] == Clip(SegmentsFrom(s, p)[k])
  {
    PiecesAtNewline(s, p, i);
  }

  /** The first record is the first piece, clipped. */
  lemma LinesAtFirst(s: string, p: nat)
    requires p <= |s| && 0 < |LinesFrom(s, p)|
    ensures LinesFrom(s, p)[0] == Clip(SegmentsFrom(s, p)[0])
  {
    var i := NextNewline(s, p);
    if i < |s| {
      PiecesAtNewline(s, p, i);
    } else {
      PiecesAtEnd(s, p);
    }
  }

  /** A record past the first means a newline was found. */
  lemma LinesPastFirst(s: string, p: nat)
    requires p <= |s| && 1 < |LinesFrom(s, p)|
    ensures NextNewline(s, p) < |s|
  {
    if NextNewline(s, p) == |s| {
      PiecesAtEnd(s, p);
    }
  }

  lemma {:induction false} LinesFromAt(s: string, p: nat, k: nat)
    requires p <= |s|
    requires k < |LinesFrom(s, p)|
    ensures k < |SegmentsFrom(s, p)| && LinesFrom(s, p)[k] == Clip(SegmentsFrom(s, p)[k])
    decreases k
  {
    if k == 0 {
      LinesAtFirst(s, p);
    } else {
      LinesPastFirst(s, p);
      var i := NextNewline(s, p);
      LinesAtShift(s, p, i, k);
      LinesFromAt(s, i + 1, k - 1);
      LinesAtStep(s, p, i, k);
    }
  }

  lemma LinesFromAreClippedSegments(s: string, p: nat)
    requires p <= |s|
    ensures var segs := SegmentsFrom(s, p);
            |LinesFrom(s, p)| == (if segs[|segs| - 1] == "" then |segs| - 1 else |segs|) &&
            forall k :: 0 <= k < |LinesFrom(s, p)| ==> LinesFrom(s, p)[k] == Clip(segs[k])
  {
    LinesFromCount(s, p);
    forall k | 0 <= k < |LinesFrom(s, p)|
      ensures LinesFrom(s, p)[k] == Clip(SegmentsFrom(s, p)[k])
    {
      LinesFromAt(s, p, k);
    }
  }

  /** Each record is the matching piece of the message, clipped to LineMax,
      and the pieces are those of the whole message except an empty last one. */
  lemma LinesAreClippedSegments(s: string)
    ensures var segs := Segments(s);
            |Lines(s)| == (if segs[|segs| - 1] == "" then |segs| - 1 else |segs|) &&
            forall k :: 0 <= k < |Lines(s)| ==> Lines(s)[k] == Clip(segs[k])
  {
    LinesFromAreClippedSegments(s, 0);
  }

  /** No record is longer than LineMax or contains a newline. */
  lemma LinesBounded(s: string)
    ensures forall k :: 0 <= k < |Lines(s)| ==> |Lines(s)[k]| <= LineMax && '\n' !in Lines(s)[k]
  {
    SegmentsHaveNoNewline(s);
    LinesAreClippedSegments(s);
    var segs := Segments(s);
    forall k | 0 <= k < |Lines(s)| ensures '\n' !in Lines(s)[k] {
      assert '\n' !in segs[k];
      assert Lines(s)[k] == Take(segs[k], LineMax);
    }
  }

  /** The last piece is empty exactly when the message ends in a newline. */
  lemma LastSegmentEmpty(s: string)
    requires s != ""
    ensures var segs := Segments(s);
            segs[|segs| - 1] == "" <==> s[|s| - 1] == '\n'
  {
    var segs := Segments(s);
    JoinSegments(s);
    SegmentsHaveNoNewline(s);
    if |segs| == 1 {
      assert s == segs[0];
    } else {
      var n := |segs|;
      assert segs == segs[..n - 1] + [segs[n - 1]];
      JoinSnoc(segs[..n - 1], segs[n - 1]);
      if segs[n - 1] != "" {
        assert s[|s| - 1] == segs[n - 1][|segs[n - 1]| - 1];
        assert segs[n - 1][|segs[n - 1]| - 1] in segs[n - 1];
      }
    }
  }

  /** One record per newline, plus one for a tail that does not end in a newline. */
  lemma LinesCount(s: string)
    requires s != ""
    ensures |Lines(s)| == NewlineCount(s) + (if s[|s| - 1] == '\n' then 0 else 1)
  {
    SegmentCount(s);
    LastSegmentEmpty(s);
    LinesAreClippedSegments(s);
  }

  /** With no piece longer than LineMax, clipping changes nothing. */
  lemma LinesUnclipped(s: string)
    requires forall k :: 0 <= k < |Segments(s)| ==> |Segments(s)[k]| <= LineMax
    ensures var segs := Segments(s);
            Lines(s) == if segs[|segs| - 1] == "" then segs[..|segs| - 1] else segs
  {
    LinesAreClippedSegments(s);
  }

  /** Dropping an empty last piece drops the newline before it. */
  lemma JoinDropEmptyLast(parts: seq<string>)
    requires |parts| >= 2 && parts[|parts| - 1] == ""
    ensures Join(parts[..|parts| - 1]) + "\n" == Join(parts)
  {
    var n := |parts|;
    assert parts == parts[..n - 1] + [""];
    JoinSnoc(parts[..n - 1], "");
  }

  /** When no line is longer than LineMax nothing is lost: joining the records
      with newlines gives the message back, minus its final newline if any. */
  lemma LinesLossless(s: string)
    requires s != ""
    requires forall k :: 0 <= k < |Segments(s)| ==> |Segments(s)[k]| <= LineMax
    ensures |Lines(s)| >= 1
    ensures Join(Lines(s)) + (if s[|s| - 1] == '\n' then "\n" else "") == s
  {
    var segs := Segments(s);
    var n := |segs|;
    JoinSegments(s);
    LastSegmentEmpty(s);
    LinesUnclipped(s);
    if segs[n - 1] == "" {
      assert n > 1;
      JoinDropEmptyLast(segs);
    }
  }

  /** The whole-message test allows MaxLen characters but a cut line holds only
      LineMax: a newline-free message of MaxLen characters is written whole,
      one character longer and it loses its last two characters. */
  lemma BoundaryAsymmetry(message: string)
    requires message != "" && '\n' !in message
    ensures |message| <= MaxLen ==> Records(message) == [message]
    ensures |message| > MaxLen ==> Records(message) == [message[..LineMax]]
  {
    if |message| > MaxLen {
      NextNewlineIs(message, 0, |message|);
      assert message[0..] == message;
    }
  }

  /** A message of at most MaxLen characters is one record equal to it; a longer
      one gives records of at most LineMax characters and no newline. */
  lemma RecordsBounded(message: string)
    ensures |message| <= MaxLen ==> Records(message) == [message]
    ensures forall k :: 0 <= k < |Records(message)| ==> |Records(message)[k]| <= MaxLen
    ensures |message| > MaxLen ==>
              forall k :: 0 <= k < |Records(message)| ==>
                |Records(message)[k]| <= LineMax && '\n' !in Records(message)[k]
  {
    LinesBounded(message);
  }

  // ---------------------------------------------------------------------
  // The search used by the loop

  /** `strstr (p, "\n")` on the string from position `from`. */
  method FindNewline(s: string, from: nat) returns (r: Option<nat>)
    requires from <= |s|
    ensures r.Some? ==> from <= r.value < |s| && s[r.value] == '\n'
    ensures r.Some? ==> forall j :: from <= j < r.value ==> s[j] != '\n'
    ensures r.None? ==> forall j :: from <= j < |s| ==> s[j] != '\n'
  {
    var i := from;
    while i < |s|
      invariant from <= i <= |s|
      invariant forall j :: from <= j < i ==> s[j] != '\n'
    {
      if s[i] == '\n' {
        return Some(i);
      }
      i := i + 1;
    }
    return None;
  }
}
