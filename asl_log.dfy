/**
 * The iOS branch of the eglib output layer: the mapping from GLib levels to
 * Apple System Log levels.
 */
module AslLog {
  import opened LogLevels

  /** The ASL levels the handlers produce. */
  datatype Level = Crit | Err | Warning | Notice | Info | Debug

  /** The order of the ASL levels, from least to most urgent. */
  function Urgency(l: Level): nat {
    match l
    case Debug => 0
    case Info => 1
    case Notice => 2
    case Warning => 3
    case Err => 4
    case Crit => 5
  }

  /** `to_asl_priority`: a switch on `level & G_LOG_LEVEL_MASK`; anything
      unmatched falls back to ASL_LEVEL_ERR, the level CRITICAL also gets. */
  function ToAslLevel(level: Mask): (l: Level)
    ensures l == Err <==> LevelBits(level) == {LevelCritical} || LevelBits(level) !in StandardSingletons
  {
    var bits := LevelBits(level);
    if bits == {LevelError} then Crit
    else if bits == {LevelCritical} then Err
    else if bits == {LevelWarning} then Warning
    else if bits == {LevelMessage} then Notice
    else if bits == {LevelInfo} then Info
    else if bits == {LevelDebug} then Debug
    else Err
  }

  /** The six named cases, with or without the two flag bits set. */
  lemma AslLevelTable(extra: Mask)
    requires extra <= {FlagRecursion, FlagFatal}
    ensures ToAslLevel({LevelError} + extra) == Crit
    ensures ToAslLevel({LevelCritical} + extra) == Err
    ensures ToAslLevel({LevelWarning} + extra) == Warning
    ensures ToAslLevel({LevelMessage} + extra) == Notice
    ensures ToAslLevel({LevelInfo} + extra) == Info
    ensures ToAslLevel({LevelDebug} + extra) == Debug
  {
    forall f | f in StandardLevels ensures LevelBits({f} + extra) == {f} {
      LevelBitsIgnoreFlags({f}, extra);
      StandardLevelBits(f);
    }
  }

  /** More severe GLib levels get strictly more urgent ASL levels. */
  lemma AslLevelPreservesSeverity(f: Flag, g: Flag)
    requires f in StandardLevels && g in StandardLevels
    ensures Severity(f) < Severity(g) <==> Urgency(ToAslLevel({f})) < Urgency(ToAslLevel({g}))
  {
    StandardLevelBits(f);
    StandardLevelBits(g);
  }
}
