/**
 * GLib log level flags (`GLogLevelFlags`). The numeric bit values live in a
 * header that is not part of this model, so each flag is an abstract constant
 * and a flag word is the set of flags whose bits are set: `a & b` is `a * b`,
 * `a | b` is `a + b`, and "non-zero" is "not empty".
 */
module LogLevels {

  datatype Flag =
    | FlagRecursion                 // G_LOG_FLAG_RECURSION
    | FlagFatal                     // G_LOG_FLAG_FATAL
    | LevelError                    // G_LOG_LEVEL_ERROR
    | LevelCritical                 // G_LOG_LEVEL_CRITICAL
    | LevelWarning                  // G_LOG_LEVEL_WARNING
    | LevelMessage                  // G_LOG_LEVEL_MESSAGE
    | LevelInfo                     // G_LOG_LEVEL_INFO
    | LevelDebug                    // G_LOG_LEVEL_DEBUG
    | LevelUser(shift: nat)         // a user-defined level above the standard ones

  type Mask = set<Flag>

  /** The six levels the platform priority mappings know by name. */
  const StandardLevels: set<Flag> :=
    {LevelError, LevelCritical, LevelWarning, LevelMessage, LevelInfo, LevelDebug}

  /** A level word that, once masked, is exactly one standard level. */
  const StandardSingletons: set<Mask> :=
    {{LevelError}, {LevelCritical}, {LevelWarning}, {LevelMessage}, {LevelInfo}, {LevelDebug}}

  /** Membership in G_LOG_LEVEL_MASK: every bit except the two flag bits. */
  predicate InLevelMask(f: Flag) {
    !f.FlagRecursion? && !f.FlagFatal?
  }

  /** `level & G_LOG_LEVEL_MASK`. */
  function LevelBits(level: Mask): (bits: Mask)
    ensures bits <= level
    ensures forall f :: f in bits <==> f in level && InLevelMask(f)
  {
    set f | f in level && InLevelMask(f)
  }

  /** `(a & b) != 0`. */
  predicate Intersects(a: Mask, b: Mask) {
    a * b != {}
  }

  /** GLib's severity order of the standard levels: ERROR is the most severe, DEBUG the least. */
  function Severity(f: Flag): nat
    requires f in StandardLevels
  {
    match f
    case LevelError => 5
    case LevelCritical => 4
    case LevelWarning => 3
    case LevelMessage => 2
    case LevelInfo => 1
    case LevelDebug => 0
    case _ => 0
  }

  /** Masking a single standard level leaves it as it is. */
  lemma StandardLevelBits(f: Flag)
    requires f in StandardLevels
    ensures LevelBits({f}) == {f}
    ensures {f} in StandardSingletons
  {
  }

  /** Masking ignores the two flag bits: adding them changes nothing. */
  lemma LevelBitsIgnoreFlags(level: Mask, extra: Mask)
    requires extra <= {FlagRecursion, FlagFatal}
    ensures LevelBits(level + extra) == LevelBits(level)
  {
  }
}
