/** The logger's immutable configuration and its defaults (LoggerConfig.kt). */
module Config {
  import opened Wrappers
  import opened Text

  /** Byte caps are Kotlin `Long`s, so they are plain (possibly negative)
      integers here. */
  datatype LoggerConfig = LoggerConfig(
    fileDateFormat: string,
    logDateFormat: string,
    logDirName: string,
    logPrefix: string,
    logExt: string,
    fileMaxLength: int,
    totalMaxLength: int,
    tag: Option<string>)

  function Default(): LoggerConfig {
    LoggerConfig(
      "yyyy-MM-dd_HH-mm-ss-SSS",
      "yyyy-MM-dd HH:mm:ss.SSS",
      "logs",
      "log",
      ".log",
      1000000,
      5000000,
      None)
  }

  /** Name of a log file created at the (already formatted) time `stamp`. */
  function FileName(cfg: LoggerConfig, stamp: string): (name: string)
    ensures StartsWith(name, cfg.logPrefix)
    ensures EndsWith(name, cfg.logExt)
    ensures |name| == |cfg.logPrefix| + |stamp| + |cfg.logExt|
  {
    var name := cfg.logPrefix + stamp + cfg.logExt;
    assert name[..|cfg.logPrefix|] == cfg.logPrefix;
    assert name[|name| - |cfg.logExt|..] == cfg.logExt;
    name
  }

  /** Two stamps of equal width produce file names in the same order as the
      stamps themselves. */
  lemma FileNameOrder(cfg: LoggerConfig, a: string, b: string)
    requires |a| == |b|
    ensures Below(FileName(cfg, a), FileName(cfg, b)) <==> Below(a, b)
  {
    var p := cfg.logPrefix;
    BelowConcat(p + a, p + b, cfg.logExt, cfg.logExt);
    BelowIrreflexive(cfg.logExt);
    BelowCommonPrefix(p, a, b);
  }

  /** The defaults: per-file cap 1,000,000 bytes, a strictly larger total cap
      of 5,000,000 bytes, file names "log<stamp>.log". */
  lemma DefaultCaps()
    ensures Default().fileMaxLength == 1000000
    ensures Default().totalMaxLength == 5000000
    ensures 0 < Default().fileMaxLength < Default().totalMaxLength
    ensures Default().logPrefix == "log" && Default().logExt == ".log"
    ensures FileName(Default(), "") == "log.log"
  {
  }
}
