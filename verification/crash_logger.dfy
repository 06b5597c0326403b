/** The crash record kept in one file (CrashLogger.kt): appending a record
    when the process dies, wrapping the record for a listener at the next
    start, and deleting it once the listener acknowledges success. */
module CrashLog {
  import opened Wrappers
  import opened Text

  /** The crash file: missing, or present with its text. */
  datatype CrashFile = Absent | Present(text: string)

  /** How far the write of one record got before an `IOException` ended it:
      all of it, or only its first `n` characters. */
  datatype WriteOutcome = Complete | CutAt(n: nat)

  /** The text of the file; a missing file reads as empty. */
  function Contents(f: CrashFile): string {
    match f
    case Absent => ""
    case Present(text) => text
  }

  /** `crashLogExists`. */
  predicate Exists(f: CrashFile) {
    f.Present?
  }

  /** `deleteCrashLog`: the file is gone afterwards, whether or not it was
      there before. */
  function Delete(f: CrashFile): (g: CrashFile)
    ensures !Exists(g)
  {
    Absent
  }

  /** The record one crash appends: a `crash_timestamp=` line, then the
      stack trace as `printStackTrace` writes it. */
  function Record(stamp: string, trace: string): (r: string)
    ensures StartsWith(r, "crash_timestamp=")
    ensures EndsWith(r, trace)
    ensures |r| == 17 + |stamp| + |trace|
  {
    "crash_timestamp=" + stamp + "\n" + trace
  }

  /** `logCrash`: when the file cannot be opened for appending nothing
      happens; otherwise the file is created if needed and the record, or the
      part of it written before an I/O error, is appended to what is there. */
  function LogCrash(f: CrashFile, canOpen: bool, stamp: string, trace: string, write: WriteOutcome): (g: CrashFile)
    ensures !canOpen ==> g == f
    ensures canOpen ==> Exists(g) && StartsWith(Contents(g), Contents(f))
    ensures canOpen && write.Complete? ==> Contents(g) == Contents(f) + Record(stamp, trace)
    ensures canOpen ==> StartsWith(Record(stamp, trace), Contents(g)[|Contents(f)|..])
    ensures canOpen && write.CutAt? ==>
              |Contents(g)| == |Contents(f)| + (if write.n < |Record(stamp, trace)| then write.n else |Record(stamp, trace)|)
  {
    if !canOpen then f
    else
      var r := Record(stamp, trace);
      var written := match write
        case Complete => r
        case CutAt(n) => if n < |r| then r[..n] else r;
      Present(Contents(f) + written)
  }

  /** Two crashes, each written completely, leave both records in the order
      they happened: the file accumulates rather than being overwritten. */
  lemma RepeatedCrashesAccumulate(f: CrashFile, stamp1: string, trace1: string, stamp2: string, trace2: string)
    ensures var g := LogCrash(LogCrash(f, true, stamp1, trace1, Complete), true, stamp2, trace2, Complete);
            Contents(g) == Contents(f) + Record(stamp1, trace1) + Record(stamp2, trace2)
  {
    var g1 := LogCrash(f, true, stamp1, trace1, Complete);
    assert Contents(g1) == Contents(f) + Record(stamp1, trace1);
  }

  /** The opening and closing the listener's text carries around the file
      text. */
  const Opening: string := "crash log:\n<pre>\n"
  const Closing: string := "\n</pre>\n"

  /** The text the listener receives for `text`. */
  function Wrap(text: string): (w: string)
    ensures StartsWith(w, Opening) && EndsWith(w, Closing)
    ensures |w| == |Opening| + |text| + |Closing|
  {
    Opening + text + Closing
  }

  /** The file text back out of a listener's text, if it has the shape. */
  function Unwrap(w: string): (r: Option<string>)
    ensures r.Some? <==> |w| >= |Opening| + |Closing| && StartsWith(w, Opening) && EndsWith(w, Closing)
  {
    if |w| >= |Opening| + |Closing| && StartsWith(w, Opening) && EndsWith(w, Closing) then
      Some(w[|Opening|..|w| - |Closing|])
    else None
  }

  /** Unwrapping recovers the file text exactly. */
  lemma UnwrapWrap(text: string)
    ensures Unwrap(Wrap(text)) == Some(text)
  {
    var w := Wrap(text);
    assert w[..|Opening|] == Opening;
    assert w[|w| - |Closing|..] == Closing;
    assert w[|Opening|..|w| - |Closing|] == text;
  }

  /** Every listener text is the wrap of what unwrapping finds in it. */
  lemma WrapUnwrap(w: string)
    requires Unwrap(w).Some?
    ensures Wrap(Unwrap(w).value) == w
  {
    var t := Unwrap(w).value;
    assert w == w[..|Opening|] + t + w[|w| - |Closing|..];
  }

  /** `prepareCrashLog`: with no crash file nothing happens; otherwise the
      listener, if there is one, is handed the wrapped file text, or the
      wrapping alone when reading the file failed. Returns what the listener
      was handed. */
  function PrepareCrashLog(f: CrashFile, hasListener: bool, readOk: bool): (handed: Option<string>)
    ensures handed.Some? <==> Exists(f) && hasListener
    ensures handed.Some? && readOk ==> Unwrap(handed.value) == Some(f.text)
    ensures handed.Some? && !readOk ==> handed.value == Opening + Closing
  {
    if Exists(f) then
      var content := Opening + (if readOk then f.text else "") + Closing;
      if hasListener then
        UnwrapWrap(f.text);
        Some(content)
      else None
    else None
  }

  /** `handledCallback`: an acknowledged success deletes the crash file; a
      failure leaves it as it was. */
  function CrashLogHandled(f: CrashFile, success: bool): (g: CrashFile)
    ensures success ==> !Exists(g)
    ensures !success ==> g == f
  {
    if success then Delete(f) else f
  }
}
