/** One log record and its rendering into a text line (LogEntry.kt). */
module LogEntryCodec {
  import opened Wrappers
  import opened Text

  /** Android's `Log` priority constants. */
  const VERBOSE: int := 2
  const DEBUG: int := 3
  const INFO: int := 4
  const WARN: int := 5
  const ERROR: int := 6
  const ASSERT: int := 7

  /** A throwable as far as rendering is concerned: its `toString()`, the
      `toString()` of each stack frame, and the identity hash that the
      default `Object.toString()` of its frame array shows. */
  datatype Throwable = Throwable(description: string, frames: seq<string>, identity: string)

  datatype LogEntry = LogEntry(priority: int, tag: Option<string>, message: string, t: Option<Throwable>)

  /** The Android constant a severity name stands for. */
  function Level(name: string): Option<int> {
    if name == "ASSERT" then Some(ASSERT)
    else if name == "ERROR" then Some(ERROR)
    else if name == "WARN" then Some(WARN)
    else if name == "INFO" then Some(INFO)
    else if name == "DEBUG" then Some(DEBUG)
    else if name == "VERBOSE" then Some(VERBOSE)
    else None
  }

  /** `priority` moved into the range of named severities. */
  function Clamp(priority: int): int {
    if priority > ASSERT then ASSERT else if priority < VERBOSE then VERBOSE else priority
  }

  /** `getPriorityName`: every priority is named by the band it falls in; the
      named constants name themselves, anything above ASSERT is ASSERT and
      anything below DEBUG is VERBOSE. */
  function PriorityName(priority: int): (name: string)
    ensures Level(name) == Some(Clamp(priority))
    ensures '|' !in name
  {
    if priority >= ASSERT then "ASSERT"
    else if priority >= ERROR then "ERROR"
    else if priority >= WARN then "WARN"
    else if priority >= INFO then "INFO"
    else if priority >= DEBUG then "DEBUG"
    else "VERBOSE"
  }

  /** Higher priorities never get a lower severity name. */
  lemma PriorityNameMonotone(p: int, q: int)
    requires p <= q
    ensures Level(PriorityName(p)).value <= Level(PriorityName(q)).value
  {
  }

  /** Naming is a left inverse of `Level`: each severity name is the name of
      its own constant. */
  lemma PriorityNameOfLevel(name: string)
    requires Level(name).Some?
    ensures PriorityName(Level(name).value) == name
  {
  }

  /** `StringBuilder.append(String?)` writes "null" for a missing tag. */
  function TagText(tag: Option<string>): string {
    match tag
    case Some(s) => s
    case None => "null"
  }

  /** The stack frames one per line. */
  function StackText(frames: seq<string>): string
    decreases |frames|
  {
    if |frames| == 0 then ""
    else if |frames| == 1 then frames[0]
    else frames[0] + "\r\n" + StackText(frames[1..])
  }

  /** What `sb.append(t.stackTrace)` writes: the frame array is an
      `Array<StackTraceElement>`, whose default `toString()` is its type
      descriptor and identity hash, not its frames. */
  function ArrayIdentity(t: Throwable): string {
    "[Ljava.lang.StackTraceElement;@" + t.identity
  }

  /** The fields of one line, in layout order. */
  datatype Fields = Fields(stamp: string, tag: string, severity: string, body: string)

  /** `[stamp] tag|severity|body` followed by CR LF. */
  function Layout(f: Fields): string {
    "[" + f.stamp + "] " + f.tag + "|" + f.severity + "|" + f.body + "\r\n"
  }

  /** Message, then, for a throwable, ": " + its description, CR LF and its
      stack frames. */
  function Body(e: LogEntry): (b: string)
    ensures StartsWith(b, e.message)
    ensures e.t.None? ==> b == e.message
  {
    var b := e.message + (
      match e.t
      case None => ""
      case Some(t) => ": " + t.description + "\r\n" + StackText(t.frames));
    assert b[..|e.message|] == e.message;
    b
  }

  /** `LogEntry.print` with `stamp` the formatted current time, writing the
      stack frames of the throwable (the corrected rendering, see
      `RenderAsWritten`). */
  function Render(e: LogEntry, stamp: string): (line: string)
    ensures StartsWith(line, "[") && EndsWith(line, "\r\n")
  {
    var line := Layout(Fields(stamp, TagText(e.tag), PriorityName(e.priority), Body(e)));
    assert line[..1] == "[";
    assert line[|line| - 2..] == "\r\n";
    line
  }

  /** The body as `print` builds it: message, then, for a throwable, ": " +
      its description, CR LF and the identity string of its frame array. */
  function BodyAsWritten(e: LogEntry): (b: string)
    ensures StartsWith(b, e.message)
    ensures e.t.None? ==> b == Body(e)
    ensures e.t.Some? ==> EndsWith(b, ArrayIdentity(e.t.value))
  {
    var b := e.message + (
      match e.t
      case None => ""
      case Some(t) => ": " + t.description + "\r\n" + ArrayIdentity(t));
    assert b[..|e.message|] == e.message;
    assert e.t.Some? ==> b[|b| - |ArrayIdentity(e.t.value)|..] == ArrayIdentity(e.t.value);
    b
  }

  /** `LogEntry.print` as written, with `stamp` the formatted current time:
      the throwable's frames are replaced by the identity string of the
      frame array. This is the line the store appends. */
  function RenderAsWritten(e: LogEntry, stamp: string): (line: string)
    ensures StartsWith(line, "[") && EndsWith(line, "\r\n")
  {
    var line := Layout(Fields(stamp, TagText(e.tag), PriorityName(e.priority), BodyAsWritten(e)));
    assert line[..1] == "[";
    assert line[|line| - 2..] == "\r\n";
    line
  }

  /** Without a throwable the defect does not show: the line as written is
      the corrected line. */
  lemma AsWrittenAgreesWithoutThrowable(e: LogEntry, stamp: string)
    requires e.t.None?
    ensures RenderAsWritten(e, stamp) == Render(e, stamp)
  {
  }

  /** Reading back a line as written: when the stamp holds no ']' and the
      tag no '|', it yields the stamp, the tag, the severity name and a body
      that starts with the message and, for a throwable, ends with the frame
      array's identity string instead of its frames. */
  lemma DecodeRenderAsWritten(e: LogEntry, stamp: string)
    requires ']' !in stamp && '|' !in TagText(e.tag)
    ensures Decode(RenderAsWritten(e, stamp)) == Some(Fields(stamp, TagText(e.tag), PriorityName(e.priority), BodyAsWritten(e)))
    ensures StartsWith(Decode(RenderAsWritten(e, stamp)).value.body, e.message)
    ensures e.t.Some? ==> EndsWith(Decode(RenderAsWritten(e, stamp)).value.body, ArrayIdentity(e.t.value))
  {
    DecodeLayout(Fields(stamp, TagText(e.tag), PriorityName(e.priority), BodyAsWritten(e)));
  }

  /** As written, the line does not depend on the stack frames at all: two
      throwables that differ only in their frames log identical lines. */
  lemma AsWrittenLosesFrames(e: LogEntry, stamp: string, frames: seq<string>)
    requires e.t.Some?
    ensures RenderAsWritten(e, stamp) == RenderAsWritten(e.(t := Some(e.t.value.(frames := frames))), stamp)
  {
  }

  /** A concrete witness: a throwable with one frame renders differently
      from what the corrected rendering writes. */
  lemma AsWrittenDiffersFromFrames()
    ensures var e := LogEntry(ERROR, Some("T"), "m", Some(Throwable("E", ["f"], "1")));
            RenderAsWritten(e, "s") != Render(e, "s")
  {
    var e := LogEntry(ERROR, Some("T"), "m", Some(Throwable("E", ["f"], "1")));
    var w, r := RenderAsWritten(e, "s"), Render(e, "s");
    assert |r| == |"[s] T|ERROR|m: E\r\nf\r\n"|;
    assert |w| != |r|;
  }

  lemma {:induction false} StackTextHasFrames(frames: seq<string>, i: nat)
    requires i < |frames|
    ensures Infix(frames[i], StackText(frames))
    decreases |frames|
  {
    if |frames| == 1 {
      InfixSelf(frames[0]);
    } else if i == 0 {
      InfixSelf(frames[0]);
      InfixOfConcat(frames[0], frames[0], "\r\n");
      InfixOfConcat(frames[0], frames[0] + "\r\n", StackText(frames[1..]));
    } else {
      StackTextHasFrames(frames[1..], i - 1);
      InfixOfConcat(frames[i], frames[0] + "\r\n", StackText(frames[1..]));
    }
  }

  /** The corrected rendering keeps every stack frame of the throwable. */
  lemma RenderKeepsFrames(e: LogEntry, stamp: string, i: nat)
    requires e.t.Some? && i < |e.t.value.frames|
    ensures Infix(e.t.value.frames[i], Render(e, stamp))
  {
    var t := e.t.value;
    var x := t.frames[i];
    var cause := ": " + t.description + "\r\n";
    var f := Fields(stamp, TagText(e.tag), PriorityName(e.priority), Body(e));
    var head := "[" + f.stamp + "] " + f.tag + "|" + f.severity + "|";
    StackTextHasFrames(t.frames, i);
    InfixOfConcat(x, cause, StackText(t.frames));
    InfixOfConcat(x, e.message, cause + StackText(t.frames));
    assert Body(e) == e.message + (cause + StackText(t.frames));
    InfixOfConcat(x, head, f.body);
    InfixOfConcat(x, head + f.body, "\r\n");
    assert Render(e, stamp) == head + f.body + "\r\n";
  }

  /** Splits `s` at the first occurrence of `c` into the text before it and
      the text after it. */
  function SplitAt(s: string, c: char): (r: Option<(string, string)>)
    ensures r.Some? ==> s == r.value.0 + [c] + r.value.1 && c !in r.value.0
    ensures r.None? ==> c !in s
    decreases |s|
  {
    if |s| == 0 then None
    else if s[0] == c then Some(([], s[1..]))
    else
      match SplitAt(s[1..], c)
      case None => None
      case Some((x, y)) => Some(([s[0]] + x, y))
  }

  lemma {:induction false} SplitAtFirst(a: string, c: char, b: string)
    requires c !in a
    ensures SplitAt(a + [c] + b, c) == Some((a, b))
    decreases |a|
  {
    var s := a + [c] + b;
    if |a| == 0 {
      assert s[1..] == b;
    } else {
      assert s[1..] == a[1..] + [c] + b;
      SplitAtFirst(a[1..], c, b);
      assert [a[0]] + a[1..] == a;
    }
  }

  /** The line between its opening '[' and its closing CR LF. */
  function Inner(f: Fields): string {
    f.stamp + "]" + (" " + (f.tag + "|" + (f.severity + "|" + f.body)))
  }

  lemma LayoutInner(f: Fields)
    ensures Layout(f) == "[" + Inner(f) + "\r\n"
  {
  }

  /** Splits a line back into its fields: the stamp ends at the first ']',
      the tag at the next '|', the severity at the one after. */
  function Decode(line: string): Option<Fields> {
    if |line| < 3 || line[0] != '[' || line[|line| - 2..] != "\r\n" then None
    else
      match SplitAt(line[1..|line| - 2], ']')
      case None => None
      case Some((stamp, afterStamp)) =>
        if |afterStamp| == 0 || afterStamp[0] != ' ' then None
        else
          match SplitAt(afterStamp[1..], '|')
          case None => None
          case Some((tag, afterTag)) =>
            match SplitAt(afterTag, '|')
            case None => None
            case Some((severity, body)) => Some(Fields(stamp, tag, severity, body))
  }

  /** Decoding undoes the layout whenever the stamp holds no ']' and the tag
      and severity hold no '|'. */
  lemma DecodeLayout(f: Fields)
    requires ']' !in f.stamp && '|' !in f.tag && '|' !in f.severity
    ensures Decode(Layout(f)) == Some(f)
  {
    var line := Layout(f);
    var afterTag := f.severity + "|" + f.body;
    var rest := f.tag + "|" + afterTag;
    var afterStamp := " " + rest;
    LayoutInner(f);
    assert line[1..|line| - 2] == Inner(f);
    SplitAtFirst(f.stamp, ']', afterStamp);
    assert afterStamp[1..] == rest;
    SplitAtFirst(f.tag, '|', afterTag);
    SplitAtFirst(f.severity, '|', f.body);
  }

  /** A line that decodes is exactly the layout of what it decodes to. */
  lemma LayoutDecode(line: string)
    requires Decode(line).Some?
    ensures Layout(Decode(line).value) == line
  {
    var f := Decode(line).value;
    LayoutInner(f);
    var inner := line[1..|line| - 2];
    var (stamp, afterStamp) := SplitAt(inner, ']').value;
    var (tag, afterTag) := SplitAt(afterStamp[1..], '|').value;
    var (severity, body) := SplitAt(afterTag, '|').value;
    assert f == Fields(stamp, tag, severity, body);
    assert afterTag == severity + "|" + body;
    assert afterStamp[1..] == tag + "|" + afterTag;
    assert afterStamp == " " + afterStamp[1..];
    assert inner == stamp + "]" + afterStamp;
    assert inner == Inner(f);
    assert line == "[" + inner + "\r\n";
  }

  /** Reading a rendered line back: when the stamp holds no ']' and the tag
      no '|', the line yields the stamp, the tag, the severity name and the
      body, and the body starts with the message verbatim. */
  lemma DecodeRender(e: LogEntry, stamp: string)
    requires ']' !in stamp && '|' !in TagText(e.tag)
    ensures Decode(Render(e, stamp)) == Some(Fields(stamp, TagText(e.tag), PriorityName(e.priority), Body(e)))
    ensures StartsWith(Decode(Render(e, stamp)).value.body, e.message)
  {
    DecodeLayout(Fields(stamp, TagText(e.tag), PriorityName(e.priority), Body(e)));
  }
}
