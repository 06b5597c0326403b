/** The default crash listener (DefaultCrashLogHandler.kt) and the recovery
    cycle it closes: at start-up the crash file's text is wrapped and
    uploaded through the log sender, and the sender's callback becomes the
    crash logger's acknowledgment. */
module CrashRecovery {
  import opened Wrappers
  import opened CrashLog
  import opened LogSender

  /** The acknowledgment each callback turns into: `onSuccess` is `true`,
      `onFailure` is `false`. */
  function Acks(events: seq<Event>): (acks: seq<bool>)
    ensures |acks| == |Callbacks(events)|
    ensures forall i :: 0 <= i < |acks| ==> (acks[i] <==> Callbacks(events)[i] == OnSuccess)
  {
    var cs := Callbacks(events);
    seq(|cs|, i requires 0 <= i < |cs| => cs[i] == OnSuccess)
  }

  /** `handleCrashLog`: the content goes out as the upload body, and the
      acknowledgments follow the upload's callbacks. */
  function HandleCrashLog(content: string, cfg: SenderConfig, manager: Option<LogManager>, date: string,
                          step: ArchiveStep, reply: Reply): (r: (seq<Event>, seq<bool>))
    ensures r.0 == SendLogs(cfg, manager, content, date, step, reply)
    ensures r.1 == [manager.Some? && Successful(reply)]
  {
    var events := SendLogs(cfg, manager, content, date, step, reply);
    ExactlyOneCallback(cfg, manager, content, date, step, reply);
    (events, Acks(events))
  }

  /** The upload body is the content handed over, unchanged. */
  lemma ContentIsBody(content: string, cfg: SenderConfig, manager: LogManager, date: string,
                      step: ArchiveStep, reply: Reply)
    requires !reply.IoFailed?
    ensures HandleCrashLog(content, cfg, Some(manager), date, step, reply).0[0] == Sent(Request(TrimUrl(cfg.url), cfg.subject, content, cfg.kind, Archive(manager, date, step)))
  {
    RequestCarriesBody(cfg, manager, content, date, step, reply);
  }

  /** The crash file after each acknowledgment in turn. */
  function ApplyAcks(f: CrashFile, acks: seq<bool>): (g: CrashFile)
    ensures (forall i :: 0 <= i < |acks| ==> !acks[i]) ==> g == f
    ensures (exists i :: 0 <= i < |acks| && acks[i]) ==> !Exists(g)
    decreases |acks|
  {
    if |acks| == 0 then f
    else
      var g := ApplyAcks(CrashLogHandled(f, acks[0]), acks[1..]);
      assert forall i :: 1 <= i < |acks| ==> acks[1..][i - 1] == acks[i];
      g
  }

  /** One start-up cycle with the default listener installed: a missing crash
      file leaves nothing to do; otherwise the wrapped text (or the wrapping
      alone after a read failure) is uploaded and the acknowledgments are
      applied. Returns the crash file afterwards and the upload's events. */
  function Recover(f: CrashFile, readOk: bool, cfg: SenderConfig, manager: Option<LogManager>, date: string,
                   step: ArchiveStep, reply: Reply): (r: (CrashFile, seq<Event>))
    ensures !Exists(f) ==> r == (f, [])
  {
    match PrepareCrashLog(f, true, readOk)
    case None => (f, [])
    case Some(content) =>
      var (events, acks) := HandleCrashLog(content, cfg, manager, date, step, reply);
      (ApplyAcks(f, acks), events)
  }

  /** The crash record is deleted exactly when the upload succeeded; on any
      failure it stays exactly as it was, for the next start. */
  lemma RecoverDeletesIffUploaded(f: CrashFile, readOk: bool, cfg: SenderConfig, manager: Option<LogManager>,
                                  date: string, step: ArchiveStep, reply: Reply)
    requires Exists(f)
    ensures var g := Recover(f, readOk, cfg, manager, date, step, reply).0;
            && (!Exists(g) <==> manager.Some? && Successful(reply))
            && (Exists(g) ==> g == f)
  {
    var acks := [manager.Some? && Successful(reply)];
    assert acks[0] <==> manager.Some? && Successful(reply);
  }

  /** When the file is read and a request goes out, the request's body is
      the wrapped crash text, from which the text is recovered exactly. */
  lemma RecoverSendsWrappedText(f: CrashFile, cfg: SenderConfig, manager: LogManager,
                                date: string, step: ArchiveStep, reply: Reply)
    requires Exists(f) && !reply.IoFailed?
    ensures var events := Recover(f, true, cfg, Some(manager), date, step, reply).1;
            && events[0].Sent?
            && events[0].request.body == Wrap(f.text)
            && Unwrap(events[0].request.body) == Some(f.text)
  {
    var content := PrepareCrashLog(f, true, true).value;
    assert content == Wrap(f.text);
    RequestCarriesBody(cfg, manager, content, date, step, reply);
    UnwrapWrap(f.text);
  }
}
