/** The upload of a message and the zipped log files (LogSender.kt), with
    the log manager, the archive step and the HTTP exchange made inputs. The
    result is the ordered list of observable events: the request sent, the
    caller's callback, and the deletion of the archive. */
module LogSender {
  import opened Wrappers
  import opened Text

  /** The endpoint and the fixed text parts of every request. */
  datatype SenderConfig = SenderConfig(url: string, subject: string, kind: string)

  /** What the log manager reports: its log files and its directory. */
  datatype LogManager = LogManager(logFiles: seq<string>, logDir: Option<string>)

  /** How building the archive went: the file was created and filled, its
      `createNewFile` returned false, or an exception was thrown. */
  datatype ArchiveStep = Archived | NotCreated | Threw

  /** How the HTTP exchange ended: a response with its status code, a
      transport failure, or an `IOException` before the request went out. */
  datatype Reply = Response(code: int) | TransportFailed | IoFailed

  /** The multipart request: the trimmed URL, the three text parts, and the
      archive path when a file part is attached. */
  datatype Request = Request(url: string, subject: string, body: string, kind: string, file: Option<string>)

  datatype Event = Sent(request: Request) | OnSuccess | OnFailure | DeleteArchive(path: string)

  /** `response.isSuccessful`: a 2xx status. */
  predicate Successful(r: Reply) {
    r.Response? && 200 <= r.code < 300
  }

  /** The URL with one trailing `/` removed, if it has one. */
  function TrimUrl(url: string): (t: string)
    ensures StartsWith(url, t)
    ensures EndsWith(url, "/") ==> url == t + "/"
    ensures !EndsWith(url, "/") ==> t == url
  {
    if EndsWith(url, "/") then url[..|url| - 1] else url
  }

  /** `replace(" ", "_")`. */
  function ReplaceSpaces(s: string): (r: string)
    ensures |r| == |s|
    ensures forall i :: 0 <= i < |s| ==> r[i] == (if s[i] == ' ' then '_' else s[i])
  {
    if |s| == 0 then "" else [if s[0] == ' ' then '_' else s[0]] + ReplaceSpaces(s[1..])
  }

  /** The archive path: the log directory, a separator and the date, with
      every space turned into an underscore. */
  function ArchivePath(logDir: string, date: string): (p: string)
    ensures ' ' !in p
    ensures |p| == |logDir| + 1 + |date|
  {
    ReplaceSpaces(logDir + "/" + date)
  }

  /** The archive that is attached, if any: one is built only when the
      manager has a directory and some files, and it is kept only when its
      file was created without an exception. */
  function Archive(m: LogManager, date: string, step: ArchiveStep): (a: Option<string>)
    ensures a.Some? <==> m.logDir.Some? && |m.logFiles| > 0 && step.Archived?
    ensures a.Some? ==> a.value == ArchivePath(m.logDir.value, date)
  {
    if step.Threw? then None
    else if m.logDir.Some? && |m.logFiles| > 0 then
      if step.Archived? then Some(ArchivePath(m.logDir.value, date)) else None
    else None
  }

  /** The deletion of the archive, if there is one. */
  function DeleteIfAny(a: Option<string>): seq<Event> {
    if a.Some? then [DeleteArchive(a.value)] else []
  }

  /** `sendLogs`. With no log manager the caller hears `onFailure` and
      nothing is sent. Otherwise the request goes out with the body as given;
      a 2xx response calls `onSuccess`, any other response or a transport
      failure `onFailure`, and the archive is deleted afterwards. An
      `IOException` deletes the archive and then calls `onFailure`. */
  function SendLogs(cfg: SenderConfig, manager: Option<LogManager>, body: string, date: string,
                    step: ArchiveStep, reply: Reply): (events: seq<Event>)
    ensures manager.None? ==> events == [OnFailure]
  {
    if manager.None? then [OnFailure]
    else
      var archive := Archive(manager.value, date, step);
      if reply.IoFailed? then DeleteIfAny(archive) + [OnFailure]
      else
        var request := Request(TrimUrl(cfg.url), cfg.subject, body, cfg.kind, archive);
        [Sent(request)] + [if Successful(reply) then OnSuccess else OnFailure] + DeleteIfAny(archive)
  }

  /** Whether an event is one of the caller's callbacks. */
  predicate IsCallback(e: Event) {
    e.OnSuccess? || e.OnFailure?
  }

  /** The callbacks among `events`, in order. */
  function Callbacks(events: seq<Event>): (cs: seq<Event>)
    ensures forall e :: e in cs <==> e in events && IsCallback(e)
  {
    if |events| == 0 then []
    else (if IsCallback(events[0]) then [events[0]] else []) + Callbacks(events[1..])
  }

  /** Exactly one callback fires on every path, and it is `onSuccess`
      exactly when there is a manager and the response is a 2xx. */
  lemma ExactlyOneCallback(cfg: SenderConfig, manager: Option<LogManager>, body: string, date: string,
                           step: ArchiveStep, reply: Reply)
    ensures var cs := Callbacks(SendLogs(cfg, manager, body, date, step, reply));
            |cs| == 1 && (cs[0] == OnSuccess <==> manager.Some? && Successful(reply))
  {
    var events := SendLogs(cfg, manager, body, date, step, reply);
    if manager.Some? {
      var archive := Archive(manager.value, date, step);
      var tail := DeleteIfAny(archive);
      assert Callbacks(tail) == [];
      if reply.IoFailed? {
        CallbacksConcat(tail, [OnFailure]);
      } else {
        var request := Request(TrimUrl(cfg.url), cfg.subject, body, cfg.kind, archive);
        var cb := if Successful(reply) then OnSuccess else OnFailure;
        assert events == [Sent(request)] + ([cb] + tail);
        CallbacksConcat([Sent(request)], [cb] + tail);
        CallbacksConcat([cb], tail);
      }
    }
  }

  lemma {:induction false} CallbacksConcat(a: seq<Event>, b: seq<Event>)
    ensures Callbacks(a + b) == Callbacks(a) + Callbacks(b)
    decreases |a|
  {
    if |a| == 0 {
      assert a + b == b;
    } else {
      assert (a + b)[1..] == a[1..] + b;
      CallbacksConcat(a[1..], b);
    }
  }

  /** Whenever an archive was built it is deleted, as the last event or
      just before the final `onFailure`, and nothing is deleted otherwise. */
  lemma ArchiveAlwaysDeleted(cfg: SenderConfig, manager: LogManager, body: string, date: string,
                             step: ArchiveStep, reply: Reply)
    ensures var events := SendLogs(cfg, Some(manager), body, date, step, reply);
            var archive := Archive(manager, date, step);
            && (archive.Some? ==> DeleteArchive(archive.value) in events)
            && (archive.None? ==> forall e :: e in events ==> !e.DeleteArchive?)
            && (archive.Some? && !reply.IoFailed? ==> events[|events| - 1] == DeleteArchive(archive.value))
  {
  }

  /** A request, when one goes out, carries the body unchanged, the trimmed
      URL, and a file part exactly when an archive was built. */
  lemma RequestCarriesBody(cfg: SenderConfig, manager: LogManager, body: string, date: string,
                           step: ArchiveStep, reply: Reply)
    requires !reply.IoFailed?
    ensures var events := SendLogs(cfg, Some(manager), body, date, step, reply);
            && events[0].Sent?
            && events[0].request.body == body
            && events[0].request.url == TrimUrl(cfg.url)
            && (events[0].request.file.Some? <==> manager.logDir.Some? && |manager.logFiles| > 0 && step.Archived?)
  {
  }

  /** Nothing is sent when there is no manager or the exchange failed before
      the request went out; otherwise exactly one request is sent, first. */
  lemma SentOnlyWithManager(cfg: SenderConfig, manager: Option<LogManager>, body: string, date: string,
                            step: ArchiveStep, reply: Reply)
    ensures var events := SendLogs(cfg, manager, body, date, step, reply);
            (exists e :: e in events && e.Sent?) <==> manager.Some? && !reply.IoFailed?
  {
    var events := SendLogs(cfg, manager, body, date, step, reply);
    if manager.Some? && !reply.IoFailed? {
      assert events[0] in events;
    }
  }
}
