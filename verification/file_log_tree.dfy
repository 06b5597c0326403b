/** The rotating log store (FileLogTree.kt): which file receives appends,
    rollover at the per-file cap, eviction of the oldest files under the
    total cap, and the sequential drain of queued records, with the
    cross-process lock around it. */
module FileLogTree {
  import opened Wrappers
  import opened Text
  import opened Sorted
  import opened Config
  import opened LogEntryCodec
  import SpinLock

  /** The log directory: the length of every file in it by name, the names
      whose `File.delete()` fails, and whether new files can be created. */
  datatype Dir = Dir(sizes: map<string, nat>, undeletable: set<string>, canCreate: bool)

  /** `File.length()`: 0 for a file that does not exist. */
  function Length(d: Dir, name: string): nat {
    if name in d.sizes then d.sizes[name] else 0
  }

  /** The directory after a successful `File.delete()` of `name`. */
  function Delete(d: Dir, name: string): Dir {
    d.(sizes := d.sizes - {name})
  }

  /** Sum of `File.length()` over `names`. */
  function SumSizes(d: Dir, names: seq<string>): nat
    decreases |names|
  {
    if |names| == 0 then 0 else Length(d, names[0]) + SumSizes(d, names[1..])
  }

  /** `getLogFiles`: the directory entries whose name starts with the
      prefix, ascending by name; nothing for an empty directory. */
  function LogFiles(cfg: LoggerConfig, d: Dir): (r: seq<string>)
    ensures forall n :: n in r <==> n in d.sizes && StartsWith(n, cfg.logPrefix)
    ensures d.sizes == map[] ==> r == []
  {
    SortSet(set n | n in d.sizes && StartsWith(n, cfg.logPrefix))
  }

  /** The listing is sorted ascending by name, as the comparator
      `o1.name.compareTo(o2.name)` passed to `sortWith` leaves it. */
  lemma LogFilesAscending(cfg: LoggerConfig, d: Dir)
    ensures Ascending(LogFiles(cfg, d))
  {
    SortSetAscending(set n | n in d.sizes && StartsWith(n, cfg.logPrefix));
  }

  /** The listing is the only strictly ascending sequence of the prefixed
      names: any such sequence is `LogFiles` itself. */
  lemma LogFilesUnique(cfg: LoggerConfig, d: Dir, names: seq<string>)
    requires Ascending(names)
    requires forall n :: n in names <==> n in d.sizes && StartsWith(n, cfg.logPrefix)
    ensures names == LogFiles(cfg, d)
  {
    LogFilesAscending(cfg, d);
    AscendingUnique(names, LogFiles(cfg, d));
  }

  /** `getLogFileNames`: the same names, in no particular order. */
  function LogFileNames(cfg: LoggerConfig, d: Dir): (names: set<string>)
    ensures forall n :: n in names <==> n in LogFiles(cfg, d)
  {
    set n | n in d.sizes && StartsWith(n, cfg.logPrefix)
  }

  /** Bytes held by all listed log files. */
  function TotalLogBytes(cfg: LoggerConfig, d: Dir): nat {
    SumSizes(d, LogFiles(cfg, d))
  }

  /** Deleting the oldest listed file leaves the rest of the listing. */
  lemma DeleteOldest(cfg: LoggerConfig, d: Dir)
    requires LogFiles(cfg, d) != []
    ensures LogFiles(cfg, Delete(d, LogFiles(cfg, d)[0])) == LogFiles(cfg, d)[1..]
  {
    var p := set n | n in d.sizes && StartsWith(n, cfg.logPrefix);
    var oldest := LogFiles(cfg, d)[0];
    assert oldest == Least(p);
    assert (set n | n in Delete(d, oldest).sizes && StartsWith(n, cfg.logPrefix)) == p - {oldest};
  }

  /** Sizes of files other than `name` do not see its deletion. */
  lemma {:induction false} SumSizesWithout(d: Dir, name: string, names: seq<string>)
    requires name !in names
    ensures SumSizes(Delete(d, name), names) == SumSizes(d, names)
    decreases |names|
  {
    if |names| > 0 {
      SumSizesWithout(d, name, names[1..]);
    }
  }

  /** `cleanupAndReturnFileList`: while the listed files together exceed the
      total cap, delete the oldest one and start over; stop at the first
      delete that fails. Returns the directory and the last listing taken,
      which is the listing of that directory. */
  function Cleanup(cfg: LoggerConfig, d: Dir): (r: (Dir, seq<string>))
    ensures r.1 == LogFiles(cfg, r.0)
    ensures r.0.undeletable == d.undeletable && r.0.canCreate == d.canCreate
    ensures r.0.sizes.Keys <= d.sizes.Keys
    decreases d.sizes.Keys
  {
    var fileList := LogFiles(cfg, d);
    if |fileList| > 0 && SumSizes(d, fileList) > cfg.totalMaxLength then
      var oldest := fileList[0];
      if oldest !in d.undeletable then
        var d1 := Delete(d, oldest);
        assert d1.sizes.Keys < d.sizes.Keys by {
          assert oldest in d.sizes.Keys;
          assert oldest !in d1.sizes.Keys;
        }
        Cleanup(cfg, d1)
      else (d, fileList)
    else (d, fileList)
  }

  /** The `k` oldest files of `before` were each deletable and deleted while
      the files from them on still exceeded `cap` bytes. */
  predicate EachEvictionJustified(d: Dir, cap: int, before: seq<string>, k: nat)
    requires k <= |before|
  {
    forall i {:trigger before[i]} :: 0 <= i < k ==> before[i] !in d.undeletable && SumSizes(d, before[i..]) > cap
  }

  /** Eviction after `k` deletions stops for one of the source's three
      reasons: no file left, the rest fits `cap`, or the oldest remaining
      file refuses deletion. */
  predicate EvictionStopped(d: Dir, cap: int, before: seq<string>, k: nat)
    requires k <= |before|
  {
    k == |before| || SumSizes(d, before[k..]) <= cap || before[k] in d.undeletable
  }

  /** How many of the oldest files of `list` one eviction pass over `d`
      deletes, counted on the listing alone. */
  function EvictCount(d: Dir, cap: int, list: seq<string>): (k: nat)
    ensures k <= |list|
    decreases |list|
  {
    if |list| > 0 && SumSizes(d, list) > cap && list[0] !in d.undeletable then
      1 + EvictCount(d, cap, list[1..])
    else 0
  }

  /** Every file the count covers was deletable, with the files from it on
      over `cap`. */
  lemma {:induction false} EvictCountJustified(d: Dir, cap: int, list: seq<string>)
    ensures EachEvictionJustified(d, cap, list, EvictCount(d, cap, list))
    decreases |list|
  {
    var k := EvictCount(d, cap, list);
    if |list| > 0 && SumSizes(d, list) > cap && list[0] !in d.undeletable {
      var k1 := EvictCount(d, cap, list[1..]);
      EvictCountJustified(d, cap, list[1..]);
      assert list[0..] == list;
      forall i | 1 <= i <= k1
        ensures list[i..] == list[1..][i - 1..] && list[i] == list[1..][i - 1]
      {
      }
    }
  }

  /** The count stops where the source's loop stops: no file left, the
      rest fits `cap`, or the oldest remaining file refuses deletion. */
  lemma {:induction false} EvictCountStops(d: Dir, cap: int, list: seq<string>)
    ensures EvictionStopped(d, cap, list, EvictCount(d, cap, list))
    decreases |list|
  {
    var k := EvictCount(d, cap, list);
    if |list| > 0 && SumSizes(d, list) > cap && list[0] !in d.undeletable {
      var k1 := EvictCount(d, cap, list[1..]);
      EvictCountStops(d, cap, list[1..]);
      if k1 < |list[1..]| {
        assert list[k..] == list[1..][k1..];
      }
    } else {
      assert list[0..] == list;
    }
  }

  /** The count does not see the deletion of a file outside `list`. */
  lemma {:induction false} EvictCountWithout(d: Dir, cap: int, name: string, list: seq<string>)
    requires name !in list
    ensures EvictCount(Delete(d, name), cap, list) == EvictCount(d, cap, list)
    decreases |list|
  {
    if |list| > 0 {
      SumSizesWithout(d, name, list);
      EvictCountWithout(d, cap, name, list[1..]);
    }
  }

  /** The directory after deleting `names` one by one. */
  function DeleteAll(d: Dir, names: seq<string>): (r: Dir)
    ensures forall n :: n in r.sizes <==> n in d.sizes && n !in names
    ensures forall n :: n in r.sizes ==> r.sizes[n] == d.sizes[n]
    ensures r.undeletable == d.undeletable && r.canCreate == d.canCreate
    decreases |names|
  {
    if |names| == 0 then d
    else
      var r := DeleteAll(Delete(d, names[0]), names[1..]);
      assert forall n :: n in names <==> n == names[0] || n in names[1..];
      r
  }

  /** Dropping the first element shifts prefixes and suffixes by one. */
  lemma DropFirst<T>(s: seq<T>, k: nat)
    requires 1 <= k <= |s|
    ensures s[..k][1..] == s[1..][..k - 1] && s[1..][k - 1..] == s[k..]
  {
  }

  /** The shape of an eviction pass: it deletes exactly the `EvictCount`
      oldest files of the first listing and returns the rest of it. */
  lemma {:induction false} CleanupShape(cfg: LoggerConfig, d: Dir)
    ensures var before := LogFiles(cfg, d);
            var k := EvictCount(d, cfg.totalMaxLength, before);
            Cleanup(cfg, d) == (DeleteAll(d, before[..k]), before[k..])
    decreases d.sizes.Keys
  {
    var cap := cfg.totalMaxLength;
    var before := LogFiles(cfg, d);
    var k := EvictCount(d, cap, before);
    if |before| > 0 && SumSizes(d, before) > cap && before[0] !in d.undeletable {
      var d1 := Delete(d, before[0]);
      assert d1.sizes.Keys < d.sizes.Keys by {
        assert before[0] in d.sizes.Keys;
      }
      DeleteOldest(cfg, d);
      var rest := before[1..];
      assert LogFiles(cfg, d1) == rest;
      assert Cleanup(cfg, d) == Cleanup(cfg, d1);
      CleanupShape(cfg, d1);
      LogFilesAscending(cfg, d);
      BelowIrreflexive(before[0]);
      assert before[0] !in rest;
      EvictCountWithout(d, cap, before[0], rest);
      var k1 := EvictCount(d1, cap, rest);
      assert k == k1 + 1;
      DropFirst(before, k);
      var gone := before[..k];
      assert gone[0] == before[0];
      assert DeleteAll(d, gone) == DeleteAll(d1, gone[1..]);
      assert Cleanup(cfg, d1) == (DeleteAll(d1, rest[..k1]), rest[k1..]);
      assert Cleanup(cfg, d) == (DeleteAll(d, gone), before[k..]);
    } else {
      assert k == 0;
      assert before[..0] == [];
      assert before[0..] == before;
      assert Cleanup(cfg, d) == (d, before);
    }
  }

  /** Eviction keeps a suffix of the original listing: the files it
      deleted are the oldest ones. */
  lemma CleanupKeepsSuffix(cfg: LoggerConfig, d: Dir)
    ensures var r := Cleanup(cfg, d); var before := LogFiles(cfg, d);
            |r.1| <= |before| && r.1 == before[|before| - |r.1|..]
  {
    var before := LogFiles(cfg, d);
    var k := EvictCount(d, cfg.totalMaxLength, before);
    var r := Cleanup(cfg, d);
    CleanupShape(cfg, d);
    assert r.1 == before[k..];
    assert |before| - |r.1| == k;
  }

  /** Eviction deletes exactly the files before that suffix: files without
      the prefix and the lengths of the survivors are untouched. */
  lemma CleanupDeletesOnlyOldest(cfg: LoggerConfig, d: Dir)
    ensures var r := Cleanup(cfg, d); var before := LogFiles(cfg, d);
            |r.1| <= |before|
            && (forall n :: n in r.0.sizes <==> n in d.sizes && n !in before[..|before| - |r.1|])
            && (forall n :: n in r.0.sizes ==> r.0.sizes[n] == d.sizes[n])
  {
    CleanupShape(cfg, d);
  }

  /** Each deletion was of a deletable file while the listed total was over
      the cap, and eviction stopped because no file was left, the total fit,
      or the oldest remaining file refused deletion. */
  lemma CleanupStopsAtCapOrFailure(cfg: LoggerConfig, d: Dir) returns (k: nat)
    ensures k == |LogFiles(cfg, d)| - |Cleanup(cfg, d).1|
    ensures EachEvictionJustified(d, cfg.totalMaxLength, LogFiles(cfg, d), k)
    ensures EvictionStopped(d, cfg.totalMaxLength, LogFiles(cfg, d), k)
  {
    k := EvictCount(d, cfg.totalMaxLength, LogFiles(cfg, d));
    CleanupShape(cfg, d);
    EvictCountJustified(d, cfg.totalMaxLength, LogFiles(cfg, d));
    EvictCountStops(d, cfg.totalMaxLength, LogFiles(cfg, d));
  }

  /** Retention bound: when no listed file refuses deletion, an eviction pass
      leaves at most `totalMaxLength` bytes of log files. */
  lemma CleanupRetentionBound(cfg: LoggerConfig, d: Dir)
    requires cfg.totalMaxLength >= 0
    requires forall n :: n in d.undeletable ==> !StartsWith(n, cfg.logPrefix)
    ensures TotalLogBytes(cfg, Cleanup(cfg, d).0) <= cfg.totalMaxLength
  {
    var cap := cfg.totalMaxLength;
    var before := LogFiles(cfg, d);
    var k := EvictCount(d, cap, before);
    var r := Cleanup(cfg, d);
    CleanupShape(cfg, d);
    EvictCountStops(d, cap, before);
    assert r.1 == before[k..];
    if k < |before| {
      assert before[k] in before;
      assert before[k] !in d.undeletable;
      assert SumSizes(d, r.1) <= cap;
      SumSizesAgree(r.0, d, r.1);
    }
    assert TotalLogBytes(cfg, r.0) == SumSizes(r.0, r.1);
  }

  /** Sums agree on names whose lengths agree. */
  lemma {:induction false} SumSizesAgree(d1: Dir, d2: Dir, names: seq<string>)
    requires forall n :: n in names ==> Length(d1, n) == Length(d2, n)
    ensures SumSizes(d1, names) == SumSizes(d2, names)
    decreases |names|
  {
    if |names| > 0 {
      SumSizesAgree(d1, d2, names[1..]);
    }
  }

  /** `getLatestLogFile`: after an eviction pass, the newest listed file if it
      is still under the per-file cap. */
  function LatestLogFile(cfg: LoggerConfig, d: Dir): (r: (Dir, Option<string>))
    ensures r.0 == Cleanup(cfg, d).0
    ensures r.1.Some? ==>
              && r.1.value in r.0.sizes
              && StartsWith(r.1.value, cfg.logPrefix)
              && Length(r.0, r.1.value) < cfg.fileMaxLength
              && forall n :: n in r.0.sizes && StartsWith(n, cfg.logPrefix) && n != r.1.value ==> Below(n, r.1.value)
    ensures r.1.None? ==>
              var files := LogFiles(cfg, r.0);
              files == [] || Length(r.0, files[|files| - 1]) >= cfg.fileMaxLength
  {
    var (d1, files) := Cleanup(cfg, d);
    LogFilesAscending(cfg, d1);
    if |files| > 0 then
      var latest := files[|files| - 1];
      assert forall n :: n in files && n != latest ==> Below(n, latest);
      if Length(d1, latest) >= cfg.fileMaxLength then
        assert latest in files;
        (d1, None)
      else (d1, Some(latest))
    else (d1, None)
  }

  /** `createNewFile`: the file named by the prefix, the stamp and the
      extension; an existing file of that name is returned as it is. */
  function CreateNewFile(cfg: LoggerConfig, d: Dir, stamp: string): (r: (Dir, Option<string>))
    ensures r.1.Some? ==> r.1.value == FileName(cfg, stamp) && r.1.value in LogFiles(cfg, r.0)
    ensures r.1.None? <==> FileName(cfg, stamp) !in d.sizes && !d.canCreate
    ensures r.1.None? || FileName(cfg, stamp) in d.sizes ==> r.0 == d
    ensures r.1.Some? ==> r.0 == d.(sizes := d.sizes[FileName(cfg, stamp) := Length(d, FileName(cfg, stamp))])
  {
    var name := FileName(cfg, stamp);
    if name in d.sizes then
      assert d.sizes[name := d.sizes[name]] == d.sizes;
      (d, Some(name))
    else if d.canCreate then (d.(sizes := d.sizes[name := 0]), Some(name))
    else (d, None)
  }

  /** The store's state: the configuration, the directory, `currentLogFile`
      and `logLevel`. */
  datatype Store = Store(cfg: LoggerConfig, dir: Dir, current: Option<string>, level: int)

  /** `fileMaxLengthExceeded`: roll over to the newest under-cap file if
      another process already created one, else to a new file; evict after a
      successful switch; keep the current file if no file can be had. */
  function FileMaxLengthExceeded(s: Store, stamp: string): (r: Store)
    requires s.current.Some?
    ensures r.cfg == s.cfg && r.level == s.level && r.current.Some?
    ensures r.dir.canCreate == s.dir.canCreate && r.dir.undeletable == s.dir.undeletable
    ensures var (d1, latest) := LatestLogFile(s.cfg, s.dir);
            if latest.Some? && latest != s.current then
              r.current == latest && r.dir == Cleanup(s.cfg, d1).0
            else
              var (d2, created) := CreateNewFile(s.cfg, d1, stamp);
              if created.Some? then r.current == created && r.dir == Cleanup(s.cfg, d2).0
              else r.current == s.current && r.dir == d2
  {
    var (d1, latest) := LatestLogFile(s.cfg, s.dir);
    var logFile := if latest.None? || latest.value == s.current.value then CreateNewFile(s.cfg, d1, stamp) else (d1, latest);
    if logFile.1.Some? then
      s.(dir := Cleanup(s.cfg, logFile.0).0, current := logFile.1)
    else
      s.(dir := logFile.0)
  }

  /** Rollover really switches files: when new files can be created and the
      fresh name differs from the current one, the current file changes, and
      if nothing refuses deletion the log files fit the total cap afterwards. */
  lemma RolloverSwitchesAndEvicts(s: Store, stamp: string)
    requires s.current.Some? && s.dir.canCreate
    ensures FileName(s.cfg, stamp) != s.current.value ==> FileMaxLengthExceeded(s, stamp).current != s.current
    ensures s.cfg.totalMaxLength >= 0 && (forall n :: n in s.dir.undeletable ==> !StartsWith(n, s.cfg.logPrefix)) ==>
              TotalLogBytes(s.cfg, FileMaxLengthExceeded(s, stamp).dir) <= s.cfg.totalMaxLength
  {
    var (d1, latest) := LatestLogFile(s.cfg, s.dir);
    var r := FileMaxLengthExceeded(s, stamp);
    if s.cfg.totalMaxLength >= 0 && (forall n :: n in s.dir.undeletable ==> !StartsWith(n, s.cfg.logPrefix)) {
      if latest.Some? && latest != s.current {
        CleanupRetentionBound(s.cfg, d1);
      } else {
        CleanupRetentionBound(s.cfg, CreateNewFile(s.cfg, d1, stamp).0);
      }
    }
  }

  /** `checkCurrentFileReady`. */
  function CheckCurrentFileReady(s: Store, stamp: string): (r: (Store, bool))
    ensures r.0.cfg == s.cfg && r.0.level == s.level
    ensures r.0.dir.canCreate == s.dir.canCreate && r.0.dir.undeletable == s.dir.undeletable
    // ready exactly when a current file is set afterwards
    ensures r.1 <==> r.0.current.Some?
    // with a current file it always succeeds, rolling over only past the cap
    ensures s.current.Some? ==> r.1
    ensures s.current.Some? && Length(s.dir, s.current.value) <= s.cfg.fileMaxLength ==> r.0 == s
    ensures s.current.Some? && Length(s.dir, s.current.value) > s.cfg.fileMaxLength ==>
              r.0 == FileMaxLengthExceeded(s, stamp)
    // without one it adopts the latest under-cap file, else creates one, and
    // fails only when both fail
    ensures s.current.None? ==>
              var (d1, latest) := LatestLogFile(s.cfg, s.dir);
              if latest.Some? then r.0.current == latest && r.0.dir == d1
              else r.0.current == CreateNewFile(s.cfg, d1, stamp).1 && r.0.dir == CreateNewFile(s.cfg, d1, stamp).0
  {
    if s.current.None? then
      var (d1, latest) := LatestLogFile(s.cfg, s.dir);
      if latest.Some? then
        (s.(dir := d1, current := latest), true)
      else
        var (d2, created) := CreateNewFile(s.cfg, d1, stamp);
        if created.Some? then (s.(dir := d2, current := created), true)
        else (s.(dir := d2), false)
    else if Length(s.dir, s.current.value) > s.cfg.fileMaxLength then
      (FileMaxLengthExceeded(s, stamp), true)
    else
      (s, true)
  }

  /** Rollover is strict: a current file of exactly `fileMaxLength` bytes is
      kept and the store is left as it is. */
  lemma RolloverAtCapBoundary(s: Store, stamp: string)
    requires s.current.Some? && Length(s.dir, s.current.value) == s.cfg.fileMaxLength
    ensures CheckCurrentFileReady(s, stamp) == (s, true)
  {
  }

  /** Reuse is strict too: a newest file of exactly `fileMaxLength` bytes is
      never picked as the file to write to. */
  lemma ReuseAtCapBoundary(cfg: LoggerConfig, d: Dir)
    ensures var (d1, latest) := LatestLogFile(cfg, d);
            latest.Some? ==> Length(d1, latest.value) != cfg.fileMaxLength
  {
  }

  /** `FileOutputStream(file, true).write(line.toByteArray())`: the file grows
      by the line's UTF-8 length (it is re-created if it vanished, when the
      directory allows); nothing else changes. */
  function Append(d: Dir, name: string, line: string): (r: Dir)
    ensures r.undeletable == d.undeletable && r.canCreate == d.canCreate
    ensures forall n :: n != name ==> (n in r.sizes <==> n in d.sizes) && Length(r, n) == Length(d, n)
    ensures name in d.sizes || d.canCreate ==> name in r.sizes && Length(r, name) == Length(d, name) + ByteLength(line)
    ensures !(name in d.sizes || d.canCreate) ==> r == d
  {
    if name in d.sizes || d.canCreate then
      d.(sizes := d.sizes[name := Length(d, name) + ByteLength(line)])
    else d
  }

  /** Two appends to the same file grow it as one append of both lines
      would: UTF-8 lengths add up. */
  lemma AppendConcat(d: Dir, name: string, a: string, b: string)
    ensures Append(Append(d, name, a), name, b) == Append(d, name, a + b)
  {
    ByteLengthConcat(a, b);
  }

  /** A line of ASCII text grows its file by exactly its character count. */
  lemma AppendAscii(d: Dir, name: string, line: string)
    requires name in d.sizes || d.canCreate
    requires forall i :: 0 <= i < |line| ==> line[i] as int < 0x80
    ensures Length(Append(d, name, line), name) == Length(d, name) + |line|
  {
    ByteLengthAscii(line);
  }

  /** A queued record with the clock readings the drain takes for it: the
      formatted time used if a new file must be created, and the formatted
      time printed in the line. */
  datatype Pending = Pending(entry: LogEntry, fileStamp: string, lineStamp: string)

  /** One pass of the drain loop: make a file ready, then append the record,
      rendered as `print` writes it, to that file. Returns the file written
      to, if any. The record is lost when no file is ready, and also when
      that file has vanished and cannot be re-created, since the write's
      `IOException` is swallowed. */
  function WriteOne(s: Store, p: Pending): (r: (Store, Option<string>))
    ensures r.0.cfg == s.cfg && r.0.level == s.level
    ensures r.0.dir.canCreate == s.dir.canCreate && r.0.dir.undeletable == s.dir.undeletable
    ensures r.1 == r.0.current
    ensures s.current.Some? ==> r.1.Some?
    ensures r.1.None? ==> r.0 == CheckCurrentFileReady(s, p.fileStamp).0
    ensures r.1.Some? ==>
              var (ready, _) := CheckCurrentFileReady(s, p.fileStamp);
              r.0 == ready.(dir := Append(ready.dir, r.1.value, RenderAsWritten(p.entry, p.lineStamp)))
    // the target holds the line afterwards exactly when it was there or
    // could be re-created
    ensures r.1.Some? ==>
              var ready := CheckCurrentFileReady(s, p.fileStamp).0;
              (r.1.value in r.0.dir.sizes <==> r.1.value in ready.dir.sizes || s.dir.canCreate)
  {
    var (ready, ok) := CheckCurrentFileReady(s, p.fileStamp);
    if ok then
      (ready.(dir := Append(ready.dir, ready.current.value, RenderAsWritten(p.entry, p.lineStamp))), ready.current)
    else (ready, None)
  }

  /** Feeds `queue` through `step` from `s`, head first, collecting what
      each step returns. */
  function Scan<S, P, T>(step: (S, P) -> (S, T), s: S, queue: seq<P>): (r: (S, seq<T>))
    ensures |r.1| == |queue|
    decreases |queue|
  {
    if |queue| == 0 then (s, [])
    else
      var (s1, out) := step(s, queue[0]);
      var (t, rest) := Scan(step, s1, queue[1..]);
      (t, [out] + rest)
  }

  /** Scanning `a + b` scans `a` and then `b` from where `a` left off; the
      outputs for `a` do not depend on `b`. */
  lemma {:induction false} ScanConcat<S, P, T>(step: (S, P) -> (S, T), s: S, a: seq<P>, b: seq<P>)
    ensures var (sa, ta) := Scan(step, s, a);
            var (sb, tb) := Scan(step, sa, b);
            Scan(step, s, a + b) == (sb, ta + tb)
    decreases |a|
  {
    if |a| == 0 {
      assert a + b == b;
      var (sb, tb) := Scan(step, s, b);
      assert Scan(step, s, a) == (s, []);
      assert [] + tb == tb;
    } else {
      var (s1, out) := step(s, a[0]);
      var (sa, ta) := Scan(step, s1, a[1..]);
      var (sb, tb) := Scan(step, sa, b);
      assert (a + b)[0] == a[0];
      assert (a + b)[1..] == a[1..] + b;
      ScanConcat(step, s1, a[1..], b);
      assert Scan(step, s1, a[1..] + b) == (sb, ta + tb);
      assert Scan(step, s, a) == (sa, [out] + ta);
      assert Scan(step, s, a + b) == (sb, [out] + (ta + tb));
      assert [out] + (ta + tb) == ([out] + ta) + tb;
    }
  }

  /** The drain as a fold over the queue: the head record is written first,
      then the rest from the store that write left. */
  function Drain(s: Store, queue: seq<Pending>): (r: (Store, seq<Option<string>>))
    ensures |r.1| == |queue|
  {
    Scan(WriteOne, s, queue)
  }

  /** Records are handled strictly in queue order: draining `a + b` drains
      `a` and then `b` from where `a` left the store, and the outcome for
      `a` does not depend on what is queued after it. */
  lemma DrainConcat(s: Store, a: seq<Pending>, b: seq<Pending>)
    ensures var (sa, ta) := Drain(s, a);
            var (sb, tb) := Drain(sa, b);
            Drain(s, a + b) == (sb, ta + tb)
  {
    ScanConcat(WriteOne, s, a, b);
  }

  /** The record queued last is written by one more pass of the loop, from
      the store the earlier records left. */
  lemma DrainLast(s: Store, q: seq<Pending>, p: Pending)
    ensures var (sq, tq) := Drain(s, q);
            var (t, target) := WriteOne(sq, p);
            Drain(s, q + [p]) == (t, tq + [target])
  {
    DrainConcat(s, q, [p]);
    var step: (Store, Pending) -> (Store, Option<string>) := WriteOne;
    var sq := Drain(s, q).0;
    var (t, target) := WriteOne(sq, p);
    assert [p][0] == p && [p][1..] == [];
    assert step(sq, p) == (t, target);
    assert Scan(WriteOne, t, [p][1..]) == (t, []);
    assert Scan(WriteOne, sq, [p]) == (t, [target] + []);
    assert [target] + [] == [target];
    assert Drain(sq, [p]) == Scan(WriteOne, sq, [p]);
  }

  /** A drain keeps the configuration and the level, and the last record
      went to the file left current. */
  lemma {:induction false} DrainLastTarget(s: Store, queue: seq<Pending>)
    ensures var (t, targets) := Drain(s, queue);
            && t.cfg == s.cfg && t.level == s.level
            && (|queue| > 0 ==> targets[|queue| - 1] == t.current)
    decreases |queue|
  {
    if |queue| > 0 {
      var (s1, x) := WriteOne(s, queue[0]);
      var (t, rest) := Drain(s1, queue[1..]);
      assert Drain(s, queue) == (t, [x] + rest);
      DrainLastTarget(s1, queue[1..]);
      if |queue| == 1 {
        assert Drain(s1, queue[1..]) == (s1, []);
      }
    }
  }

  /** With a current file to start with, every record has a target and a
      current file is left at the end. */
  lemma {:induction false} DrainNeverDrops(s: Store, queue: seq<Pending>)
    requires s.current.Some?
    ensures var (t, targets) := Drain(s, queue);
            t.current.Some? && forall i :: 0 <= i < |targets| ==> targets[i].Some?
    decreases |queue|
  {
    if |queue| > 0 {
      var (s1, x) := WriteOne(s, queue[0]);
      var (t, rest) := Drain(s1, queue[1..]);
      assert Drain(s, queue) == (t, [x] + rest);
      DrainNeverDrops(s1, queue[1..]);
    }
  }

  /** Once a record has a target every later record has one, so with no
      file at the end no record had one. */
  lemma {:induction false} DrainTargetsPersist(s: Store, queue: seq<Pending>)
    ensures var (t, targets) := Drain(s, queue);
            && (forall i, j :: 0 <= i < j < |targets| && targets[i].Some? ==> targets[j].Some?)
            && (t.current.None? ==> forall i :: 0 <= i < |targets| ==> targets[i].None?)
    decreases |queue|
  {
    if |queue| > 0 {
      var (s1, x) := WriteOne(s, queue[0]);
      var (t, rest) := Drain(s1, queue[1..]);
      var targets := [x] + rest;
      assert Drain(s, queue) == (t, targets);
      DrainTargetsPersist(s1, queue[1..]);
      if x.Some? {
        DrainNeverDrops(s1, queue[1..]);
      }
      forall i, j | 0 <= i < j < |targets| && targets[i].Some?
        ensures targets[j].Some?
      {
        assert targets[j] == rest[j - 1];
        if i > 0 {
          assert targets[i] == rest[i - 1];
        }
      }
    }
  }

  /** The `processQueue` drain: records are taken in FIFO order and each is
      written to the file that is current once its ready check has run.
      `targets[i]` is the file record `i` went to, `None` if no file could
      be found or created. */
  method ProcessQueue(s: Store, queue: seq<Pending>) returns (t: Store, targets: seq<Option<string>>)
    // the loop computes the in-order fold
    ensures (t, targets) == Drain(s, queue)
    ensures |targets| == |queue|
    ensures t.cfg == s.cfg && t.level == s.level
    // the last record went to the file left current
    ensures |queue| > 0 ==> targets[|queue| - 1] == t.current
    // once a record has a target, every later record has one too
    ensures forall i, j :: 0 <= i < j < |targets| && targets[i].Some? ==> targets[j].Some?
    // with a current file to start with, every record has a target
    ensures s.current.Some? ==> t.current.Some? && forall i :: 0 <= i < |targets| ==> targets[i].Some?
    // no file at the end means no record had a target
    ensures t.current.None? ==> forall i :: 0 <= i < |targets| ==> targets[i].None?
  {
    t := s;
    targets := [];
    var i := 0;
    while i < |queue|
      invariant 0 <= i <= |queue| && |targets| == i
      invariant (t, targets) == Drain(s, queue[..i])
    {
      var next := WriteOne(t, queue[i]);
      DrainLast(s, queue[..i], queue[i]);
      assert queue[..i + 1] == queue[..i] + [queue[i]];
      t := next.0;
      targets := targets + [next.1];
      i := i + 1;
    }
    assert queue[..i] == queue;
    DrainLastTarget(s, queue);
    DrainTargetsPersist(s, queue);
    if s.current.Some? {
      DrainNeverDrops(s, queue);
    }
  }

  /** What one run of the `processQueue` coroutine leaves: the lock, the
      store, the records still queued, and the target of each record it
      wrote. */
  datatype Round = Round(lock: SpinLock.Lock, store: Store, left: seq<Pending>, targets: seq<Option<string>>)

  /** The `processQueue` coroutine: `timedLock(1000)`, whose result is
      ignored, then the drain, then `release` (passed in, as written or as
      intended). When `timedLock` throws, the exception leaves the coroutine
      there: nothing is written, every record stays queued, and `release`
      is not reached. */
  function LockedDrain(l: SpinLock.Lock, tries: seq<bool>, s: Store, queue: seq<Pending>,
                       release: SpinLock.Lock -> SpinLock.Lock): (r: Round)
    ensures SpinLock.Acquire(l, tries).1 == SpinLock.Threw ==> r == Round(l, s, queue, [])
    ensures SpinLock.Acquire(l, tries).1 != SpinLock.Threw ==>
              && r.left == [] && (r.store, r.targets) == Drain(s, queue)
              && r.lock == release(SpinLock.Acquire(l, tries).0)
  {
    var (held, outcome) := SpinLock.Acquire(l, tries);
    if outcome == SpinLock.Threw then Round(l, s, queue, [])
    else
      var (t, targets) := Drain(s, queue);
      Round(release(held), t, [], targets)
  }

  /** The lock as `init` leaves it: `lock()` until the name is free at some
      try, then `release`. */
  function InitLock(initTries: seq<bool>, release: SpinLock.Lock -> SpinLock.Lock): (l: SpinLock.Lock)
    requires true in initTries
    ensures l == release(SpinLock.Lock(SpinLock.Open))
  {
    release(SpinLock.Acquire(SpinLock.Lock(SpinLock.NoServer), initTries).0)
  }

  /** As written, the drain never runs: after `init` has held and released
      the lock, every `processQueue` throws out of `timedLock` at its first
      try, writes nothing, leaves every record queued and leaves the lock as
      it found it, so the next run fails the same way. */
  lemma DrainNeverRunsAsWritten(initTries: seq<bool>, tries: seq<bool>, s: Store, queue: seq<Pending>)
    requires true in initTries
    requires |tries| > 0
    ensures var l := InitLock(initTries, SpinLock.ReleaseAsWritten);
            LockedDrain(l, tries, s, queue, SpinLock.ReleaseAsWritten) == Round(l, s, queue, [])
  {
    var l := InitLock(initTries, SpinLock.ReleaseAsWritten);
    SpinLock.ReleasedLockThrows(SpinLock.Lock(SpinLock.Open), tries);
    assert SpinLock.Acquire(l, tries).1 == SpinLock.Threw;
  }

  /** With the intended release, every `processQueue` after `init` drains
      the whole queue in order, whether or not `timedLock` got the lock, and
      leaves the lock free for the next run. */
  lemma DrainRunsWithRelease(initTries: seq<bool>, tries: seq<bool>, s: Store, queue: seq<Pending>)
    requires true in initTries
    ensures var r := LockedDrain(InitLock(initTries, SpinLock.Release), tries, s, queue, SpinLock.Release);
            && r.left == []
            && (r.store, r.targets) == Drain(s, queue)
            && r.lock == InitLock(initTries, SpinLock.Release)
  {
    var l := InitLock(initTries, SpinLock.Release);
    assert SpinLock.Acquire(l, tries).1 != SpinLock.Threw;
  }

  /** `isLoggable`: records below the level are dropped; for the named
      priorities, a record is kept exactly when its severity is at least the
      level. */
  function IsLoggable(s: Store, priority: int): (r: bool)
    ensures VERBOSE <= priority <= ASSERT ==> (r <==> Level(PriorityName(priority)).value >= s.level)
  {
    priority >= s.level
  }

  /** The initial `logLevel`: VERBOSE when debugging, INFO otherwise. */
  function InitialLevel(debug: bool): int {
    if debug then VERBOSE else INFO
  }

  /** With the release level, a record is kept exactly when its severity
      name is INFO or above. */
  lemma ReleaseLevelKeepsInfoAndAbove(s: Store, priority: int)
    requires s.level == InitialLevel(false)
    ensures IsLoggable(s, priority) <==> PriorityName(priority) in ["INFO", "WARN", "ERROR", "ASSERT"]
  {
  }

  /** The constructor's `init` block: the directory is set up and a file is
      made ready under the lock. */
  function Init(cfg: LoggerConfig, d: Dir, debug: bool, stamp: string): (r: (Store, bool))
    ensures r.0.cfg == cfg && r.0.level == InitialLevel(debug)
    ensures r.1 <==> r.0.current.Some?
    ensures !r.1 ==> LatestLogFile(cfg, d).1.None? && !d.canCreate
  {
    CheckCurrentFileReady(Store(cfg, d, None, InitialLevel(debug)), stamp)
  }

  /** `log`: when the directory is there, the record joins the queue the
      drain will process; otherwise it is dropped. */
  function Log(queue: seq<LogEntry>, e: LogEntry, dirExists: bool): (r: seq<LogEntry>)
    ensures dirExists ==> |r| == |queue| + 1 && r[..|queue|] == queue && r[|queue|] == e
    ensures !dirExists ==> r == queue
  {
    if dirExists then queue + [e] else queue
  }
}
