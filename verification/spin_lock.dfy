/** The cross-process lock (SpinLock.kt): the lock is held by binding a
    `LocalServerSocket` under the lock's name. Binding throws an
    `IOException` while another process holds the name; whether the name is
    free at each try is an input. */
module SpinLock {

  /** `mServer`: no socket yet, or the socket this lock bound, still open or
      already closed. */
  datatype Server = NoServer | Open | Closed

  datatype Lock = Lock(server: Server)

  /** How one locking call ended: the socket was bound; it was not (for
      `timedLock` the `false` return, for `lock` still spinning after the
      tries modelled); or `IllegalStateException` was thrown out of it. */
  datatype Outcome = Acquired | NotAcquired | Threw

  /** `tryLock`: with `mServer` unset, bind the socket if the name is free,
      else the swallowed `IOException`; with `mServer` set, open or closed,
      throw `IllegalStateException`. */
  function TryLock(l: Lock, nameFree: bool): (r: (Lock, Outcome))
    ensures r.1 == Threw <==> l.server != NoServer
    ensures r.1 == Acquired <==> l.server == NoServer && nameFree
    ensures r.1 == Acquired ==> r.0 == Lock(Open)
    ensures r.1 != Acquired ==> r.0 == l
  {
    if l.server != NoServer then (l, Threw)
    else if nameFree then (Lock(Open), Acquired)
    else (l, NotAcquired)
  }

  /** The retry loop shared by `lock` and `timedLock`: `tries[i]` says
      whether the name is free at the i-th try. For `timedLock(ms)` these are
      the tries made before the deadline passes; for `lock` there is no
      deadline and the loop spins for as long as the name stays taken. The
      first try that binds or throws ends the loop. */
  function Acquire(l: Lock, tries: seq<bool>): (r: (Lock, Outcome))
    ensures r.1 == Threw <==> l.server != NoServer && |tries| > 0
    ensures r.1 == Acquired <==> l.server == NoServer && true in tries
    ensures r.1 == Acquired ==> r.0 == Lock(Open)
    ensures r.1 != Acquired ==> r.0 == l
    decreases |tries|
  {
    if |tries| == 0 then (l, NotAcquired)
    else
      var (next, outcome) := TryLock(l, tries[0]);
      if outcome == NotAcquired then
        assert true in tries <==> true in tries[1..] by {
          assert tries == [tries[0]] + tries[1..];
        }
        Acquire(l, tries[1..])
      else (next, outcome)
  }

  /** `release` as written: closes the socket but leaves `mServer` set, so
      a lock that was ever held never counts as free again. */
  function ReleaseAsWritten(l: Lock): (r: Lock)
    ensures r.server != Open
    ensures r.server == NoServer <==> l.server == NoServer
  {
    if l.server == Open then Lock(Closed) else l
  }

  /** `release` as evidently intended: close the socket and clear
      `mServer`, so the next `tryLock` can bind again. */
  function Release(l: Lock): (r: Lock)
    ensures r.server == NoServer
    ensures forall tries :: Acquire(r, tries).1 != Threw
  {
    Lock(NoServer)
  }

  /** As written, once the lock has been held and released, every later
      locking call throws at its first try, even with the name free, and
      leaves the lock as it was, so the same happens to the next call. */
  lemma ReleasedLockThrows(l: Lock, tries: seq<bool>)
    requires l.server == Open
    requires |tries| > 0
    ensures var after := ReleaseAsWritten(l);
            Acquire(after, tries) == (after, Threw)
  {
  }

  /** With the intended release, a released lock is acquired again exactly
      when the name is free at some try, and never throws. */
  lemma ReleasedLockReacquires(l: Lock, tries: seq<bool>)
    ensures var r := Acquire(Release(l), tries);
            && r.1 != Threw
            && (r.1 == Acquired <==> true in tries)
  {
  }
}
