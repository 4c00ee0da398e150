/** What each procedure answers, in terms of the slots and of what the system calls do. */
module FdAnswers {
  import opened FdModel
  import opened FdServer

  ghost predicate Cached(s: State, file: Key, kind: Kind) {
    exists i :: 0 <= i < |s.slots| && s.slots[i].Open() && s.slots[i].key == file && s.slots[i].kind == kind
  }

  /** An error of the file waits to be reported. */
  ghost predicate Parked(s: State, file: Key, kind: Kind) {
    exists i :: 0 <= i < |s.slots| && s.slots[i].Pending() && s.slots[i].key == file && s.slots[i].kind == kind
  }

  ghost predicate Room(s: State) { exists i :: 0 <= i < |s.slots| && s.slots[i].use == 0 }

  /** The file has an open descriptor of the kind in the table, last used at time `now`. */
  ghost predicate UsedAt(s: State, file: Key, kind: Kind, now: int) {
    exists i :: 0 <= i < |s.slots| && UsedIn(s.slots[i], file, kind, now)
  }
  predicate UsedIn(x: Slot, file: Key, kind: Kind, now: int) {
    x.Open() && x.key == file && x.kind == kind && x.use == now
  }

  /** The table has one slot at most for a file and kind, and the look-up finds it. */
  lemma FindByFh(s: State, file: Key, kind: Kind)
    requires Table(s) && file != NoKey
    ensures var idx := Find(s.slots, ByFh(file, kind));
            && (Cached(s, file, kind) <==> idx != -1 && s.slots[idx].fd != -1)
            && (Parked(s, file, kind) <==> idx != -1 && s.slots[idx].fd == -1)
            && (idx != -1 ==> s.slots[idx].use != 0 && s.slots[idx].key == file && s.slots[idx].kind == kind)
  {
    var p := ByFh(file, kind);
    var idx := Find(s.slots, p);
    if idx == -1 {
      assert forall i :: 0 <= i < |s.slots| ==> !p(s.slots[i]);
    } else {
      assert p(s.slots[idx]) && s.slots[idx].WellFormed();
      Others(s, idx);
    }
  }

  lemma CachedOrParked(s: State, file: Key, kind: Kind)
    requires Table(s) && file != NoKey
    ensures !(Cached(s, file, kind) && Parked(s, file, kind))
  {
    FindByFh(s, file, kind);
  }

  lemma FindFree(s: State)
    ensures Room(s) <==> Find(s.slots, IsFree()) != -1
  {
    var idx := Find(s.slots, IsFree());
    if idx != -1 { assert IsFree()(s.slots[idx]); }
    else { assert forall i :: 0 <= i < |s.slots| ==> !IsFree()(s.slots[i]); }
  }

  // ---------- COMMIT ----------

  /** The file has no slot for writing, or one with a descriptor whose sync and close succeed. */
  ghost predicate CommitWorks(s: State, file: Key, o: Outcome) {
    !Parked(s, file, Writing) && (Cached(s, file, Writing) ==> o.fsyncOk && o.closeOk)
  }

  /** COMMIT succeeds exactly then, in the epoch it started in; otherwise the epoch moves on. */
  lemma CommitAnswers(s: State, file: Key, o: Outcome)
    requires Inv(s) && file != NoKey
    ensures var n := Commit(s, file, o);
            if CommitWorks(s, file, o)
            then n.reply == Committed(file, s.epoch) && n.s.epoch == s.epoch
            else n.reply == Failed && n.s.epoch == s.epoch + 1
  {
    FindByFh(s, file, Writing);
  }

  // ---------- opening ----------

  /** Opening delivers a descriptor exactly if one is cached, or no error is parked and the system opens
      the file, which still is the handle's. */
  ghost predicate Opens(s: State, file: Key, kind: Kind, e: Env) {
    Cached(s, file, kind) || (!Parked(s, file, kind) && e.fd != -1 && e.sameFile)
  }

  /** After opening, the descriptor is in the table. */
  ghost predicate Tabled(s: State, file: Key, kind: Kind, cache: bool) {
    Cached(s, file, kind) || (cache && Room(s))
  }

  lemma OpenAnswers(s: State, file: Key, kind: Kind, cache: bool, e: Env)
    requires Inv(s) && file != NoKey && e.now > 0 && (e.fd == -1 || (e.fd >= 0 && e.fd !in s.os.open))
    ensures var r := FdOpen(s, file, kind, cache, e);
            && (r.fd != -1 <==> Opens(s, file, kind, e))
            && r.s.epoch == s.epoch + (if Parked(s, file, kind) then 1 else 0) && r.s.os.next == s.os.next
            && (r.fd != -1 ==> (Find(r.s.slots, ByFd(r.fd, kind)) != -1 <==> Tabled(s, file, kind, cache)))
  {
    FindByFh(s, file, kind);
    FindFree(s);
    var r := FdOpen(s, file, kind, cache, e);
    var idx := OpenKeeps(s, file, kind, cache, e);
    if r.fd != -1 {
      if idx != -1 {
        FindOpen(r.s, idx);
      } else {
        assert forall i :: 0 <= i < |s.slots| ==> !ByFd(r.fd, kind)(s.slots[i]);
      }
    }
  }

  /** Closing succeeds if it is virtual or if the system calls do; only for a descriptor in the table does a
      failure move the epoch on. */
  lemma CloseAnswers(s: State, fd: int, file: Key, kind: Kind, forReal: bool, now: int, o: Outcome)
    requires Live(s) && fd in s.os.open && fd != -1
    ensures var tabled := Find(s.slots, ByFd(fd, kind)) != -1;
            var ok := (tabled && !forReal) || ((kind.Reading? || o.fsyncOk) && o.closeOk);
            var r := FdClose(s, fd, file, kind, forReal, now, o);
            r.ok == ok && r.s.epoch == s.epoch + (if tabled && !ok then 1 else 0)
  {
    var idx := Find(s.slots, ByFd(fd, kind));
    if idx != -1 { assert ByFd(fd, kind)(s.slots[idx]); }
  }

  // ---------- WRITE ----------

  /** The descriptor of a WRITE stays open behind it. */
  ghost predicate StaysOpen(s: State, file: Key, stable: Stable) {
    stable.UNSTABLE? && Tabled(s, file, Writing, true)
  }

  ghost predicate SavesOrStays(s: State, file: Key, stable: Stable, e: Env) {
    StaysOpen(s, file, stable) || (e.o.fsyncOk && e.o.closeOk)
  }

  /** The open delivers a descriptor, the transfer works, and the descriptor stays open or is synced and closed. */
  ghost predicate WriteWorks(s: State, file: Key, stable: Stable, e: Env) {
    Opens(s, file, Writing, e) && e.ioOk && SavesOrStays(s, file, stable, e)
  }

  /** WRITE in terms of what the open delivers: whether the descriptor is in the table. */
  lemma WriteFrom(s: State, file: Key, stable: Stable, e: Env, tabled: bool)
    requires Inv(s) && Possible(s, WriteCall(file, stable, e))
    requires var op := FdOpen(s, file, Writing, stable.UNSTABLE?, e);
             && op.s.os.next == s.os.next
             && (op.fd != -1 ==> op.s.epoch == s.epoch && (Find(op.s.slots, ByFd(op.fd, Writing)) != -1 <==> tabled))
    ensures var op := FdOpen(s, file, Writing, stable.UNSTABLE?, e);
            var closes := (tabled && stable.UNSTABLE?) || (e.o.fsyncOk && e.o.closeOk);
            var n := Write(s, file, stable, e);
            && n.reply == (if op.fd != -1 && e.ioOk && closes
                           then Wrote(Datum(s.os.next, file), if stable.UNSTABLE? then UNSTABLE else FILE_SYNC, s.epoch)
                           else Failed)
            && n.s.epoch == op.s.epoch + (if op.fd != -1 && tabled && !closes then 1 else 0)
  {
    var op := FdOpen(s, file, Writing, stable.UNSTABLE?, e);
    if op.fd != -1 {
      CloseAnswers(Accept(op.s, file, e.ioOk), op.fd, file, Writing, !stable.UNSTABLE?, e.now, e.o);
    }
  }

  /** WRITE succeeds exactly then. The reply carries the epoch the call started in and claims stable storage
      exactly if the client asked for it. */
  lemma WriteAnswers(s: State, file: Key, stable: Stable, e: Env)
    requires Inv(s) && Possible(s, WriteCall(file, stable, e))
    ensures var n := Write(s, file, stable, e);
            && n.reply == (if WriteWorks(s, file, stable, e)
                           then Wrote(Datum(s.os.next, file), if stable.UNSTABLE? then UNSTABLE else FILE_SYNC, s.epoch)
                           else Failed)
            && var fails := Cached(s, file, Writing) && !SavesOrStays(s, file, stable, e);
               n.s.epoch == s.epoch + (if Parked(s, file, Writing) || fails then 1 else 0)
  {
    CachedOrParked(s, file, Writing);
    OpenAnswers(s, file, Writing, stable.UNSTABLE?, e);
    WriteFrom(s, file, stable, e, Tabled(s, file, Writing, stable.UNSTABLE?));
  }

  // ---------- READ ----------

  ghost predicate ReadWorks(s: State, file: Key, e: Env) { Opens(s, file, Reading, e) && e.ioOk }

  /** READ succeeds exactly if the open delivers a descriptor and the transfer works, however the close at
      end of file goes; a close that fails on a descriptor in the table moves the epoch on. */
  lemma ReadAnswers(s: State, file: Key, eof: bool, e: Env)
    requires Inv(s) && Possible(s, ReadCall(file, eof, e))
    ensures var n := Read(s, file, eof, e);
            && n.reply == (if ReadWorks(s, file, e) then Done else Failed)
            && var fails := Opens(s, file, Reading, e) && Tabled(s, file, Reading, true) && eof && !e.o.closeOk;
               n.s.epoch == s.epoch + (if Parked(s, file, Reading) || fails then 1 else 0)
  {
    FindByFh(s, file, Reading);
    OpenAnswers(s, file, Reading, true, e);
    var op := FdOpen(s, file, Reading, true, e);
    if op.fd != -1 { CloseAnswers(op.s, op.fd, file, Reading, eof, e.now, e.o); }
  }

  // ---------- the time of the last use ----------

  /** A descriptor that stays in the table behind a call carries the time of the call. */
  lemma CloseStamps(s: State, idx: nat, now: int, o: Outcome)
    requires Table(s) && idx < |s.slots| && s.slots[idx].Open() && now > 0
    ensures var x := s.slots[idx]; UsedAt(FdClose(s, x.fd, x.key, x.kind, false, now, o).s, x.key, x.kind, now)
  {
    var x := s.slots[idx];
    FindOpen(s, idx);
    assert UsedIn(FdClose(s, x.fd, x.key, x.kind, false, now, o).s.slots[idx], x.key, x.kind, now);
  }

  lemma WriteStamps(s: State, file: Key, stable: Stable, e: Env)
    requires Inv(s) && Possible(s, WriteCall(file, stable, e))
    requires Opens(s, file, Writing, e) && StaysOpen(s, file, stable)
    ensures UsedAt(Write(s, file, stable, e).s, file, Writing, e.now)
  {
    OpenAnswers(s, file, Writing, true, e);
    var op := FdOpen(s, file, Writing, true, e);
    var idx := OpenKeeps(s, file, Writing, true, e);
    FindByFh(s, file, Writing);
    FindFree(s);
    AcceptKeeps(op.s, file, e.ioOk);
    CloseStamps(Accept(op.s, file, e.ioOk), idx, e.now, e.o);
  }

  lemma ReadStamps(s: State, file: Key, e: Env)
    requires Inv(s) && Possible(s, ReadCall(file, false, e))
    requires Opens(s, file, Reading, e) && Tabled(s, file, Reading, true)
    ensures UsedAt(Read(s, file, false, e).s, file, Reading, e.now)
  {
    OpenAnswers(s, file, Reading, true, e);
    var op := FdOpen(s, file, Reading, true, e);
    var idx := OpenKeeps(s, file, Reading, true, e);
    FindByFh(s, file, Reading);
    FindFree(s);
    CloseStamps(op.s, idx, e.now, e.o);
  }

  // ---------- the idle sweep and the purge ----------

  /** What becomes of a slot when its descriptor is closed where no error can be reported. */
  function Closed(x: Slot, o: Outcome): Slot {
    if ClosesWell(x, o) then Slot(-1, x.kind, 0, NoKey) else x.(fd := -1)
  }

  /** The first pass closes the descriptors that were idle for more than two seconds, and those only. */
  function Swept(x: Slot, now: int, o: Outcome): Slot {
    if x.use != 0 && x.fd != -1 && x.use + 2 < now then Closed(x, o) else x
  }

  lemma {:induction false} CloseStaleExact(s: State, i: nat, now: int, outs: seq<Outcome>)
    requires Live(s) && |outs| == |s.slots| && i <= |s.slots|
    ensures var r := CloseStale(s, i, now, outs);
            && r.epoch == s.epoch && |r.slots| == |s.slots|
            && forall j :: 0 <= j < |s.slots| ==>
                 r.slots[j] == if j < i then s.slots[j] else Swept(s.slots[j], now, outs[j])
    decreases |s.slots| - i
  {
    if i < |s.slots| {
      CloseStaleExact(if Stale(s.slots[i], now) then Del(s, i, true, outs[i]).s else s, i + 1, now, outs);
    }
  }

  /** The sweep drops errors exactly if there are any behind its first pass and none is younger than two hours. */
  ghost predicate DropsErrors(s: State, now: int, outs: seq<Outcome>)
    requires |outs| == |s.slots|
  {
    && (exists j :: 0 <= j < |s.slots| && Swept(s.slots[j], now, outs[j]).Pending())
    && (forall j :: 0 <= j < |s.slots| && Swept(s.slots[j], now, outs[j]).Pending() ==>
          Swept(s.slots[j], now, outs[j]).use + 7200 <= now)
  }

  /** The whole table behind a sweep, slot by slot; the epoch moves on exactly if errors are dropped. */
  lemma SweepExact(s: State, now: int, outs: seq<Outcome>)
    requires Live(s) && |outs| == |s.slots|
    ensures var r := Sweep(s, now, outs); var drops := DropsErrors(s, now, outs);
            && (r.epoch > s.epoch <==> drops) && r.epoch >= s.epoch && |r.slots| == |s.slots|
            && forall j :: 0 <= j < |s.slots| ==>
                 var x := Swept(s.slots[j], now, outs[j]);
                 if drops && x.Pending() then r.slots[j].use == 0 else r.slots[j] == x
  {
    CloseStaleExact(s, 0, now, outs);
    var t := CloseStale(s, 0, now, outs);
    SweepDrops(s, t, now, outs);
    DropErrorsShape(t, 0);
  }

  lemma SweepDrops(s: State, t: State, now: int, outs: seq<Outcome>)
    requires |outs| == |s.slots| == |t.slots|
    requires forall j :: 0 <= j < |s.slots| ==> t.slots[j] == Swept(s.slots[j], now, outs[j])
    ensures DropsErrors(s, now, outs) <==> HasPending(t.slots) && !HasYoung(t.slots, now)
  {}

  /** The purge closes every descriptor, parks the errors it meets and keeps those that wait. */
  lemma {:induction false} PurgeExact(s: State, i: nat, outs: seq<Outcome>)
    requires Table(s) && |outs| == |s.slots| && i <= |s.slots|
    ensures var r := PurgeFrom(s, i, outs);
            && r.epoch == s.epoch && |r.slots| == |s.slots|
            && forall j :: 0 <= j < |s.slots| ==>
                 r.slots[j] == if j < i || !s.slots[j].Open() then s.slots[j] else Closed(s.slots[j], outs[j])
    decreases |s.slots| - i
  {
    if i < |s.slots| {
      assert s.slots[i].WellFormed();
      if s.slots[i].use != 0 {
        DelTable(s, i, true, outs[i]);
        PurgeExact(Del(s, i, true, outs[i]).s, i + 1, outs);
      } else {
        PurgeExact(s, i + 1, outs);
      }
    }
  }
}
