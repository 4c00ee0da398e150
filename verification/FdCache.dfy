/** The descriptor cache as the server runs it: a fixed table of slots updated in place. */
module FdCache {
  import opened FdModel
  import opened FdServer
  import opened FdAnswers

  lemma OneMore(slots: seq<Slot>, x: Slot, now: int)
    ensures HasPending(slots + [x]) == (HasPending(slots) || x.Pending())
    ensures HasYoung(slots + [x], now) == (HasYoung(slots, now) || Young(x, now))
  {
    var more := slots + [x];
    assert more[|slots|] == x && forall i :: 0 <= i < |slots| ==> more[i] == slots[i];
    if HasPending(slots) {
      var i :| 0 <= i < |slots| && slots[i].Pending();
      assert more[i].Pending();
    }
    if HasYoung(slots, now) {
      var i :| 0 <= i < |slots| && Young(slots[i], now);
      assert Young(more[i], now);
    }
  }

  class Cache {
    const slots: array<Slot>
    var readers: int
    var writers: int
    var verifier: nat
    ghost var os: Os

    ghost function View(): State
      reads this, slots
    {
      State(slots[..], readers, writers, verifier, os)
    }

    /** fd_cache_init */
    constructor ()
      ensures fresh(slots) && slots.Length == FD_ENTRIES
      ensures forall i :: 0 <= i < FD_ENTRIES ==> slots[i] == Slot(-1, Reading, 0, NoKey)
      ensures View() == State(slots[..], 0, 0, 0, Os({}, {}, {}, {}, 0))
    {
      slots := new Slot[FD_ENTRIES];
      readers, writers, verifier, os := 0, 0, 0, Os({}, {}, {}, {}, 0);
      new;
      for i := 0 to FD_ENTRIES
        invariant forall j :: 0 <= j < i ==> slots[j] == Slot(-1, Reading, 0, NoKey)
        invariant readers == writers == 0 && verifier == 0 && os == Os({}, {}, {}, {}, 0)
      {
        slots[i] := Slot(-1, Reading, 0, NoKey);
      }
    }

    method Unused() returns (idx: int)
      ensures idx == Find(slots[..], IsFree())
    {
      for i := 0 to slots.Length
        invariant forall j :: 0 <= j < i ==> slots[j].use != 0
      {
        if slots[i].use == 0 {
          return i;
        }
      }
      idx := -1;
    }

    method IdxByFd(fd: int, kind: Kind) returns (idx: int)
      ensures idx == Find(slots[..], ByFd(fd, kind))
    {
      for i := 0 to slots.Length
        invariant forall j :: 0 <= j < i ==> !(slots[j].fd == fd && slots[j].kind == kind)
      {
        if slots[i].fd == fd && slots[i].kind == kind {
          return i;
        }
      }
      idx := -1;
    }

    method IdxByFh(key: Key, kind: Kind) returns (idx: int)
      ensures idx == Find(slots[..], ByFh(key, kind))
    {
      for i := 0 to slots.Length
        invariant forall j :: 0 <= j < i ==> !(slots[j].kind == kind && slots[j].key == key)
      {
        if slots[i].kind == kind {
          if slots[i].key == key {
            return i;
          }
        }
      }
      idx := -1;
    }

    /** fd_cache_del */
    method Delete(idx: nat, keepOnError: bool, o: Outcome) returns (ok: bool)
      requires idx < slots.Length && Live(View())
      modifies this, slots
      ensures Result(View(), ok) == Del(old(View()), idx, keepOnError, o)
    {
      ghost var s := View();
      ok := false;
      var x := slots[idx];
      if x.fd != -1 {
        if x.kind.Writing? {
          writers := writers - 1;
          ok := o.fsyncOk;
          os := Fsync(os, x.key, o.fsyncOk);
        } else {
          readers := readers - 1;
          ok := true;
        }
        os := CloseFd(os, x.fd);
        slots[idx] := x.(fd := -1);
        if !o.closeOk {
          ok := false;
        }
        assert View() == Release(s, idx, o);
      }
      if !ok && !keepOnError {
        verifier := verifier + 1;
      }
      if ok || !keepOnError {
        slots[idx] := Slot(-1, x.kind, 0, NoKey);
      }
    }

    /** fd_cache_add */
    method Insert(fd: int, key: Key, kind: Kind, now: int)
      modifies this, slots
      ensures View() == Add(old(View()), fd, key, kind, now)
    {
      var idx := Unused();
      if idx != -1 {
        if kind.Reading? {
          readers := readers + 1;
        } else {
          writers := writers + 1;
        }
        slots[idx] := Slot(fd, kind, now, key);
        assert slots[..] == old(slots[..])[idx := Slot(fd, kind, now, key)];
      }
    }

    method Open(key: Key, kind: Kind, allowCaching: bool, e: Env) returns (fd: int)
      requires Live(View()) && (e.fd != -1 ==> e.fd !in os.open)
      modifies this, slots
      ensures Opened(View(), fd) == FdOpen(old(View()), key, kind, allowCaching, e)
    {
      var idx := IdxByFh(key, kind);
      if idx != -1 {
        if slots[idx].fd == -1 {
          var _ := Delete(idx, false, e.o);
          return -1;
        }
        return slots[idx].fd;
      }
      if e.fd == -1 {
        return -1;
      }
      os := os.(open := os.open + {e.fd});
      if !e.sameFile {
        os := CloseFd(os, e.fd);
        return -1;
      }
      if allowCaching {
        Insert(e.fd, key, kind, e.now);
      }
      fd := e.fd;
    }

    method Close(fd: int, ghost file: Key, kind: Kind, forReal: bool, now: int, o: Outcome) returns (ok: bool)
      requires Live(View()) && fd in os.open
      modifies this, slots
      ensures Result(View(), ok) == FdClose(old(View()), fd, file, kind, forReal, now, o)
    {
      var idx := IdxByFd(fd, kind);
      if idx != -1 {
        slots[idx] := slots[idx].(use := now);
        assert View() == old(View()).(slots := old(slots[..])[idx := old(slots[idx]).(use := now)]);
        if forReal {
          ok := Delete(idx, false, o);
        } else {
          ok := true;
        }
      } else {
        ok := true;
        if kind.Writing? {
          ok := o.fsyncOk;
          os := Fsync(os, file, o.fsyncOk);
        }
        os := CloseFd(os, fd);
        ok := ok && o.closeOk;
      }
    }

    method Sync(key: Key, o: Outcome) returns (ok: bool)
      requires Live(View())
      modifies this, slots
      ensures Result(View(), ok) == FdSync(old(View()), key, o)
    {
      var idx := IdxByFh(key, Writing);
      if idx != -1 {
        ok := Delete(idx, false, o);
      } else {
        ok := true;
      }
    }

    /** fd_cache_purge */
    method PurgeAll(outs: seq<Outcome>)
      requires Live(View()) && |outs| == slots.Length
      modifies this, slots
      ensures View() == PurgeFrom(old(View()), 0, outs)
    {
      for i := 0 to slots.Length
        invariant Live(View())
        invariant PurgeFrom(View(), i, outs) == PurgeFrom(old(View()), 0, outs)
      {
        if slots[i].use != 0 {
          var _ := Delete(i, true, outs[i]);
        }
      }
    }

    /** fd_cache_close_inactive */
    method CloseInactive(now: int, outs: seq<Outcome>)
      requires Live(View()) && |outs| == slots.Length
      modifies this, slots
      ensures View() == Sweep(old(View()), now, outs)
    {
      var foundError, activeError := CloseIdle(now, outs);
      if foundError && !activeError {
        DropPending();
        verifier := verifier + 1;
      }
    }

    /** The first pass: close idle descriptors and look for pending errors, old and young. */
    method CloseIdle(now: int, outs: seq<Outcome>) returns (foundError: bool, activeError: bool)
      requires Live(View()) && |outs| == slots.Length
      modifies this, slots
      ensures View() == CloseStale(old(View()), 0, now, outs)
      ensures foundError == HasPending(slots[..]) && activeError == HasYoung(slots[..], now)
    {
      foundError, activeError := false, false;
      for i := 0 to slots.Length
        invariant Live(View())
        invariant CloseStale(View(), i, now, outs) == CloseStale(old(View()), 0, now, outs)
        invariant foundError == HasPending(slots[..i]) && activeError == HasYoung(slots[..i], now)
      {
        ghost var before := slots[..i];
        if slots[i].use != 0 && slots[i].fd != -1 && slots[i].use + INACTIVE_TIMEOUT < now {
          var _ := Delete(i, true, outs[i]);
        }
        if slots[i].use != 0 && slots[i].fd == -1 {
          foundError := true;
          if slots[i].use + PENDING_ERROR_TIMEOUT > now {
            activeError := true;
          }
        }
        assert slots[..i + 1] == before + [slots[i]];
        OneMore(before, slots[i], now);
      }
      assert slots[..slots.Length] == slots[..];
    }

    /** The second pass: all pending errors are old, and all go. */
    method DropPending()
      requires Live(View())
      modifies this, slots
      ensures View() == DropErrors(old(View()), 0)
    {
      for i := 0 to slots.Length
        invariant Live(View())
        invariant DropErrors(View(), i) == DropErrors(old(View()), 0)
      {
        if slots[i].use != 0 && slots[i].fd == -1 {
          var _ := Delete(i, false, Outcome(true, true));
        }
      }
    }

    // ---------- the procedures that use the cache ----------

    /** nfsproc3_write_3_svc */
    method WriteFile(file: Key, stable: Stable, e: Env)
      returns (ok: bool, committed: Stable, verf: nat, ghost data: Datum)
      requires Live(View()) && (e.fd != -1 ==> e.fd !in os.open)
      modifies this, slots
      ensures Next(View(), if ok then Wrote(data, committed, verf) else Failed) == Write(old(View()), file, stable, e)
      ensures old(Inv(View()) && Possible(View(), WriteCall(file, stable, e))) ==>
                ok == old(WriteWorks(View(), file, stable, e))
    {
      if Inv(View()) && Possible(View(), WriteCall(file, stable, e)) { WriteAnswers(View(), file, stable, e); }
      committed, verf, data := stable, 0, Datum(0, file);
      var fd := Open(file, Writing, stable.UNSTABLE?, e);
      if fd == -1 {
        return false, committed, verf, data;
      }
      data := Datum(os.next, file);
      os := Accept(View(), file, e.ioOk).os;
      var closed := Close(fd, file, Writing, !stable.UNSTABLE?, e.now, e.o);
      if stable.DATA_SYNC? {
        committed := FILE_SYNC;
      }
      ok := e.ioOk && closed;
      if ok {
        verf := verifier;
        os := os.(acked := os.acked + {Ack(data, verf)});
      }
    }

    /** nfsproc3_read_3_svc */
    method ReadFile(file: Key, eof: bool, e: Env) returns (ok: bool)
      requires Live(View()) && (e.fd != -1 ==> e.fd !in os.open)
      modifies this, slots
      ensures Next(View(), if ok then Done else Failed) == Read(old(View()), file, eof, e)
      ensures old(Inv(View()) && Possible(View(), ReadCall(file, eof, e))) ==> ok == old(ReadWorks(View(), file, e))
    {
      if Inv(View()) && Possible(View(), ReadCall(file, eof, e)) { ReadAnswers(View(), file, eof, e); }
      var fd := Open(file, Reading, true, e);
      if fd == -1 {
        return false;
      }
      var _ := Close(fd, file, Reading, eof, e.now, e.o);
      ok := e.ioOk;
    }

    /** nfsproc3_commit_3_svc */
    method CommitFile(file: Key, o: Outcome) returns (ok: bool, verf: nat)
      requires Live(View())
      modifies this, slots
      ensures Next(View(), if ok then Committed(file, verf) else Failed) == Commit(old(View()), file, o)
      ensures old(Inv(View()) && file != NoKey) ==> ok == old(CommitWorks(View(), file, o))
    {
      if Inv(View()) && file != NoKey { CommitAnswers(View(), file, o); }
      ok := Sync(file, o);
      verf := verifier;
    }

    /** Any call the server makes on the cache keeps the invariant. */
    method Serve(ev: Event) returns (ghost reply: Reply)
      requires Inv(View()) && Possible(View(), ev)
      modifies this, slots
      ensures Inv(View()) && Next(View(), reply) == Step(old(View()), ev)
    {
      StepKeeps(View(), ev);
      match ev {
        case WriteCall(file, stable, e) =>
          var ok, committed, verf, data := WriteFile(file, stable, e);
          reply := if ok then Wrote(data, committed, verf) else Failed;
        case ReadCall(file, eof, e) =>
          var ok := ReadFile(file, eof, e);
          reply := if ok then Done else Failed;
        case CommitCall(file, o) =>
          var ok, verf := CommitFile(file, o);
          reply := if ok then Committed(file, verf) else Failed;
        case Idle(now, outs) =>
          CloseInactive(now, outs);
          reply := Done;
        case Purge(outs) =>
          PurgeAll(outs);
          reply := Done;
      }
    }
  }
}
