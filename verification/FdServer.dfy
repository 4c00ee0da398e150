/**
  WRITE, READ, COMMIT, the idle sweep and the purge as steps of one state machine, the invariant
  that every step keeps, and what a client may conclude from the verifiers in the replies.
 */
module FdServer {
  import opened FdModel

  datatype Stable = UNSTABLE | DATA_SYNC | FILE_SYNC

  datatype Event =
    | WriteCall(file: Key, stable: Stable, env: Env)
    | ReadCall(file: Key, eof: bool, env: Env)
    | CommitCall(file: Key, o: Outcome)
    | Idle(now: int, outs: seq<Outcome>)
    | Purge(outs: seq<Outcome>)

  datatype Reply =
    | Wrote(data: Datum, committed: Stable, verf: nat)
    | Committed(file: Key, verf: nat)
    | Failed
    | Done

  datatype Next = Next(s: State, reply: Reply)

  /** Data accepted by the system but not yet acknowledged. */
  function Accept(s: State, file: Key, ok: bool): State {
    s.(os := s.os.(next := s.os.next + 1,
                   dirty := if ok then s.os.dirty + {Datum(s.os.next, file)} else s.os.dirty))
  }

  /** nfsproc3_write_3_svc once the handle is resolved: open, transfer, close, then read the verifier. */
  function Write(s: State, file: Key, stable: Stable, e: Env): Next
    requires Live(s) && (e.fd != -1 ==> e.fd !in s.os.open)
  {
    var op := FdOpen(s, file, Writing, stable.UNSTABLE?, e);
    if op.fd == -1 then Next(op.s, Failed)
    else
      var data := Datum(op.s.os.next, file);
      var closed := FdClose(Accept(op.s, file, e.ioOk), op.fd, file, Writing, !stable.UNSTABLE?, e.now, e.o);
      if e.ioOk && closed.ok then
        var t := closed.s;
        Next(t.(os := t.os.(acked := t.os.acked + {Ack(data, t.epoch)})),
             Wrote(data, if stable.DATA_SYNC? then FILE_SYNC else stable, t.epoch))
      else Next(closed.s, Failed)
  }

  /** nfsproc3_read_3_svc: the descriptor is really closed when the read hits end of file. */
  function Read(s: State, file: Key, eof: bool, e: Env): Next
    requires Live(s) && (e.fd != -1 ==> e.fd !in s.os.open)
  {
    var op := FdOpen(s, file, Reading, true, e);
    if op.fd == -1 then Next(op.s, Failed)
    else
      Next(FdClose(op.s, op.fd, file, Reading, eof, e.now, e.o).s, if e.ioOk then Done else Failed)
  }

  function Commit(s: State, file: Key, o: Outcome): Next
    requires Live(s)
  {
    var r := FdSync(s, file, o);
    Next(r.s, if r.ok then Committed(file, r.s.epoch) else Failed)
  }

  /** What the environment guarantees: a running clock, a real file, and no descriptor handed out twice. */
  predicate Possible(s: State, ev: Event) {
    match ev
    case WriteCall(file, _, e) => file != NoKey && e.now > 0 && (e.fd == -1 || (e.fd >= 0 && e.fd !in s.os.open))
    case ReadCall(file, _, e) => file != NoKey && e.now > 0 && (e.fd == -1 || (e.fd >= 0 && e.fd !in s.os.open))
    case CommitCall(file, _) => file != NoKey
    case Idle(_, outs) => |outs| == |s.slots|
    case Purge(outs) => |outs| == |s.slots|
  }

  function Step(s: State, ev: Event): Next
    requires Live(s) && Possible(s, ev)
  {
    match ev
    case WriteCall(file, stable, e) => Write(s, file, stable, e)
    case ReadCall(file, eof, e) => Read(s, file, eof, e)
    case CommitCall(file, o) => Commit(s, file, o)
    case Idle(now, outs) => Next(Sweep(s, now, outs), Done)
    case Purge(outs) => Next(PurgeFrom(s, 0, outs), Done)
  }

  // ---------- the invariant ----------

  function OpenCount(slots: seq<Slot>, kind: Kind): nat {
    if slots == [] then 0
    else OpenCount(slots[..|slots| - 1], kind) +
         (if slots[|slots| - 1].Open() && slots[|slots| - 1].kind == kind then 1 else 0)
  }

  ghost function OpenFds(slots: seq<Slot>): set<int> {
    set i | 0 <= i < |slots| && slots[i].Open() :: slots[i].fd
  }

  /** Some WRITE slot of the file remembers `d`: either its descriptor still holds the data, or
      an error is parked there. */
  ghost predicate Covered(s: State, d: Datum) {
    exists i :: 0 <= i < |s.slots| && Covers(s.slots[i], s.os.dirty, d)
  }
  predicate Covers(x: Slot, dirty: set<Datum>, d: Datum) {
    x.use != 0 && x.kind.Writing? && x.key == d.file && (x.fd == -1 || d in dirty)
  }

  ghost predicate Safe(s: State, a: Ack) {
    && a.epoch <= s.epoch
    && a.data.id < s.os.next
    && (a.data in s.os.durable || a.epoch < s.epoch || Covered(s, a.data))
  }

  /** Slots are well formed, hold distinct descriptors, and no two of one kind share a file. */
  ghost predicate Table(s: State) {
    && Live(s)
    && (forall i :: 0 <= i < |s.slots| ==> s.slots[i].WellFormed())
    && (forall i, j :: 0 <= i < j < |s.slots| && s.slots[i].use != 0 && s.slots[i].key == s.slots[j].key ==>
          s.slots[i].kind != s.slots[j].kind)
  }

  /** The system's open descriptors are exactly those cached, and the statistics count them. */
  ghost predicate Conserved(s: State) {
    && s.os.open == OpenFds(s.slots)
    && s.readers == OpenCount(s.slots, Reading)
    && s.writers == OpenCount(s.slots, Writing)
  }

  ghost predicate Inv(s: State) {
    Table(s) && Conserved(s) && forall a :: a in s.os.acked ==> Safe(s, a)
  }

  // ---------- counting ----------

  function Tally(x: Slot, kind: Kind): nat { if x.Open() && x.kind == kind then 1 else 0 }

  lemma {:induction false} CountUpdate(slots: seq<Slot>, i: nat, x: Slot, kind: Kind)
    requires i < |slots|
    ensures OpenCount(slots[i := x], kind) == OpenCount(slots, kind) - Tally(slots[i], kind) + Tally(x, kind)
  {
    var n := |slots| - 1;
    if i == n {
      assert slots[i := x][..n] == slots[..n];
    } else {
      assert slots[i := x][..n] == slots[..n][i := x];
      CountUpdate(slots[..n], i, x, kind);
    }
  }

  ghost predicate ClosedFrom(slots: seq<Slot>, i: nat) { forall j :: i <= j < |slots| ==> !slots[j].Open() }

  lemma {:induction false} NoneOpen(slots: seq<Slot>, kind: Kind)
    requires ClosedFrom(slots, 0)
    ensures OpenCount(slots, kind) == 0
  {
    if slots != [] { NoneOpen(slots[..|slots| - 1], kind); }
  }

  /** Replacing one slot changes the open descriptors by exactly that slot's. */
  lemma ConservedUpdate(s: State, i: nat, x: Slot)
    requires Table(s) && Conserved(s) && i < |s.slots|
    requires x.Open() ==> x.fd !in s.os.open || x.fd == s.slots[i].fd
    ensures OpenFds(s.slots[i := x]) ==
            s.os.open - (if s.slots[i].Open() then {s.slots[i].fd} else {}) + (if x.Open() then {x.fd} else {})
  {
    var t := s.slots[i := x];
    forall f | f in s.os.open && (s.slots[i].Open() ==> f != s.slots[i].fd)
      ensures f in OpenFds(t)
    {
      var j :| 0 <= j < |s.slots| && s.slots[j].Open() && s.slots[j].fd == f;
      assert j != i && t[j] == s.slots[j];
    }
    if x.Open() { assert t[i].Open(); }
    forall f | f in OpenFds(t)
      ensures (f in s.os.open && (s.slots[i].Open() ==> f != s.slots[i].fd)) || (x.Open() && f == x.fd)
    {
      var j :| 0 <= j < |t| && t[j].Open() && t[j].fd == f;
      assert j != i ==> s.slots[j] == t[j];
    }
  }

  // ---------- steps of the cache keep the invariant ----------

  lemma Others(s: State, i: nat)
    requires Table(s) && i < |s.slots| && s.slots[i].use != 0
    ensures forall j :: 0 <= j < |s.slots| && j != i ==>
              s.slots[j].key != s.slots[i].key || s.slots[j].kind != s.slots[i].kind
    ensures s.slots[i].fd != -1 ==> forall j :: 0 <= j < |s.slots| && j != i ==> s.slots[j].fd != s.slots[i].fd
  {}

  lemma DelShape(s: State, idx: nat, keep: bool, o: Outcome)
    requires Table(s) && idx < |s.slots| && s.slots[idx].use != 0
    ensures var r := Del(s, idx, keep, o).s; var x := r.slots[idx];
            && r.slots == s.slots[idx := x]
            && x.fd == -1 && x.WellFormed() && (x.use != 0 ==> x.key == s.slots[idx].key && x.kind == s.slots[idx].kind)
            && r.os.open == s.os.open - (if s.slots[idx].Open() then {s.slots[idx].fd} else {})
            && r.readers == s.readers - Tally(s.slots[idx], Reading)
            && r.writers == s.writers - Tally(s.slots[idx], Writing)
  {}

  lemma DelTable(s: State, idx: nat, keep: bool, o: Outcome)
    requires Table(s) && idx < |s.slots| && s.slots[idx].use != 0
    ensures Table(Del(s, idx, keep, o).s)
  {}

  lemma DelConserved(s: State, idx: nat, keep: bool, o: Outcome)
    requires Table(s) && Conserved(s) && idx < |s.slots| && s.slots[idx].use != 0
    ensures Conserved(Del(s, idx, keep, o).s)
  {
    var x := Del(s, idx, keep, o).s.slots[idx];
    DelShape(s, idx, keep, o);
    ConservedUpdate(s, idx, x);
    CountUpdate(s.slots, idx, x, Reading);
    CountUpdate(s.slots, idx, x, Writing);
  }

  lemma DelSafe(s: State, idx: nat, keep: bool, o: Outcome, a: Ack)
    requires Table(s) && idx < |s.slots| && s.slots[idx].use != 0 && Safe(s, a)
    ensures Safe(Del(s, idx, keep, o).s, a)
  {
    var r := Del(s, idx, keep, o).s;
    if a.data !in s.os.durable && a.epoch == s.epoch {
      var i :| 0 <= i < |s.slots| && Covers(s.slots[i], s.os.dirty, a.data);
      Others(s, idx);
      if i != idx {
        assert Covers(r.slots[i], r.os.dirty, a.data);
      } else if r.epoch == s.epoch && a.data !in r.os.durable {
        assert Covers(r.slots[idx], r.os.dirty, a.data);
      }
    }
  }

  lemma DelKeeps(s: State, idx: nat, keep: bool, o: Outcome)
    requires Inv(s) && idx < |s.slots| && s.slots[idx].use != 0
    ensures Inv(Del(s, idx, keep, o).s)
  {
    DelTable(s, idx, keep, o);
    DelConserved(s, idx, keep, o);
    forall a | a in s.os.acked ensures Safe(Del(s, idx, keep, o).s, a) { DelSafe(s, idx, keep, o, a); }
  }

  /** What covered an acknowledged write before still covers it. */
  lemma SafeSame(s: State, t: State, a: Ack)
    requires Safe(s, a) && t.epoch == s.epoch && s.os.next <= t.os.next && s.os.durable <= t.os.durable
    requires |s.slots| == |t.slots|
    requires forall i :: 0 <= i < |s.slots| && Covers(s.slots[i], s.os.dirty, a.data) ==>
               Covers(t.slots[i], t.os.dirty, a.data)
    ensures Safe(t, a)
  {}

  lemma AcceptKeeps(s: State, file: Key, ok: bool)
    requires Inv(s)
    ensures Inv(Accept(s, file, ok))
  {}

  lemma TouchKeeps(s: State, idx: nat, now: int)
    requires Inv(s) && idx < |s.slots| && s.slots[idx].use != 0 && now > 0
    ensures Inv(s.(slots := s.slots[idx := s.slots[idx].(use := now)]))
  {
    var x := s.slots[idx].(use := now);
    var t := s.(slots := s.slots[idx := x]);
    TouchTable(s, idx, now);
    ConservedUpdate(s, idx, x);
    CountUpdate(s.slots, idx, x, Reading);
    CountUpdate(s.slots, idx, x, Writing);
    forall a | a in s.os.acked ensures Safe(t, a) { SafeSame(s, t, a); }
  }

  lemma TouchTable(s: State, idx: nat, now: int)
    requires Table(s) && idx < |s.slots| && s.slots[idx].use != 0 && now > 0
    ensures Table(s.(slots := s.slots[idx := s.slots[idx].(use := now)]))
  {}

  lemma AddTable(s: State, t: State, idx: nat, fd: int, key: Key, kind: Kind, now: int)
    requires Table(s) && Conserved(s) && fd >= 0 && fd !in s.os.open && key != NoKey && now > 0
    requires Find(s.slots, ByFh(key, kind)) == -1 && idx < |s.slots| && s.slots[idx].use == 0
    requires t.slots == s.slots[idx := Slot(fd, kind, now, key)] && t.os.open == s.os.open + {fd}
    ensures Table(t)
  {}

  lemma AddConserved(s: State, t: State, idx: nat, fd: int, key: Key, kind: Kind, now: int)
    requires Table(s) && Conserved(s) && fd >= 0 && fd !in s.os.open && now > 0
    requires idx < |s.slots| && s.slots[idx].use == 0
    requires t.slots == s.slots[idx := Slot(fd, kind, now, key)] && t.os.open == s.os.open + {fd}
    requires t.readers == s.readers + (if kind.Reading? then 1 else 0)
    requires t.writers == s.writers + (if kind.Writing? then 1 else 0)
    ensures Conserved(t)
  {
    var x := Slot(fd, kind, now, key);
    ConservedUpdate(s, idx, x);
    CountUpdate(s.slots, idx, x, Reading);
    CountUpdate(s.slots, idx, x, Writing);
  }

  lemma AddKeeps(s: State, fd: int, key: Key, kind: Kind, now: int)
    requires Inv(s) && fd >= 0 && fd !in s.os.open && key != NoKey && now > 0
    requires Find(s.slots, ByFh(key, kind)) == -1 && Find(s.slots, IsFree()) != -1
    ensures Inv(Add(s.(os := s.os.(open := s.os.open + {fd})), fd, key, kind, now))
  {
    var idx := Find(s.slots, IsFree());
    var t := Add(s.(os := s.os.(open := s.os.open + {fd})), fd, key, kind, now);
    AddTable(s, t, idx, fd, key, kind, now);
    AddConserved(s, t, idx, fd, key, kind, now);
    forall a | a in s.os.acked ensures Safe(t, a) { SafeSame(s, t, a); }
  }

  /** A sync through a descriptor outside the cache cannot lose acknowledged data. */
  lemma FsyncKeeps(s: State, file: Key, ok: bool)
    requires Inv(s) && Find(s.slots, ByFh(file, Writing)) == -1
    ensures Inv(s.(os := Fsync(s.os, file, ok)))
  {}

  lemma AckKeeps(s: State, data: Datum)
    requires Inv(s) && data.id < s.os.next && (data in s.os.durable || Covered(s, data))
    ensures Inv(s.(os := s.os.(acked := s.os.acked + {Ack(data, s.epoch)})))
  {}

  lemma FindOpen(s: State, idx: nat)
    requires Table(s) && idx < |s.slots| && s.slots[idx].fd != -1
    ensures Find(s.slots, ByFd(s.slots[idx].fd, s.slots[idx].kind)) == idx
  {}

  /** Closing a cached descriptor keeps the invariant; a successful close leaves its data safe. */
  lemma CloseCached(s: State, idx: nat, forReal: bool, now: int, o: Outcome, data: Datum)
    requires Inv(s) && idx < |s.slots| && s.slots[idx].Open() && now > 0
    ensures var x := s.slots[idx]; var r := FdClose(s, x.fd, x.key, x.kind, forReal, now, o);
            && Inv(r.s) && r.s.os.next == s.os.next
            && (r.ok && x.kind.Writing? && data.file == x.key && data in s.os.dirty ==>
                  data in r.s.os.durable || (!forReal && Covered(r.s, data)))
  {
    var x := s.slots[idx];
    FindOpen(s, idx);
    TouchKeeps(s, idx, now);
    var t := s.(slots := s.slots[idx := x.(use := now)]);
    if forReal { DelKeeps(t, idx, false, o); }
    else if x.kind.Writing? && data.file == x.key && data in s.os.dirty {
      assert Covers(t.slots[idx], t.os.dirty, data);
    }
  }

  /** Opening either leaves the state alone, reports a parked error, or caches the new descriptor;
      otherwise the descriptor stays outside the cache. */
  lemma OpenKeeps(s: State, file: Key, kind: Kind, cache: bool, e: Env) returns (idx: int)
    requires Inv(s) && file != NoKey && e.now > 0 && (e.fd == -1 || (e.fd >= 0 && e.fd !in s.os.open))
    ensures var r := FdOpen(s, file, kind, cache, e);
            && r.s.os.next == s.os.next
            && (r.fd == -1 ==> Inv(r.s))
            && (r.fd != -1 && idx != -1 ==>
                  Inv(r.s) && 0 <= idx < |r.s.slots| && r.s.slots[idx].Open() &&
                  r.s.slots[idx].fd == r.fd && r.s.slots[idx].key == file && r.s.slots[idx].kind == kind)
            && (r.fd != -1 && idx == -1 ==>
                  r.s == s.(os := s.os.(open := s.os.open + {r.fd})) && r.fd !in s.os.open &&
                  r.fd >= 0 && Find(s.slots, ByFh(file, kind)) == -1)
  {
    idx := Find(s.slots, ByFh(file, kind));
    if idx != -1 {
      assert s.slots[idx].key == file && s.slots[idx].WellFormed();
      if s.slots[idx].fd == -1 { DelKeeps(s, idx, false, e.o); }
    } else if e.fd != -1 && !e.sameFile {
      var t := FdOpen(s, file, kind, cache, e).s;
      assert t.os.open == s.os.open;
      assert t == s;
    } else if e.fd != -1 && cache && Find(s.slots, IsFree()) != -1 {
      idx := Find(s.slots, IsFree());
      AddKeeps(s, e.fd, file, kind, e.now);
    }
  }

  lemma CloseUncached(s: State, fd: int, file: Key, kind: Kind, forReal: bool, now: int, o: Outcome)
    requires Inv(s) && fd >= 0 && fd !in s.os.open && Find(s.slots, ByFh(file, kind)) == -1
    ensures var t := s.(os := s.os.(open := s.os.open + {fd}));
            var r := FdClose(t, fd, file, kind, forReal, now, o);
            && Inv(r.s) && r.s.os.next == s.os.next
            && (r.ok && kind.Writing? ==> forall d :: d in s.os.dirty && d.file == file ==> d in r.s.os.durable)
  {
    var t := s.(os := s.os.(open := s.os.open + {fd}));
    var r := FdClose(t, fd, file, kind, forReal, now, o);
    forall i | 0 <= i < |s.slots| ensures !ByFd(fd, kind)(s.slots[i]) {}
    assert r.s.os.open == s.os.open;
    if kind.Writing? {
      FsyncKeeps(s, file, o.fsyncOk);
      assert r.s == s.(os := Fsync(s.os, file, o.fsyncOk));
    } else {
      assert r.s == s;
    }
  }

  // ---------- every step keeps the invariant ----------

  lemma WriteCloses(s: State, file: Key, stable: Stable, e: Env)
    requires Inv(s) && Possible(s, WriteCall(file, stable, e))
    ensures var op := FdOpen(s, file, Writing, stable.UNSTABLE?, e);
            if op.fd == -1 then Inv(op.s) else
            var data := Datum(op.s.os.next, file);
            var r := FdClose(Accept(op.s, file, e.ioOk), op.fd, file, Writing, !stable.UNSTABLE?, e.now, e.o);
            && Inv(r.s) && r.s.os.next == data.id + 1
            && (e.ioOk && r.ok ==> data in r.s.os.durable || (stable.UNSTABLE? && Covered(r.s, data)))
  {
    var op := FdOpen(s, file, Writing, stable.UNSTABLE?, e);
    var idx := OpenKeeps(s, file, Writing, stable.UNSTABLE?, e);
    if op.fd != -1 {
      var data := Datum(s.os.next, file);
      var t := Accept(op.s, file, e.ioOk);
      if idx != -1 {
        AcceptKeeps(op.s, file, e.ioOk);
        CloseCached(t, idx, !stable.UNSTABLE?, e.now, e.o, data);
      } else {
        AcceptKeeps(s, file, e.ioOk);
        var u := Accept(s, file, e.ioOk);
        CloseUncached(u, op.fd, file, Writing, !stable.UNSTABLE?, e.now, e.o);
        assert t == u.(os := u.os.(open := u.os.open + {op.fd}));
      }
    }
  }

  lemma WriteKeeps(s: State, file: Key, stable: Stable, e: Env)
    requires Inv(s) && Possible(s, WriteCall(file, stable, e))
    ensures Inv(Write(s, file, stable, e).s)
  {
    WriteCloses(s, file, stable, e);
    var op := FdOpen(s, file, Writing, stable.UNSTABLE?, e);
    if op.fd != -1 {
      var r := FdClose(Accept(op.s, file, e.ioOk), op.fd, file, Writing, !stable.UNSTABLE?, e.now, e.o);
      if e.ioOk && r.ok { AckKeeps(r.s, Datum(op.s.os.next, file)); }
    }
  }

  lemma ReadKeeps(s: State, file: Key, eof: bool, e: Env)
    requires Inv(s) && Possible(s, ReadCall(file, eof, e))
    ensures Inv(Read(s, file, eof, e).s)
  {
    var op := FdOpen(s, file, Reading, true, e);
    var idx := OpenKeeps(s, file, Reading, true, e);
    if op.fd != -1 {
      if idx != -1 {
        CloseCached(op.s, idx, eof, e.now, e.o, Datum(0, file));
      } else {
        CloseUncached(s, op.fd, file, Reading, eof, e.now, e.o);
      }
    }
  }

  lemma CommitKeeps(s: State, file: Key, o: Outcome)
    requires Inv(s) && file != NoKey
    ensures Inv(Commit(s, file, o).s)
  {
    var idx := Find(s.slots, ByFh(file, Writing));
    if idx != -1 {
      assert s.slots[idx].WellFormed();
      DelKeeps(s, idx, false, o);
    }
  }

  lemma {:induction false} PurgeKeeps(s: State, i: nat, outs: seq<Outcome>)
    requires Inv(s) && |outs| == |s.slots| && i <= |s.slots|
    ensures Inv(PurgeFrom(s, i, outs))
    decreases |s.slots| - i
  {
    if i < |s.slots| {
      var t := s;
      if s.slots[i].use != 0 {
        DelKeeps(s, i, true, outs[i]);
        t := Del(s, i, true, outs[i]).s;
      }
      PurgeKeeps(t, i + 1, outs);
    }
  }

  lemma {:induction false} PurgeShape(s: State, i: nat, outs: seq<Outcome>)
    requires Live(s) && |outs| == |s.slots| && i <= |s.slots|
    ensures var r := PurgeFrom(s, i, outs);
            && (forall j :: 0 <= j < i ==> r.slots[j] == s.slots[j])
            && ClosedFrom(r.slots, i)
    decreases |s.slots| - i
  {
    if i < |s.slots| {
      PurgeShape(if s.slots[i].use != 0 then Del(s, i, true, outs[i]).s else s, i + 1, outs);
    }
  }

  /** A purge leaves no descriptor open, in the cache or in the system, and both counters at zero. */
  lemma PurgeCloses(s: State, outs: seq<Outcome>)
    requires Inv(s) && |outs| == |s.slots|
    ensures var r := PurgeFrom(s, 0, outs); r.os.open == {} && r.readers == 0 && r.writers == 0
  {
    var r := PurgeFrom(s, 0, outs);
    PurgeKeeps(s, 0, outs);
    PurgeShape(s, 0, outs);
    assert ClosedFrom(r.slots, 0);
    assert OpenFds(r.slots) == {};
    NoneOpen(r.slots, Reading);
    NoneOpen(r.slots, Writing);
  }

  lemma {:induction false} CloseStaleKeeps(s: State, i: nat, now: int, outs: seq<Outcome>)
    requires Inv(s) && |outs| == |s.slots| && i <= |s.slots|
    ensures Inv(CloseStale(s, i, now, outs))
    decreases |s.slots| - i
  {
    if i < |s.slots| {
      var t := s;
      if Stale(s.slots[i], now) {
        DelKeeps(s, i, true, outs[i]);
        t := Del(s, i, true, outs[i]).s;
      }
      CloseStaleKeeps(t, i + 1, now, outs);
    }
  }

  lemma {:induction false} CloseStaleShape(s: State, i: nat, now: int, outs: seq<Outcome>)
    requires Live(s) && |outs| == |s.slots| && i <= |s.slots|
    ensures var r := CloseStale(s, i, now, outs);
            && r.epoch == s.epoch
            && (forall j :: 0 <= j < |s.slots| && (j < i || s.slots[j].Pending()) ==> r.slots[j] == s.slots[j])
            && (forall j :: i <= j < |r.slots| ==> !Stale(r.slots[j], now))
    decreases |s.slots| - i
  {
    if i < |s.slots| {
      CloseStaleShape(if Stale(s.slots[i], now) then Del(s, i, true, outs[i]).s else s, i + 1, now, outs);
    }
  }

  /** The first pass empties a slot only by closing it in good order. */
  lemma {:induction false} CloseStaleEmpties(s: State, i: nat, now: int, outs: seq<Outcome>)
    requires Live(s) && |outs| == |s.slots| && i <= |s.slots|
    ensures var r := CloseStale(s, i, now, outs);
            forall j :: 0 <= j < |s.slots| && s.slots[j].use != 0 && r.slots[j].use == 0 ==>
              Stale(s.slots[j], now) && ClosesWell(s.slots[j], outs[j])
    decreases |s.slots| - i
  {
    if i < |s.slots| {
      CloseStaleEmpties(if Stale(s.slots[i], now) then Del(s, i, true, outs[i]).s else s, i + 1, now, outs);
      CloseStaleShape(if Stale(s.slots[i], now) then Del(s, i, true, outs[i]).s else s, i + 1, now, outs);
    }
  }

  lemma {:induction false} DropErrorsKeeps(s: State, i: nat)
    requires Inv(s) && i <= |s.slots|
    ensures Inv(DropErrors(s, i))
    decreases |s.slots| - i
  {
    if i < |s.slots| {
      var t := s;
      if s.slots[i].Pending() {
        DelKeeps(s, i, false, Outcome(true, true));
        t := Del(s, i, false, Outcome(true, true)).s;
      }
      DropErrorsKeeps(t, i + 1);
    }
  }

  lemma {:induction false} DropErrorsShape(s: State, i: nat)
    requires Live(s) && i <= |s.slots|
    ensures var r := DropErrors(s, i);
            && s.epoch <= r.epoch
            && (forall j :: 0 <= j < |r.slots| && (j < i || !s.slots[j].Pending()) ==> r.slots[j] == s.slots[j])
            && (forall j :: i <= j < |r.slots| && s.slots[j].Pending() ==> r.slots[j].use == 0)
    decreases |s.slots| - i
  {
    if i < |s.slots| {
      DropErrorsShape(if s.slots[i].Pending() then Del(s, i, false, Outcome(true, true)).s else s, i + 1);
    }
  }

  lemma SweepKeeps(s: State, now: int, outs: seq<Outcome>)
    requires Inv(s) && |outs| == |s.slots|
    ensures Inv(Sweep(s, now, outs))
  {
    CloseStaleKeeps(s, 0, now, outs);
    var t := CloseStale(s, 0, now, outs);
    DropErrorsKeeps(t, 0);
    var u := DropErrors(t, 0);
    forall a | a in u.os.acked ensures Safe(u.(epoch := u.epoch + 1), a) {}
  }

  /** The descriptor of `x` can be synced and closed without an error to report. */
  predicate ClosesWell(x: Slot, o: Outcome) { (x.kind.Reading? || o.fsyncOk) && o.closeOk }

  /** After the sweep no open descriptor has been idle for longer than the timeout, pending errors are
      gone unless a young one remains, and without a new verifier a slot is emptied only by closing an
      idle descriptor in good order: no error is dropped, whether it was pending before or arose in
      this sweep. */
  lemma SweepGuarantee(s: State, now: int, outs: seq<Outcome>)
    requires Live(s) && |outs| == |s.slots|
    ensures var r := Sweep(s, now, outs);
            && (forall j :: 0 <= j < |r.slots| && r.slots[j].Open() ==> r.slots[j].use + INACTIVE_TIMEOUT >= now)
            && (HasPending(r.slots) ==> HasYoung(r.slots, now))
            && (forall j :: 0 <= j < |s.slots| && s.slots[j].Pending() && r.slots[j] != s.slots[j] ==>
                  r.epoch > s.epoch)
            && (r.epoch == s.epoch ==> forall j :: 0 <= j < |s.slots| && s.slots[j].use != 0 && r.slots[j].use == 0 ==>
                  Stale(s.slots[j], now) && ClosesWell(s.slots[j], outs[j]))
  {
    CloseStaleShape(s, 0, now, outs);
    CloseStaleEmpties(s, 0, now, outs);
    DropErrorsShape(CloseStale(s, 0, now, outs), 0);
  }

  lemma StepKeeps(s: State, ev: Event)
    requires Inv(s) && Possible(s, ev)
    ensures Inv(Step(s, ev).s)
  {
    match ev
    case WriteCall(file, stable, e) => WriteKeeps(s, file, stable, e);
    case ReadCall(file, eof, e) => ReadKeeps(s, file, eof, e);
    case CommitCall(file, o) => CommitKeeps(s, file, o);
    case Idle(now, outs) => SweepKeeps(s, now, outs);
    case Purge(outs) => PurgeKeeps(s, 0, outs);
  }
}
