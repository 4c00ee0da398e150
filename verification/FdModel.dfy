/**
  What the descriptor cache and the procedures that use it do, as functions on values.

  The operating system is part of the state: the descriptors it holds open, the data it has
  accepted but not yet put on disk, and the data that is on disk. A failed fsync may lose all
  the unwritten data of its file. The outcome of every system call is an argument.
 */
module FdModel {

  const FD_ENTRIES := 256
  const INACTIVE_TIMEOUT := 2
  const PENDING_ERROR_TIMEOUT := 7200

  datatype Kind = Reading | Writing

  /** Device, inode and generation of a file. No file has the key `NoKey`. */
  datatype Key = Key(dev: nat, ino: nat, gen: nat)
  const NoKey := Key(0, 0, 0)

  datatype Slot = Slot(fd: int, kind: Kind, use: int, key: Key) {
    predicate Open() { use != 0 && fd != -1 }
    predicate Pending() { use != 0 && fd == -1 }
    predicate WellFormed() {
      && use >= 0 && fd >= -1
      && (use == 0 ==> fd == -1 && key == NoKey)
      && (use != 0 ==> key != NoKey)
    }
  }

  /** The data of one WRITE call. */
  datatype Datum = Datum(id: nat, file: Key)

  /** A WRITE that was acknowledged, with the verifier epoch in its reply. */
  datatype Ack = Ack(data: Datum, epoch: nat)

  datatype Os = Os(open: set<int>, dirty: set<Datum>, durable: set<Datum>, acked: set<Ack>, next: nat)

  datatype State = State(slots: seq<Slot>, readers: int, writers: int, epoch: nat, os: Os)

  datatype Outcome = Outcome(fsyncOk: bool, closeOk: bool)

  // ---------- the operating system ----------

  function Fsync(os: Os, file: Key, ok: bool): Os {
    var rest := set d | d in os.dirty && d.file != file;
    os.(dirty := rest, durable := if ok then os.durable + (os.dirty - rest) else os.durable)
  }

  /** Closing is allowed only on an open descriptor, so a double close does not verify. */
  function CloseFd(os: Os, fd: int): Os
    requires fd in os.open
  {
    os.(open := os.open - {fd})
  }

  // ---------- the cache ----------

  datatype Result = Result(s: State, ok: bool)

  /** First slot at or after `i` that satisfies `p`, or -1. */
  function Find(slots: seq<Slot>, p: Slot -> bool, i: nat := 0): (r: int)
    requires i <= |slots|
    ensures r == -1 || i <= r < |slots|
    ensures r == -1 ==> forall j :: i <= j < |slots| ==> !p(slots[j])
    ensures r != -1 ==> p(slots[r]) && forall j :: i <= j < r ==> !p(slots[j])
    decreases |slots| - i
  {
    if i == |slots| then -1 else if p(slots[i]) then i else Find(slots, p, i + 1)
  }

  function ByFh(key: Key, kind: Kind): Slot -> bool { (x: Slot) => x.kind == kind && x.key == key }
  function ByFd(fd: int, kind: Kind): Slot -> bool { (x: Slot) => x.fd == fd && x.kind == kind }
  function IsFree(): Slot -> bool { (x: Slot) => x.use == 0 }

  /** Slots with a descriptor hold distinct descriptors that the system has open. */
  predicate Live(s: State) {
    && (forall i :: 0 <= i < |s.slots| && s.slots[i].fd != -1 ==> s.slots[i].fd in s.os.open)
    && (forall i, j :: 0 <= i < j < |s.slots| && s.slots[i].fd != -1 ==> s.slots[i].fd != s.slots[j].fd)
  }

  /** Sync and close the descriptor of a slot; the slot itself keeps its place. */
  function Release(s: State, idx: nat, o: Outcome): State
    requires Live(s) && idx < |s.slots| && s.slots[idx].fd != -1
  {
    var x := s.slots[idx];
    var os := if x.kind.Writing? then Fsync(s.os, x.key, o.fsyncOk) else s.os;
    State(s.slots[idx := x.(fd := -1)],
          if x.kind.Writing? then s.readers else s.readers - 1,
          if x.kind.Writing? then s.writers - 1 else s.writers,
          s.epoch, CloseFd(os, x.fd))
  }

  function Del(s: State, idx: nat, keep: bool, o: Outcome): (r: Result)
    requires Live(s) && idx < |s.slots|
    ensures Live(r.s) && |r.s.slots| == |s.slots|
    ensures forall j :: 0 <= j < |s.slots| && j != idx ==> r.s.slots[j] == s.slots[j]
  {
    var x := s.slots[idx];
    var t := if x.fd != -1 then Release(s, idx, o) else s;
    var ok := x.fd != -1 && (x.kind.Reading? || o.fsyncOk) && o.closeOk;
    var u := if !ok && !keep then t.(epoch := t.epoch + 1) else t;
    if ok || !keep then
      Result(u.(slots := u.slots[idx := Slot(-1, x.kind, 0, NoKey)]), ok)
    else
      Result(u, ok)
  }

  function Add(s: State, fd: int, key: Key, kind: Kind, now: int): State {
    var idx := Find(s.slots, IsFree());
    if idx == -1 then s else
      s.(slots := s.slots[idx := Slot(fd, kind, now, key)],
         readers := if kind.Reading? then s.readers + 1 else s.readers,
         writers := if kind.Reading? then s.writers else s.writers + 1)
  }

  /** What the system answers during one call: clock, descriptor from open (-1 on failure),
      whether the opened object still is the handle's, whether the transfer worked. */
  datatype Env = Env(now: int, fd: int, sameFile: bool, ioOk: bool, o: Outcome)

  datatype Opened = Opened(s: State, fd: int)

  function FdOpen(s: State, key: Key, kind: Kind, cache: bool, e: Env): (r: Opened)
    requires Live(s) && (e.fd != -1 ==> e.fd !in s.os.open)
    ensures Live(r.s) && |r.s.slots| == |s.slots|
    ensures r.fd != -1 ==> r.fd in r.s.os.open
  {
    var idx := Find(s.slots, ByFh(key, kind));
    if idx != -1 then
      if s.slots[idx].fd == -1 then Opened(Del(s, idx, false, e.o).s, -1) else Opened(s, s.slots[idx].fd)
    else if e.fd == -1 then Opened(s, -1)
    else
      var t := s.(os := s.os.(open := s.os.open + {e.fd}));
      if !e.sameFile then Opened(t.(os := CloseFd(t.os, e.fd)), -1)
      else Opened(if cache then Add(t, e.fd, key, kind, e.now) else t, e.fd)
  }

  /** `file` is the object behind `fd`. */
  function FdClose(s: State, fd: int, file: Key, kind: Kind, forReal: bool, now: int, o: Outcome): Result
    requires Live(s) && fd in s.os.open
  {
    var idx := Find(s.slots, ByFd(fd, kind));
    if idx != -1 then
      var t := s.(slots := s.slots[idx := s.slots[idx].(use := now)]);
      if forReal then Del(t, idx, false, o) else Result(t, true)
    else
      var os := if kind.Writing? then Fsync(s.os, file, o.fsyncOk) else s.os;
      Result(s.(os := CloseFd(os, fd)), (kind.Reading? || o.fsyncOk) && o.closeOk)
  }

  function FdSync(s: State, key: Key, o: Outcome): Result
    requires Live(s)
  {
    var idx := Find(s.slots, ByFh(key, Writing));
    if idx != -1 then Del(s, idx, false, o) else Result(s, true)
  }

  // ---------- purge and the idle sweep, one slot at a time ----------

  function PurgeFrom(s: State, i: nat, outs: seq<Outcome>): (r: State)
    requires Live(s) && |outs| == |s.slots| && i <= |s.slots|
    ensures Live(r) && |r.slots| == |s.slots|
    decreases |s.slots| - i
  {
    if i == |s.slots| then s
    else if s.slots[i].use != 0 then
      PurgeFrom(Del(s, i, true, outs[i]).s, i + 1, outs)
    else PurgeFrom(s, i + 1, outs)
  }

  predicate Stale(x: Slot, now: int) { x.Open() && x.use + INACTIVE_TIMEOUT < now }
  predicate Young(x: Slot, now: int) { x.Pending() && x.use + PENDING_ERROR_TIMEOUT > now }

  function CloseStale(s: State, i: nat, now: int, outs: seq<Outcome>): (r: State)
    requires Live(s) && |outs| == |s.slots| && i <= |s.slots|
    ensures Live(r) && |r.slots| == |s.slots|
    decreases |s.slots| - i
  {
    if i == |s.slots| then s
    else if Stale(s.slots[i], now) then
      CloseStale(Del(s, i, true, outs[i]).s, i + 1, now, outs)
    else CloseStale(s, i + 1, now, outs)
  }

  function DropErrors(s: State, i: nat): (r: State)
    requires Live(s) && i <= |s.slots|
    ensures Live(r) && |r.slots| == |s.slots|
    decreases |s.slots| - i
  {
    if i == |s.slots| then s
    else if s.slots[i].Pending() then
      DropErrors(Del(s, i, false, Outcome(true, true)).s, i + 1)
    else DropErrors(s, i + 1)
  }

  predicate HasPending(slots: seq<Slot>) { exists i :: 0 <= i < |slots| && slots[i].Pending() }
  predicate HasYoung(slots: seq<Slot>, now: int) { exists i :: 0 <= i < |slots| && Young(slots[i], now) }

  function Sweep(s: State, now: int, outs: seq<Outcome>): State
    requires Live(s) && |outs| == |s.slots|
  {
    var t := CloseStale(s, 0, now, outs);
    if HasPending(t.slots) && !HasYoung(t.slots, now) then
      var u := DropErrors(t, 0);
      u.(epoch := u.epoch + 1)
    else t
  }
}
