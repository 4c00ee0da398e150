/** Whole runs of the server: what the write verifier promises, and when it promises it. */
module FdRuns {
  import opened FdModel
  import opened FdServer
  import opened Bits
  import Pigeonhole

  /** The state that fd_cache_init leaves behind. */
  ghost predicate Initial(s: State) {
    && s == State(s.slots, 0, 0, 0, Os({}, {}, {}, {}, 0))
    && |s.slots| == FD_ENTRIES
    && forall i :: 0 <= i < FD_ENTRIES ==> s.slots[i] == Slot(-1, Reading, 0, NoKey)
  }

  datatype Trace = Trace(states: seq<State>, events: seq<Event>, replies: seq<Reply>)

  /** A run from the initialised cache in which every step is possible and is the server's. */
  ghost predicate Run(tr: Trace) {
    && |tr.states| == |tr.events| + 1 && |tr.replies| == |tr.events|
    && Initial(tr.states[0])
    && forall i :: 0 <= i < |tr.events| ==> StepAt(tr, i)
  }

  ghost predicate StepAt(tr: Trace, i: nat)
    requires i < |tr.events| && |tr.states| == |tr.events| + 1 && |tr.replies| == |tr.events|
  {
    && Live(tr.states[i]) && Possible(tr.states[i], tr.events[i])
    && Step(tr.states[i], tr.events[i]) == Next(tr.states[i + 1], tr.replies[i])
  }

  lemma InitialInv(s: State)
    requires Initial(s)
    ensures Inv(s)
  {
    NoneOpen(s.slots, Reading);
    NoneOpen(s.slots, Writing);
  }

  /** The invariant holds in every state of every run. */
  lemma {:induction false} RunInv(tr: Trace, k: nat)
    requires Run(tr) && k < |tr.states|
    ensures Inv(tr.states[k])
  {
    if k == 0 {
      InitialInv(tr.states[0]);
    } else {
      RunInv(tr, k - 1);
      assert StepAt(tr, k - 1);
      StepKeeps(tr.states[k - 1], tr.events[k - 1]);
    }
  }

  // ---------- nothing acknowledged or durable is ever forgotten ----------

  predicate Grows(s: State, t: State) {
    s.os.durable <= t.os.durable && s.os.acked <= t.os.acked && s.epoch <= t.epoch
  }

  lemma {:induction false} PurgeGrows(s: State, i: nat, outs: seq<Outcome>)
    requires Live(s) && |outs| == |s.slots| && i <= |s.slots|
    ensures Grows(s, PurgeFrom(s, i, outs))
    decreases |s.slots| - i
  {
    if i < |s.slots| {
      PurgeGrows(if s.slots[i].use != 0 then Del(s, i, true, outs[i]).s else s, i + 1, outs);
    }
  }

  lemma {:induction false} CloseStaleGrows(s: State, i: nat, now: int, outs: seq<Outcome>)
    requires Live(s) && |outs| == |s.slots| && i <= |s.slots|
    ensures Grows(s, CloseStale(s, i, now, outs))
    decreases |s.slots| - i
  {
    if i < |s.slots| {
      CloseStaleGrows(if Stale(s.slots[i], now) then Del(s, i, true, outs[i]).s else s, i + 1, now, outs);
    }
  }

  lemma {:induction false} DropErrorsGrows(s: State, i: nat)
    requires Live(s) && i <= |s.slots|
    ensures Grows(s, DropErrors(s, i))
    decreases |s.slots| - i
  {
    if i < |s.slots| {
      DropErrorsGrows(if s.slots[i].Pending() then Del(s, i, false, Outcome(true, true)).s else s, i + 1);
    }
  }

  lemma CloseGrows(s: State, fd: int, file: Key, kind: Kind, forReal: bool, now: int, o: Outcome)
    requires Live(s) && fd in s.os.open
    ensures Grows(s, FdClose(s, fd, file, kind, forReal, now, o).s)
  {}

  lemma OpenGrows(s: State, file: Key, kind: Kind, cache: bool, e: Env)
    requires Live(s) && (e.fd != -1 ==> e.fd !in s.os.open)
    ensures Grows(s, FdOpen(s, file, kind, cache, e).s)
  {}

  lemma StepGrows(s: State, ev: Event)
    requires Live(s) && Possible(s, ev)
    ensures Grows(s, Step(s, ev).s)
  {
    match ev
    case WriteCall(file, stable, e) =>
      OpenGrows(s, file, Writing, stable.UNSTABLE?, e);
      var op := FdOpen(s, file, Writing, stable.UNSTABLE?, e);
      if op.fd != -1 {
        CloseGrows(Accept(op.s, file, e.ioOk), op.fd, file, Writing, !stable.UNSTABLE?, e.now, e.o);
      }
    case ReadCall(file, eof, e) =>
      OpenGrows(s, file, Reading, true, e);
      var op := FdOpen(s, file, Reading, true, e);
      if op.fd != -1 { CloseGrows(op.s, op.fd, file, Reading, eof, e.now, e.o); }
    case CommitCall(_, _) =>
    case Idle(now, outs) =>
      CloseStaleGrows(s, 0, now, outs);
      DropErrorsGrows(CloseStale(s, 0, now, outs), 0);
    case Purge(outs) => PurgeGrows(s, 0, outs);
  }

  lemma {:induction false} RunGrows(tr: Trace, i: nat, j: nat)
    requires Run(tr) && i <= j < |tr.states|
    ensures Grows(tr.states[i], tr.states[j])
    decreases j
  {
    if i < j {
      RunGrows(tr, i, j - 1);
      assert StepAt(tr, j - 1);
      StepGrows(tr.states[j - 1], tr.events[j - 1]);
    }
  }

  // ---------- what the replies promise ----------

  lemma WroteAcked(s: State, ev: Event)
    requires Inv(s) && Possible(s, ev) && Step(s, ev).reply.Wrote?
    ensures var n := Step(s, ev);
            && Ack(n.reply.data, n.reply.verf) in n.s.os.acked
            && (!n.reply.committed.UNSTABLE? ==> n.reply.data in n.s.os.durable)
  {}

  lemma AckKept(tr: Trace, i: nat, k: nat)
    requires Run(tr) && i < |tr.replies| && i < k < |tr.states| && tr.replies[i].Wrote?
    ensures Ack(tr.replies[i].data, tr.replies[i].verf) in tr.states[k].os.acked
    ensures !tr.replies[i].committed.UNSTABLE? ==> tr.replies[i].data in tr.states[k].os.durable
  {
    RunInv(tr, i);
    assert StepAt(tr, i);
    WroteAcked(tr.states[i], tr.events[i]);
    RunGrows(tr, i + 1, k);
  }

  /** A reply that claims stable storage tells the truth, then and ever after. */
  lemma StableMeansDurable(tr: Trace, i: nat, k: nat)
    requires Run(tr) && i < |tr.replies| && i < k < |tr.states|
    requires tr.replies[i].Wrote? && !tr.replies[i].committed.UNSTABLE?
    ensures tr.replies[i].data in tr.states[k].os.durable
  {
    AckKept(tr, i, k);
  }

  /** A successful COMMIT leaves no slot for writing the file. */
  lemma CommitEmpties(s: State, file: Key, o: Outcome)
    requires Table(s) && file != NoKey && Commit(s, file, o).reply.Committed?
    ensures forall i :: 0 <= i < |s.slots| ==>
              var x := Commit(s, file, o).s.slots[i]; x.use == 0 || x.key != file || x.kind != Writing
  {
    var idx := Find(s.slots, ByFh(file, Writing));
    if idx == -1 {
      assert forall i :: 0 <= i < |s.slots| ==> !ByFh(file, Writing)(s.slots[i]);
    } else {
      assert ByFh(file, Writing)(s.slots[idx]) && s.slots[idx].WellFormed();
      Others(s, idx);
    }
  }

  lemma CommitSafe(s: State, file: Key, o: Outcome, a: Ack)
    requires Inv(s) && file != NoKey && a.data.file == file
    requires Commit(s, file, o).reply == Committed(file, a.epoch) && a in Commit(s, file, o).s.os.acked
    ensures a.data in Commit(s, file, o).s.os.durable
  {
    CommitKeeps(s, file, o);
    CommitEmpties(s, file, o);
    assert Safe(Commit(s, file, o).s, a);
  }

  /** If a COMMIT succeeds with the epoch that an earlier WRITE to the file returned, the data of
      that WRITE is on disk. */
  lemma CommitMeansDurable(tr: Trace, i: nat, j: nat)
    requires Run(tr) && i < j < |tr.replies|
    requires tr.replies[i].Wrote? && tr.replies[j].Committed?
    requires tr.replies[j].file == tr.replies[i].data.file && tr.replies[j].verf == tr.replies[i].verf
    ensures tr.replies[i].data in tr.states[j + 1].os.durable
  {
    AckKept(tr, i, j + 1);
    RunInv(tr, j);
    assert StepAt(tr, j);
    CommitSafe(tr.states[j], tr.events[j].file, tr.events[j].o, Ack(tr.replies[i].data, tr.replies[i].verf));
  }

  // ---------- the eight bytes on the wire ----------

  /** The two bytes that regenerate_write_verifier sets (bytes 0 and 4; the others stay zero). */
  function VerifierBytes(pid: nat, rnd: nat, time: nat): (v: nat)
    ensures v < 0x10000
  {
    (Xor(pid, rnd) % 256) * 256 + time % 256
  }

  /** The random number reaches the first byte through the exclusive or, and the clock the second: all
      65536 verifiers occur. */
  lemma VerifierOf(pid: nat, first: nat, second: nat)
    requires first < 256 && second < 256
    ensures VerifierBytes(pid, Xor(pid, first), second) == 256 * first + second
  {
    XorUndone(pid, first);
    TwoBytes(Xor(pid, Xor(pid, first)), second);
  }

  lemma TwoBytes(a: nat, b: nat)
    requires a < 256 && b < 256
    ensures a % 256 * 256 + b % 256 == 256 * a + b
  {}

  /** A client that compares the bytes sent for each epoch, `bytes`, takes lost data for committed. */
  ghost predicate Loses(bytes: nat -> nat, tr: Trace, i: nat, j: nat) {
    && Run(tr) && i < j < |tr.replies|
    && tr.replies[i].Wrote? && tr.replies[j].Committed? && tr.replies[j].file == tr.replies[i].data.file
    && bytes(tr.replies[j].verf) == bytes(tr.replies[i].verf)
    && tr.replies[i].data !in tr.states[j + 1].os.durable
  }

  ghost predicate Injective(bytes: nat -> nat) {
    forall a: nat, b: nat :: a < b ==> bytes(a) != bytes(b)
  }

  const SomeFile := Key(1, 1, 1)
  const UnstableWrite := WriteCall(SomeFile, UNSTABLE, Env(1, 3, true, true, Outcome(true, true)))
  function CommitWith(fsyncOk: bool): Event { CommitCall(SomeFile, Outcome(fsyncOk, true)) }

  /** Nothing cached, nothing open, nothing on its way to disk and nothing on disk. */
  ghost predicate Quiet(s: State) {
    && |s.slots| > 0
    && (forall i :: 0 <= i < |s.slots| ==> s.slots[i].use == 0 && s.slots[i].fd == -1 && s.slots[i].key == NoKey)
    && s.os.open == {} && s.os.dirty == {} && s.os.durable == {}
  }

  /** An unstable WRITE and a COMMIT whose fsync fails: the data is gone and the epoch moves on. */
  lemma LossyRound(s: State)
    requires Quiet(s)
    ensures var w := Step(s, UnstableWrite);
            && Live(w.s) && Possible(w.s, CommitWith(false))
            && w.reply == Wrote(Datum(s.os.next, SomeFile), UNSTABLE, s.epoch)
            && var c := Step(w.s, CommitWith(false));
            && c.reply == Failed && Quiet(c.s) && c.s.epoch == s.epoch + 1 && c.s.os.next == s.os.next + 1
  {}

  ghost function Extend(tr: Trace, ev: Event): Trace
    requires Run(tr) && Live(tr.states[|tr.events|]) && Possible(tr.states[|tr.events|], ev)
  {
    var n := Step(tr.states[|tr.events|], ev);
    Trace(tr.states + [n.s], tr.events + [ev], tr.replies + [n.reply])
  }

  lemma ExtendRuns(tr: Trace, ev: Event)
    requires Run(tr) && Live(tr.states[|tr.events|]) && Possible(tr.states[|tr.events|], ev)
    ensures Run(Extend(tr, ev))
  {
    var t := Extend(tr, ev);
    forall i | 0 <= i < |t.events| ensures StepAt(t, i) {
      if i < |tr.events| { assert StepAt(tr, i); }
    }
  }

  lemma {:induction false} LossyRun(n: nat) returns (tr: Trace)
    ensures Run(tr) && |tr.events| == 2 * n
    ensures Quiet(tr.states[2 * n]) && tr.states[2 * n].epoch == n && tr.states[2 * n].os.next == n
    ensures forall k :: 0 <= k < n ==> tr.replies[2 * k] == Wrote(Datum(k, SomeFile), UNSTABLE, k)
  {
    if n == 0 {
      var s := State(seq(FD_ENTRIES, _ => Slot(-1, Reading, 0, NoKey)), 0, 0, 0, Os({}, {}, {}, {}, 0));
      tr := Trace([s], [], []);
    } else {
      var t := LossyRun(n - 1);
      tr := AddRound(t);
    }
  }

  lemma AddRound(t: Trace) returns (tr: Trace)
    requires Run(t) && Quiet(t.states[|t.events|])
    ensures Run(tr) && |tr.events| == |t.events| + 2 && Quiet(tr.states[|tr.events|])
    ensures var s, r := t.states[|t.events|], tr.states[|tr.events|];
            && r.epoch == s.epoch + 1 && r.os.next == s.os.next + 1
            && tr.replies == t.replies + [Wrote(Datum(s.os.next, SomeFile), UNSTABLE, s.epoch), Failed]
  {
    LossyRound(t.states[|t.events|]);
    ExtendRuns(t, UnstableWrite);
    var u := Extend(t, UnstableWrite);
    ExtendRuns(u, CommitWith(false));
    tr := Extend(u, CommitWith(false));
  }

  /** Two epochs with the same bytes lose data in some run. */
  lemma RepeatLoses(bytes: nat -> nat, a: nat, b: nat) returns (tr: Trace, i: nat, j: nat)
    requires a < b && bytes(a) == bytes(b)
    ensures Loses(bytes, tr, i, j)
  {
    var t := LossyRun(b);
    var s := t.states[2 * b];
    assert forall k :: 0 <= k < |s.slots| ==> !ByFh(SomeFile, Writing)(s.slots[k]);
    ExtendRuns(t, CommitWith(true));
    tr, i, j := Extend(t, CommitWith(true)), 2 * a, 2 * b;
    assert tr.replies[i] == t.replies[2 * a];
  }

  /** Comparing verifier bytes is safe in every run exactly when no two epochs share their bytes. */
  lemma SafeIffInjective(bytes: nat -> nat)
    ensures Injective(bytes) <==> forall tr, i, j :: !Loses(bytes, tr, i, j)
  {
    if Injective(bytes) {
      forall tr, i, j ensures !Loses(bytes, tr, i, j) {
        if Loses(bytes, tr, i, j) { CommitMeansDurable(tr, i, j); }
      }
    } else {
      var a: nat, b: nat :| a < b && bytes(a) == bytes(b);
      var tr, i, j := RepeatLoses(bytes, a, b);
    }
  }

  // ---------- two bytes are not enough ----------

  /** Whatever the clock and rand() return, some run of the server loses data unnoticed. */
  lemma TwoBytesRepeat(bytes: nat -> nat, pid: nat) returns (tr: Trace, i: nat, j: nat)
    requires forall n: nat :: exists rnd: nat, time: nat :: bytes(n) == VerifierBytes(pid, rnd, time)
    ensures Loses(bytes, tr, i, j)
  {
    forall n: nat ensures bytes(n) < 0x10000 {
      var rnd: nat, time: nat :| bytes(n) == VerifierBytes(pid, rnd, time);
    }
    var a, b := Pigeonhole.TwoCoincide(bytes, 0x10000);
    tr, i, j := RepeatLoses(bytes, a, b);
  }
}
