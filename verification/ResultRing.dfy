/**
  Results of applied log entries wait in a ring until the call that logged the entry picks up its own.
  Raft applies entries in the order of their indices and applies each once.
 */
module ResultRing {
  import opened Options

  const CAPACITY := 1000

  datatype Item = Item(index: int, data: int)

  // ---------- a queue that keeps the latest 999 ----------

  /** put_result: one slot always stays empty, so at most 999 results are kept. */
  function Put(q: seq<Item>, x: Item): seq<Item> {
    var r := q + [x];
    if |r| == CAPACITY then r[1..] else r
  }

  datatype Drained = Drained(result: Option<int>, q: seq<Item>)

  /** The drain loop: take results until the wanted one turns up or none is left. */
  function Drain(q: seq<Item>, index: int): Drained {
    if q == [] then Drained(None, [])
    else if q[0].index == index then Drained(Some(q[0].data), q[1..])
    else Drain(q[1..], index)
  }

  ghost predicate Increasing(q: seq<Item>) {
    forall i, j :: 0 <= i < j < |q| ==> q[i].index < q[j].index
  }

  lemma HeadFirst(q: seq<Item>)
    requires Increasing(q) && q != []
    ensures Increasing(q[1..])
    ensures forall x :: x in q <==> x == q[0] || x in q[1..]
    ensures forall x :: x in q[1..] ==> x.index > q[0].index
  {}

  /** With indices in increasing order, the drain returns the result of exactly its entry, if that
      result is still kept, and leaves exactly the results of later entries. */
  lemma {:induction false} DrainExact(q: seq<Item>, index: int)
    requires Increasing(q)
    ensures var d := Drain(q, index);
            && (forall x :: x in q && x.index == index ==> d.result == Some(x.data))
            && (d.result.Some? ==> Item(index, d.result.value) in q)
            && (d.result.Some? ==> forall x :: x in d.q <==> x in q && x.index > index)
            && (d.result.None? ==> d.q == [])
            && Increasing(d.q)
  {
    if q != [] {
      HeadFirst(q);
      if q[0].index != index { DrainExact(q[1..], index); }
    }
  }

  // ---------- runs of one replica ----------

  datatype Event = Applied(index: int, data: int) | Fetch(index: int)

  /** The queue, all entries applied so far, and the highest index that a drain has gone past. */
  datatype State = State(q: seq<Item>, log: seq<Item>, floor: int)

  function Last(s: State): int { if s.log == [] then s.floor else s.log[|s.log| - 1].index }

  function Step(s: State, e: Event): State {
    match e
    case Applied(i, d) => State(Put(s.q, Item(i, d)), s.log + [Item(i, d)], s.floor)
    case Fetch(i) => var r := Drain(s.q, i); State(r.q, s.log, if r.result.Some? then i else Last(s))
  }

  function ResultOf(s: State, e: Event): Option<int> {
    if e.Fetch? then Drain(s.q, e.index).result else None
  }

  /** Raft applies entries in increasing order of their indices. */
  predicate Possible(s: State, e: Event) { e.Applied? ==> e.index > Last(s) && e.index > s.floor }

  ghost predicate Suffix(q: seq<Item>, log: seq<Item>) {
    |q| <= |log| && forall k :: 0 <= k < |q| ==> q[k] == log[|log| - |q| + k]
  }

  /** All of `q` was applied after index `floor`, given that `q` is increasing. */
  ghost predicate Above(q: seq<Item>, floor: int) { q != [] ==> q[0].index > floor }

  /** The first `n` entries of `log` are not above `floor`, given that `log` is increasing. */
  ghost predicate Passed(log: seq<Item>, n: int, floor: int)
    requires n <= |log|
  {
    n > 0 ==> log[n - 1].index <= floor
  }

  /** The queue is the end of the log; what is missing from it was drained past or pushed out by
      999 later results. */
  ghost predicate Inv(s: State) {
    && Increasing(s.log) && |s.q| < CAPACITY && Suffix(s.q, s.log) && Above(s.q, s.floor)
    && (|s.q| < CAPACITY - 1 ==> Passed(s.log, |s.log| - |s.q|, s.floor))
    && (s.log != [] ==> s.floor <= Last(s))
  }

  /** The empty ring satisfies the invariant, wherever the log starts. */
  lemma EmptyInv(floor: int)
    ensures Inv(State([], [], floor))
  {}

  lemma SuffixIncreasing(q: seq<Item>, log: seq<Item>)
    requires Increasing(log) && Suffix(q, log)
    ensures Increasing(q)
  {}

  lemma AppendIncreasing(log: seq<Item>, x: Item)
    requires Increasing(log) && (log != [] ==> log[|log| - 1].index < x.index)
    ensures Increasing(log + [x])
  {}

  lemma PutSuffix(q: seq<Item>, log: seq<Item>, x: Item)
    requires Suffix(q, log) && |q| < CAPACITY
    ensures Suffix(Put(q, x), log + [x]) && |Put(q, x)| < CAPACITY
  {
  }

  lemma PutAbove(q: seq<Item>, x: Item, floor: int)
    requires Increasing(q) && Above(q, floor) && x.index > floor
    ensures Above(Put(q, x), floor)
  {}

  lemma PassedAppend(log: seq<Item>, n: int, floor: int, x: Item)
    requires n <= |log| && Passed(log, n, floor)
    ensures Passed(log + [x], n, floor)
  {}

  lemma AppliedKeeps(s: State, i: int, d: int)
    requires Inv(s) && Possible(s, Applied(i, d))
    ensures Inv(Step(s, Applied(i, d)))
  {
    var x := Item(i, d);
    AppendIncreasing(s.log, x);
    SuffixIncreasing(s.q, s.log);
    PutSuffix(s.q, s.log, x);
    PutAbove(s.q, x, s.floor);
    if |s.q| < CAPACITY - 1 { PassedAppend(s.log, |s.log| - |s.q|, s.floor, x); }
  }

  /** A successful drain removes the queue up to and including its own result. */
  lemma {:induction false} DrainSuffix(q: seq<Item>, index: int) returns (k: nat)
    requires Drain(q, index).result.Some?
    ensures k < |q| && q[k] == Item(index, Drain(q, index).result.value) && Drain(q, index).q == q[k + 1..]
  {
    if q[0].index == index { k := 0; }
    else {
      var j := DrainSuffix(q[1..], index);
      k := j + 1;
    }
  }

  /** The part of the log after position `n`, with everything up to `n` drained past. */
  lemma CutInv(log: seq<Item>, n: nat, floor: int)
    requires Increasing(log) && n <= |log| && |log| - n < CAPACITY
    requires if n == 0 then log == [] else floor == log[n - 1].index
    ensures Inv(State(log[n..], log, floor))
  {}

  /** Where a successful drain stops in the log. */
  lemma DrainInLog(q: seq<Item>, log: seq<Item>, index: int) returns (n: nat)
    requires Suffix(q, log) && Increasing(q) && Drain(q, index).result.Some?
    ensures |log| - |q| < n <= |log| && log[n - 1].index == index && Drain(q, index).q == log[n..]
    ensures q != [] && q[0].index <= index
  {
    var k := DrainSuffix(q, index);
    n := |log| - |q| + k + 1;
    assert log[n - 1] == q[k];
    assert q[k + 1..] == log[n..];
    if k > 0 { assert q[0].index < q[k].index; }
  }

  lemma FetchHit(s: State, i: int)
    requires Inv(s) && Drain(s.q, i).result.Some?
    ensures Inv(Step(s, Fetch(i))) && i > s.floor
  {
    SuffixIncreasing(s.q, s.log);
    var n := DrainInLog(s.q, s.log, i);
    CutInv(s.log, n, i);
  }

  lemma FetchMiss(s: State, i: int)
    requires Inv(s) && Drain(s.q, i).result.None?
    ensures Inv(Step(s, Fetch(i))) && s.floor <= Step(s, Fetch(i)).floor
  {
    SuffixIncreasing(s.q, s.log);
    DrainExact(s.q, i);
    CutInv(s.log, |s.log|, Last(s));
  }

  lemma StepKeeps(s: State, e: Event)
    requires Inv(s) && Possible(s, e)
    ensures Inv(Step(s, e)) && s.floor <= Step(s, e).floor
  {
    match e
    case Applied(i, d) => AppliedKeeps(s, i, d);
    case Fetch(i) => if Drain(s.q, i).result.Some? { FetchHit(s, i); } else { FetchMiss(s, i); }
  }

  /** A call whose entry no drain has gone past finds its result if and only if fewer than 999
      results were stored after it. */
  lemma FetchFindsOwn(s: State, p: nat)
    requires Inv(s) && p < |s.log| && s.log[p].index > s.floor
    ensures ResultOf(s, Fetch(s.log[p].index)) == if |s.log| - p < CAPACITY then Some(s.log[p].data) else None
  {
    SuffixIncreasing(s.q, s.log);
    DrainExact(s.q, s.log[p].index);
    if |s.log| - p < CAPACITY { StillQueued(s, p); } else { PushedOut(s, p); }
  }

  lemma PushedOut(s: State, p: nat)
    requires Inv(s) && |s.log| - p >= CAPACITY
    ensures forall x :: x in s.q ==> x.index > s.log[p].index
  {}

  lemma StillQueued(s: State, p: nat)
    requires Inv(s) && p < |s.log| && |s.log| - p < CAPACITY && s.log[p].index > s.floor
    ensures s.log[p] in s.q
  {
    var n := |s.log| - |s.q|;
    assert p >= n;
    assert s.q[p - n] == s.log[p];
  }

  /** A run: the states before and after every event. */
  datatype Trace = Trace(states: seq<State>, events: seq<Event>)

  ghost predicate StepAt(t: Trace, k: nat)
    requires k < |t.events| && |t.states| == |t.events| + 1
  {
    Possible(t.states[k], t.events[k]) && t.states[k + 1] == Step(t.states[k], t.events[k])
  }

  ghost predicate Run(t: Trace) {
    |t.states| == |t.events| + 1 && Inv(t.states[0]) && forall k: nat :: k < |t.events| ==> StepAt(t, k)
  }

  lemma Advance(t: Trace, k: nat)
    requires Run(t) && k < |t.events| && Inv(t.states[k])
    ensures Inv(t.states[k + 1]) && t.states[k].floor <= t.states[k + 1].floor
  {
    assert StepAt(t, k);
    StepKeeps(t.states[k], t.events[k]);
  }

  lemma {:induction false} RunKeeps(t: Trace, k: nat)
    requires Run(t) && k < |t.states|
    ensures Inv(t.states[k])
  {
    if k > 0 {
      RunKeeps(t, k - 1);
      Advance(t, k - 1);
    }
  }

  lemma {:induction false} FloorGrows(t: Trace, i: nat, j: nat)
    requires Run(t) && i <= j < |t.states|
    ensures t.states[i].floor <= t.states[j].floor
  {
    if i < j {
      FloorGrows(t, i, j - 1);
      RunKeeps(t, j - 1);
      Advance(t, j - 1);
    }
  }

  lemma PassedIsGone(s: State, index: int)
    requires Inv(s) && index <= s.floor
    ensures ResultOf(s, Fetch(index)) == None
  {
    if Drain(s.q, index).result.Some? { FetchHit(s, index); }
  }

  /** No result is handed out twice in any run. */
  lemma ServedOnce(t: Trace, i: nat, j: nat)
    requires Run(t) && i < j < |t.events| && t.events[i].Fetch? && t.events[j] == t.events[i]
    requires ResultOf(t.states[i], t.events[i]).Some?
    ensures ResultOf(t.states[j], t.events[j]) == None
  {
    RunKeeps(t, j);
    FloorGrows(t, i + 1, j);
    assert StepAt(t, i);
    PassedIsGone(t.states[j], t.events[j].index);
  }

  /** A server that answers one call at a time: the call's entry is applied, possibly with others
      after it, and then its result is fetched. */
  ghost predicate OneAtATime(t: Trace)
    requires Run(t)
  {
    forall k: nat :: k < |t.events| ==> AwaitedAt(t, k)
  }

  /** A fetched entry was applied as one of the last 999, and every earlier fetch was for a smaller index. */
  ghost predicate AwaitedAt(t: Trace, k: nat)
    requires k < |t.events| < |t.states|
  {
    t.events[k].Fetch? ==>
      && Kept(t.states[k].log, t.events[k].index) && t.events[k].index > t.states[0].floor
      && forall m :: 0 <= m < k && t.events[m].Fetch? ==> t.events[m].index < t.events[k].index
  }

  ghost predicate Kept(log: seq<Item>, index: int) {
    exists p :: 0 <= p < |log| && log[p].index == index && |log| - p < CAPACITY
  }

  function DataOf(log: seq<Item>, index: int): Option<int> {
    if log == [] then None
    else if log[|log| - 1].index == index then Some(log[|log| - 1].data)
    else DataOf(log[..|log| - 1], index)
  }

  lemma {:induction false} DataAt(log: seq<Item>, p: nat)
    requires Increasing(log) && p < |log|
    ensures DataOf(log, log[p].index) == Some(log[p].data)
  {
    if p < |log| - 1 { DataAt(log[..|log| - 1], p); }
  }

  /** As long as every fetch finds its own result, drains go past nothing but fetched indices. */
  ghost predicate FloorFetched(t: Trace, k: nat)
    requires k <= |t.events| < |t.states|
  {
    var floor := t.states[k].floor;
    floor == t.states[0].floor || exists m :: 0 <= m < k && t.events[m].Fetch? && floor == t.events[m].index
  }

  lemma KeptServed(s: State, index: int)
    requires Inv(s) && Kept(s.log, index) && s.floor < index
    ensures ResultOf(s, Fetch(index)).Some? && ResultOf(s, Fetch(index)) == DataOf(s.log, index)
  {
    var p :| 0 <= p < |s.log| && s.log[p].index == index && |s.log| - p < CAPACITY;
    FetchFindsOwn(s, p);
    DataAt(s.log, p);
  }

  /** Every call of such a server gets the result that was stored for exactly its entry. */
  lemma {:induction false} AllServed(t: Trace, k: nat)
    requires Run(t) && OneAtATime(t) && k < |t.events|
    ensures t.events[k].Fetch? ==>
              var r := ResultOf(t.states[k], t.events[k]);
              r.Some? && r == DataOf(t.states[k].log, t.events[k].index)
    ensures FloorFetched(t, k + 1)
  {
    RunKeeps(t, k);
    if k > 0 { AllServed(t, k - 1); }
    if t.events[k].Fetch? {
      assert AwaitedAt(t, k);
      KeptServed(t.states[k], t.events[k].index);
    }
    FloorStep(t, k);
  }

  lemma FloorStep(t: Trace, k: nat)
    requires Run(t) && k < |t.events| && FloorFetched(t, k)
    requires t.events[k].Fetch? ==> ResultOf(t.states[k], t.events[k]).Some?
    ensures FloorFetched(t, k + 1)
  {
    assert StepAt(t, k);
  }

  // ---------- the code ----------

  /** The items between the read and the write position. */
  function View(b: seq<Item>, r: nat, w: nat): seq<Item>
    requires |b| == CAPACITY && r < CAPACITY && w < CAPACITY
  {
    if r <= w then b[r..w] else b[r..] + b[..w]
  }

  function Succ(p: nat): nat { if p + 1 == CAPACITY then 0 else p + 1 }

  function Place(r: nat, k: nat): nat { if r + k < CAPACITY then r + k else r + k - CAPACITY }

  lemma ViewAt(b: seq<Item>, r: nat, w: nat)
    requires |b| == CAPACITY && r < CAPACITY && w < CAPACITY
    ensures |View(b, r, w)| == if r <= w then w - r else w - r + CAPACITY
    ensures forall k: nat :: k < |View(b, r, w)| ==> View(b, r, w)[k] == b[Place(r, k)]
  {
    if r > w { ViewWraps(b, r, w); }
  }

  lemma ViewWraps(b: seq<Item>, r: nat, w: nat)
    requires |b| == CAPACITY && w < r < CAPACITY
    ensures forall k: nat :: k < CAPACITY - r + w ==>
              (b[r..] + b[..w])[k] == if k < CAPACITY - r then b[r + k] else b[r + k - CAPACITY]
  {}

  lemma ViewGrows(b: seq<Item>, r: nat, w: nat, x: Item)
    requires |b| == CAPACITY && r < CAPACITY && w < CAPACITY && Succ(w) != r
    ensures View(b[w := x], r, Succ(w)) == View(b, r, w) + [x] && |View(b, r, w)| < CAPACITY - 1
  {
    ViewAt(b, r, w);
    ViewAt(b[w := x], r, Succ(w));
  }

  lemma ViewSlides(b: seq<Item>, r: nat, w: nat, x: Item)
    requires |b| == CAPACITY && r < CAPACITY && w < CAPACITY && Succ(w) == r
    ensures View(b[w := x], Succ(r), r) == (View(b, r, w) + [x])[1..] && |View(b, r, w)| == CAPACITY - 1
  {
    ViewAt(b, r, w);
    ViewAt(b[w := x], Succ(r), r);
  }

  lemma ViewPut(b: seq<Item>, r: nat, w: nat, x: Item)
    requires |b| == CAPACITY && r < CAPACITY && w < CAPACITY
    ensures View(b[w := x], if Succ(w) == r then Succ(r) else r, Succ(w)) == Put(View(b, r, w), x)
  {
    if Succ(w) == r { ViewSlides(b, r, w, x); } else { ViewGrows(b, r, w, x); }
  }

  lemma ViewTake(b: seq<Item>, r: nat, w: nat)
    requires |b| == CAPACITY && r < CAPACITY && w < CAPACITY && r != w
    ensures View(b, r, w) != [] && View(b, r, w)[0] == b[r] && View(b, Succ(r), w) == View(b, r, w)[1..]
  {
    ViewAt(b, r, w);
    ViewAt(b, Succ(r), w);
  }

  class Ring {
    const buffer: array<Item>
    var writePos: nat
    var readPos: nat

    ghost predicate Valid()
      reads this
    {
      buffer.Length == CAPACITY && writePos < CAPACITY && readPos < CAPACITY
    }

    ghost function Contents(): seq<Item>
      requires Valid()
      reads this, buffer
    {
      View(buffer[..], readPos, writePos)
    }

    constructor ()
      ensures Valid() && fresh(buffer) && Contents() == []
    {
      buffer := new Item[CAPACITY](_ => Item(0, 0));
      writePos, readPos := 0, 0;
    }

    method PutResult(index: int, data: int)
      requires Valid()
      modifies this, buffer
      ensures Valid() && Contents() == Put(old(Contents()), Item(index, data))
    {
      ViewPut(buffer[..], readPos, writePos, Item(index, data));
      buffer[writePos] := Item(index, data);
      assert buffer[..] == old(buffer[..])[writePos := Item(index, data)];
      writePos := (writePos + 1) % CAPACITY;
      assert writePos == Succ(old(writePos));
      if writePos == readPos {
        readPos := (readPos + 1) % CAPACITY;
        assert readPos == Succ(old(readPos));
      }
    }

    method GetResult() returns (r: Option<Item>)
      requires Valid()
      modifies this
      ensures Valid()
      ensures old(Contents()) == [] ==> r == None && Contents() == []
      ensures old(Contents()) != [] ==> r == Some(old(Contents())[0]) && Contents() == old(Contents())[1..]
    {
      if readPos == writePos {
        return None;
      }
      r := Some(buffer[readPos]);
      ViewTake(buffer[..], readPos, writePos);
      readPos := (readPos + 1) % CAPACITY;
      assert readPos == Succ(old(readPos));
    }

    /** The loop at the end of raft_serialize_and_replicate_nfs_op. */
    method Poll(index: int) returns (r: Option<int>)
      requires Valid()
      modifies this
      ensures Valid() && Drained(r, Contents()) == Drain(old(Contents()), index)
    {
      while true
        invariant Valid() && Drain(Contents(), index) == Drain(old(Contents()), index)
        decreases |Contents()|
      {
        var item := GetResult();
        if item.None? {
          return None;
        }
        if item.value.index == index {
          return Some(item.value.data);
        }
      }
    }
  }
}
