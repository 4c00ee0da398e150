/** Which path the cache gives up: recency told by the history of calls alone. */
module Recency {
  import opened Options
  import opened Handles
  import opened HandleSearch
  import opened HandleCache
  import opened Reach

  type Object = (nat, nat)

  function Of(e: Entry): Object { (e.dev, e.ino) }

  /** The object a call is about, by device and inode number; none for the handle of removable media and
      for a path that cannot be examined. */
  function About(c: Call): Option<Object> {
    match c
    case Resolve(su, fh) => if Removable(su, fh) then None else Some((fh.dev, fh.ino))
    case Remember(dev, ino, _) => Some((dev, ino))
    case Renamed(fs, dir, path) => if path in fs.stat then Some((dir.dev, fs.stat[path].ino)) else None
  }

  /** The path that the call answers with or is told, if any. */
  function Gives(s: State, c: Call): Option<Path>
    requires Sized(s)
  {
    match c
    case Resolve(su, fh) => FhDecomp(s, su, fh).path
    case Remember(_, _, path) => Some(path)
    case Renamed(_, _, path) => Some(path)
  }

  /** The object whose path the call adds or hits. */
  function Touched(s: State, c: Call): Option<Object>
    requires Sized(s)
  {
    if Gives(s, c).Some? then About(c) else None
  }

  /** The number of the last call of the history that touched the object; zero if none did. */
  function LastTouch(calls: seq<Call>, x: Object): (r: nat)
    ensures r <= |calls|
    decreases |calls|
  {
    var n := |calls|;
    if n == 0 then 0
    else if Touched(ApplyAll(Fresh(), calls[..n - 1]), calls[n - 1]) == Some(x) then n
    else LastTouch(calls[..n - 1], x)
  }

  // ---------- one call ----------

  /** Behind a call every live entry is the one it was, except that of the touched object, which has the
      path given, the time of the call, and a place in the table. */
  ghost predicate TouchesOnly(s: State, t: State, x: Option<Object>, path: Option<Path>) {
    && |t.entries| == |s.entries|
    && (forall i :: 0 <= i < |t.entries| && t.entries[i].Live() && x != Some(Of(t.entries[i])) ==>
          t.entries[i] == s.entries[i])
    && (x.None? ==> t.time == s.time)
    && (x.Some? ==> t.time == s.time + 1 && (exists i :: 0 <= i < |t.entries| && Of(t.entries[i]) == x.value))
    && (forall i :: 0 <= i < |t.entries| && t.entries[i].Live() && x == Some(Of(t.entries[i])) ==>
          t.entries[i].use == t.time && t.entries[i].path == path)
  }

  lemma AddTouches(s: State, dev: nat, ino: nat, path: Path)
    requires Inv(s) && s.time < UINT_MAX
    ensures TouchesOnly(s, Add(s, dev, ino, path), Some((dev, ino)), Some(path))
  {
    var t := Add(s, dev, ino, path);
    var i := Target(s, dev, ino);
    assert Of(t.entries[i]) == (dev, ino);
    if dev != 0 || ino != 0 { IndexFinds(s, dev, ino); }
  }

  lemma LookupTouches(s: State, fs: Fs, dev: nat, ino: nat)
    requires Inv(s) && s.time < UINT_MAX
    ensures var r := Lookup(s, fs, dev, ino);
            TouchesOnly(s, r.s, if r.path.Some? then Some((dev, ino)) else None, r.path)
  {
    var r := Lookup(s, fs, dev, ino);
    if r.path.Some? {
      assert Of(r.s.entries[Index(s, dev, ino)]) == (dev, ino);
      if dev != 0 || ino != 0 { IndexFinds(s, dev, ino); }
    }
  }

  lemma CallTouches(s: State, c: Call)
    requires Inv(s) && s.time < UINT_MAX && Proper(c)
    ensures TouchesOnly(s, Apply(s, c), Touched(s, c), Gives(s, c))
  {
    match c
    case Resolve(su, fh) =>
      if !Removable(su, fh) {
        LookupTouches(s, su.fs, fh.dev, fh.ino);
        LookupKeeps(s, su.fs, fh.dev, fh.ino);
        var hit := Lookup(s, su.fs, fh.dev, fh.ino);
        if hit.path.None? && Uncached(su, fh).Some? { AddTouches(hit.s, fh.dev, fh.ino, Uncached(su, fh).value); }
      }
    case Remember(dev, ino, path) => AddTouches(s, dev, ino, path);
    case Renamed(fs, dir, path) => if path in fs.stat { AddTouches(s, dir.dev, fs.stat[path].ino, path); }
  }

  // ---------- runs ----------

  predicate Before(a: Entry, b: Entry) { a.Live() && b.Live() && a.use < b.use }

  /** Entries are used in the order of the times that `when` tells. */
  ghost predicate Sorted(es: seq<Entry>, when: Object -> nat) {
    && (forall i :: 0 <= i < |es| && es[i].Live() ==> when(Of(es[i])) > 0)
    && (forall i, j :: 0 <= i < |es| && 0 <= j < |es| && Before(es[i], es[j]) ==> when(Of(es[i])) < when(Of(es[j])))
  }

  /** From `when` to `later` only the touched object moves, to behind where all were. */
  ghost predicate Moved(x: Option<Object>, when: Object -> nat, later: Object -> nat, o: Object) {
    if x == Some(o) then later(o) > 0 && forall p :: when(p) < later(o) else later(o) == when(o)
  }

  /** A touch puts its object behind all others. */
  lemma TouchSorts(s: State, t: State, x: Option<Object>, path: Option<Path>, when: Object -> nat, later: Object -> nat)
    requires TouchesOnly(s, t, x, path) && Sorted(s.entries, when)
    requires forall i :: 0 <= i < |s.entries| ==> s.entries[i].use <= s.time
    requires forall o :: Moved(x, when, later, o)
    ensures Sorted(t.entries, later)
  {
    assert forall i :: 0 <= i < |t.entries| ==> Moved(x, when, later, Of(t.entries[i]));
    forall i, j | 0 <= i < |t.entries| && 0 <= j < |t.entries| && Before(t.entries[i], t.entries[j])
      ensures later(Of(t.entries[i])) < later(Of(t.entries[j]))
    {
      if x != Some(Of(t.entries[i])) && x != Some(Of(t.entries[j])) { assert Before(s.entries[i], s.entries[j]); }
    }
  }

  lemma {:induction false} ApplyLast(s: State, calls: seq<Call>, c: Call)
    requires Sized(s)
    ensures ApplyAll(s, calls + [c]) == Apply(ApplyAll(s, calls), c)
    decreases |calls|
  {
    if calls == [] {
      assert [c][1..] == [];
    } else {
      assert (calls + [c])[1..] == calls[1..] + [c];
      ApplyLast(Apply(s, calls[0]), calls[1..], c);
    }
  }

  lemma LastTouchStep(calls: seq<Call>, c: Call, x: Object)
    ensures var s := ApplyAll(Fresh(), calls);
            LastTouch(calls + [c], x) == if Touched(s, c) == Some(x) then |calls| + 1 else LastTouch(calls, x)
  {
    assert (calls + [c])[..|calls|] == calls;
  }

  ghost predicate Ordered(s: State, calls: seq<Call>) { Sorted(s.entries, x => LastTouch(calls, x)) }

  lemma StepOrdered(s: State, calls: seq<Call>, c: Call)
    requires s == ApplyAll(Fresh(), calls) && Inv(s) && Timed(s) && Ordered(s, calls) && s.time < UINT_MAX && Proper(c)
    ensures Ordered(Apply(s, c), calls + [c])
  {
    CallTouches(s, c);
    var when, later := x => LastTouch(calls, x), x => LastTouch(calls + [c], x);
    forall x ensures Moved(Touched(s, c), when, later, x) { LastTouchStep(calls, c, x); }
    TouchSorts(s, Apply(s, c), Touched(s, c), Gives(s, c), when, later);
  }

  /** In every history from the initial table in which the clock cannot have wrapped, entries are used in
      the order of their last touches. */
  lemma {:induction false} RunOrdered(calls: seq<Call>)
    requires |calls| <= UINT_MAX && forall c :: c in calls ==> Proper(c)
    ensures var s := ApplyAll(Fresh(), calls); Inv(s) && Timed(s) && s.time <= |calls| && Ordered(s, calls)
    decreases |calls|
  {
    var n := |calls|;
    if n > 0 {
      var front, c := calls[..n - 1], calls[n - 1];
      assert calls == front + [c];
      RunOrdered(front);
      var s := ApplyAll(Fresh(), front);
      ApplyLast(Fresh(), front, c);
      StepOrdered(s, front, c);
      CallKeeps(s, c);
      CallTimed(s, c);
    }
  }

  /** As long as a slot other than the last hit's is free, nothing is given up. After that it is the path
      whose last touch is the oldest, except for the last hit's. */
  lemma EvictsOldestTouch(calls: seq<Call>)
    requires |calls| <= UINT_MAX && forall c :: c in calls ==> Proper(c)
    ensures var s := ApplyAll(Fresh(), calls); var v := Victim(s);
            if exists i :: 0 <= i < CACHE_ENTRIES && i != s.last && !s.entries[i].Live() && s.entries[i].use == 0
            then !s.entries[v].Live()
            else s.entries[v].Live() ==>
                   v != s.last && forall i :: 0 <= i < CACHE_ENTRIES && i != s.last && i != v && s.entries[i].Live() ==>
                     LastTouch(calls, Of(s.entries[v])) < LastTouch(calls, Of(s.entries[i]))
  {
    RunOrdered(calls);
    var s := ApplyAll(Fresh(), calls);
    var v := Victim(s);
    EvictsLeastRecent(s);
    VictimAvoidsLast(s);
    forall i | 0 <= i < CACHE_ENTRIES && Before(s.entries[v], s.entries[i])
      ensures LastTouch(calls, Of(s.entries[v])) < LastTouch(calls, Of(s.entries[i]))
    {}
  }

  // ---------- the last hit ----------

  /** The call finds its object in the table with a path that still leads to it. */
  predicate Hits(s: State, c: Call) {
    && c.Resolve? && !Removable(c.su, c.fh)
    && exists i :: 0 <= i < |s.entries| && Serves(s.entries[i], c.su.fs, c.fh.dev, c.fh.ino)
  }

  predicate Serves(e: Entry, fs: Fs, dev: nat, ino: nat) {
    e.Is(dev, ino) && e.path.Some? && SameObject(fs, e.path.value, dev, ino)
  }

  /** A call that does not hit is answered by the search along the hashes, and if that finds nothing by the
      brute-force search; it fails exactly if neither finds anything. */
  lemma MissAnswers(s: State, su: Setup, fh: Fh)
    requires Inv(s) && NoZero(su.fs) && !Removable(su, fh) && fh.inos != [] && !Hits(s, Resolve(su, fh))
    ensures var r := FhDecomp(s, su, fh).path;
            if exists q :: LeadsTo(su.fs, fh, q) then r.Some? && LeadsTo(su.fs, fh, r.value)
            else if su.bruteForce && exists i: nat, q :: LiesOn(su.fs, su.mounts, fh.dev, fh.ino, i, q)
            then exists i: nat, q :: LiesOn(su.fs, su.mounts, fh.dev, fh.ino, i, q) && r == Some(su.mounts[i] + q)
            else r == None
  {
    ResolveHits(s, su, fh);
    DecompExact(su.fs, fh);
    LocateExact(su.fs, su.mounts, su.bruteForce, fh.dev, fh.ino);
  }

  lemma AddSpares(s: State, dev: nat, ino: nat)
    requires Inv(s)
    ensures Target(s, dev, ino) != s.last || Of(s.entries[s.last]) == (dev, ino)
  {
    VictimAvoidsLast(s);
  }

  /** The entry that was spared holds what it held, or nothing. */
  predicate Spared(s: State, t: State)
    requires Sized(s) && Sized(t)
  {
    && t.last == s.last
    && (0 <= s.last < CACHE_ENTRIES ==> !t.entries[s.last].Live() || Of(t.entries[s.last]) == Of(s.entries[s.last]))
  }

  lemma ResolveHits(s: State, su: Setup, fh: Fh)
    requires Inv(s) && NoZero(su.fs) && !Removable(su, fh)
    ensures var r := Lookup(s, su.fs, fh.dev, fh.ino);
            if Hits(s, Resolve(su, fh))
            then r.path.Some? && 0 <= r.s.last < CACHE_ENTRIES && Of(r.s.entries[r.s.last]) == (fh.dev, fh.ino)
            else r.path.None? && Spared(s, r.s)
  {
    if Hits(s, Resolve(su, fh)) {
      var i :| 0 <= i < |s.entries| && Serves(s.entries[i], su.fs, fh.dev, fh.ino);
      IndexFinds(s, fh.dev, fh.ino);
    } else {
      var i := Index(s, fh.dev, fh.ino);
      assert i != -1 ==> !Serves(s.entries[i], su.fs, fh.dev, fh.ino);
    }
  }

  /** A hit makes its slot the one that is spared; no other call changes which slot that is. */
  lemma CallHits(s: State, c: Call)
    requires Inv(s) && Proper(c)
    ensures var t := Apply(s, c);
            if Hits(s, c) then 0 <= t.last < CACHE_ENTRIES && Some(Of(t.entries[t.last])) == About(c)
            else Spared(s, t)
  {
    if c.Resolve? && !Removable(c.su, c.fh) {
      ResolveHits(s, c.su, c.fh);
      LookupKeeps(s, c.su.fs, c.fh.dev, c.fh.ino);
      AddSpares(Lookup(s, c.su.fs, c.fh.dev, c.fh.ino).s, c.fh.dev, c.fh.ino);
    } else if About(c).Some? {
      AddSpares(s, About(c).value.0, About(c).value.1);
    }
  }

  /** The object of the last call of the history that hit. */
  function LastHit(calls: seq<Call>): Option<Object>
    decreases |calls|
  {
    var n := |calls|;
    if n == 0 then None
    else if Hits(ApplyAll(Fresh(), calls[..n - 1]), calls[n - 1]) then About(calls[n - 1])
    else LastHit(calls[..n - 1])
  }

  /** The slot that is spared holds the object of the last hit or nothing; none is spared before the first. */
  lemma {:induction false} RunSpares(calls: seq<Call>)
    requires forall c :: c in calls ==> Proper(c)
    ensures var s := ApplyAll(Fresh(), calls);
            && Inv(s) && (s.last == -1 <==> LastHit(calls) == None)
            && (s.last != -1 ==> !s.entries[s.last].Live() || Some(Of(s.entries[s.last])) == LastHit(calls))
    decreases |calls|
  {
    var n := |calls|;
    if n > 0 {
      var front, c := calls[..n - 1], calls[n - 1];
      assert calls == front + [c];
      RunSpares(front);
      ApplyLast(Fresh(), front, c);
      CallHits(ApplyAll(Fresh(), front), c);
      CallKeeps(ApplyAll(Fresh(), front), c);
    }
  }

  /** The call's object has a slot that serves it: for a look-up one that hits, otherwise any. */
  predicate HasSlot(s: State, c: Call)
    requires Sized(s)
  {
    if c.Resolve? then Hits(s, c)
    else About(c).Some? && exists i :: 0 <= i <= s.max && Of(s.entries[i]) == About(c).value
  }

  lemma SlotIndex(s: State, dev: nat, ino: nat)
    requires Sized(s)
    ensures Index(s, dev, ino) != -1 <==> exists i :: 0 <= i <= s.max && Of(s.entries[i]) == (dev, ino)
  {
    var i := Index(s, dev, ino);
    if i != -1 { assert Of(s.entries[i]) == (dev, ino); }
    else { assert forall j :: 0 <= j <= s.max ==> !s.entries[j].Is(dev, ino); }
  }

  /** Slots are handed out one at a time, and only to objects that have none. */
  lemma SlotsGrow(s: State, c: Call)
    requires Inv(s) && Proper(c) && About(c) != Some((0, 0))
    ensures Apply(s, c).max ==
            s.max + if Touched(s, c).Some? && !HasSlot(s, c) && s.max < CACHE_ENTRIES - 1 then 1 else 0
  {
    match c
    case Resolve(su, fh) =>
      if !Removable(su, fh) {
        ResolveHits(s, su, fh);
        var hit := Lookup(s, su.fs, fh.dev, fh.ino);
        if hit.path.None? {
          IndexFinds(s, fh.dev, fh.ino);
          assert Index(hit.s, fh.dev, fh.ino) == -1;
        }
      }
    case Remember(dev, ino, _) => SlotIndex(s, dev, ino);
    case Renamed(fs, dir, path) => if path in fs.stat { SlotIndex(s, dir.dev, fs.stat[path].ino); }
  }

  /** When the clock wraps, the newest entry of a full table gets the smallest time and is the next to go. */
  lemma WrapLosesNewest(s: State, dev: nat, ino: nat, path: Path, dev2: nat, ino2: nat, path2: Path)
    requires Inv(s) && s.max == CACHE_ENTRIES - 1 && s.time == UINT_MAX
    requires forall i :: 0 <= i < CACHE_ENTRIES ==> s.entries[i].Live() && s.entries[i].use > 0
    requires (dev != 0 || ino != 0) && Index(s, dev, ino) == -1
    requires (dev2, ino2) != (dev, ino) && Index(Add(s, dev, ino, path), dev2, ino2) == -1
    ensures var t := Add(Add(s, dev, ino, path), dev2, ino2, path2);
            forall i :: 0 <= i < CACHE_ENTRIES ==> !t.entries[i].Is(dev, ino)
  {
    var u := Add(s, dev, ino, path);
    AddKeeps(s, dev, ino, path);
    VictimAvoidsLast(s);
    IndexFinds(u, dev, ino);
    VictimIsLeast(u);
  }

  // ---------- what is lost ----------

  /** A call takes the path of another object out of the table only to make room for its own, and only the
      one that is the first of smallest use. */
  lemma OthersStay(s: State, c: Call, i: nat)
    requires Inv(s) && Proper(c) && i < CACHE_ENTRIES && s.entries[i].Live() && About(c) != Some(Of(s.entries[i]))
    ensures Apply(s, c).entries[i] == s.entries[i] ||
            (Touched(s, c).Some? && s.max == CACHE_ENTRIES - 1 && Least(s.entries, s.last, CACHE_ENTRIES, i))
  {
    match c
    case Resolve(su, fh) =>
      if !Removable(su, fh) {
        LookupKeeps(s, su.fs, fh.dev, fh.ino);
        var hit := Lookup(s, su.fs, fh.dev, fh.ino);
        if hit.path.None? && Uncached(su, fh).Some? {
          AddStays(hit.s, fh.dev, fh.ino, Uncached(su, fh).value, i);
          if Least(hit.s.entries, s.last, CACHE_ENTRIES, i) { LeastBefore(s, Index(s, fh.dev, fh.ino), i); }
        }
      }
    case Remember(dev, ino, path) => AddStays(s, dev, ino, path, i);
    case Renamed(fs, dir, path) => if path in fs.stat { AddStays(s, dir.dev, fs.stat[path].ino, path, i); }
  }

  /** Clearing an entry makes no other one the first of smallest use. */
  lemma LeastBefore(s: State, idx: int, i: nat)
    requires Sized(s) && -1 <= idx < CACHE_ENTRIES && i != idx
    requires Least(if idx == -1 then s.entries else s.entries[idx := Cleared], s.last, CACHE_ENTRIES, i)
    ensures Least(s.entries, s.last, CACHE_ENTRIES, i)
  {}

  lemma AddStays(s: State, dev: nat, ino: nat, path: Path, i: nat)
    requires Inv(s) && i < CACHE_ENTRIES && s.entries[i].Live() && Of(s.entries[i]) != (dev, ino)
    ensures Add(s, dev, ino, path).entries[i] == s.entries[i] ||
            (s.max == CACHE_ENTRIES - 1 && Least(s.entries, s.last, CACHE_ENTRIES, i))
  {
    if s.max == CACHE_ENTRIES - 1 { VictimIsLeast(s); }
  }

  // ---------- removable media ----------

  /** The preset handle of a removable export point leads back to it, whatever is in the table and whether
      or not the medium is there, if no other export has its id. */
  lemma {:induction false} PresetPath(exports: seq<Export>, path: Path)
    requires FsidOf(exports, path).Some?
    requires forall i, j :: 0 <= i < j < |exports| ==> exports[i].fsid != exports[j].fsid
    ensures PathOf(exports, FsidOf(exports, path).value) == Some(path)
  {
    if exports[0].path != path {
      PresetPath(exports[1..], path);
      var k := FsidAt(exports[1..], path);
    }
  }

  lemma {:induction false} FsidAt(exports: seq<Export>, path: Path) returns (k: nat)
    requires FsidOf(exports, path).Some?
    ensures k < |exports| && exports[k].fsid == FsidOf(exports, path).value && exports[k].path == path
  {
    if exports[0].path == path { k := 0; } else { k := FsidAt(exports[1..], path); k := k + 1; }
  }

  lemma PresetResolves(s: State, su: Setup, exports: seq<Export>, path: Path, pw: nat)
    requires Sized(s) && FsidOf(exports, path).Some?
    requires su.exported == PathOf(exports, FsidOf(exports, path).value)
    requires forall i, j :: 0 <= i < j < |exports| ==> exports[i].fsid != exports[j].fsid
    ensures FhDecomp(s, su, Preset(FsidOf(exports, path).value, pw)) == Found(s, Some(path))
  {
    PresetPath(exports, path);
  }
}
