/** The least-recently-used cache of paths in front of the handle search. */
module HandleCache {
  import opened Options
  import opened Handles
  import opened HandleSearch

  const CACHE_ENTRIES := 4096
  const UINT_MAX := 0xFFFF_FFFF

  /** A cleared entry has the empty string for a path, which lstat refuses. */
  datatype Entry = Entry(dev: nat, ino: nat, path: Option<Path>, use: nat) {
    predicate Is(d: nat, i: nat) { dev == d && ino == i }
    predicate Live() { dev != 0 || ino != 0 }
  }

  const Cleared := Entry(0, 0, None, 0)

  /** Table, high-water mark, clock, and the entry of the last hit (-1 for none). */
  datatype State = State(entries: seq<Entry>, max: nat, time: nat, last: int)

  /** The clock is an unsigned int and wraps. */
  function Tick(t: nat): nat { if t == UINT_MAX then 0 else t + 1 }

  // ---------- the operations on values ----------

  /** The scan for a victim from slot `i` on, with the best slot so far. */
  function Scan(es: seq<Entry>, last: int, i: nat, best: nat, bestIdx: nat): (r: nat)
    requires i <= |es| && bestIdx < |es|
    ensures r < |es|
    decreases |es| - i
  {
    if i == |es| then bestIdx
    else if i == last then Scan(es, last, i + 1, best, bestIdx)
    else if es[i].use == 0 then i
    else if es[i].use < best then Scan(es, last, i + 1, es[i].use, i)
    else Scan(es, last, i + 1, best, bestIdx)
  }

  /** fh_cache_lru: the slot to overwrite */
  function Victim(s: State): (r: nat)
    requires |s.entries| == CACHE_ENTRIES
    ensures r < CACHE_ENTRIES
  {
    if s.max < CACHE_ENTRIES - 1 then s.max
    else
      var idx := Scan(s.entries, s.last, 0, UINT_MAX, 0);
      if idx == 0 && s.last == 0 then 1 else idx
  }

  /** fh_cache_index, from slot `i` on */
  function Index(s: State, dev: nat, ino: nat, i: nat := 0): (r: int)
    requires i <= s.max + 1 <= |s.entries|
    ensures r == -1 || i <= r <= s.max
    ensures r != -1 ==> s.entries[r].Is(dev, ino)
    ensures r == -1 ==> forall j :: i <= j <= s.max ==> !s.entries[j].Is(dev, ino)
    decreases s.max + 1 - i
  {
    if i == s.max + 1 then -1 else if s.entries[i].Is(dev, ino) then i else Index(s, dev, ino, i + 1)
  }

  predicate Sized(s: State) { |s.entries| == CACHE_ENTRIES && s.max < CACHE_ENTRIES }

  /** The slot that fh_cache_add writes. */
  function Target(s: State, dev: nat, ino: nat): (r: nat)
    requires Sized(s)
    ensures r < CACHE_ENTRIES
  {
    var idx := Index(s, dev, ino);
    if idx == -1 then Victim(s) else idx
  }

  function Add(s: State, dev: nat, ino: nat, path: Path): (r: State)
    requires Sized(s)
    ensures Sized(r)
  {
    var i := Target(s, dev, ino);
    State(s.entries[i := Entry(dev, ino, Some(path), Tick(s.time))],
          if Index(s, dev, ino) == -1 && s.max < CACHE_ENTRIES - 1 then s.max + 1 else s.max,
          Tick(s.time), s.last)
  }

  datatype Found = Found(s: State, path: Option<Path>)

  /** fh_cache_lookup: a cached path counts only if it still leads to the object. */
  function Lookup(s: State, fs: Fs, dev: nat, ino: nat): (r: Found)
    requires Sized(s)
    ensures Sized(r.s)
  {
    var i := Index(s, dev, ino);
    if i == -1 then Found(s, None)
    else
      var e := s.entries[i];
      if e.path.Some? && SameObject(fs, e.path.value, dev, ino) then
        Found(s.(entries := s.entries[i := e.(use := Tick(s.time))], time := Tick(s.time), last := i), e.path)
      else Found(s.(entries := s.entries[i := Cleared]), None)
  }

  /** fh_cache_update: the directory's device with the object's inode number, right or wrong. */
  function Update(s: State, fs: Fs, dir: Fh, path: Path): (r: State)
    requires Sized(s)
    ensures Sized(r)
  {
    if path in fs.stat then Add(s, dir.dev, fs.stat[path].ino, path) else s
  }

  /** How the rest of the server is set up during one call. */
  datatype Setup = Setup(fs: Fs, mounts: seq<Path>, bruteForce: bool, exported: Option<Path>)

  /** The handle of a removable export point itself. */
  predicate Removable(su: Setup, fh: Fh) { su.exported.Some? && fh.ino == 1 }

  /** What the uncached resolvers find. */
  function Uncached(su: Setup, fh: Fh): Option<Path> {
    if Decomp(su.fs, fh).Some? then Decomp(su.fs, fh)
    else Locate(su.fs, su.mounts, su.bruteForce, fh.dev, fh.ino)
  }

  /** fh_decomp */
  function FhDecomp(s: State, su: Setup, fh: Fh): (r: Found)
    requires Sized(s)
    ensures Sized(r.s)
  {
    if Removable(su, fh) then Found(s, su.exported)
    else
      var hit := Lookup(s, su.fs, fh.dev, fh.ino);
      if hit.path.Some? then hit
      else
        var p := Uncached(su, fh);
        if p.Some? then Found(Add(hit.s, fh.dev, fh.ino, p.value), p) else Found(hit.s, None)
  }

  // ---------- the cache agrees with the search ----------

  /** Whatever is in the table and however the file system has changed: a handle is resolved whenever
      the search alone would resolve it, and a returned path is the handle's object, with the search's
      two exceptions: a handle without hashes may be answered with the root, and one with device and
      inode zero with an object that cannot be examined. */
  lemma CacheAgrees(s: State, su: Setup, fh: Fh)
    requires Sized(s) && !Removable(su, fh)
    ensures var r := FhDecomp(s, su, fh).path;
            && (Uncached(su, fh).Some? ==> r.Some?)
            && (r.Some? ==>
                  || SameObject(su.fs, r.value, fh.dev, fh.ino)
                  || (fh.inos == [] && r.value == [])
                  || (!fh.Valid() && r.value !in su.fs.stat))
  {
    if Decomp(su.fs, fh).Some? { DecompFinds(su.fs, fh); }
    else if Uncached(su, fh).Some? { LocateSound(su.fs, su.mounts, su.bruteForce, fh.dev, fh.ino); }
  }

  ghost predicate ResolvedSoundly(s: State, su: Setup, fh: Fh)
    requires Sized(s)
  {
    var r := FhDecomp(s, su, fh).path;
    r.Some? ==> SameObject(su.fs, r.value, fh.dev, fh.ino)
  }

  function AllCleared(n: nat): (es: seq<Entry>)
    ensures |es| == n && forall i :: 0 <= i < n ==> es[i] == Cleared
  {
    if n == 0 then [] else AllCleared(n - 1) + [Cleared]
  }

  /** The cache after initialisation. */
  function Fresh(): (s: State)
    ensures Sized(s)
  {
    State(AllCleared(CACHE_ENTRIES), 0, 0, -1)
  }

  /** A server without removable exports and without the brute-force search. */
  function Plainly(fs: Fs): Setup { Setup(fs, [], false, None) }

  lemma ZeroCachesUnexaminable(fh: Fh)
    requires fh.inos != [] && !fh.Valid()
    ensures FhDecomp(Fresh(), Plainly(Unexaminable), fh).path == Some(["x"])
  {
    ZeroFindsUnexaminable(fh);
  }

  lemma ForgedRootCached(fh: Fh)
    requires fh.inos == []
    ensures FhDecomp(Fresh(), Plainly(OtherRoot(fh)), fh).path == Some([])
  {}

  /** In one file system a handle without hashes is resolved soundly from every table exactly if it is
      the root's. */
  lemma NoHashesCachedIff(su: Setup, fh: Fh)
    requires fh.inos == [] && !Removable(su, fh)
    ensures SameObject(su.fs, [], fh.dev, fh.ino) <==> forall s :: Sized(s) ==> ResolvedSoundly(s, su, fh)
  {
    if SameObject(su.fs, [], fh.dev, fh.ino) {
      forall s | Sized(s) ensures ResolvedSoundly(s, su, fh) { CacheAgrees(s, su, fh); }
    } else {
      assert !ResolvedSoundly(Fresh(), su, fh);
    }
  }

  /** Resolving through the cache is sound from every table and in every file system exactly if the
      handle has hashes and is not all zero. */
  lemma CacheSoundIff(fh: Fh)
    ensures fh.Valid() && fh.inos != [] <==>
            forall s, su :: Sized(s) && !Removable(su, fh) ==> ResolvedSoundly(s, su, fh)
  {
    if fh.inos == [] {
      ForgedRootCached(fh);
      assert !ResolvedSoundly(Fresh(), Plainly(OtherRoot(fh)), fh);
    } else if fh.Valid() {
      forall s, su | Sized(s) && !Removable(su, fh) ensures ResolvedSoundly(s, su, fh) { CacheAgrees(s, su, fh); }
    } else {
      ZeroCachesUnexaminable(fh);
      assert !ResolvedSoundly(Fresh(), Plainly(Unexaminable), fh);
    }
  }

  // ---------- invariants ----------

  /** Keys of objects are unique and inside the range that is searched, the entry of the last hit is
      one that has been handed out, and times are unsigned ints. */
  ghost predicate Inv(s: State) {
    && Sized(s) && s.time <= UINT_MAX
    && (forall i :: 0 <= i < CACHE_ENTRIES ==> s.entries[i].use <= UINT_MAX)
    && (forall i :: s.max < i < CACHE_ENTRIES ==> s.entries[i] == Cleared)
    && (s.max < CACHE_ENTRIES - 1 ==> !s.entries[s.max].Live())
    && (forall i, j :: 0 <= i < j < CACHE_ENTRIES && s.entries[i].Live() ==>
          !s.entries[j].Is(s.entries[i].dev, s.entries[i].ino))
    && (s.last == -1 || (0 <= s.last <= s.max && (s.max < CACHE_ENTRIES - 1 ==> s.last < s.max)))
  }

  /** `v` is the first slot other than `last`, among the first `n`, whose use is the smallest. */
  ghost predicate Least(es: seq<Entry>, last: int, n: nat, v: nat) {
    && v < n <= |es| && v != last
    && (forall k :: 0 <= k < n && k != last ==> es[v].use <= es[k].use)
    && (forall k :: 0 <= k < v && k != last ==> es[v].use < es[k].use)
  }

  /** No slot before `i` has a use below UINT_MAX. */
  ghost predicate NoneYet(es: seq<Entry>, last: int, i: nat)
    requires i <= |es|
  {
    forall k :: 0 <= k < i && k != last ==> es[k].use == UINT_MAX
  }

  lemma {:induction false} ScanLeast(es: seq<Entry>, last: int, i: nat, best: nat, bestIdx: nat)
    requires i <= |es| && bestIdx < |es| && forall k :: 0 <= k < |es| ==> es[k].use <= UINT_MAX
    requires best > 0
    requires (best == UINT_MAX && bestIdx == 0 && NoneYet(es, last, i)) ||
             (Least(es, last, i, bestIdx) && es[bestIdx].use == best)
    ensures var r := Scan(es, last, i, best, bestIdx);
            Least(es, last, |es|, r) || (r == 0 && NoneYet(es, last, |es|))
    decreases |es| - i
  {
    if i < |es| {
      if i == last { ScanLeast(es, last, i + 1, best, bestIdx); }
      else if es[i].use != 0 && es[i].use < best { ScanLeast(es, last, i + 1, es[i].use, i); }
      else if es[i].use != 0 { ScanLeast(es, last, i + 1, best, bestIdx); }
    }
  }

  /** Once the table is full, the victim is the first entry of smallest use other than the last hit's,
      whatever the clock shows. */
  lemma VictimIsLeast(s: State)
    requires Inv(s) && s.max == CACHE_ENTRIES - 1
    ensures Least(s.entries, s.last, CACHE_ENTRIES, Victim(s))
  {
    ScanLeast(s.entries, s.last, 0, UINT_MAX, 0);
  }

  /** The victim is never the entry of the last hit, whatever the clock shows. */
  lemma VictimAvoidsLast(s: State)
    requires Inv(s)
    ensures Victim(s) != s.last
  {
    if s.max == CACHE_ENTRIES - 1 { VictimIsLeast(s); }
  }

  /** The limited search finds any live entry. */
  lemma IndexFinds(s: State, dev: nat, ino: nat)
    requires Inv(s) && (dev != 0 || ino != 0)
    ensures forall i :: 0 <= i < CACHE_ENTRIES && s.entries[i].Is(dev, ino) ==> Index(s, dev, ino) == i
  {}

  lemma AddKeeps(s: State, dev: nat, ino: nat, path: Path)
    requires Inv(s)
    ensures Inv(Add(s, dev, ino, path))
  {
    if dev != 0 || ino != 0 { IndexFinds(s, dev, ino); }
  }

  /** No object of the file system has device and inode zero. */
  ghost predicate NoZero(fs: Fs) { forall p :: !SameObject(fs, p, 0, 0) }

  lemma LookupKeeps(s: State, fs: Fs, dev: nat, ino: nat)
    requires Inv(s) && NoZero(fs)
    ensures Inv(Lookup(s, fs, dev, ino).s)
  {}

  /** If an object had device and inode zero, the entry of a hit on it could be the next victim. */
  lemma ZeroObjectOverwritten(s: State, fs: Fs, p: Path)
    requires s == State([Entry(0, 0, Some(p), 1)] + AllCleared(CACHE_ENTRIES - 1), 0, 1, -1)
    requires fs.stat == map[p := Stat(0, 0, 0, false)]
    ensures Inv(s) && Lookup(s, fs, 0, 0).path == Some(p)
    ensures Victim(Lookup(s, fs, 0, 0).s) == Lookup(s, fs, 0, 0).s.last
  {}

  /** The path behind a hit stays in place while another object is added. */
  lemma HitSurvives(s: State, fs: Fs, dev: nat, ino: nat, dev2: nat, ino2: nat, path2: Path)
    requires Inv(s) && NoZero(fs) && (dev2 != dev || ino2 != ino)
    requires Lookup(s, fs, dev, ino).path.Some?
    ensures var hit := Lookup(s, fs, dev, ino);
            && 0 <= hit.s.last < CACHE_ENTRIES
            && hit.s.entries[hit.s.last].path == hit.path
            && Add(hit.s, dev2, ino2, path2).entries[hit.s.last] == hit.s.entries[hit.s.last]
  {
    LookupKeeps(s, fs, dev, ino);
    VictimAvoidsLast(Lookup(s, fs, dev, ino).s);
  }

  /** The path of an entry that was just added, as after a miss, stays in place while another object is
      added, unless the table is full, the other object is new, and the entry is the first of smallest
      use. After the clock has wrapped it can be. */
  lemma MissSurvives(s: State, dev: nat, ino: nat, path: Path, dev2: nat, ino2: nat, path2: Path)
    requires Inv(s) && (dev != 0 || ino != 0) && (dev2 != dev || ino2 != ino)
    ensures var t := Add(s, dev, ino, path); var i := Target(s, dev, ino);
            && t.entries[i].path == Some(path)
            && (Add(t, dev2, ino2, path2).entries[i] == t.entries[i] <==>
                !(t.max == CACHE_ENTRIES - 1 && Index(t, dev2, ino2) == -1 &&
                  Least(t.entries, t.last, CACHE_ENTRIES, i)))
  {
    var t := Add(s, dev, ino, path);
    AddKeeps(s, dev, ino, path);
    IndexFinds(t, dev, ino);
    if t.max == CACHE_ENTRIES - 1 { VictimIsLeast(t); }
  }

  // ---------- eviction order while the clock has not wrapped ----------

  /** Entries in use carry distinct positive times up to the clock; the others are cleared. */
  ghost predicate Timed(s: State) {
    && (forall i :: 0 <= i < |s.entries| ==>
          s.entries[i].use <= s.time && (s.entries[i].use == 0 <==> s.entries[i] == Cleared))
    && (forall i, j :: 0 <= i < j < |s.entries| && s.entries[i].use != 0 ==> s.entries[i].use != s.entries[j].use)
  }

  /** While a slot other than the last hit's is cleared no live entry goes; after that the least
      recently used one does. */
  lemma EvictsLeastRecent(s: State)
    requires Inv(s) && Timed(s)
    ensures var v := Victim(s);
            if exists i :: 0 <= i < CACHE_ENTRIES && i != s.last && s.entries[i] == Cleared then !s.entries[v].Live()
            else forall i :: 0 <= i < CACHE_ENTRIES && i != s.last ==> s.entries[v].use <= s.entries[i].use
  {
    if s.max == CACHE_ENTRIES - 1 { VictimIsLeast(s); } else { assert s.entries[s.max + 1] == Cleared; }
  }

  lemma AddTimed(s: State, dev: nat, ino: nat, path: Path)
    requires Sized(s) && Timed(s) && s.time < UINT_MAX
    ensures Timed(Add(s, dev, ino, path)) && Add(s, dev, ino, path).time == s.time + 1
  {}

  lemma LookupTimed(s: State, fs: Fs, dev: nat, ino: nat)
    requires Sized(s) && Timed(s) && s.time < UINT_MAX
    ensures var r := Lookup(s, fs, dev, ino); Timed(r.s) && r.s.time == if r.path.Some? then s.time + 1 else s.time
  {}

  // ---------- runs ----------

  datatype Call =
    | Resolve(su: Setup, fh: Fh)
    | Remember(dev: nat, ino: nat, path: Path)
    | Renamed(fs: Fs, dir: Fh, path: Path)

  /** The file system may change in any way between calls, but has no object with device and inode zero. */
  ghost predicate Proper(c: Call) { c.Resolve? ==> NoZero(c.su.fs) }

  function Apply(s: State, c: Call): (r: State)
    requires Sized(s)
    ensures Sized(r)
  {
    match c
    case Resolve(su, fh) => FhDecomp(s, su, fh).s
    case Remember(dev, ino, path) => Add(s, dev, ino, path)
    case Renamed(fs, dir, path) => Update(s, fs, dir, path)
  }

  function ApplyAll(s: State, calls: seq<Call>): (r: State)
    requires Sized(s)
    ensures Sized(r)
    decreases |calls|
  {
    if calls == [] then s else ApplyAll(Apply(s, calls[0]), calls[1..])
  }

  lemma CallKeeps(s: State, c: Call)
    requires Inv(s) && Proper(c)
    ensures Inv(Apply(s, c))
  {
    match c
    case Resolve(su, fh) =>
      LookupKeeps(s, su.fs, fh.dev, fh.ino);
      var hit := Lookup(s, su.fs, fh.dev, fh.ino);
      if Uncached(su, fh).Some? { AddKeeps(hit.s, fh.dev, fh.ino, Uncached(su, fh).value); }
    case Remember(dev, ino, path) => AddKeeps(s, dev, ino, path);
    case Renamed(fs, dir, path) => if path in fs.stat { AddKeeps(s, dir.dev, fs.stat[path].ino, path); }
  }

  lemma CallTimed(s: State, c: Call)
    requires Sized(s) && Timed(s) && s.time < UINT_MAX && Proper(c)
    ensures Timed(Apply(s, c)) && Apply(s, c).time <= s.time + 1
  {
    match c
    case Resolve(su, fh) =>
      LookupTimed(s, su.fs, fh.dev, fh.ino);
      var hit := Lookup(s, su.fs, fh.dev, fh.ino);
      if hit.path.None? && Uncached(su, fh).Some? { AddTimed(hit.s, fh.dev, fh.ino, Uncached(su, fh).value); }
    case Remember(dev, ino, path) => AddTimed(s, dev, ino, path);
    case Renamed(fs, dir, path) => if path in fs.stat { AddTimed(s, dir.dev, fs.stat[path].ino, path); }
  }

  /** The invariants hold in every reachable state, and the eviction order is right as long as the
      clock cannot have wrapped. */
  lemma {:induction false} RunKeeps(s: State, calls: seq<Call>)
    requires Inv(s) && forall c :: c in calls ==> Proper(c)
    ensures Inv(ApplyAll(s, calls))
    ensures Timed(s) && s.time + |calls| <= UINT_MAX ==> Timed(ApplyAll(s, calls))
    decreases |calls|
  {
    if calls != [] {
      CallKeeps(s, calls[0]);
      if Timed(s) && s.time < UINT_MAX { CallTimed(s, calls[0]); }
      RunKeeps(Apply(s, calls[0]), calls[1..]);
    }
  }

  // ---------- the code ----------

  class Cache {
    const entries: array<Entry>
    const resolver: Resolver
    var max: nat
    var time: nat
    var last: int
    var uses: nat
    var hits: nat

    ghost predicate Valid()
      reads this, entries
    {
      entries.Length == CACHE_ENTRIES && max < CACHE_ENTRIES
    }

    ghost function View(): (s: State)
      reads this, entries
    {
      State(entries[..], max, time, last)
    }

    /** fh_cache_init */
    constructor (r: Resolver)
      ensures Valid() && fresh(entries) && resolver == r
      ensures Inv(View()) && Timed(View()) && time == 0 && uses == 0 && hits == 0
    {
      entries := new Entry[CACHE_ENTRIES](_ => Cleared);
      resolver := r;
      max, time, last, uses, hits := 0, 0, -1, 0, 0;
    }

    /** fh_cache_next */
    method NextTime() returns (t: nat)
      modifies this
      ensures t == time == Tick(old(time))
      ensures max == old(max) && last == old(last) && uses == old(uses) && hits == old(hits)
    {
      time := Tick(time);
      t := time;
    }

    method Lru() returns (idx: nat)
      requires Valid()
      modifies this
      ensures Valid() && idx == Victim(old(View()))
      ensures View() == old(View()).(max := if old(max) < CACHE_ENTRIES - 1 then old(max) + 1 else old(max))
      ensures uses == old(uses) && hits == old(hits)
    {
      if max < CACHE_ENTRIES - 1 {
        max := max + 1;
        return max - 1;
      }
      var best: nat, bestIdx: nat := UINT_MAX, 0;
      ghost var s := View();
      for i := 0 to CACHE_ENTRIES
        invariant bestIdx < CACHE_ENTRIES && View() == s
        invariant Scan(s.entries, s.last, i, best, bestIdx) == Scan(s.entries, s.last, 0, UINT_MAX, 0)
      {
        if i != last {
          if entries[i].use == 0 {
            return i;
          }
          if entries[i].use < best {
            best, bestIdx := entries[i].use, i;
          }
        }
      }
      if bestIdx == 0 && last == 0 {
        bestIdx := 1;
      }
      idx := bestIdx;
    }

    method IndexOf(dev: nat, ino: nat) returns (idx: int)
      requires Valid()
      ensures idx == Index(View(), dev, ino)
    {
      for i := 0 to max + 1
        invariant Index(View(), dev, ino, i) == Index(View(), dev, ino)
      {
        if entries[i].dev == dev && entries[i].ino == ino {
          return i;
        }
      }
      idx := -1;
    }

    /** fh_cache_add; the caller gets the slot whose path it may keep using. */
    method Insert(dev: nat, ino: nat, path: Path) returns (idx: nat)
      requires Valid()
      modifies this, entries
      ensures Valid() && View() == Add(old(View()), dev, ino, path)
      ensures idx < CACHE_ENTRIES && entries[idx].path == Some(path)
      ensures uses == old(uses) && hits == old(hits)
    {
      var found := IndexOf(dev, ino);
      if found == -1 {
        idx := Lru();
      } else {
        idx := found;
      }
      var t := NextTime();
      entries[idx] := Entry(dev, ino, Some(path), t);
      assert entries[..] == old(entries[..])[idx := Entry(dev, ino, Some(path), t)];
    }

    method Invalidate(idx: nat)
      requires Valid() && idx < CACHE_ENTRIES
      modifies entries
      ensures entries[..] == old(entries[..])[idx := Cleared]
    {
      entries[idx] := Cleared;
    }

    method Find(fs: Fs, dev: nat, ino: nat) returns (path: Option<Path>)
      requires Valid()
      modifies this, entries, resolver
      ensures Valid() && Found(View(), path) == Lookup(old(View()), fs, dev, ino)
      ensures uses == old(uses) && hits == old(hits)
      ensures path.Some? ==> resolver.stCacheValid && resolver.stCache == fs.stat[path.value]
      ensures path.None? ==>
                resolver.stCache == old(resolver.stCache) && resolver.stCacheValid == old(resolver.stCacheValid)
    {
      var i := IndexOf(dev, ino);
      if i == -1 {
        return None;
      }
      var e := entries[i];
      if e.path.None? || e.path.value !in fs.stat {
        Invalidate(i);
        return None;
      }
      var buf := fs.stat[e.path.value];
      if buf.dev == dev && buf.ino == ino {
        var t := NextTime();
        entries[i] := e.(use := t);
        resolver.stCacheValid, resolver.stCache := true, buf;
        last := i;
        path := e.path;
      } else {
        Invalidate(i);
        path := None;
      }
    }

    method AfterRename(fs: Fs, dir: Fh, path: Path)
      requires Valid()
      modifies this, entries
      ensures Valid() && View() == Update(old(View()), fs, dir, path)
    {
      if path in fs.stat {
        var _ := Insert(dir.dev, fs.stat[path].ino, path);
      }
    }

    /** fh_decomp, for bytes that decode to `fh` */
    method ResolveHandle(su: Setup, fh: Fh) returns (path: Option<Path>)
      requires Valid()
      modifies this, entries, resolver
      ensures Valid() && Found(View(), path) == FhDecomp(old(View()), su, fh)
      ensures uses == old(uses) + if Removable(su, fh) then 0 else 1
      ensures hits == old(hits) + if !Removable(su, fh) && Lookup(old(View()), su.fs, fh.dev, fh.ino).path.Some? then 1
                                  else 0
      ensures Removable(su, fh) ==>
                resolver.stCacheValid && resolver.stCache == StatOf(su.fs, su.exported.value).(dev := fh.dev, ino := 1)
      ensures !Removable(su, fh) && path.None? ==> !resolver.stCacheValid
      ensures !Removable(su, fh) && fh.inos != [] && path.Some? ==>
                resolver.stCacheValid && resolver.stCache == StatOf(su.fs, path.value)
    {
      if su.exported.Some? {
        if fh.ino == 1 {
          resolver.stCacheValid := true;
          resolver.stCache := StatOf(su.fs, su.exported.value).(dev := fh.dev, ino := 1);
          return su.exported;
        }
      }
      path := Find(su.fs, fh.dev, fh.ino);
      uses := uses + 1;
      if path.None? {
        path := resolver.DecompRaw(su.fs, fh);
        if path.None? {
          path := resolver.LocateFile(su.fs, su.mounts, su.bruteForce, fh.dev, fh.ino);
        }
        if path.Some? {
          var _ := Insert(fh.dev, fh.ino, path.value);
        } else {
          resolver.stCacheValid := false;
        }
      } else {
        hits := hits + 1;
      }
    }
  }
}
