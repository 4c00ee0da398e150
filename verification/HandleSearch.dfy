/**
  Finding the path of a handle: the search that the hashes in the handle prune, and the brute-force
  search behind it. Both are depth-first walks that differ in where they descend.
 */
module HandleSearch {
  import opened Options
  import opened Bytes
  import opened Handles

  /** What is searched for, and which entries are worth descending into. */
  datatype Goal =
    | Hashed(dev: nat, ino: nat, inos: seq<byte>)
    | Brute(dev: nat, ino: nat)

  predicate Dots(name: string) { name == "." || name == ".." }

  /** lstat as fh_rec uses it: an object that cannot be examined gets device and inode 0. */
  function StatOf(fs: Fs, p: Path): Stat {
    if p in fs.stat then fs.stat[p] else Stat(0, 0, 0, false)
  }

  /** The buffer for the child's path is large enough. `lead` is the length of the directory's string. */
  predicate Fits(g: Goal, lead: nat, name: string) {
    lead + |name| + (if g.Hashed? then 1 else 2) < NFS_MAXPATHLEN
  }

  predicate Hit(fs: Fs, g: Goal, p: Path) {
    (g.Hashed? || p in fs.stat) && StatOf(fs, p).dev == g.dev && StatOf(fs, p).ino == g.ino
  }

  /** `p` is worth opening as a directory at depth `pos`. */
  predicate Descend(fs: Fs, g: Goal, pos: nat, p: Path, name: string) {
    !Dots(name) &&
    match g
    case Hashed(_, _, inos) => pos < |inos| && FhHash(StatOf(fs, p).ino) == inos[pos]
    case Brute(dev, _) => p in fs.stat && fs.stat[p].dev == dev && fs.stat[p].isDir
  }

  predicate Blocked(fs: Fs, g: Goal, pos: nat, lead: Path) {
    (g.Hashed? && pos >= |g.inos|) || lead !in fs.dirs
  }

  /** The walk below directory `lead`, whose string has length `len`. */
  function Walk(fs: Fs, g: Goal, pos: nat, lead: Path, len: nat): Option<Path>
    decreases NFS_MAXPATHLEN - len, 1, 0
  {
    if Blocked(fs, g, pos, lead) then None else WalkFrom(fs, g, pos, lead, len, 0)
  }

  /** The same, from entry `k` of the listing on. */
  function WalkFrom(fs: Fs, g: Goal, pos: nat, lead: Path, len: nat, k: nat): Option<Path>
    requires !Blocked(fs, g, pos, lead) && k <= |fs.dirs[lead]|
    decreases NFS_MAXPATHLEN - len, 0, |fs.dirs[lead]| - k
  {
    if k == |fs.dirs[lead]| then None
    else
      var name := fs.dirs[lead][k];
      var obj := lead + [name];
      if !Fits(g, len, name) then WalkFrom(fs, g, pos, lead, len, k + 1)
      else if Hit(fs, g, obj) then Some(obj)
      else if Descend(fs, g, pos, obj, name) then
        var below := Walk(fs, g, pos + 1, obj, len + 1 + |name|);
        if below.Some? then below else WalkFrom(fs, g, pos, lead, len, k + 1)
      else WalkFrom(fs, g, pos, lead, len, k + 1)
  }

  // ---------- what the walk finds ----------

  /** Length of the string for `p`, counted from a lead of length `len`. */
  function StrLen(len: nat, p: Path): nat
    decreases |p|
  {
    if p == [] then len else StrLen(len + 1 + |p[0]|, p[1..])
  }

  /** `q` leads from `lead` to an object that is searched for, through entries that are listed,
      fit the buffer and are worth descending into. */
  ghost predicate Candidate(fs: Fs, g: Goal, pos: nat, lead: Path, len: nat, q: Path)
    decreases |q|
  {
    && q != [] && !Blocked(fs, g, pos, lead) && q[0] in fs.dirs[lead] && Fits(g, len, q[0])
    && (if |q| == 1 then Hit(fs, g, lead + q)
        else Descend(fs, g, pos, lead + [q[0]], q[0]) &&
             Candidate(fs, g, pos + 1, lead + [q[0]], len + 1 + |q[0]|, q[1..]))
  }

  lemma {:induction false} WalkSound(fs: Fs, g: Goal, pos: nat, lead: Path, len: nat)
    requires Walk(fs, g, pos, lead, len).Some?
    ensures var p := Walk(fs, g, pos, lead, len).value;
            lead <= p && Hit(fs, g, p) && Candidate(fs, g, pos, lead, len, p[|lead|..])
    decreases NFS_MAXPATHLEN - len, 1, 0
  {
    WalkFromSound(fs, g, pos, lead, len, 0);
  }

  lemma {:induction false} WalkFromSound(fs: Fs, g: Goal, pos: nat, lead: Path, len: nat, k: nat)
    requires !Blocked(fs, g, pos, lead) && k <= |fs.dirs[lead]|
    requires WalkFrom(fs, g, pos, lead, len, k).Some?
    ensures var p := WalkFrom(fs, g, pos, lead, len, k).value;
            lead <= p && Hit(fs, g, p) && Candidate(fs, g, pos, lead, len, p[|lead|..])
    decreases NFS_MAXPATHLEN - len, 0, |fs.dirs[lead]| - k
  {
    var p := WalkFrom(fs, g, pos, lead, len, k).value;
    var name := fs.dirs[lead][k];
    var obj := lead + [name];
    if Fits(g, len, name) && Hit(fs, g, obj) {
      assert obj[|lead|..] == [name] && lead + [name] == obj;
    } else if Fits(g, len, name) && Descend(fs, g, pos, obj, name) &&
              Walk(fs, g, pos + 1, obj, len + 1 + |name|).Some? {
      WalkSound(fs, g, pos + 1, obj, len + 1 + |name|);
      var q := p[|lead|..];
      assert q[0] == name && q[1..] == p[|obj|..];
    } else {
      WalkFromSound(fs, g, pos, lead, len, k + 1);
    }
  }

  /** If some candidate exists the walk succeeds, whatever it tries first. */
  lemma {:induction false} WalkComplete(fs: Fs, g: Goal, pos: nat, lead: Path, len: nat, q: Path)
    requires Candidate(fs, g, pos, lead, len, q)
    ensures Walk(fs, g, pos, lead, len).Some?
    decreases |q|, 1
  {
    var j :| 0 <= j < |fs.dirs[lead]| && fs.dirs[lead][j] == q[0];
    WalkFromComplete(fs, g, pos, lead, len, q, 0, j);
  }

  lemma {:induction false} WalkFromComplete(fs: Fs, g: Goal, pos: nat, lead: Path, len: nat, q: Path, k: nat, j: nat)
    requires Candidate(fs, g, pos, lead, len, q) && k <= j < |fs.dirs[lead]| && fs.dirs[lead][j] == q[0]
    ensures WalkFrom(fs, g, pos, lead, len, k).Some?
    decreases |q|, 0, j - k
  {
    if k < j {
      WalkFromComplete(fs, g, pos, lead, len, q, k + 1, j);
    } else if |q| == 1 {
      assert q == [q[0]];
    } else {
      WalkComplete(fs, g, pos + 1, lead + [q[0]], len + 1 + |q[0]|, q[1..]);
    }
  }

  ghost predicate Findable(fs: Fs, g: Goal, lead: Path, len: nat, q: Path) {
    Candidate(fs, g, 0, lead, len, q)
  }

  /** The walk succeeds exactly when there is something to find. */
  lemma WalkExact(fs: Fs, g: Goal, lead: Path, len: nat)
    ensures Walk(fs, g, 0, lead, len).Some? <==> exists q :: Findable(fs, g, lead, len, q)
  {
    if Walk(fs, g, 0, lead, len).Some? {
      WalkSound(fs, g, 0, lead, len);
      var q := Walk(fs, g, 0, lead, len).value[|lead|..];
      assert Findable(fs, g, lead, len, q);
    } else {
      forall q ensures !Findable(fs, g, lead, len, q) {
        if Findable(fs, g, lead, len, q) { WalkComplete(fs, g, 0, lead, len, q); }
      }
    }
  }

  // ---------- resolving handles ----------

  function GoalOf(fh: Fh): Goal { Hashed(fh.dev, fh.ino, fh.inos) }

  /** fh_decomp_raw */
  function Decomp(fs: Fs, fh: Fh): Option<Path> {
    if fh.inos == [] then Some([]) else Walk(fs, GoalOf(fh), 0, [], 1)
  }

  predicate SameObject(fs: Fs, p: Path, dev: nat, ino: nat) {
    p in fs.stat && fs.stat[p].dev == dev && fs.stat[p].ino == ino
  }

  /** A path that is returned is the handle's object, with two exceptions: a handle without hashes is
      answered with the root unseen, and one with device and inode zero may lead to an object that
      cannot be examined. */
  lemma DecompFinds(fs: Fs, fh: Fh)
    requires Decomp(fs, fh).Some?
    ensures var p := Decomp(fs, fh).value;
            if fh.inos == [] then p == []
            else if p in fs.stat then SameObject(fs, p, fh.dev, fh.ino)
            else fh.dev == 0 && fh.ino == 0
  {
    if fh.inos != [] { WalkSound(fs, GoalOf(fh), 0, [], 1); }
  }

  ghost predicate DecompSound(fs: Fs, fh: Fh) {
    Decomp(fs, fh).Some? ==> SameObject(fs, Decomp(fs, fh).value, fh.dev, fh.ino)
  }

  /** A root directory with one entry, which lstat refuses. */
  const Unexaminable := Fs(map[], map[[] := ["x"]])

  lemma ZeroFindsUnexaminable(fh: Fh)
    requires fh.inos != [] && !fh.Valid()
    ensures Decomp(Unexaminable, fh) == Some(["x"])
  {
    assert [] + ["x"] == ["x"];
  }

  /** In one file system, a handle without hashes is resolved soundly exactly if it is the root's. */
  lemma NoHashesSoundIff(fs: Fs, fh: Fh)
    requires fh.inos == []
    ensures DecompSound(fs, fh) <==> SameObject(fs, [], fh.dev, fh.ino)
  {}

  /** A root on another device than `fh`. */
  function OtherRoot(fh: Fh): Fs { Fs(map[[] := Stat(fh.dev + 1, 2, 0, true)], map[]) }

  /** Bytes that a client may send, accepted as a handle, and answered with a root they do not name. */
  lemma ForgedRoot(fh: Fh)
    requires fh == Fh(5, 7, 0, 0, [])
    ensures fh.Valid() && NfhValid(Encode(fh)) && Decode(Encode(fh)) == Some(fh)
    ensures Decomp(OtherRoot(fh), fh) == Some([]) && !DecompSound(OtherRoot(fh), fh)
  {
    EncodeDecode(fh);
  }

  /** Resolving a handle is sound in every file system exactly if the handle has hashes and is not all zero. */
  lemma DecompSoundIff(fh: Fh)
    ensures fh.Valid() && fh.inos != [] <==> forall fs :: DecompSound(fs, fh)
  {
    if fh.inos == [] {
      assert !DecompSound(OtherRoot(fh), fh);
    } else if fh.Valid() {
      forall fs ensures DecompSound(fs, fh) { if Decomp(fs, fh).Some? { DecompFinds(fs, fh); } }
    } else {
      ZeroFindsUnexaminable(fh);
      assert !DecompSound(Unexaminable, fh);
    }
  }

  /** Every component is listed in its directory, and none is a dot entry. */
  ghost predicate Listed(fs: Fs, path: Path) {
    forall k :: 0 <= k < |path| ==> path[..k] in fs.dirs && path[k] in fs.dirs[path[..k]] && !Dots(path[k])
  }

  lemma {:induction false} StrLenSplit(len: nat, p: Path, k: nat)
    requires k < |p|
    ensures StrLen(len, p[..k + 1]) == StrLen(len, p[..k]) + 1 + |p[k]|
    ensures StrLen(len, p[..k + 1]) <= StrLen(len, p)
    decreases |p|
  {
    if k == 0 {
      assert p[..1][1..] == [];
      StrLenGrows(len + 1 + |p[0]|, p[1..]);
    } else {
      assert p[..k + 1][1..] == p[1..][..k] && p[..k][1..] == p[1..][..k - 1];
      StrLenSplit(len + 1 + |p[0]|, p[1..], k - 1);
    }
  }

  lemma {:induction false} StrLenGrows(len: nat, p: Path)
    ensures len <= StrLen(len, p)
    decreases |p|
  {
    if p != [] { StrLenGrows(len + 1 + |p[0]|, p[1..]); }
  }

  lemma {:induction false} CandidateFits(fs: Fs, g: Goal, pos: nat, lead: Path, len: nat, q: Path)
    requires Candidate(fs, g, pos, lead, len, q)
    ensures StrLen(len, q) < NFS_MAXPATHLEN
    decreases |q|
  {
    if |q| > 1 { CandidateFits(fs, g, pos + 1, lead + [q[0]], len + 1 + |q[0]|, q[1..]); }
    else { assert q[1..] == []; }
  }

  ghost predicate Composed(fs: Fs, path: Path, fh: Fh) {
    && Comp(fs, path, false, fh.pwhash) == Some(fh) && Listed(fs, path)
    && fs.stat[path].dev == fh.dev && StrLen(1, path) < NFS_MAXPATHLEN
  }

  /** The search for `g` goes along `path` from its first `k` components to the next. */
  ghost predicate TrackAt(fs: Fs, g: Goal, path: Path, k: nat)
    requires k < |path|
  {
    && !Blocked(fs, g, k, path[..k]) && path[k] in fs.dirs[path[..k]]
    && Fits(g, StrLen(1, path[..k]), path[k]) && Descend(fs, g, k, path[..k + 1], path[k])
    && StrLen(1, path[..k + 1]) == StrLen(1, path[..k]) + 1 + |path[k]|
  }

  lemma OnTrack(fs: Fs, path: Path, fh: Fh, k: nat)
    requires Composed(fs, path, fh) && k < |path|
    ensures TrackAt(fs, GoalOf(fh), path, k)
  {
    StrLenSplit(1, path, k);
    assert fh.inos == Hashes(fs, path);
  }

  lemma CandidateStep(fs: Fs, g: Goal, pos: nat, lead: Path, len: nat, name: string, q: Path)
    requires !Blocked(fs, g, pos, lead) && name in fs.dirs[lead] && Fits(g, len, name)
    requires if q == [] then Hit(fs, g, lead + [name])
             else Descend(fs, g, pos, lead + [name], name) &&
                  Candidate(fs, g, pos + 1, lead + [name], len + 1 + |name|, q)
    ensures Candidate(fs, g, pos, lead, len, [name] + q)
  {
    assert ([name] + q)[1..] == q && (q == [] ==> [name] + q == [name]);
  }

  lemma {:induction false} TrackedCandidate(fs: Fs, g: Goal, path: Path, k: nat)
    requires k < |path| && Hit(fs, g, path) && forall j: nat :: j < |path| ==> TrackAt(fs, g, path, j)
    ensures Candidate(fs, g, k, path[..k], StrLen(1, path[..k]), path[k..])
    decreases |path| - k
  {
    assert TrackAt(fs, g, path, k);
    assert path[..k] + [path[k]] == path[..k + 1];
    assert path[k..] == [path[k]] + path[k + 1..];
    if k + 1 < |path| {
      TrackedCandidate(fs, g, path, k + 1);
    } else {
      assert path[..k + 1] == path && path[k + 1..] == [];
    }
    CandidateStep(fs, g, k, path[..k], StrLen(1, path[..k]), path[k], path[k + 1..]);
  }

  /** The path a handle was composed from is a candidate for it. */
  lemma ComposedCandidate(fs: Fs, path: Path, fh: Fh, k: nat)
    requires Composed(fs, path, fh) && k < |path|
    ensures Candidate(fs, GoalOf(fh), k, path[..k], StrLen(1, path[..k]), path[k..])
  {
    forall j: nat | j < |path| ensures TrackAt(fs, GoalOf(fh), path, j) { OnTrack(fs, path, fh, j); }
    TrackedCandidate(fs, GoalOf(fh), path, k);
  }

  /** The string of the path, with the extra slash the search puts in front, fits its buffer. */
  predicate Searchable(path: Path) { StrLen(1, path) < NFS_MAXPATHLEN }

  /** A composed handle resolves to its object, despite collisions among the 8-bit hashes. */
  lemma ComposedResolves(fs: Fs, path: Path, fh: Fh)
    requires Comp(fs, path, false, fh.pwhash) == Some(fh) && path != [] && Listed(fs, path)
    requires fs.stat[path].dev == fh.dev && fh.Valid() && Searchable(path)
    ensures Decomp(fs, fh).Some? && SameObject(fs, Decomp(fs, fh).value, fs.stat[path].dev, fs.stat[path].ino)
  {
    ComposedCandidate(fs, path, fh, 0);
    assert path[..0] == [] && path[0..] == path;
    WalkComplete(fs, GoalOf(fh), 0, [], 1, path);
    DecompFinds(fs, fh);
  }

  // ---------- when a handle leads back to its own path ----------

  /** The walk enters `p` at none of its inner components: they are no dots, and none was a hit. */
  ghost predicate PassesBy(fs: Fs, g: Goal, from: nat, p: Path) {
    forall k :: from <= k < |p| - 1 ==> !Dots(p[k]) && !Hit(fs, g, p[..k + 1])
  }

  lemma {:induction false} WalkPasses(fs: Fs, g: Goal, pos: nat, lead: Path, len: nat)
    requires Walk(fs, g, pos, lead, len).Some?
    ensures PassesBy(fs, g, |lead|, Walk(fs, g, pos, lead, len).value)
    decreases NFS_MAXPATHLEN - len, 1, 0
  {
    WalkFromPasses(fs, g, pos, lead, len, 0);
  }

  lemma {:induction false} WalkFromPasses(fs: Fs, g: Goal, pos: nat, lead: Path, len: nat, k: nat)
    requires !Blocked(fs, g, pos, lead) && k <= |fs.dirs[lead]|
    requires WalkFrom(fs, g, pos, lead, len, k).Some?
    ensures PassesBy(fs, g, |lead|, WalkFrom(fs, g, pos, lead, len, k).value)
    decreases NFS_MAXPATHLEN - len, 0, |fs.dirs[lead]| - k
  {
    var p := WalkFrom(fs, g, pos, lead, len, k).value;
    var name := fs.dirs[lead][k];
    var obj := lead + [name];
    if Fits(g, len, name) && Hit(fs, g, obj) {
    } else if Fits(g, len, name) && Descend(fs, g, pos, obj, name) &&
              Walk(fs, g, pos + 1, obj, len + 1 + |name|).Some? {
      WalkPasses(fs, g, pos + 1, obj, len + 1 + |name|);
      WalkSound(fs, g, pos + 1, obj, len + 1 + |name|);
      assert p[..|lead| + 1] == obj && p[|lead|] == name;
    } else {
      WalkFromPasses(fs, g, pos, lead, len, k + 1);
    }
  }

  ghost predicate Plain(p: Path) { forall k :: 0 <= k < |p| ==> !Dots(p[k]) }

  function Parent(p: Path): Path { if p == [] then [] else p[..|p| - 1] }

  /** lstat of a directory's entry "." answers for the directory, and of ".." for its parent. */
  ghost predicate DotsLead(fs: Fs) {
    && (forall p :: p + ["."] in fs.stat ==> SameObject(fs, p, fs.stat[p + ["."]].dev, fs.stat[p + ["."]].ino))
    && (forall p :: p + [".."] in fs.stat ==>
          SameObject(fs, Parent(p), fs.stat[p + [".."]].dev, fs.stat[p + [".."]].ino))
  }

  /** `path` is the only path to its object that does not end in, or pass through, a dot entry. */
  ghost predicate OnlyPath(fs: Fs, path: Path)
    requires path in fs.stat
  {
    forall p :: Plain(p) && SameObject(fs, p, fs.stat[path].dev, fs.stat[path].ino) ==> p == path
  }

  lemma NoInnerHit(fs: Fs, g: Goal, p: Path, k: nat)
    requires PassesBy(fs, g, 0, p) && 0 < k < |p|
    ensures !Hit(fs, g, p[..k])
  {
    assert !Dots(p[k - 1]);
  }

  /** A search that passes by its object's only path returns no dot entry of it. */
  lemma FoundIsPlain(fs: Fs, path: Path, g: Goal, p: Path)
    requires path in fs.stat && path != [] && OnlyPath(fs, path) && DotsLead(fs)
    requires g.dev == fs.stat[path].dev && g.ino == fs.stat[path].ino
    requires p != [] && PassesBy(fs, g, 0, p) && SameObject(fs, p, g.dev, g.ino)
    ensures p == path
  {
    var d, name := p[..|p| - 1], p[|p| - 1];
    assert p == d + [name];
    assert forall k :: 0 <= k < |d| ==> d[k] == p[k];
    if Dots(name) {
      var q := if name == "." then d else Parent(d);
      assert SameObject(fs, q, g.dev, g.ino) && Plain(q) && p[..|q|] == q;
      NoInnerHit(fs, g, p, |q|);
    }
  }

  /** When no other path leads to the object, dot entries aside, the handle resolves to its path exactly
      if the path fits the buffer and its device number fits the 32 bits a handle has for it. */
  lemma ComposedResolvesIff(fs: Fs, path: Path, fh: Fh)
    requires Comp(fs, path, false, fh.pwhash) == Some(fh) && path != [] && Listed(fs, path) && fh.Valid()
    requires OnlyPath(fs, path) && DotsLead(fs)
    ensures Decomp(fs, fh) == Some(path) <==> Searchable(path) && fs.stat[path].dev < 0x1_0000_0000
  {
    if Searchable(path) && fs.stat[path].dev < 0x1_0000_0000 {
      ComposedResolves(fs, path, fh);
      WalkPasses(fs, GoalOf(fh), 0, [], 1);
      WalkSound(fs, GoalOf(fh), 0, [], 1);
      FoundIsPlain(fs, path, GoalOf(fh), Decomp(fs, fh).value);
    } else if Decomp(fs, fh) == Some(path) {
      DecompFinds(fs, fh);
      WalkSound(fs, GoalOf(fh), 0, [], 1);
      assert path[0..] == path;
      CandidateFits(fs, GoalOf(fh), 0, [], 1, path);
    }
  }

  /** If nothing else has the device and inode of a handle, a path that does not fit is not found. */
  lemma UnfitFails(fs: Fs, path: Path, fh: Fh)
    requires fh.inos != [] && fh.Valid() && !Searchable(path)
    requires forall p :: SameObject(fs, p, fh.dev, fh.ino) ==> p == path
    ensures Decomp(fs, fh) == None
  {
    if Decomp(fs, fh).Some? {
      DecompFinds(fs, fh);
      WalkSound(fs, GoalOf(fh), 0, [], 1);
      assert path[0..] == path;
      CandidateFits(fs, GoalOf(fh), 0, [], 1, path);
    }
  }

  /** Length of the string of a path by itself. */
  function PathLen(p: Path): nat { if p == [] then 1 else StrLen(0, p) }

  /** The check that cat_name makes before a name is appended to a path. */
  predicate NameAccepted(dir: Path, name: string) { PathLen(dir) + |name| + 2 <= NFS_MAXPATHLEN }

  function FourDeep(a: string, b: string, c: string, d: string): Fs {
    Fs(map[[] := Stat(1, 2, 0, true), [a] := Stat(1, 3, 0, true), [a, b] := Stat(1, 4, 0, true),
           [a, b, c] := Stat(1, 5, 0, true), [a, b, c, d] := Stat(1, 6, 0, false)],
       map[[] := [a], [a] := [b], [a, b] := [c], [a, b, c] := [d]])
  }

  /** A path of 1023 characters that LOOKUP and CREATE accept and whose handle does not resolve. */
  lemma LongPathFails(a: string, b: string, c: string, d: string, fs: Fs)
    requires |a| == |b| == |c| == 255 && |d| == 254 && fs == FourDeep(a, b, c, d)
    ensures NameAccepted([a, b, c], d) && Listed(fs, [a, b, c, d])
    ensures Comp(fs, [a, b, c, d], false, 0).Some? && Decomp(fs, Comp(fs, [a, b, c, d], false, 0).value) == None
  {
    var path := [a, b, c, d];
    assert path[..1] == [a] && path[..2] == [a, b] && path[..3] == [a, b, c] && path[..4] == path;
    LongStrings(a, b, c, d);
    UnfitFails(fs, path, Comp(fs, path, false, 0).value);
  }

  lemma LongStrings(a: string, b: string, c: string, d: string)
    requires |a| == |b| == |c| == 255 && |d| == 254
    ensures PathLen([a, b, c]) == 768 && !Searchable([a, b, c, d])
  {
    assert [a, b, c][1..] == [b, c] && [b, c][1..] == [c] && [c][1..] == [];
    assert [a, b, c, d][1..] == [b, c, d] && [b, c, d][1..] == [c, d] && [c, d][1..] == [d] && [d][1..] == [];
    assert StrLen(512, [c]) == 768;
    assert StrLen(256, [b, c]) == 768;
    assert StrLen(769, [d]) == 1024;
    assert StrLen(513, [c, d]) == 1024;
    assert StrLen(257, [b, c, d]) == 1024;
  }

  /** A device number beyond 32 bits: the handle is composed, and nothing with its device is found. */
  lemma BigDeviceFails(name: string, fs: Fs)
    requires fs == Fs(map[[name] := Stat(0x1_0000_0001, 2, 0, false)], map[[] := [name]])
    ensures Comp(fs, [name], false, 0).Some? && Decomp(fs, Comp(fs, [name], false, 0).value) == None
  {
    assert [name][..1] == [name];
    var fh := Comp(fs, [name], false, 0).value;
    if Decomp(fs, fh).Some? { DecompFinds(fs, fh); }
  }

  // ---------- the code ----------

  /** The first mount point on the device, as the mount table lists them. */
  function MountOf(fs: Fs, mounts: seq<Path>, dev: nat): Option<Path> {
    if mounts == [] then None
    else if mounts[0] in fs.stat && fs.stat[mounts[0]].dev == dev then Some(mounts[0])
    else MountOf(fs, mounts[1..], dev)
  }

  /** locate_file */
  function Locate(fs: Fs, mounts: seq<Path>, bruteForce: bool, dev: nat, ino: nat): Option<Path> {
    if !bruteForce then None
    else
      var m :- MountOf(fs, mounts, dev);
      Walk(fs, Brute(dev, ino), 0, m, PathLen(m))
  }

  lemma LocateSound(fs: Fs, mounts: seq<Path>, bruteForce: bool, dev: nat, ino: nat)
    requires Locate(fs, mounts, bruteForce, dev, ino).Some?
    ensures SameObject(fs, Locate(fs, mounts, bruteForce, dev, ino).value, dev, ino)
  {
    var m := MountOf(fs, mounts, dev).value;
    WalkSound(fs, Brute(dev, ino), 0, m, PathLen(m));
  }

  /** The buffers that the searches fill: the path found and the cached attributes. */
  class Resolver {
    var result: Path
    var stCacheValid: bool
    var stCache: Stat

    constructor ()
      ensures !stCacheValid
    {
      result, stCacheValid, stCache := [], false, Stat(0, 0, 0, false);
    }

    /** What a search leaves behind: the path and attributes it found, or everything as it was. */
    twostate predicate Outcome(fs: Fs, new found: Option<Path>)
      reads this
    {
      if found.Some? then
        result == found.value && stCacheValid && stCache == StatOf(fs, found.value)
      else unchanged(this)
    }

    method FhRec(fs: Fs, fh: Fh, pos: nat, lead: Path, len: nat) returns (found: bool)
      modifies this
      ensures found == Walk(fs, GoalOf(fh), pos, lead, len).Some?
      ensures Outcome(fs, Walk(fs, GoalOf(fh), pos, lead, len))
      decreases NFS_MAXPATHLEN - len
    {
      if pos >= |fh.inos| {
        return false;
      }
      if lead !in fs.dirs {
        return false;
      }
      var names := fs.dirs[lead];
      for k := 0 to |names|
        invariant WalkFrom(fs, GoalOf(fh), pos, lead, len, k) == Walk(fs, GoalOf(fh), pos, lead, len)
        invariant unchanged(this)
      {
        var name := names[k];
        if len + |name| + 1 < NFS_MAXPATHLEN {
          var obj := lead + [name];
          var buf := StatOf(fs, obj);
          if buf.dev == fh.dev && buf.ino == fh.ino {
            result, stCacheValid, stCache := obj, true, buf;
            return true;
          }
          if name != ".." && name != "." && FhHash(buf.ino) == fh.inos[pos] {
            found := FhRec(fs, fh, pos + 1, obj, len + 1 + |name|);
            if found {
              return true;
            }
          }
        }
      }
      found := false;
    }

    method LocatePfx(fs: Fs, pfx: Path, len: nat, dev: nat, ino: nat) returns (found: bool)
      modifies this
      ensures found == Walk(fs, Brute(dev, ino), 0, pfx, len).Some?
      ensures Outcome(fs, Walk(fs, Brute(dev, ino), 0, pfx, len))
      decreases NFS_MAXPATHLEN - len
    {
      if pfx !in fs.dirs {
        return false;
      }
      var names := fs.dirs[pfx];
      for k := 0 to |names|
        invariant WalkFrom(fs, Brute(dev, ino), 0, pfx, len, k) == Walk(fs, Brute(dev, ino), 0, pfx, len)
        invariant unchanged(this)
      {
        var name := names[k];
        if len + |name| + 2 < NFS_MAXPATHLEN {
          var path := pfx + [name];
          if path in fs.stat {
            var buf := fs.stat[path];
            if buf.dev == dev && buf.ino == ino {
              result, stCacheValid, stCache := path, true, buf;
              return true;
            }
            if buf.dev == dev && buf.isDir && name != "." && name != ".." {
              BruteIgnoresDepth(fs, dev, ino, 1, path, len + 1 + |name|);
              found := LocatePfx(fs, path, len + 1 + |name|, dev, ino);
              if found {
                return true;
              }
            }
          }
        }
      }
      found := false;
    }

    method DecompRaw(fs: Fs, fh: Fh) returns (path: Option<Path>)
      modifies this
      ensures path == Decomp(fs, fh)
      ensures fh.inos == [] ==> unchanged(this)
      ensures fh.inos != [] ==> Outcome(fs, path)
    {
      if fh.inos == [] {
        return Some([]);
      }
      var rec := FhRec(fs, fh, 0, [], 1);
      path := if rec then Some(result) else None;
    }

    method LocateFile(fs: Fs, mounts: seq<Path>, bruteForce: bool, dev: nat, ino: nat) returns (path: Option<Path>)
      modifies this
      ensures path == Locate(fs, mounts, bruteForce, dev, ino)
      ensures Outcome(fs, path)
    {
      if !bruteForce {
        return None;
      }
      for i := 0 to |mounts|
        invariant MountOf(fs, mounts[i..], dev) == MountOf(fs, mounts, dev)
        invariant unchanged(this)
      {
        var ent := mounts[i];
        if ent in fs.stat && fs.stat[ent].dev == dev {
          var res := LocatePfx(fs, ent, PathLen(ent), dev, ino);
          return if res then Some(result) else None;
        }
      }
      path := None;
    }
  }

  /** The brute-force walk does not look at how deep it is. */
  lemma {:induction false} BruteIgnoresDepth(fs: Fs, dev: nat, ino: nat, pos: nat, lead: Path, len: nat)
    ensures Walk(fs, Brute(dev, ino), pos, lead, len) == Walk(fs, Brute(dev, ino), 0, lead, len)
    decreases NFS_MAXPATHLEN - len, 1, 0
  {
    if lead in fs.dirs { BruteIgnoresDepthFrom(fs, dev, ino, pos, lead, len, 0); }
  }

  lemma {:induction false} BruteIgnoresDepthFrom(fs: Fs, dev: nat, ino: nat, pos: nat, lead: Path, len: nat, k: nat)
    requires lead in fs.dirs && k <= |fs.dirs[lead]|
    ensures WalkFrom(fs, Brute(dev, ino), pos, lead, len, k) == WalkFrom(fs, Brute(dev, ino), 0, lead, len, k)
    decreases NFS_MAXPATHLEN - len, 0, |fs.dirs[lead]| - k
  {
    if k < |fs.dirs[lead]| {
      var name := fs.dirs[lead][k];
      if Fits(Brute(dev, ino), len, name) {
        BruteIgnoresDepth(fs, dev, ino, pos + 1, lead + [name], len + 1 + |name|);
        BruteIgnoresDepth(fs, dev, ino, 1, lead + [name], len + 1 + |name|);
      }
      BruteIgnoresDepthFrom(fs, dev, ino, pos, lead, len, k + 1);
    }
  }
}
