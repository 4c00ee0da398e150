/** What the two searches can reach, spelled out level by level, and which of several paths they return. */
module Reach {
  import opened Options
  import opened Handles
  import opened HandleSearch

  // ---------- candidates, index by index ----------

  /** The search goes from the first `j` names of `q` below `lead` to the next, and through it unless it is the last. */
  ghost predicate Goes(fs: Fs, g: Goal, lead: Path, len: nat, q: Path, j: nat)
    requires j < |q|
  {
    && !Blocked(fs, g, j, lead + q[..j]) && q[j] in fs.dirs[lead + q[..j]] && Fits(g, StrLen(len, q[..j]), q[j])
    && (j < |q| - 1 ==> Descend(fs, g, j, lead + q[..j + 1], q[j]))
  }

  ghost predicate GoesFrom(fs: Fs, g: Goal, lead: Path, len: nat, q: Path, k: nat) {
    Hit(fs, g, lead + q) && forall j: nat :: k <= j < |q| ==> Goes(fs, g, lead, len, q, j)
  }

  lemma {:induction false} CandidateFrom(fs: Fs, g: Goal, lead: Path, len: nat, q: Path, k: nat)
    requires k < |q|
    ensures Candidate(fs, g, k, lead + q[..k], StrLen(len, q[..k]), q[k..]) <==> GoesFrom(fs, g, lead, len, q, k)
    decreases |q| - k
  {
    StrLenSplit(len, q, k);
    assert lead + q[..k] + [q[k]] == lead + q[..k + 1];
    if k + 1 == |q| {
      assert q[k..] == [q[k]] && q[..k + 1] == q;
      assert Goes(fs, g, lead, len, q, k) <==> Candidate(fs, g, k, lead + q[..k], StrLen(len, q[..k]), q[k..]) ||
                                               (Goes(fs, g, lead, len, q, k) && !Hit(fs, g, lead + q));
    } else {
      CandidateFrom(fs, g, lead, len, q, k + 1);
      assert q[k..][0] == q[k] && q[k..][1..] == q[k + 1..];
      assert GoesFrom(fs, g, lead, len, q, k) <==>
             GoesFrom(fs, g, lead, len, q, k + 1) && Goes(fs, g, lead, len, q, k);
    }
  }

  lemma FindableIff(fs: Fs, g: Goal, lead: Path, len: nat, q: Path)
    ensures Findable(fs, g, lead, len, q) <==> q != [] && GoesFrom(fs, g, lead, len, q, 0)
  {
    if q != [] {
      CandidateFrom(fs, g, lead, len, q, 0);
      assert lead + q[..0] == lead && q[0..] == q;
    }
  }

  predicate FitsAt(len: nat, q: Path, extra: nat, j: nat)
    requires j < |q|
  {
    StrLen(len, q[..j]) + |q[j]| + 1 + extra < NFS_MAXPATHLEN
  }

  /** Every name fits exactly if the last one does. */
  lemma AllFit(len: nat, q: Path, extra: nat)
    requires q != []
    ensures StrLen(len, q) + extra < NFS_MAXPATHLEN <==> forall j: nat :: j < |q| ==> FitsAt(len, q, extra, j)
  {
    var n := |q| - 1;
    assert q[..n + 1] == q;
    StrLenSplit(len, q, n);
    assert FitsAt(len, q, extra, n) <==> StrLen(len, q) + extra < NFS_MAXPATHLEN;
    if StrLen(len, q) + extra < NFS_MAXPATHLEN {
      forall j: nat | j < |q| ensures FitsAt(len, q, extra, j) { StrLenSplit(len, q, j); }
    }
  }

  // ---------- the search by hashes ----------

  /** A path of at most as many names as the handle has hashes. Each name is listed, the string fits its buffer,
      every name but the last is no dot and has the hash of its level, and the object is the handle's. */
  ghost predicate LeadsTo(fs: Fs, fh: Fh, q: Path) {
    && 0 < |q| <= |fh.inos| && StrLen(1, q) < 1024
    && StatOf(fs, q).dev == fh.dev && StatOf(fs, q).ino == fh.ino
    && (forall j :: 0 <= j < |q| ==> q[..j] in fs.dirs && q[j] in fs.dirs[q[..j]])
    && forall j :: 0 <= j < |q| - 1 ==>
         q[j] != "." && q[j] != ".." && FhHash(StatOf(fs, q[..j + 1]).ino) == fh.inos[j]
  }

  /** One step of the search for a handle, spelled out. */
  lemma GoesIff(fs: Fs, fh: Fh, q: Path, j: nat)
    requires j < |q|
    ensures Goes(fs, GoalOf(fh), [], 1, q, j) <==>
            && j < |fh.inos| && q[..j] in fs.dirs && q[j] in fs.dirs[q[..j]] && FitsAt(1, q, 0, j)
            && (j < |q| - 1 ==> q[j] != "." && q[j] != ".." && FhHash(StatOf(fs, q[..j + 1]).ino) == fh.inos[j])
  {
    assert [] + q[..j] == q[..j] && [] + q[..j + 1] == q[..j + 1];
  }

  lemma LeadsIff(fs: Fs, fh: Fh, q: Path)
    ensures Findable(fs, GoalOf(fh), [], 1, q) <==> LeadsTo(fs, fh, q)
  {
    FindableIff(fs, GoalOf(fh), [], 1, q);
    if q != [] {
      assert [] + q == q;
      if GoesFrom(fs, GoalOf(fh), [], 1, q, 0) { LeadsForth(fs, fh, q); }
      if LeadsTo(fs, fh, q) { LeadsBack(fs, fh, q); }
    }
  }

  lemma LeadsForth(fs: Fs, fh: Fh, q: Path)
    requires q != [] && GoesFrom(fs, GoalOf(fh), [], 1, q, 0) && [] + q == q
    ensures LeadsTo(fs, fh, q)
  {
    AllFit(1, q, 0);
    GoesIff(fs, fh, q, |q| - 1);
    forall j: nat | j < |q| ensures FitsAt(1, q, 0, j) && q[..j] in fs.dirs && q[j] in fs.dirs[q[..j]] {
      GoesIff(fs, fh, q, j);
    }
    forall j: nat | j < |q| - 1 ensures !Dots(q[j]) && FhHash(StatOf(fs, q[..j + 1]).ino) == fh.inos[j] {
      GoesIff(fs, fh, q, j);
    }
  }

  lemma LeadsBack(fs: Fs, fh: Fh, q: Path)
    requires LeadsTo(fs, fh, q) && [] + q == q
    ensures GoesFrom(fs, GoalOf(fh), [], 1, q, 0)
  {
    AllFit(1, q, 0);
    forall j: nat | j < |q| ensures Goes(fs, GoalOf(fh), [], 1, q, j) {
      GoesIff(fs, fh, q, j);
      assert FitsAt(1, q, 0, j);
    }
  }

  /** A handle is resolved exactly if it has no hashes, and then to the root, or if such a path exists, and
      then to one of them. */
  lemma DecompExact(fs: Fs, fh: Fh)
    ensures var r := Decomp(fs, fh);
            if fh.inos == [] then r == Some([])
            else && (r.Some? <==> exists q :: LeadsTo(fs, fh, q)) && (r.Some? ==> LeadsTo(fs, fh, r.value))
  {
    if fh.inos != [] {
      WalkExact(fs, GoalOf(fh), [], 1);
      if Decomp(fs, fh).Some? {
        var p := Decomp(fs, fh).value;
        WalkSound(fs, GoalOf(fh), 0, [], 1);
        assert p[0..] == p;
        assert Findable(fs, GoalOf(fh), [], 1, p);
        LeadsIff(fs, fh, p);
      }
      if q :| LeadsTo(fs, fh, q) { LeadsIff(fs, fh, q); }
    }
  }

  // ---------- the brute-force search ----------

  /** A path below `mount`: each name is listed, the string fits its buffer with two bytes to spare, every name but
      the last is a directory on the device and no dot, and the object is there and is the one searched for. */
  ghost predicate LiesBelow(fs: Fs, mount: Path, dev: nat, ino: nat, q: Path) {
    && q != [] && StrLen(PathLen(mount), q) + 1 < 1024 && SameObject(fs, mount + q, dev, ino)
    && (forall j :: 0 <= j < |q| ==> mount + q[..j] in fs.dirs && q[j] in fs.dirs[mount + q[..j]])
    && forall j :: 0 <= j < |q| - 1 ==> Inner(fs, mount, dev, q, j)
  }
  predicate Inner(fs: Fs, mount: Path, dev: nat, q: Path, j: nat)
    requires j < |q|
  {
    && q[j] != "." && q[j] != ".." && mount + q[..j + 1] in fs.stat
    && fs.stat[mount + q[..j + 1]].dev == dev && fs.stat[mount + q[..j + 1]].isDir
  }

  lemma LiesIff(fs: Fs, mount: Path, dev: nat, ino: nat, q: Path)
    ensures Findable(fs, Brute(dev, ino), mount, PathLen(mount), q) <==> LiesBelow(fs, mount, dev, ino, q)
  {
    FindableIff(fs, Brute(dev, ino), mount, PathLen(mount), q);
    if q != [] {
      AllFit(PathLen(mount), q, 1);
      var g, len := Brute(dev, ino), PathLen(mount);
      if GoesFrom(fs, g, mount, len, q, 0) {
        forall j: nat | j < |q| ensures FitsAt(len, q, 1, j) && mount + q[..j] in fs.dirs {
          assert Goes(fs, g, mount, len, q, j);
        }
        forall j: nat | j < |q| ensures q[j] in fs.dirs[mount + q[..j]] { assert Goes(fs, g, mount, len, q, j); }
        forall j: nat | j < |q| - 1 ensures Inner(fs, mount, dev, q, j) { assert Goes(fs, g, mount, len, q, j); }
      } else if LiesBelow(fs, mount, dev, ino, q) {
        forall j: nat | j < |q| ensures Goes(fs, g, mount, len, q, j) {
          assert FitsAt(len, q, 1, j) && (j < |q| - 1 ==> Inner(fs, mount, dev, q, j));
        }
      }
    }
  }

  /** `i` is the first mount point on the device. */
  ghost predicate FirstMount(fs: Fs, mounts: seq<Path>, dev: nat, i: nat) {
    && i < |mounts| && mounts[i] in fs.stat && fs.stat[mounts[i]].dev == dev
    && forall j :: 0 <= j < i ==> !(mounts[j] in fs.stat && fs.stat[mounts[j]].dev == dev)
  }

  lemma {:induction false} MountOfIs(fs: Fs, mounts: seq<Path>, dev: nat) returns (i: nat)
    ensures var m := MountOf(fs, mounts, dev);
            if m.Some? then FirstMount(fs, mounts, dev, i) && m.value == mounts[i]
            else forall j :: 0 <= j < |mounts| ==> !(mounts[j] in fs.stat && fs.stat[mounts[j]].dev == dev)
    decreases |mounts|
  {
    i := 0;
    if mounts != [] && !(mounts[0] in fs.stat && fs.stat[mounts[0]].dev == dev) {
      var k := MountOfIs(fs, mounts[1..], dev);
      i := k + 1;
      assert forall j :: 0 < j < |mounts| ==> mounts[j] == mounts[1..][j - 1];
    }
  }

  ghost predicate LiesOn(fs: Fs, mounts: seq<Path>, dev: nat, ino: nat, i: nat, q: Path) {
    FirstMount(fs, mounts, dev, i) && LiesBelow(fs, mounts[i], dev, ino, q)
  }

  /** With the option set, the brute-force search finds an object exactly if such a path lies below the first
      mount point on its device, and then returns one of them. */
  lemma LocateExact(fs: Fs, mounts: seq<Path>, bruteForce: bool, dev: nat, ino: nat)
    ensures var r := Locate(fs, mounts, bruteForce, dev, ino);
            && (r.Some? <==> bruteForce && exists i: nat, q :: LiesOn(fs, mounts, dev, ino, i, q))
            && (r.Some? ==> exists i: nat, q :: LiesOn(fs, mounts, dev, ino, i, q) && r.value == mounts[i] + q)
  {
    var i := MountOfIs(fs, mounts, dev);
    if bruteForce && MountOf(fs, mounts, dev).Some? {
      var m, g := mounts[i], Brute(dev, ino);
      WalkExact(fs, g, m, PathLen(m));
      if Locate(fs, mounts, bruteForce, dev, ino).Some? {
        var p := Locate(fs, mounts, bruteForce, dev, ino).value;
        WalkSound(fs, g, 0, m, PathLen(m));
        assert p == m + p[|m|..];
        assert Findable(fs, g, m, PathLen(m), p[|m|..]);
        LiesIff(fs, m, dev, ino, p[|m|..]);
        assert LiesOn(fs, mounts, dev, ino, i, p[|m|..]);
      }
      if k: nat, q :| LiesOn(fs, mounts, dev, ino, k, q) {
        assert k == i;
        LiesIff(fs, m, dev, ino, q);
      }
    }
  }

  // ---------- which path is returned ----------

  /** The place of a name in a listing. */
  function Place(names: seq<string>, name: string): (i: nat)
    requires name in names
    ensures i < |names| && names[i] == name && name !in names[..i]
  {
    if names[0] == name then 0 else
      var i := 1 + Place(names[1..], name);
      assert names[..i] == [names[0]] + names[1..][..i - 1];
      i
  }

  /** `p` is `q` or above it, or it branches off at a name that is listed earlier. */
  ghost predicate Precedes(fs: Fs, lead: Path, p: Path, q: Path)
    decreases |p|
  {
    p == [] || (q != [] && lead in fs.dirs && p[0] in fs.dirs[lead] && q[0] in fs.dirs[lead] &&
                if p[0] == q[0] then Precedes(fs, lead + [p[0]], p[1..], q[1..])
                else Place(fs.dirs[lead], p[0]) < Place(fs.dirs[lead], q[0]))
  }

  lemma {:induction false} WalkFirst(fs: Fs, g: Goal, pos: nat, lead: Path, len: nat, q: Path)
    requires Candidate(fs, g, pos, lead, len, q)
    ensures Walk(fs, g, pos, lead, len).Some?
    ensures var p := Walk(fs, g, pos, lead, len).value; lead <= p && Precedes(fs, lead, p[|lead|..], q)
    decreases |q|, 1
  {
    WalkFromFirst(fs, g, pos, lead, len, q, 0, Place(fs.dirs[lead], q[0]));
  }

  lemma {:induction false} WalkFromFirst(fs: Fs, g: Goal, pos: nat, lead: Path, len: nat, q: Path, k: nat, j: nat)
    requires Candidate(fs, g, pos, lead, len, q) && k <= j == Place(fs.dirs[lead], q[0])
    ensures WalkFrom(fs, g, pos, lead, len, k).Some?
    ensures var p := WalkFrom(fs, g, pos, lead, len, k).value; lead <= p && Precedes(fs, lead, p[|lead|..], q)
    decreases |q|, 0, j - k
  {
    var name := fs.dirs[lead][k];
    var obj, n := lead + [name], len + 1 + |name|;
    if Fits(g, len, name) && Hit(fs, g, obj) {
      assert obj[|lead|..] == [name];
      PlaceUpTo(fs.dirs[lead], k);
    } else if Fits(g, len, name) && Descend(fs, g, pos, obj, name) && Walk(fs, g, pos + 1, obj, n).Some? {
      var p := Walk(fs, g, pos + 1, obj, n).value;
      WalkSound(fs, g, pos + 1, obj, n);
      var rest := p[|lead|..];
      assert rest[0] == name && rest[1..] == p[|obj|..];
      PlaceUpTo(fs.dirs[lead], k);
      if name == q[0] { WalkFirst(fs, g, pos + 1, obj, n, q[1..]); }
    } else {
      if k == j {
        if |q| == 1 { assert q == [name]; } else { WalkFirst(fs, g, pos + 1, obj, n, q[1..]); }
      }
      WalkFromFirst(fs, g, pos, lead, len, q, k + 1, j);
    }
  }

  lemma {:induction false} PlaceUpTo(names: seq<string>, k: nat)
    requires k < |names|
    ensures Place(names, names[k]) <= k
  {
    if Place(names, names[k]) > k { assert names[k] in names[..Place(names, names[k])]; }
  }

  /** Of all paths that lead to the handle's object, the one is returned that a walk through the listings,
      in their order and from the top down, comes to first. */
  lemma DecompFirst(fs: Fs, fh: Fh, q: Path)
    requires fh.inos != [] && LeadsTo(fs, fh, q)
    ensures Decomp(fs, fh).Some? && Precedes(fs, [], Decomp(fs, fh).value, q)
  {
    LeadsIff(fs, fh, q);
    WalkFirst(fs, GoalOf(fh), 0, [], 1, q);
    var p := Decomp(fs, fh).value;
    assert p[0..] == p;
  }

  // ---------- where names lead ----------

  /** The path that LOOKUP works out for a name, dot or not, is that of the object lstat sees under it. */
  lemma CatNameLeads(fs: Fs, dir: Path, name: string)
    requires DotsLead(fs) && dir + [name] in fs.stat
    ensures SameObject(fs, CatName(dir, name), fs.stat[dir + [name]].dev, fs.stat[dir + [name]].ino)
  {}

  /** Names that are no dots lead down one by one. */
  lemma {:induction false} WherePlain(base: Path, names: seq<string>)
    requires Plain(names)
    ensures Where(base, names) == base + names
    decreases |names|
  {
    if names != [] {
      var front := names[..|names| - 1];
      WherePlain(base, front);
      assert !Dots(names[|names| - 1]) && front + [names[|names| - 1]] == names;
    }
  }
}
