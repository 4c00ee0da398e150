/** Handles that travel between replicas: rewriting a foreign handle to the local device. */
module Replica {
  import opened Options
  import opened Bytes
  import opened Handles
  import opened HandleSearch

  /** adjust_handle on decoded handles; `root` is the handle of the local export root once known. */
  function Adjust(root: Option<Fh>, fh: Fh): Fh {
    if root.None? then fh
    else if fh.inos == [] then root.value
    else fh.(dev := root.value.dev)
  }

  /** The same on the bytes of an nfs_fh3; bytes that do not decode stop the server. */
  function AdjustBytes(root: Option<Fh>, b: seq<byte>): Option<seq<byte>>
    requires root.Some? ==> |root.value.inos| <= FH_MAXLEN
  {
    if root.None? then Some(b)
    else
      var fh :- Decode(b);
      Some(if fh.inos != [] && fh.dev == root.value.dev then b else Encode(Adjust(root, fh)))
  }

  /** Adjusting twice changes nothing more, and the device a handle came with does not matter. */
  lemma AdjustStable(root: Option<Fh>, fh: Fh, dev: nat)
    requires root.Some?
    ensures Adjust(root, Adjust(root, fh)) == Adjust(root, fh)
    ensures Adjust(root, fh.(dev := dev)) == Adjust(root, fh)
  {}

  lemma AdjustBytesDecodes(root: Option<Fh>, b: seq<byte>)
    requires Decode(b).Some? && (root.Some? ==> root.value.Fits())
    ensures AdjustBytes(root, b).Some?
    ensures Decode(AdjustBytes(root, b).value) == Some(Adjust(root, Decode(b).value))
    ensures AdjustBytes(root, AdjustBytes(root, b).value) == AdjustBytes(root, b)
  {
    DecodeEncode(b);
    var fh := Adjust(root, Decode(b).value);
    EncodeDecode(fh);
    if root.Some? && Decode(b).value.inos == [] && fh.inos != [] {
      assert fh.dev == root.value.dev;
    }
  }

  /** A handle with hashes keeps all its bytes but the four of the device; one without becomes the local root's. */
  lemma AdjustedBytes(root: Fh, b: seq<byte>)
    requires Decode(b).Some? && root.Fits()
    ensures AdjustBytes(Some(root), b) == Some(if b[20] != 0 then Le(root.dev, 4) + b[4..] else Encode(root))
  {
    DecodeEncode(b);
    if b[20] != 0 { OtherDevice(Decode(b).value, root.dev); }
  }

  lemma OtherDevice(fh: Fh, dev: nat)
    requires |fh.inos| <= FH_MAXLEN
    ensures Encode(fh.(dev := dev)) == Le(dev, 4) + Encode(fh)[4..]
    ensures dev == fh.dev ==> Encode(fh) == Le(dev, 4) + Encode(fh)[4..]
  {
    var rest := Le(fh.ino, 8) + (Le(fh.gen, 4) + (Le(fh.pwhash, 4) + ([|fh.inos|] + fh.inos)));
    Associate(Le(fh.dev, 4), Le(fh.ino, 8), Le(fh.gen, 4), Le(fh.pwhash, 4), [|fh.inos|], fh.inos);
    Associate(Le(dev, 4), Le(fh.ino, 8), Le(fh.gen, 4), Le(fh.pwhash, 4), [|fh.inos|], fh.inos);
    assert (Le(fh.dev, 4) + rest)[4..] == rest;
  }

  lemma Associate(a: seq<byte>, b: seq<byte>, c: seq<byte>, d: seq<byte>, e: seq<byte>, f: seq<byte>)
    ensures a + b + c + d + e + f == a + (b + (c + (d + (e + f))))
  {}

  /** The handle of any root, which has no hashes, resolves on B to the object of B's export root. */
  lemma RootAdjusted(fsB: Fs, rootB: Path, fh: Fh, junk: nat)
    requires fh.inos == [] && Comp(fsB, rootB, true, junk).Some? && Listed(fsB, rootB) && Searchable(rootB)
    requires fsB.stat[rootB].dev < 0x1_0000_0000 && (fsB.stat[rootB].dev != 0 || fsB.stat[rootB].ino != 0)
    ensures var found := Decomp(fsB, Adjust(Comp(fsB, rootB, true, junk), fh));
            found.Some? && SameObject(fsB, found.value, fsB.stat[rootB].dev, fsB.stat[rootB].ino)
  {
    LocalResolves(fsB, rootB, Comp(fsB, rootB, true, junk).value);
  }

  /** The tree below `rootB` on B is an image of the tree below `rootA` on A along `p`: the same
      inode numbers, roots of equal depth whose components hash alike, one device on B. */
  ghost predicate Mirrored(fsA: Fs, rootA: Path, fsB: Fs, rootB: Path, p: Path) {
    && |rootA| == |rootB| && Reachable(fsA, rootA + p) && Reachable(fsB, rootB + p)
    && (forall k :: 0 < k <= |rootA| ==>
          FhHash(fsA.stat[(rootA + p)[..k]].ino) == FhHash(fsB.stat[(rootB + p)[..k]].ino))
    && (forall k :: |rootA| <= k <= |rootA + p| ==>
          (rootA + p)[..k] in fsA.stat && (rootB + p)[..k] in fsB.stat &&
          fsA.stat[(rootA + p)[..k]].ino == fsB.stat[(rootB + p)[..k]].ino)
    && rootB in fsB.stat && fsB.stat[rootB + p].dev == fsB.stat[rootB].dev
  }

  /** After adjusting, A's handle is the one B would have composed, except for the generation. */
  lemma AdjustedIsComposed(fsA: Fs, rootA: Path, fsB: Fs, rootB: Path, p: Path, pw: nat, junk: nat)
    requires Mirrored(fsA, rootA, fsB, rootB, p)
    requires Comp(fsA, rootA + p, false, pw).Some? && Comp(fsB, rootB, true, junk).Some?
    ensures Comp(fsB, rootB + p, false, pw).Some?
    ensures var a := Adjust(Comp(fsB, rootB, true, junk), Comp(fsA, rootA + p, false, pw).value);
            var b := Comp(fsB, rootB + p, false, pw).value;
            a.dev == b.dev && a.ino == b.ino && a.inos == b.inos
  {
    var pa, pb := rootA + p, rootB + p;
    assert pa[..|pa|] == pa && pb[..|pb|] == pb;
    forall k | 0 <= k < |pa|
      ensures Hashes(fsA, pa)[k] == Hashes(fsB, pb)[k]
    {
      assert pa[..k + 1] in fsA.stat;
    }
    assert Hashes(fsA, pa) == Hashes(fsB, pb);
    if pa == [] { assert rootB == [] && p == []; }
  }

  /** A handle that A gave out for rootA/p, carried as bytes to B and adjusted there, resolves on B
      to the object at rootB/p. */
  lemma CrossReplica(fsA: Fs, rootA: Path, fsB: Fs, rootB: Path, p: Path, pw: nat, junk: nat)
    requires Mirrored(fsA, rootA, fsB, rootB, p)
    requires Comp(fsA, rootA + p, false, pw).Some? && Comp(fsA, rootA + p, false, pw).value.Fits()
    requires Comp(fsB, rootB, true, junk).Some? && Comp(fsB, rootB, true, junk).value.Fits()
    requires Listed(fsB, rootB + p) && Searchable(rootB + p)
    requires fsB.stat[rootB].dev < 0x1_0000_0000 && (fsB.stat[rootB].dev != 0 || fsB.stat[rootB + p].ino != 0)
    ensures var root := Comp(fsB, rootB, true, junk);
            var sent := AdjustBytes(root, Encode(Comp(fsA, rootA + p, false, pw).value));
            && sent.Some? && Decode(sent.value).Some?
            && var found := Decomp(fsB, Decode(sent.value).value);
            && found.Some?
            && SameObject(fsB, found.value, fsB.stat[rootB + p].dev, fsB.stat[rootB + p].ino)
  {
    var fhA := Comp(fsA, rootA + p, false, pw).value;
    var root := Comp(fsB, rootB, true, junk);
    EncodeDecode(fhA);
    AdjustBytesDecodes(root, Encode(fhA));
    AdjustedIsComposed(fsA, rootA, fsB, rootB, p, pw, junk);
    var fhB := Comp(fsB, rootB + p, false, pw).value;
    SameSearch(fsB, Adjust(root, fhA), fhB);
    LocalResolves(fsB, rootB + p, fhB);
  }

  lemma SameSearch(fs: Fs, a: Fh, b: Fh)
    requires a.dev == b.dev && a.ino == b.ino && a.inos == b.inos
    ensures Decomp(fs, a) == Decomp(fs, b)
  {}

  lemma LocalResolves(fs: Fs, path: Path, fh: Fh)
    requires Comp(fs, path, false, fh.pwhash) == Some(fh) && Listed(fs, path) && Searchable(path)
    requires fs.stat[path].dev < 0x1_0000_0000 && (fs.stat[path].dev != 0 || fs.stat[path].ino != 0)
    ensures Decomp(fs, fh).Some? && SameObject(fs, Decomp(fs, fh).value, fs.stat[path].dev, fs.stat[path].ino)
  {
    if path != [] { ComposedResolves(fs, path, fh); }
  }

  // ---------- the code ----------

  class NfsFh3 {
    var data: seq<byte>
    constructor (b: seq<byte>)
      ensures data == b
    {
      data := b;
    }
  }

  /** The root that is known after an attempt to work it out; the first exported directory is the root. */
  ghost function RootAfter(root: Option<Fh>, fs: Fs, exported: seq<Path>, junk: nat): Option<Fh> {
    if root.Some? || exported == [] then root
    else
      var fh := Comp(fs, exported[0], true, junk);
      if fh.Some? && fh.value.Valid() then fh else None
  }

  /** Once known the root stays, whatever becomes of the exports, and it never is the handle of nothing. */
  lemma RootStays(root: Option<Fh>, fs: Fs, exported: seq<Path>, junk: nat, fs2: Fs, exported2: seq<Path>, junk2: nat)
    requires root.Some? ==> root.value.Valid()
    ensures var r := RootAfter(root, fs, exported, junk);
            r.Some? ==> r.value.Valid() && RootAfter(r, fs2, exported2, junk2) == r
  {}

  /** The handle of the local export root, worked out once. */
  class LocalHandle {
    var root: Option<Fh>

    constructor ()
      ensures root == None
    {
      root := None;
    }

    /** init_local_handle */
    method Init(fs: Fs, exported: seq<Path>, junk: nat)
      modifies this
      ensures root == RootAfter(old(root), fs, exported, junk)
    {
      if root.Some? || exported == [] {
        return;
      }
      var fh := CompRaw(fs, exported[0], true, junk);
      if fh.Some? && fh.value.Valid() {
        root := fh;
      }
    }

    /** adjust_handle, for a handle whose bytes decode */
    method AdjustHandle(fs: Fs, exported: seq<Path>, junk: nat, fh: NfsFh3)
      requires Decode(fh.data).Some? && (root.Some? ==> root.value.Fits()) && junk < 0x1_0000_0000 && InRange(fs, junk)
      modifies this, fh
      ensures root == RootAfter(old(root), fs, exported, junk) && (root.Some? ==> root.value.Fits())
      ensures Some(fh.data) == AdjustBytes(root, old(fh.data))
      ensures Decode(fh.data) == Some(Adjust(root, Decode(old(fh.data)).value))
    {
      Init(fs, exported, junk);
      AdjustBytesDecodes(root, fh.data);
      if root.None? {
        return;
      }
      var obj := Decode(fh.data).value;
      if obj.inos == [] {
        fh.data := Encode(root.value);
        return;
      }
      if obj.dev != root.value.dev {
        fh.data := Encode(obj.(dev := root.value.dev));
      }
    }
  }
}
