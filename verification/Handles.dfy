/** File handles: what they hold, how they are composed and extended, and their bytes. */
module Handles {
  import opened Options
  import opened Bytes
  import opened Bits

  const FH_MINLEN := 21
  const FH_MAXBUF := 64
  const FH_MAXLEN := FH_MAXBUF - FH_MINLEN
  const NFS_MAXPATHLEN := 1024

  /** A path as its components; the root is the empty path. */
  type Path = seq<string>

  datatype Stat = Stat(dev: nat, ino: nat, gen: nat, isDir: bool)

  /** What lstat and opendir answer. Nothing ties the two together, so hard links, symbolic links,
      mounts and unreadable directories are all included. */
  datatype Fs = Fs(stat: map<Path, Stat>, dirs: map<Path, seq<string>>)

  /** `len` of the source is the length of `inos`. */
  datatype Fh = Fh(dev: nat, ino: nat, gen: nat, pwhash: nat, inos: seq<byte>) {
    /** fh_valid */
    predicate Valid() { dev != 0 || ino != 0 }
    predicate Fits() {
      dev < 0x1_0000_0000 && ino < 0x1_0000_0000_0000_0000 && gen < 0x1_0000_0000 &&
      pwhash < 0x1_0000_0000 && |inos| <= FH_MAXLEN
    }
  }

  /** n ^ (n >> 8) ^ ... with `k` shifts */
  function XorShifts(n: nat, k: nat): nat {
    if k == 0 then n else Xor(n, XorShifts(n / 256, k - 1))
  }

  /** FH_HASH */
  function FhHash(n: nat): byte { XorShifts(n, 7) % 256 }

  function XorAll(s: seq<byte>): nat { if s == [] then 0 else Xor(s[0], XorAll(s[1..])) }

  /** The hash of an inode number is the exclusive or of its eight bytes. */
  lemma HashIsXor(n: nat)
    requires n < 0x1_0000_0000_0000_0000
    ensures FhHash(n) == XorAll(Le(n, 8))
  {
    Widths();
    XorShiftsLow(n, 7);
  }

  lemma {:induction false} XorShiftsLow(n: nat, k: nat)
    requires n < Pow256(k + 1)
    ensures XorShifts(n, k) % 256 == XorAll(Le(n, k + 1))
    decreases k
  {
    if k == 0 {
      assert Le(n, 1) == [n % 256] && [n % 256][1..] == [];
    } else {
      XorShiftsLow(n / 256, k - 1);
      XorLow(n, XorShifts(n / 256, k - 1));
      assert Le(n, k + 1)[1..] == Le(n / 256, k);
    }
  }

  lemma XorLow(a: nat, b: nat)
    ensures Xor(a, b) % 256 == Xor(a % 256, b % 256)
  {
    assert Pow2(8) == 256;
    ShiftIs(a / 256, 8);
    ShiftIs(b / 256, 8);
    XorShifted(a % 256, a / 256, b % 256, b / 256, 8);
    ShiftIs(Xor(a / 256, b / 256), 8);
    XorBound(a % 256, b % 256, 8);
    LowByte(Xor(a % 256, b % 256), Xor(a / 256, b / 256));
  }

  lemma LowByte(r: nat, q: nat)
    requires r < 256
    ensures (r + q * 256) % 256 == r
  {}

  /** Handles hold 32 bits of the device number. */
  function Dev32(dev: nat): nat { dev % 0x1_0000_0000 }

  // ---------- composing ----------

  /** Every prefix of `path`, the root aside, can be examined. */
  ghost predicate Reachable(fs: Fs, path: Path) {
    path in fs.stat && forall k :: 0 < k <= |path| ==> path[..k] in fs.stat
  }

  ghost function Hashes(fs: Fs, path: Path): (r: seq<byte>)
    requires Reachable(fs, path)
  {
    seq(|path|, i requires 0 <= i < |path| => FhHash(fs.stat[path[..i + 1]].ino))
  }

  /** The handle of a path, if it has one. `pw` is what the password field holds. */
  ghost function Comp(fs: Fs, path: Path, needDir: bool, pw: nat): Option<Fh> {
    if Reachable(fs, path) && (needDir ==> fs.stat[path].isDir) && |path| <= FH_MAXLEN then
      var st := fs.stat[path];
      Some(Fh(Dev32(st.dev), st.ino, st.gen, pw, Hashes(fs, path)))
    else None
  }

  /** A path has a handle exactly if it and all paths above it but the root can be examined, it is at most 43
      deep, and it is a directory where one is asked for. Each level leaves one byte of its inode number. */
  lemma CompExact(fs: Fs, path: Path, needDir: bool, pw: nat)
    requires forall p :: p in fs.stat ==> fs.stat[p].ino < 0x1_0000_0000_0000_0000
    ensures var r := Comp(fs, path, needDir, pw);
            && (r.Some? <==> path in fs.stat && (forall k :: 0 < k < |path| ==> path[..k] in fs.stat) &&
                             |path| <= 43 && (needDir ==> fs.stat[path].isDir))
            && (r.Some? ==>
                  && r.value.dev == fs.stat[path].dev % 0x1_0000_0000 && r.value.ino == fs.stat[path].ino
                  && r.value.gen == fs.stat[path].gen && r.value.pwhash == pw && |r.value.inos| == |path|
                  && forall k :: 0 < k <= |path| ==>
                       path[..k] in fs.stat && r.value.inos[k - 1] == XorAll(Le(fs.stat[path[..k]].ino, 8)))
  {
    assert path[..|path|] == path;
    forall k | 0 < k <= |path| && path[..k] in fs.stat
      ensures FhHash(fs.stat[path[..k]].ino) == XorAll(Le(fs.stat[path[..k]].ino, 8))
    {
      HashIsXor(fs.stat[path[..k]].ino);
    }
  }

  lemma HashesAre(fs: Fs, path: Path, inos: seq<byte>)
    requires path in fs.stat && |inos| == |path|
    requires forall k :: 0 < k <= |path| ==> path[..k] in fs.stat && inos[k - 1] == FhHash(fs.stat[path[..k]].ino)
    ensures Reachable(fs, path) && inos == Hashes(fs, path)
  {
    forall i | 0 <= i < |path| ensures inos[i] == Hashes(fs, path)[i] { assert path[..i + 1] in fs.stat; }
  }

  /** fh_comp_raw without a request */
  method CompRaw(fs: Fs, path: Path, needDir: bool, pw: nat) returns (r: Option<Fh>)
    ensures r == Comp(fs, path, needDir, pw)
  {
    if path !in fs.stat {
      return None;
    }
    var st := fs.stat[path];
    if needDir && !st.isDir {
      return None;
    }
    var inos: seq<byte> := [];
    if path != [] {
      var pos := 0;
      while pos < |path| && pos < FH_MAXLEN
        invariant 0 <= pos == |inos| <= |path| && pos <= FH_MAXLEN
        invariant forall k :: 0 < k <= pos ==> path[..k] in fs.stat && inos[k - 1] == FhHash(fs.stat[path[..k]].ino)
      {
        var work := path[..pos + 1];
        if work !in fs.stat {
          return None;
        }
        inos := inos + [FhHash(fs.stat[work].ino)];
        pos := pos + 1;
      }
      if pos < |path| {
        return None;
      }
    }
    HashesAre(fs, path, inos);
    r := Some(Fh(Dev32(st.dev), st.ino, st.gen, pw, inos));
  }

  /** An entry of the exports list: its directory, its fixed id, and whether it is removable media. */
  datatype Export = Export(path: Path, fsid: nat, removable: bool)

  /** export_point_from_fsid */
  function PathOf(exports: seq<Export>, fsid: nat): Option<Path> {
    if exports == [] then None
    else if exports[0].fsid == fsid then Some(exports[0].path)
    else PathOf(exports[1..], fsid)
  }

  /** The id of `path` if it is the export point of removable media. */
  function FsidOf(exports: seq<Export>, path: Path): Option<nat> {
    if exports == [] then None
    else if exports[0].path == path then if exports[0].removable then Some(exports[0].fsid) else None
    else FsidOf(exports[1..], path)
  }

  /** An id stands for the first export that has it. */
  lemma {:induction false} PathOfIs(exports: seq<Export>, fsid: nat) returns (k: nat)
    ensures match PathOf(exports, fsid)
            case Some(p) =>
              && k < |exports| && exports[k].fsid == fsid && exports[k].path == p
              && forall j :: 0 <= j < k ==> exports[j].fsid != fsid
            case None => forall j :: 0 <= j < |exports| ==> exports[j].fsid != fsid
    decreases |exports|
  {
    k := 0;
    if exports != [] && exports[0].fsid != fsid {
      var j := PathOfIs(exports[1..], fsid);
      k := j + 1;
      assert forall i :: 0 < i < |exports| ==> exports[i] == exports[1..][i - 1];
    }
  }

  /** Whether a path is removable media is decided by the first export that has it. */
  lemma {:induction false} FsidOfIs(exports: seq<Export>, path: Path) returns (k: nat)
    ensures match FsidOf(exports, path)
            case Some(id) => k < |exports| && exports[k].path == path && exports[k].removable && exports[k].fsid == id
            case None => k == |exports| || (k < |exports| && exports[k].path == path && !exports[k].removable)
    ensures forall j :: 0 <= j < k ==> exports[j].path != path
    decreases |exports|
  {
    k := 0;
    if exports != [] && exports[0].path != path {
      var j := FsidOfIs(exports[1..], path);
      k := j + 1;
      assert forall i :: 0 < i < |exports| ==> exports[i] == exports[1..][i - 1];
    }
  }

  /** The preset handle of removable media, which has no hashes. */
  function Preset(fsid: nat, pw: nat): Fh { Fh(fsid, 1, 0, pw, []) }

  /** fh_comp for a request: export points of removable media get their preset handle. */
  ghost function CompFor(fs: Fs, exports: seq<Export>, path: Path, pw: nat): (r: Option<Fh>)
    ensures r.Some? ==> |r.value.inos| <= FH_MAXLEN
  {
    var fsid := FsidOf(exports, path);
    if fsid.Some? then Some(Preset(fsid.value, pw)) else Comp(fs, path, false, pw)
  }

  /** `fh` is a handle that the server gives out for `path`. */
  ghost predicate HandleFor(fs: Fs, exports: seq<Export>, fh: Fh, path: Path, pw: nat) {
    Comp(fs, path, false, pw) == Some(fh) ||
    (FsidOf(exports, path).Some? && fh == Preset(FsidOf(exports, path).value, pw))
  }

  /** fh_extend; `exported` is the export point, if any, whose fixed id is the handle's device. */
  ghost function Extend(fs: Fs, fh: Fh, dev: nat, ino: nat, gen: nat, pw: nat, exported: Option<Path>): (r: Option<Fh>)
    requires |fh.inos| <= FH_MAXLEN
    ensures r.Some? ==> |r.value.inos| <= FH_MAXLEN
  {
    var base :- if fh.inos == [] && exported.Some? then Comp(fs, exported.value, false, pw) else Some(fh);
    if |base.inos| == FH_MAXLEN || (fh.inos == [] && exported.Some? && !base.Valid()) then None
    else Some(Fh(dev, ino, gen, pw, base.inos + [FhHash(ino)]))
  }

  /** The handle of `dir` is extended from hashes that are those of `dir`: its own, or those of the export
      point that its device number is taken for. */
  ghost predicate Based(fs: Fs, exports: seq<Export>, fh: Fh, dir: Path)
    requires Reachable(fs, dir)
  {
    fh.inos != [] ||
    match PathOf(exports, fh.dev)
    case None => dir == []
    case Some(p) => Reachable(fs, p) && Hashes(fs, p) == Hashes(fs, dir)
  }

  /** The object's device and inode, as a handle holds them, are not both zero. */
  ghost predicate Nonzero(fs: Fs) {
    forall p :: p in fs.stat ==> Dev32(fs.stat[p].dev) != 0 || fs.stat[p].ino != 0
  }

  lemma HashesExtend(fs: Fs, dir: Path, name: string)
    requires Reachable(fs, dir) && dir + [name] in fs.stat
    ensures Reachable(fs, dir + [name])
    ensures Hashes(fs, dir + [name]) == Hashes(fs, dir) + [FhHash(fs.stat[dir + [name]].ino)]
  {
    var p := dir + [name];
    assert p[..|p|] == p;
    forall k | 0 < k <= |dir| ensures p[..k] == dir[..k] {}
  }

  /** Looking up a child in a directory gives the handle that composing the child's path gives exactly if
      the directory's handle is extended from the right hashes. The directory may be removable media. */
  lemma ExtendCommutes(fs: Fs, exports: seq<Export>, fh: Fh, dir: Path, name: string, pw: nat)
    requires HandleFor(fs, exports, fh, dir, pw) && Nonzero(fs)
    requires Reachable(fs, dir) && dir + [name] in fs.stat && |dir| < FH_MAXLEN
    ensures |fh.inos| <= FH_MAXLEN
    ensures var st := fs.stat[dir + [name]];
            var got := Extend(fs, fh, Dev32(st.dev), st.ino, st.gen, pw, PathOf(exports, fh.dev));
            got == Comp(fs, dir + [name], false, pw) <==> Based(fs, exports, fh, dir)
  {
    HashesExtend(fs, dir, name);
    var h := [FhHash(fs.stat[dir + [name]].ino)];
    var p := PathOf(exports, fh.dev);
    if fh.inos == [] && p.Some? && Reachable(fs, p.value) { SameFront(Hashes(fs, p.value), Hashes(fs, dir), h); }
    if fh.inos == [] && p.None? { SameFront([], Hashes(fs, dir), h); }
  }

  lemma SameFront(a: seq<byte>, b: seq<byte>, c: seq<byte>)
    ensures a + c == b + c <==> a == b
  {
    if a + c == b + c { assert a == (a + c)[..|a|] && b == (b + c)[..|b|]; }
  }

  /** At depth 43 neither way gives a handle. */
  lemma ExtendTooDeep(fs: Fs, exports: seq<Export>, fh: Fh, dir: Path, name: string, pw: nat)
    requires HandleFor(fs, exports, fh, dir, pw) && Reachable(fs, dir) && dir + [name] in fs.stat
    requires |dir| >= FH_MAXLEN && Based(fs, exports, fh, dir)
    ensures var st := fs.stat[dir + [name]];
            && |fh.inos| <= FH_MAXLEN && Comp(fs, dir + [name], false, pw) == None
            && Extend(fs, fh, Dev32(st.dev), st.ino, st.gen, pw, PathOf(exports, fh.dev)) == None
  {}

  /** For the root: the names in it get their handles exactly if no other export has the root's device
      number for its id. */
  lemma RootExtends(fs: Fs, exports: seq<Export>, fh: Fh, name: string, pw: nat)
    requires Comp(fs, [], false, pw) == Some(fh) && Nonzero(fs) && [name] in fs.stat
    ensures var st := fs.stat[[name]];
            var got := Extend(fs, fh, Dev32(st.dev), st.ino, st.gen, pw, PathOf(exports, fh.dev));
            got == Comp(fs, [name], false, pw) <==> PathOf(exports, fh.dev) in {None, Some([])}
  {
    assert [] + [name] == [name];
    ExtendCommutes(fs, exports, fh, [], name, pw);
  }

  // ---------- bytes ----------

  /** fh_encode: host byte order, one length byte, then the hashes. */
  function Encode(fh: Fh): (b: seq<byte>)
    requires |fh.inos| <= FH_MAXLEN
    ensures |b| == FH_MINLEN + |fh.inos| <= FH_MAXBUF
  {
    Le(fh.dev, 4) + Le(fh.ino, 8) + Le(fh.gen, 4) + Le(fh.pwhash, 4) + [|fh.inos|] + fh.inos
  }

  /** fh_decode; `None` where the source's assertions stop the server. */
  function Decode(b: seq<byte>): Option<Fh> {
    if FH_MINLEN <= |b| <= FH_MAXBUF && |b| == FH_MINLEN + b[20] then
      Some(Fh(FromLe(b[..4]), FromLe(b[4..12]), FromLe(b[12..16]), FromLe(b[16..20]), b[21..]))
    else None
  }

  /** nfh_valid, for bytes that decode */
  predicate NfhValid(b: seq<byte>) {
    Decode(b).Some? && |b| >= FH_MINLEN && |b| == FH_MINLEN + |Decode(b).value.inos|
  }

  lemma EncodeDecode(fh: Fh)
    requires fh.Fits()
    ensures Decode(Encode(fh)) == Some(fh) && NfhValid(Encode(fh))
  {
    Widths();
    LeRoundTrip(fh.dev, 4);
    LeRoundTrip(fh.ino, 8);
    LeRoundTrip(fh.gen, 4);
    LeRoundTrip(fh.pwhash, 4);
    FieldsApart(Le(fh.dev, 4), Le(fh.ino, 8), Le(fh.gen, 4), Le(fh.pwhash, 4), |fh.inos|, fh.inos);
  }

  lemma FieldsApart(dev: seq<byte>, ino: seq<byte>, gen: seq<byte>, pw: seq<byte>, len: byte, inos: seq<byte>)
    requires |dev| == 4 && |ino| == 8 && |gen| == 4 && |pw| == 4
    ensures var b := dev + ino + gen + pw + [len] + inos;
            && b[..4] == dev && b[4..12] == ino && b[12..16] == gen && b[16..20] == pw
            && b[20] == len && b[21..] == inos
  {}

  /** Which bytes hold which field. */
  lemma EncodeLayout(fh: Fh)
    requires |fh.inos| <= FH_MAXLEN
    ensures var b := Encode(fh);
            && b[..4] == Le(fh.dev, 4) && b[4..12] == Le(fh.ino, 8) && b[12..16] == Le(fh.gen, 4)
            && b[16..20] == Le(fh.pwhash, 4) && b[20] == |fh.inos| && b[21..] == fh.inos
  {
    FieldsApart(Le(fh.dev, 4), Le(fh.ino, 8), Le(fh.gen, 4), Le(fh.pwhash, 4), |fh.inos|, fh.inos);
  }

  lemma DecodeEncode(b: seq<byte>)
    requires Decode(b).Some?
    ensures Decode(b).value.Fits() && Encode(Decode(b).value) == b && NfhValid(b)
  {
    Widths();
    LeOnto(b[..4]);
    LeOnto(b[4..12]);
    LeOnto(b[12..16]);
    LeOnto(b[16..20]);
    assert b == b[..4] + b[4..12] + b[12..16] + b[16..20] + [b[20]] + b[21..];
  }

  method CopyInto(buffer: array<byte>, offset: nat, bytes: seq<byte>)
    requires offset + |bytes| <= buffer.Length
    modifies buffer
    ensures buffer[..offset + |bytes|] == old(buffer[..offset]) + bytes
  {
    for i := 0 to |bytes|
      invariant buffer[..offset + i] == old(buffer[..offset]) + bytes[..i]
    {
      buffer[offset + i] := bytes[i];
    }
  }

  /** fh_encode into the caller's buffer */
  method EncodeInto(fh: Fh, buffer: array<byte>) returns (len: nat)
    requires |fh.inos| <= FH_MAXLEN && buffer.Length >= FH_MAXBUF
    modifies buffer
    ensures len <= buffer.Length && buffer[..len] == Encode(fh)
  {
    len := FH_MINLEN + |fh.inos|;
    CopyInto(buffer, 0, Le(fh.dev, 4));
    CopyInto(buffer, 4, Le(fh.ino, 8));
    CopyInto(buffer, 12, Le(fh.gen, 4));
    CopyInto(buffer, 16, Le(fh.pwhash, 4));
    CopyInto(buffer, 20, [|fh.inos|]);
    if fh.inos != [] {
      CopyInto(buffer, 21, fh.inos);
    }
  }

  // ---------- chains of lookups ----------

  /** A file system whose numbers fit the fields of a handle. */
  ghost predicate InRange(fs: Fs, pw: nat) {
    pw < 0x1_0000_0000 &&
    forall p :: p in fs.stat ==> fs.stat[p].ino < 0x1_0000_0000_0000_0000 && fs.stat[p].gen < 0x1_0000_0000
  }

  /** cat_name */
  function CatName(dir: Path, name: string): Path {
    if name == "." then dir
    else if name == ".." then if dir == [] then [] else dir[..|dir| - 1]
    else dir + [name]
  }

  /** Where looking up `names` one after the other leads. */
  function Where(base: Path, names: seq<string>): Path {
    if names == [] then base
    else CatName(Where(base, names[..|names| - 1]), names[|names| - 1])
  }

  ghost predicate ReachableAlong(fs: Fs, base: Path, names: seq<string>) {
    && (names != [] ==> ReachableAlong(fs, base, names[..|names| - 1]))
    && Reachable(fs, Where(base, names))
  }

  /** Every handle that the server gives out for a directory on the way is extended from the right hashes. */
  ghost predicate BasedAlong(fs: Fs, exports: seq<Export>, base: Path, names: seq<string>, pw: nat)
    requires ReachableAlong(fs, base, names)
  {
    names != [] ==>
      var dir := Where(base, names[..|names| - 1]);
      && BasedAlong(fs, exports, base, names[..|names| - 1], pw)
      && forall fh :: HandleFor(fs, exports, fh, dir, pw) ==> Based(fs, exports, fh, dir)
  }

  ghost predicate ShallowAlong(base: Path, names: seq<string>) {
    && (names != [] ==> ShallowAlong(base, names[..|names| - 1]))
    && |Where(base, names)| <= FH_MAXLEN
  }

  /** LOOKUP: dot names have their path composed anew, other names extend the directory's handle. */
  ghost function Looked(fs: Fs, exports: seq<Export>, fh: Fh, name: string, path: Path, pw: nat): (r: Option<Fh>)
    requires |fh.inos| <= FH_MAXLEN && path in fs.stat
    ensures r.Some? ==> |r.value.inos| <= FH_MAXLEN
  {
    if name == "." || name == ".." then
      var c := CompFor(fs, exports, path, pw);
      if c.Some? && c.value.Valid() then c else None
    else
      var st := fs.stat[path];
      Extend(fs, fh, Dev32(st.dev), st.ino, st.gen, pw, PathOf(exports, fh.dev))
  }

  /** What a client holds that mounts `base` and looks up `names` one by one, each handle travelling
      as bytes in between. */
  ghost function LookupChain(fs: Fs, exports: seq<Export>, base: Path, names: seq<string>, pw: nat): (r: Option<Fh>)
    requires ReachableAlong(fs, base, names)
    ensures r.Some? ==> |r.value.inos| <= FH_MAXLEN
    decreases |names|
  {
    if names == [] then CompFor(fs, exports, base, pw)
    else
      var fh :- LookupChain(fs, exports, base, names[..|names| - 1], pw);
      var received :- Decode(Encode(fh));
      Looked(fs, exports, received, names[|names| - 1], Where(base, names), pw)
  }

  lemma LookedIs(fs: Fs, exports: seq<Export>, fh: Fh, dir: Path, name: string, pw: nat)
    requires HandleFor(fs, exports, fh, dir, pw) && Nonzero(fs) && |fh.inos| <= FH_MAXLEN
    requires Reachable(fs, dir) && Reachable(fs, CatName(dir, name)) && Based(fs, exports, fh, dir)
    ensures var path := CatName(dir, name); var r := Looked(fs, exports, fh, name, path, pw);
            && (r.Some? ==> HandleFor(fs, exports, r.value, path, pw))
            && (|path| <= FH_MAXLEN ==> r.Some?)
            && (FsidOf(exports, path) == None ==> r == Comp(fs, path, false, pw))
  {
    if name != "." && name != ".." {
      if |dir| < FH_MAXLEN { ExtendCommutes(fs, exports, fh, dir, name, pw); }
      else { ExtendTooDeep(fs, exports, fh, dir, name, pw); }
    }
  }

  lemma HandleFits(fs: Fs, exports: seq<Export>, fh: Fh, path: Path, pw: nat)
    requires HandleFor(fs, exports, fh, path, pw) && InRange(fs, pw)
    requires forall x :: x in exports ==> x.fsid < 0x1_0000_0000
    ensures fh.Fits()
  {
    if FsidOf(exports, path).Some? { FsidListed(exports, path); }
  }

  lemma {:induction false} FsidListed(exports: seq<Export>, path: Path)
    requires FsidOf(exports, path).Some?
    ensures exists x :: x in exports && x.fsid == FsidOf(exports, path).value
  {
    if exports[0].path == path { assert exports[0] in exports; }
    else { FsidListed(exports[1..], path); }
  }

  /** Any chain of lookups, also through dot names and into removable media, yields a handle of the
      place it leads to: the composed handle, or the preset one of an export point. Without
      removable media it succeeds exactly if it never goes past depth 43. */
  lemma {:induction false} ChainIsComp(fs: Fs, exports: seq<Export>, base: Path, names: seq<string>, pw: nat)
    requires ReachableAlong(fs, base, names) && BasedAlong(fs, exports, base, names, pw)
    requires InRange(fs, pw) && Nonzero(fs)
    requires forall x :: x in exports ==> x.fsid < 0x1_0000_0000
    ensures var r := LookupChain(fs, exports, base, names, pw); var path := Where(base, names);
            && (r.Some? ==> HandleFor(fs, exports, r.value, path, pw))
            && (ShallowAlong(base, names) ==> r.Some?)
            && ((forall x :: x in exports ==> !x.removable) ==> (r.Some? <==> ShallowAlong(base, names)))
    decreases |names|
  {
    if forall x :: x in exports ==> !x.removable {
      NoneRemovable(exports, Where(base, names));
    }
    if names != [] {
      var before, dir := names[..|names| - 1], Where(base, names[..|names| - 1]);
      ChainIsComp(fs, exports, base, before, pw);
      var fh := LookupChain(fs, exports, base, before, pw);
      if fh.Some? {
        HandleFits(fs, exports, fh.value, dir, pw);
        EncodeDecode(fh.value);
        LookedIs(fs, exports, fh.value, dir, names[|names| - 1], pw);
      }
    }
  }

  lemma {:induction false} NoneRemovable(exports: seq<Export>, path: Path)
    requires forall x :: x in exports ==> !x.removable
    ensures FsidOf(exports, path) == None
  {
    if exports != [] {
      assert exports[0] in exports;
      NoneRemovable(exports[1..], path);
    }
  }
}
