/** The handles in the arguments of a call, all of which a replica adjusts before it runs the call. */
module Adjusting {
  import opened Options
  import opened Bytes
  import opened Xdr
  import opened NfsArgs
  import Handles
  import LogEntries
  import opened Replica

  type Adjuster = seq<byte> -> seq<byte>

  /** adjust_handles_for_proc, for arguments of the procedure's type */
  function AdjustArgs(proc: nat, f: Adjuster, v: Val): Val
    requires ArgsOf(proc).Some? && Typed(ArgsOf(proc).value, v)
  {
    match proc
    case 1 => Data(f(v.b))                          // GETATTR
    case 2 => Both(Data(f(v.a.b)), v.b2)            // SETATTR
    case 3 => Both(Data(f(v.a.b)), v.b2)            // LOOKUP
    case 4 => Both(Data(f(v.a.b)), v.b2)            // ACCESS
    case 5 => Data(f(v.b))                          // READLINK
    case 6 => Both(Data(f(v.a.b)), v.b2)            // READ
    case 7 => Both(Data(f(v.a.b)), v.b2)            // WRITE
    case 8 => Both(DirOf(f, v.a), v.b2)             // CREATE
    case 9 => Both(DirOf(f, v.a), v.b2)             // MKDIR
    case 10 => Both(DirOf(f, v.a), v.b2)            // SYMLINK
    case 11 => Both(DirOf(f, v.a), v.b2)            // MKNOD
    case 12 => DirOf(f, v)                          // REMOVE
    case 13 => DirOf(f, v)                          // RMDIR
    case 14 => Both(DirOf(f, v.a), DirOf(f, v.b2))  // RENAME
    case 15 => Both(Data(f(v.a.b)), DirOf(f, v.b2)) // LINK
    case 16 => Both(Data(f(v.a.b)), v.b2)           // READDIR
    case 17 => Both(Data(f(v.a.b)), v.b2)           // READDIRPLUS
    case 18 => Data(f(v.b))                         // FSSTAT
    case 19 => Data(f(v.b))                         // FSINFO
    case 20 => Data(f(v.b))                         // PATHCONF
    case 21 => Both(Data(f(v.a.b)), v.b2)           // COMMIT
    case _ => v
  }

  /** The directory of a diropargs3 */
  function DirOf(f: Adjuster, v: Val): Val
    requires Typed(DirOp3, v)
  {
    Both(Data(f(v.a.b)), v.b2)
  }

  /** Every handle in a value of any type, wherever it stands: handles are the opaques of at most 64 bytes. */
  function MapHandles(s: Schema, f: Adjuster, v: Val): Val
    requires Typed(s, v)
    decreases s
  {
    match s
    case VarBytes(max) => if max == 64 then Data(f(v.b)) else v
    case Pair(x, y) => Both(MapHandles(x, f, v.a), MapHandles(y, f, v.b2))
    case Union(_, arms) => Choice(v.tag, MapArm(arms, v.tag, f, v.v))
    case _ => v
  }

  function MapArm(arms: Arms, tag: nat, f: Adjuster, v: Val): Val
    requires TypedArm(arms, tag, v)
    decreases arms
  {
    match arms
    case Default(_) => v
    case Arm(t, body, others) => if t == tag then MapHandles(body, f, v) else MapArm(others, tag, f, v)
  }

  predicate NoHandle(s: Schema)
    decreases s
  {
    match s
    case VarBytes(max) => max != 64
    case Pair(x, y) => NoHandle(x) && NoHandle(y)
    case Union(_, arms) => NoHandleArm(arms)
    case _ => true
  }

  predicate NoHandleArm(arms: Arms)
    decreases arms
  {
    arms.Arm? ==> NoHandle(arms.body) && NoHandleArm(arms.others)
  }

  lemma {:induction false} Untouched(s: Schema, f: Adjuster, v: Val)
    requires Typed(s, v) && NoHandle(s)
    ensures MapHandles(s, f, v) == v
    decreases s
  {
    match s
    case Pair(x, y) => Untouched(x, f, v.a); Untouched(y, f, v.b2);
    case Union(_, arms) => UntouchedArm(arms, v.tag, f, v.v);
    case _ =>
  }

  lemma {:induction false} UntouchedArm(arms: Arms, tag: nat, f: Adjuster, v: Val)
    requires TypedArm(arms, tag, v) && NoHandleArm(arms)
    ensures MapArm(arms, tag, f, v) == v
    decreases arms
  {
    if arms.Arm? {
      if arms.tag == tag { Untouched(arms.body, f, v); } else { UntouchedArm(arms.others, tag, f, v); }
    }
  }

  lemma AttributesHaveNone()
    ensures NoHandle(Sattr3) && NoHandle(Guard3) && NoHandle(CreateHow3) && NoHandle(MknodData3)
  {
    assert NoHandle(Opt(UInt(4))) && NoHandle(Opt(UInt(8))) && NoHandle(Time3) && NoHandle(SetTime);
    assert NoHandle(Pair(SetTime, SetTime));
    assert NoHandle(Pair(Opt(UInt(8)), Pair(SetTime, SetTime)));
    assert NoHandle(Pair(Opt(UInt(4)), Pair(Opt(UInt(8)), Pair(SetTime, SetTime))));
    assert NoHandle(Pair(Opt(UInt(4)), Pair(Opt(UInt(4)), Pair(Opt(UInt(8)), Pair(SetTime, SetTime)))));
    assert NoHandle(Sattr3);
    assert NoHandleArm(Arm(1, Sattr3, Arm(2, Opaque(8), Default(true))));
    assert NoHandleArm(Arm(6, Sattr3, Arm(7, Sattr3, Default(false))));
    assert NoHandleArm(Arm(3, Pair(Sattr3, Spec3), Arm(6, Sattr3, Arm(7, Sattr3, Default(false)))));
  }

  lemma FirstOnly(y: Schema, f: Adjuster, v: Val)
    requires Typed(Pair(Fh3, y), v) && v.Both? && Typed(Fh3, v.a) && NoHandle(y)
    ensures MapHandles(Pair(Fh3, y), f, v) == Both(Data(f(v.a.b)), v.b2)
  {
    Untouched(y, f, v.b2);
  }

  lemma DirOnly(y: Schema, f: Adjuster, v: Val)
    requires Typed(Pair(DirOp3, y), v) && NoHandle(y)
    ensures MapHandles(Pair(DirOp3, y), f, v) == Both(DirOf(f, v.a), v.b2)
  {
    Untouched(y, f, v.b2);
  }

  lemma TailsHaveNone(proc: nat)
    requires proc in {2, 4, 6, 7, 8, 9, 10, 11, 16, 17, 21}
    ensures NoHandle(ArgsOf(proc).value.snd)
  {
    AttributesHaveNone();
  }

  lemma FirstAdjusted(proc: nat, f: Adjuster, v: Val)
    requires proc in {2, 4, 6, 7, 16, 17, 21} && Typed(ArgsOf(proc).value, v)
    ensures AdjustArgs(proc, f, v) == MapHandles(ArgsOf(proc).value, f, v)
  {
    var y := ArgsOf(proc).value.snd;
    TailsHaveNone(proc);
    assert ArgsOf(proc).value == Pair(Fh3, y) && Typed(Pair(Fh3, y), v);
    FirstOnly(y, f, v);
  }

  lemma DirAdjusted(proc: nat, f: Adjuster, v: Val)
    requires proc in {8, 9, 10, 11} && Typed(ArgsOf(proc).value, v)
    ensures AdjustArgs(proc, f, v) == MapHandles(ArgsOf(proc).value, f, v)
  {
    var y := ArgsOf(proc).value.snd;
    TailsHaveNone(proc);
    assert ArgsOf(proc).value == Pair(DirOp3, y) && Typed(Pair(DirOp3, y), v);
    DirOnly(y, f, v);
  }

  /** No procedure's list of handles forgets one, and nothing but handles is changed. */
  lemma AllAdjusted(proc: nat, f: Adjuster, v: Val)
    requires ArgsOf(proc).Some? && Typed(ArgsOf(proc).value, v)
    ensures AdjustArgs(proc, f, v) == MapHandles(ArgsOf(proc).value, f, v)
  {
    if proc in {2, 4, 6, 7, 16, 17, 21} {
      FirstAdjusted(proc, f, v);
    } else if proc in {8, 9, 10, 11} {
      DirAdjusted(proc, f, v);
    } else if proc in {14, 15} {
      assert MapHandles(DirOp3, f, v.b2) == DirOf(f, v.b2);
    }
  }

  // ---------- the arguments afterwards ----------

  /** What becomes of the bytes of a handle; those that do not decode stop the server. */
  function With(root: Option<Handles.Fh>): Adjuster
    requires root.Some? ==> |root.value.inos| <= Handles.FH_MAXLEN
  {
    (b: seq<byte>) => var c := AdjustBytes(root, b); if c.Some? then c.value else b
  }

  ghost predicate KeepsSize(f: Adjuster) { forall b :: |b| <= 64 ==> |f(b)| <= 64 }

  /** Adjusted arguments are arguments of the same procedure. */
  lemma {:induction false} StaysTyped(s: Schema, f: Adjuster, v: Val)
    requires Typed(s, v) && KeepsSize(f)
    ensures Typed(s, MapHandles(s, f, v))
    decreases s
  {
    match s
    case VarBytes(max) => Widths();
    case Pair(x, y) => StaysTyped(x, f, v.a); StaysTyped(y, f, v.b2);
    case Union(_, arms) => ArmStaysTyped(arms, v.tag, f, v.v);
    case _ =>
  }

  lemma {:induction false} ArmStaysTyped(arms: Arms, tag: nat, f: Adjuster, v: Val)
    requires TypedArm(arms, tag, v) && KeepsSize(f)
    ensures TypedArm(arms, tag, MapArm(arms, tag, f, v))
    decreases arms
  {
    if arms.Arm? {
      if arms.tag == tag { StaysTyped(arms.body, f, v); } else { ArmStaysTyped(arms.others, tag, f, v); }
    }
  }

  /** All handles in a value satisfy `p`. */
  ghost predicate EachHandle(s: Schema, p: seq<byte> -> bool, v: Val)
    requires Typed(s, v)
    decreases s
  {
    match s
    case VarBytes(max) => max == 64 ==> p(v.b)
    case Pair(x, y) => EachHandle(x, p, v.a) && EachHandle(y, p, v.b2)
    case Union(_, arms) => EachInArm(arms, v.tag, p, v.v)
    case _ => true
  }

  ghost predicate EachInArm(arms: Arms, tag: nat, p: seq<byte> -> bool, v: Val)
    requires TypedArm(arms, tag, v)
    decreases arms
  {
    arms.Arm? ==> if arms.tag == tag then EachHandle(arms.body, p, v) else EachInArm(arms.others, tag, p, v)
  }

  /** The handles afterwards are the images of those before. */
  lemma {:induction false} EachAdjusted(s: Schema, f: Adjuster, p: seq<byte> -> bool, v: Val)
    requires Typed(s, v) && KeepsSize(f) && Typed(s, MapHandles(s, f, v))
    ensures EachHandle(s, p, MapHandles(s, f, v)) <==> EachHandle(s, b => p(f(b)), v)
    decreases s
  {
    match s
    case Pair(x, y) => EachAdjusted(x, f, p, v.a); EachAdjusted(y, f, p, v.b2);
    case Union(_, arms) => EachAdjustedArm(arms, v.tag, f, p, v.v);
    case _ =>
  }

  lemma {:induction false} EachAdjustedArm(arms: Arms, tag: nat, f: Adjuster, p: seq<byte> -> bool, v: Val)
    requires TypedArm(arms, tag, v) && KeepsSize(f) && TypedArm(arms, tag, MapArm(arms, tag, f, v))
    ensures EachInArm(arms, tag, p, MapArm(arms, tag, f, v)) <==> EachInArm(arms, tag, b => p(f(b)), v)
    decreases arms
  {
    if arms.Arm? {
      if arms.tag == tag { EachAdjusted(arms.body, f, p, v); } else { EachAdjustedArm(arms.others, tag, f, p, v); }
    }
  }

  lemma {:induction false} EachImplies(s: Schema, p: seq<byte> -> bool, q: seq<byte> -> bool, v: Val)
    requires Typed(s, v) && EachHandle(s, p, v) && forall b :: p(b) ==> q(b)
    ensures EachHandle(s, q, v)
    decreases s
  {
    match s
    case Pair(x, y) => EachImplies(x, p, q, v.a); EachImplies(y, p, q, v.b2);
    case Union(_, arms) => EachInArmImplies(arms, v.tag, p, q, v.v);
    case _ =>
  }

  lemma {:induction false} EachInArmImplies(arms: Arms, tag: nat, p: seq<byte> -> bool, q: seq<byte> -> bool, v: Val)
    requires TypedArm(arms, tag, v) && EachInArm(arms, tag, p, v) && forall b :: p(b) ==> q(b)
    ensures EachInArm(arms, tag, q, v)
    decreases arms
  {
    if arms.Arm? {
      if arms.tag == tag { EachImplies(arms.body, p, q, v); } else { EachInArmImplies(arms.others, tag, p, q, v); }
    }
  }

  predicate Decodes(b: seq<byte>) { Handles.Decode(b).Some? }

  /** The handle is one for the device of `root`. */
  predicate Local(root: Handles.Fh, b: seq<byte>) { Decodes(b) && Handles.Decode(b).value.dev == root.dev }

  lemma AdjustedLocal(root: Handles.Fh, b: seq<byte>)
    requires root.Fits() && Decodes(b)
    ensures Local(root, With(Some(root))(b))
  {
    AdjustBytesDecodes(Some(root), b);
  }

  lemma WithKeepsSize(root: Handles.Fh)
    requires root.Fits()
    ensures KeepsSize(With(Some(root)))
  {}

  /** What a replica runs for an entry of the log is the leader's call with every handle, and nothing else,
      rewritten to the replica's own device. */
  lemma EntryRunsLocally(c: LogEntries.Call, root: Handles.Fh)
    requires LogEntries.Loggable(c) && LogEntries.Build(c).Some? && root.Fits()
    requires EachHandle(ArgsOf(c.proc).value, Decodes, c.args)
    ensures var got := LogEntries.Parse(true, LogEntries.Build(c).value); var s := ArgsOf(c.proc).value;
            && got == Some(c)
            && var args := AdjustArgs(c.proc, With(Some(root)), got.value.args);
               && args == MapHandles(s, With(Some(root)), c.args) && Typed(s, args)
               && EachHandle(s, b => Local(root, b), args)
  {
    var s, f := ArgsOf(c.proc).value, With(Some(root));
    var local := b => Local(root, b);
    LogEntries.LogRoundTrip(c);
    AllAdjusted(c.proc, f, c.args);
    WithKeepsSize(root);
    StaysTyped(s, f, c.args);
    forall b | Decodes(b) ensures local(f(b)) { AdjustedLocal(root, b); }
    EachImplies(s, Decodes, b => local(f(b)), c.args);
    EachAdjusted(s, f, local, c.args);
  }

  // ---------- the code ----------

  method AdjustData(l: LocalHandle, fs: Handles.Fs, exported: seq<Handles.Path>, junk: nat, v: Val) returns (r: Val)
    requires v.Data? && Decodes(v.b)
    requires (l.root.Some? ==> l.root.value.Fits()) && junk < 0x1_0000_0000 && Handles.InRange(fs, junk)
    modifies l
    ensures l.root == RootAfter(old(l.root), fs, exported, junk) && (l.root.Some? ==> l.root.value.Fits())
    ensures r == Data(With(l.root)(v.b))
  {
    var fh := new NfsFh3(v.b);
    l.AdjustHandle(fs, exported, junk, fh);
    r := Data(fh.data);
  }

  method AdjustDir(l: LocalHandle, fs: Handles.Fs, exported: seq<Handles.Path>, junk: nat, v: Val) returns (r: Val)
    requires Typed(DirOp3, v) && EachHandle(DirOp3, Decodes, v)
    requires (l.root.Some? ==> l.root.value.Fits()) && junk < 0x1_0000_0000 && Handles.InRange(fs, junk)
    modifies l
    ensures l.root == RootAfter(old(l.root), fs, exported, junk) && (l.root.Some? ==> l.root.value.Fits())
    ensures r == DirOf(With(l.root), v)
  {
    var h := AdjustData(l, fs, exported, junk, v.a);
    r := Both(h, v.b2);
  }

  /** RENAME and LINK have two handles. */
  method AdjustTwo(l: LocalHandle, fs: Handles.Fs, exported: seq<Handles.Path>, junk: nat, proc: nat, v: Val)
    returns (r: Val)
    requires proc in {14, 15} && Typed(ArgsOf(proc).value, v) && EachHandle(ArgsOf(proc).value, Decodes, v)
    requires (l.root.Some? ==> l.root.value.Fits()) && junk < 0x1_0000_0000 && Handles.InRange(fs, junk)
    modifies l
    ensures l.root == RootAfter(old(l.root), fs, exported, junk) && (l.root.Some? ==> l.root.value.Fits())
    ensures r == AdjustArgs(proc, With(l.root), v)
  {
    var first;
    if proc == 14 {
      first := AdjustDir(l, fs, exported, junk, v.a);
    } else {
      first := AdjustData(l, fs, exported, junk, v.a);
    }
    var second := AdjustDir(l, fs, exported, junk, v.b2);
    r := Both(first, second);
  }

  /** adjust_handles_for_proc */
  method AdjustForProc(l: LocalHandle, fs: Handles.Fs, exported: seq<Handles.Path>, junk: nat, proc: nat, v: Val)
    returns (r: Val)
    requires ArgsOf(proc).Some? && Typed(ArgsOf(proc).value, v) && EachHandle(ArgsOf(proc).value, Decodes, v)
    requires (l.root.Some? ==> l.root.value.Fits()) && junk < 0x1_0000_0000 && Handles.InRange(fs, junk)
    modifies l
    ensures proc != 0 ==> l.root == RootAfter(old(l.root), fs, exported, junk)
    ensures (l.root.Some? ==> l.root.value.Fits()) && r == AdjustArgs(proc, With(l.root), v)
  {
    if proc == 0 {
      r := v;
    } else if proc in {1, 5, 18, 19, 20} {
      r := AdjustData(l, fs, exported, junk, v);
    } else if proc in {8, 9, 10, 11} {
      var where := AdjustDir(l, fs, exported, junk, v.a);
      r := Both(where, v.b2);
    } else if proc == 14 || proc == 15 {
      r := AdjustTwo(l, fs, exported, junk, proc, v);
    } else {
      var h := AdjustData(l, fs, exported, junk, v.a);
      r := Both(h, v.b2);
    }
  }
}
