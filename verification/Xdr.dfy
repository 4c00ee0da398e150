/**
  The XDR routines of the NFS procedures. Each routine is a description of its type, put together
  from the primitives of RFC 4506; one encoder and one decoder serve all descriptions.
 */
module Xdr {
  import opened Options
  import opened Bytes
  import opened Buffers

  datatype Schema =
    | Void
    | UInt(width: nat)                              // xdr_uint32_t, xdr_enum: 4; xdr_uint64_t: 8
    | Opaque(size: nat)                             // xdr_opaque: fixed length
    | VarBytes(max: nat)                            // xdr_bytes: length, bytes, padding
    | Text                                          // xdr_string: the same without NUL bytes
    | Pair(fst: Schema, snd: Schema)                // one routine after the other
    | Union(isBool: bool, arms: Arms)               // a discriminant, then the arm it selects

  /** The cases of a switch; `Default(false)` accepts other discriminants with nothing behind them,
      `Default(true)` refuses them. */
  datatype Arms = Default(refuse: bool) | Arm(tag: nat, body: Schema, others: Arms)

  datatype Val = Unit | Num(n: nat) | Data(b: seq<byte>) | Both(a: Val, b2: Val) | Choice(tag: nat, v: Val)

  /** Values that the C objects of a type can hold and the routine accepts. */
  predicate Typed(s: Schema, v: Val)
    decreases s
  {
    match s
    case Void => v == Unit
    case UInt(w) => v.Num? && v.n < Pow256(w)
    case Opaque(n) => v.Data? && |v.b| == n
    case VarBytes(max) => v.Data? && |v.b| <= max && |v.b| < Pow256(4)
    case Text => v.Data? && |v.b| < Pow256(4) && 0 !in v.b
    case Pair(f, g) => v.Both? && Typed(f, v.a) && Typed(g, v.b2)
    case Union(isBool, arms) => v.Choice? && v.tag < Pow256(4) && (isBool ==> v.tag <= 1) && TypedArm(arms, v.tag, v.v)
  }

  predicate TypedArm(arms: Arms, tag: nat, v: Val)
    decreases arms
  {
    match arms
    case Default(refuse) => !refuse && v == Unit
    case Arm(t, body, others) => if t == tag then Typed(body, v) else TypedArm(others, tag, v)
  }

  function Pad(n: nat): (p: nat)
    ensures p < 4 && (n + p) % 4 == 0
  {
    (4 - n % 4) % 4
  }

  function Zeros(n: nat): (z: seq<byte>)
    ensures |z| == n
  {
    seq(n, _ => 0)
  }

  // ---------- encoding, size, decoding ----------

  function Encode(s: Schema, v: Val): seq<byte>
    requires Typed(s, v)
    decreases s
  {
    match s
    case Void => []
    case UInt(w) => Be(v.n, w)
    case Opaque(n) => v.b + Zeros(Pad(n))
    case VarBytes(_) => Be(|v.b|, 4) + (v.b + Zeros(Pad(|v.b|)))
    case Text => Be(|v.b|, 4) + (v.b + Zeros(Pad(|v.b|)))
    case Pair(f, g) => Encode(f, v.a) + Encode(g, v.b2)
    case Union(_, arms) => Be(v.tag, 4) + EncodeArm(arms, v.tag, v.v)
  }

  function EncodeArm(arms: Arms, tag: nat, v: Val): seq<byte>
    requires TypedArm(arms, tag, v)
    decreases arms
  {
    match arms
    case Default(_) => []
    case Arm(t, body, others) => if t == tag then Encode(body, v) else EncodeArm(others, tag, v)
  }

  /** xdr_sizeof */
  function SizeOf(s: Schema, v: Val): nat
    requires Typed(s, v)
    decreases s
  {
    match s
    case Void => 0
    case UInt(w) => w
    case Opaque(n) => n + Pad(n)
    case VarBytes(_) => 4 + |v.b| + Pad(|v.b|)
    case Text => 4 + |v.b| + Pad(|v.b|)
    case Pair(f, g) => SizeOf(f, v.a) + SizeOf(g, v.b2)
    case Union(_, arms) => 4 + SizeOfArm(arms, v.tag, v.v)
  }

  function SizeOfArm(arms: Arms, tag: nat, v: Val): nat
    requires TypedArm(arms, tag, v)
    decreases arms
  {
    match arms
    case Default(_) => 0
    case Arm(t, body, others) => if t == tag then SizeOf(body, v) else SizeOfArm(others, tag, v)
  }

  datatype Parsed = Parsed(v: Val, rest: seq<byte>)

  function DecodeBytes(b: seq<byte>, n: nat): Option<Parsed> {
    if |b| < n + Pad(n) then None else Some(Parsed(Data(b[..n]), b[n + Pad(n)..]))
  }

  /** Length, bytes, padding; `max` bounds the length. */
  function DecodeVar(b: seq<byte>, max: nat): Option<Parsed> {
    if |b| < 4 then None
    else
      var n := FromBe(b[..4]);
      if n > max then None else DecodeBytes(b[4..], n)
  }

  function CutAtNul(b: seq<byte>): seq<byte> {
    if b == [] || b[0] == 0 then [] else [b[0]] + CutAtNul(b[1..])
  }

  function Decode(s: Schema, b: seq<byte>): Option<Parsed>
    decreases s
  {
    match s
    case Void => Some(Parsed(Unit, b))
    case UInt(w) => if |b| < w then None else Some(Parsed(Num(FromBe(b[..w])), b[w..]))
    case Opaque(n) => DecodeBytes(b, n)
    case VarBytes(max) => DecodeVar(b, max)
    case Text =>
      var p :- DecodeVar(b, Pow256(4) - 1);
      Some(if p.v.Data? then Parsed(Data(CutAtNul(p.v.b)), p.rest) else p)
    case Pair(f, g) =>
      var x :- Decode(f, b);
      var y :- Decode(g, x.rest);
      Some(Parsed(Both(x.v, y.v), y.rest))
    case Union(isBool, arms) =>
      if |b| < 4 then None
      else
        var raw := FromBe(b[..4]);
        var tag := if isBool && raw != 0 then 1 else raw;
        var x :- DecodeArm(arms, tag, b[4..]);
        Some(Parsed(Choice(tag, x.v), x.rest))
  }

  function DecodeArm(arms: Arms, tag: nat, b: seq<byte>): Option<Parsed>
    decreases arms
  {
    match arms
    case Default(refuse) => if refuse then None else Some(Parsed(Unit, b))
    case Arm(t, body, others) => if t == tag then Decode(body, b) else DecodeArm(others, tag, b)
  }

  // ---------- round trip ----------

  lemma {:induction false} NoNul(b: seq<byte>)
    requires 0 !in b
    ensures CutAtNul(b) == b
  {
    if b != [] { NoNul(b[1..]); }
  }

  lemma BytesBack(d: seq<byte>, rest: seq<byte>)
    ensures DecodeBytes(d + Zeros(Pad(|d|)) + rest, |d|) == Some(Parsed(Data(d), rest))
  {
    var b := d + Zeros(Pad(|d|)) + rest;
    assert b[..|d|] == d && b[|d| + Pad(|d|)..] == rest;
  }

  lemma Front(a: seq<byte>, b: seq<byte>, rest: seq<byte>)
    ensures (a + b + rest)[..|a|] == a && (a + b + rest)[|a|..] == b + rest
  {}

  lemma VarBack(d: seq<byte>, max: nat, rest: seq<byte>)
    requires |d| <= max && |d| < Pow256(4)
    ensures DecodeVar(Be(|d|, 4) + (d + Zeros(Pad(|d|))) + rest, max) == Some(Parsed(Data(d), rest))
  {
    Front(Be(|d|, 4), d + Zeros(Pad(|d|)), rest);
    BeRoundTrip(|d|, 4);
    BytesBack(d, rest);
  }

  /** Decoding an encoded value followed by anything gives the value back and stops exactly behind it. */
  lemma {:induction false} RoundTrip(s: Schema, v: Val, rest: seq<byte>)
    requires Typed(s, v)
    ensures Decode(s, Encode(s, v) + rest) == Some(Parsed(v, rest))
    decreases s
  {
    match s
    case Void => assert Encode(s, v) + rest == rest;
    case UInt(w) =>
      BeRoundTrip(v.n, w);
      assert (Be(v.n, w) + rest)[..w] == Be(v.n, w) && (Be(v.n, w) + rest)[w..] == rest;
    case Opaque(n) => BytesBack(v.b, rest);
    case VarBytes(max) => VarBack(v.b, max, rest);
    case Text =>
      VarBack(v.b, Pow256(4) - 1, rest);
      NoNul(v.b);
    case Pair(f, g) =>
      assert Encode(s, v) + rest == Encode(f, v.a) + (Encode(g, v.b2) + rest);
      RoundTrip(f, v.a, Encode(g, v.b2) + rest);
      RoundTrip(g, v.b2, rest);
    case Union(isBool, arms) =>
      var arm := EncodeArm(arms, v.tag, v.v) + rest;
      var b := Encode(s, v) + rest;
      assert b[..4] == Be(v.tag, 4) && b[4..] == arm;
      BeRoundTrip(v.tag, 4);
      ArmRoundTrip(arms, v.tag, v.v, rest);
  }

  lemma {:induction false} ArmRoundTrip(arms: Arms, tag: nat, v: Val, rest: seq<byte>)
    requires TypedArm(arms, tag, v)
    ensures DecodeArm(arms, tag, EncodeArm(arms, tag, v) + rest) == Some(Parsed(v, rest))
    decreases arms
  {
    match arms
    case Default(_) => assert [] + rest == rest;
    case Arm(t, body, others) => if t == tag { RoundTrip(body, v, rest); } else { ArmRoundTrip(others, tag, v, rest); }
  }

  lemma {:induction false} CutFree(b: seq<byte>)
    ensures 0 !in CutAtNul(b) && |CutAtNul(b)| <= |b|
  {
    if b != [] && b[0] != 0 { CutFree(b[1..]); }
  }

  lemma VarTyped(b: seq<byte>, max: nat)
    requires DecodeVar(b, max).Some?
    ensures var p := DecodeVar(b, max).value; p.v.Data? && |p.v.b| <= max && |p.v.b| < Pow256(4)
  {
    BeOnto(b[..4]);
  }

  /** Whatever bytes a routine accepts, the value it makes of them is one that can be sent again. */
  lemma {:induction false} DecodeTyped(s: Schema, b: seq<byte>)
    requires Decode(s, b).Some?
    ensures Typed(s, Decode(s, b).value.v)
    decreases s
  {
    match s
    case Void =>
    case UInt(w) => BeOnto(b[..w]);
    case Opaque(_) =>
    case VarBytes(max) => VarTyped(b, max);
    case Text =>
      VarTyped(b, Pow256(4) - 1);
      CutFree(DecodeVar(b, Pow256(4) - 1).value.v.b);
    case Pair(f, g) =>
      DecodeTyped(f, b);
      DecodeTyped(g, Decode(f, b).value.rest);
    case Union(isBool, arms) =>
      BeOnto(b[..4]);
      Widths();
      var raw := FromBe(b[..4]);
      ArmTyped(arms, if isBool && raw != 0 then 1 else raw, b[4..]);
  }

  lemma {:induction false} ArmTyped(arms: Arms, tag: nat, b: seq<byte>)
    requires DecodeArm(arms, tag, b).Some?
    ensures TypedArm(arms, tag, DecodeArm(arms, tag, b).value.v)
    decreases arms
  {
    if arms.Arm? {
      if arms.tag == tag { DecodeTyped(arms.body, b); } else { ArmTyped(arms.others, tag, b); }
    }
  }

  /** The size worked out first is the length of the encoding. */
  lemma {:induction false} SizeIsLength(s: Schema, v: Val)
    requires Typed(s, v)
    ensures |Encode(s, v)| == SizeOf(s, v)
    decreases s
  {
    match s
    case Pair(f, g) => SizeIsLength(f, v.a); SizeIsLength(g, v.b2);
    case Union(_, arms) => ArmSizeIsLength(arms, v.tag, v.v);
    case _ =>
  }

  lemma {:induction false} ArmSizeIsLength(arms: Arms, tag: nat, v: Val)
    requires TypedArm(arms, tag, v)
    ensures |EncodeArm(arms, tag, v)| == SizeOfArm(arms, tag, v)
    decreases arms
  {
    match arms
    case Default(_) =>
    case Arm(t, body, others) => if t == tag { SizeIsLength(body, v); } else { ArmSizeIsLength(others, tag, v); }
  }

  // ---------- the streams ----------

  /** An XDR routine with XDR_ENCODE */
  method Put(s: Schema, v: Val, w: Writer)
    requires Typed(s, v) && w.Valid() && w.len + |Encode(s, v)| <= w.data.Length
    modifies w, w.data
    ensures w.Valid() && w.Contents() == old(w.Contents()) + Encode(s, v)
    decreases s
  {
    match s {
      case Void =>
      case UInt(n) => w.Put(Be(v.n, n));
      case Opaque(n) =>
        w.Put(v.b);
        w.Put(Zeros(Pad(n)));
      case VarBytes(_) => PutVar(v.b, w);
      case Text => PutVar(v.b, w);
      case Pair(f, g) =>
        Put(f, v.a, w);
        Put(g, v.b2, w);
      case Union(_, arms) =>
        w.Put(Be(v.tag, 4));
        PutArm(arms, v.tag, v.v, w);
    }
  }

  method PutVar(d: seq<byte>, w: Writer)
    requires w.Valid() && w.len + 4 + |d| + Pad(|d|) <= w.data.Length
    modifies w, w.data
    ensures w.Valid() && w.Contents() == old(w.Contents()) + (Be(|d|, 4) + (d + Zeros(Pad(|d|))))
  {
    w.Put(Be(|d|, 4));
    w.Put(d);
    w.Put(Zeros(Pad(|d|)));
  }

  method PutArm(arms: Arms, tag: nat, v: Val, w: Writer)
    requires TypedArm(arms, tag, v) && w.Valid() && w.len + |EncodeArm(arms, tag, v)| <= w.data.Length
    modifies w, w.data
    ensures w.Valid() && w.Contents() == old(w.Contents()) + EncodeArm(arms, tag, v)
    decreases arms
  {
    match arms {
      case Default(_) =>
      case Arm(t, body, others) =>
        if t == tag {
          Put(body, v, w);
        } else {
          PutArm(others, tag, v, w);
        }
    }
  }

  /** A memory stream opened with XDR_DECODE. */
  class Stream {
    const data: seq<byte>
    var pos: nat

    ghost predicate Valid()
      reads this
    {
      pos <= |data|
    }

    constructor (b: seq<byte>)
      ensures Valid() && data == b && pos == 0
    {
      data, pos := b, 0;
    }

    /** What a routine did: it produced the decoded value and stands behind it, or it failed. */
    ghost predicate Read(p: Option<Parsed>, r: Option<Val>)
      reads this
    {
      if p.Some? then r == Some(p.value.v) && pos <= |data| && data[pos..] == p.value.rest
      else r == None && pos <= |data|
    }

    method Take(n: nat) returns (r: Option<seq<byte>>)
      requires Valid()
      modifies this
      ensures Valid() && (r.Some? <==> old(pos) + n <= |data|)
      ensures r.Some? ==> r.value == data[old(pos)..][..n] && data[pos..] == data[old(pos)..][n..]
    {
      if pos + n > |data| {
        return None;
      }
      r := Some(data[pos..pos + n]);
      pos := pos + n;
    }

    method Get(s: Schema) returns (r: Option<Val>)
      requires Valid()
      modifies this
      ensures Read(Decode(s, data[old(pos)..]), r)
      decreases s
    {
      match s {
        case Void => r := Some(Unit);
        case UInt(n) =>
          var b := Take(n);
          r := if b.Some? then Some(Num(FromBe(b.value))) else None;
        case Opaque(n) => r := GetBytes(n);
        case VarBytes(max) => r := GetVar(max);
        case Text =>
          r := GetVar(Pow256(4) - 1);
          if r.Some? && r.value.Data? {
            r := Some(Data(CutAtNul(r.value.b)));
          }
        case Pair(f, g) =>
          var x := Get(f);
          if x.None? {
            return None;
          }
          var y := Get(g);
          r := if y.Some? then Some(Both(x.value, y.value)) else None;
        case Union(isBool, arms) =>
          var b := Take(4);
          if b.None? {
            return None;
          }
          var raw := FromBe(b.value);
          var tag := if isBool && raw != 0 then 1 else raw;
          var x := GetArm(arms, tag);
          r := if x.Some? then Some(Choice(tag, x.value)) else None;
      }
    }

    method GetBytes(n: nat) returns (r: Option<Val>)
      requires Valid()
      modifies this
      ensures Read(DecodeBytes(data[old(pos)..], n), r)
    {
      var b := Take(n + Pad(n));
      assert b.Some? ==> b.value[..n] == data[old(pos)..][..n];
      r := if b.Some? then Some(Data(b.value[..n])) else None;
    }

    method GetVar(max: nat) returns (r: Option<Val>)
      requires Valid()
      modifies this
      ensures Read(DecodeVar(data[old(pos)..], max), r)
    {
      var b := Take(4);
      if b.None? {
        return None;
      }
      var n := FromBe(b.value);
      if n > max {
        return None;
      }
      r := GetBytes(n);
    }

    method GetArm(arms: Arms, tag: nat) returns (r: Option<Val>)
      requires Valid()
      modifies this
      ensures Read(DecodeArm(arms, tag, data[old(pos)..]), r)
      decreases arms
    {
      match arms {
        case Default(refuse) => r := if refuse then None else Some(Unit);
        case Arm(t, body, others) =>
          if t == tag {
            r := Get(body);
          } else {
            r := GetArm(others, tag);
          }
      }
    }
  }
}

/** The argument types of the NFS procedures, routine by routine. */
module NfsArgs {
  import opened Options
  import opened Xdr

  const Fh3 := VarBytes(64)
  const Time3 := Pair(UInt(4), UInt(4))
  const Spec3 := Pair(UInt(4), UInt(4))
  const DirOp3 := Pair(Fh3, Text)

  /** An optional field behind a boolean: xdr_set_mode3 and its likes. */
  function Opt(s: Schema): Schema { Union(true, Arm(1, s, Default(false))) }

  /** SET_TO_CLIENT_TIME carries a time, the other two settings nothing. */
  const SetTime := Union(false, Arm(2, Time3, Default(false)))

  const Sattr3 := Pair(Opt(UInt(4)), Pair(Opt(UInt(4)), Pair(Opt(UInt(4)), Pair(Opt(UInt(8)), Pair(SetTime, SetTime)))))
  const Guard3 := Union(true, Arm(1, Time3, Arm(0, Void, Default(true))))

  /** UNCHECKED and GUARDED carry attributes, EXCLUSIVE a verifier; anything else is refused. */
  const CreateHow3 := Union(false, Arm(0, Sattr3, Arm(1, Sattr3, Arm(2, Opaque(8), Default(true)))))

  /** Devices carry attributes and numbers, pipes and sockets attributes, other types nothing. */
  const MknodData3 :=
    Union(false, Arm(4, Pair(Sattr3, Spec3),
                 Arm(3, Pair(Sattr3, Spec3), Arm(6, Sattr3, Arm(7, Sattr3, Default(false))))))

  /** The routine that the apply callback selects for a procedure number. */
  function ArgsOf(proc: nat): Option<Schema> {
    match proc
    case 0 => Some(Void)
    case 1 => Some(Fh3)
    case 2 => Some(Pair(Fh3, Pair(Sattr3, Guard3)))
    case 3 => Some(DirOp3)
    case 4 => Some(Pair(Fh3, UInt(4)))
    case 5 => Some(Fh3)
    case 6 => Some(Pair(Fh3, Pair(UInt(8), UInt(4))))
    case 7 => Some(Pair(Fh3, Pair(UInt(8), Pair(UInt(4), Pair(UInt(4), VarBytes(0xFFFF_FFFF))))))
    case 8 => Some(Pair(DirOp3, CreateHow3))
    case 9 => Some(Pair(DirOp3, Sattr3))
    case 10 => Some(Pair(DirOp3, Pair(Sattr3, Text)))
    case 11 => Some(Pair(DirOp3, MknodData3))
    case 12 => Some(DirOp3)
    case 13 => Some(DirOp3)
    case 14 => Some(Pair(DirOp3, DirOp3))
    case 15 => Some(Pair(Fh3, DirOp3))
    case 16 => Some(Pair(Fh3, Pair(UInt(8), Pair(Opaque(8), UInt(4)))))
    case 17 => Some(Pair(Fh3, Pair(UInt(8), Pair(Opaque(8), Pair(UInt(4), UInt(4))))))
    case 18 => Some(Fh3)
    case 19 => Some(Fh3)
    case 20 => Some(Fh3)
    case 21 => Some(Pair(Fh3, Pair(UInt(8), UInt(4))))
    case _ => None
  }
}

/** The bytes of the argument types, written out field by field as the protocol defines them. */
module Layouts {
  import opened Options
  import opened Bytes
  import opened Xdr
  import opened NfsArgs

  function VarOf(b: seq<byte>): seq<byte> { Be(|b|, 4) + (b + Zeros(Pad(|b|))) }

  lemma ArmHit(tag: nat, body: Schema, others: Arms, v: Val)
    requires Typed(body, v)
    ensures TypedArm(Arm(tag, body, others), tag, v) && EncodeArm(Arm(tag, body, others), tag, v) == Encode(body, v)
  {}

  lemma ArmMiss(t: nat, body: Schema, others: Arms, tag: nat, v: Val)
    requires t != tag && TypedArm(others, tag, v)
    ensures TypedArm(Arm(t, body, others), tag, v)
    ensures EncodeArm(Arm(t, body, others), tag, v) == EncodeArm(others, tag, v)
  {}

  /** set_mode3, set_uid3, set_gid3 and set_size3 */
  function OptVal(o: Option<nat>): Val { if o.Some? then Choice(1, Num(o.value)) else Choice(0, Unit) }
  function OptBytes(o: Option<nat>, w: nat): seq<byte> { if o.Some? then Be(1, 4) + Be(o.value, w) else Be(0, 4) }

  lemma OptLayout(o: Option<nat>, w: nat)
    requires o.Some? ==> o.value < Pow256(w)
    ensures Typed(Opt(UInt(w)), OptVal(o)) && Encode(Opt(UInt(w)), OptVal(o)) == OptBytes(o, w)
  {
    Bytes.Widths();
    if o.Some? {
      ArmHit(1, UInt(w), Default(false), Num(o.value));
    } else {
      ArmMiss(1, UInt(w), Default(false), 0, Unit);
      assert Be(0, 4) + [] == Be(0, 4);
    }
  }

  datatype TimeHow = DontChange | ServerTime | ClientTime(sec: nat, nsec: nat)

  function TimeVal(t: TimeHow): Val {
    match t
    case DontChange => Choice(0, Unit)
    case ServerTime => Choice(1, Unit)
    case ClientTime(s, n) => Choice(2, Both(Num(s), Num(n)))
  }
  function TimeBytes(t: TimeHow): seq<byte> {
    match t
    case DontChange => Be(0, 4)
    case ServerTime => Be(1, 4)
    case ClientTime(s, n) => Be(2, 4) + (Be(s, 4) + Be(n, 4))
  }

  lemma TimeLayout(t: TimeHow)
    requires t.ClientTime? ==> t.sec < Pow256(4) && t.nsec < Pow256(4)
    ensures Typed(SetTime, TimeVal(t)) && Encode(SetTime, TimeVal(t)) == TimeBytes(t)
  {}

  datatype Sattr = Sattr(mode: Option<nat>, uid: Option<nat>, gid: Option<nat>, size: Option<nat>,
                         atime: TimeHow, mtime: TimeHow) {
    predicate Fits() {
      && (mode.Some? ==> mode.value < Pow256(4)) && (uid.Some? ==> uid.value < Pow256(4))
      && (gid.Some? ==> gid.value < Pow256(4)) && (size.Some? ==> size.value < Pow256(8))
      && (atime.ClientTime? ==> atime.sec < Pow256(4) && atime.nsec < Pow256(4))
      && (mtime.ClientTime? ==> mtime.sec < Pow256(4) && mtime.nsec < Pow256(4))
    }
  }

  function SattrVal(a: Sattr): Val {
    Both(OptVal(a.mode), Both(OptVal(a.uid), Both(OptVal(a.gid),
         Both(OptVal(a.size), Both(TimeVal(a.atime), TimeVal(a.mtime))))))
  }
  function SattrBytes(a: Sattr): seq<byte> {
    OptBytes(a.mode, 4) + (OptBytes(a.uid, 4) + (OptBytes(a.gid, 4) +
      (OptBytes(a.size, 8) + (TimeBytes(a.atime) + TimeBytes(a.mtime)))))
  }

  lemma PairLayout(f: Schema, g: Schema, x: Val, y: Val)
    requires Typed(f, x) && Typed(g, y)
    ensures Typed(Pair(f, g), Both(x, y)) && Encode(Pair(f, g), Both(x, y)) == Encode(f, x) + Encode(g, y)
  {}

  lemma SattrLayout(a: Sattr)
    requires a.Fits()
    ensures Typed(Sattr3, SattrVal(a)) && Encode(Sattr3, SattrVal(a)) == SattrBytes(a)
  {
    OptLayout(a.mode, 4);
    OptLayout(a.uid, 4);
    OptLayout(a.gid, 4);
    OptLayout(a.size, 8);
    TimeLayout(a.atime);
    TimeLayout(a.mtime);
    var t5 := Both(TimeVal(a.atime), TimeVal(a.mtime));
    var t4 := Both(OptVal(a.size), t5);
    var t3 := Both(OptVal(a.gid), t4);
    var t2 := Both(OptVal(a.uid), t3);
    var s5 := Pair(SetTime, SetTime);
    var s4 := Pair(Opt(UInt(8)), s5);
    var s3 := Pair(Opt(UInt(4)), s4);
    var s2 := Pair(Opt(UInt(4)), s3);
    PairLayout(SetTime, SetTime, TimeVal(a.atime), TimeVal(a.mtime));
    PairLayout(Opt(UInt(8)), s5, OptVal(a.size), t5);
    PairLayout(Opt(UInt(4)), s4, OptVal(a.gid), t4);
    PairLayout(Opt(UInt(4)), s3, OptVal(a.uid), t3);
    PairLayout(Opt(UInt(4)), s2, OptVal(a.mode), t2);
  }

  datatype How = Unchecked(a: Sattr) | Guarded(a: Sattr) | Exclusive(verf: seq<byte>)

  /** createhow3: attributes for the first two modes, an 8-byte verifier for the third */
  lemma CreateHowLayout(h: How)
    requires if h.Exclusive? then |h.verf| == 8 else h.a.Fits()
    ensures match h
            case Unchecked(a) => Typed(CreateHow3, Choice(0, SattrVal(a))) &&
                                 Encode(CreateHow3, Choice(0, SattrVal(a))) == Be(0, 4) + SattrBytes(a)
            case Guarded(a) => Typed(CreateHow3, Choice(1, SattrVal(a))) &&
                               Encode(CreateHow3, Choice(1, SattrVal(a))) == Be(1, 4) + SattrBytes(a)
            case Exclusive(v) => Typed(CreateHow3, Choice(2, Data(v))) &&
                                 Encode(CreateHow3, Choice(2, Data(v))) == Be(2, 4) + v
  {
    Bytes.Widths();
    var exclusive := Arm(2, Opaque(8), Default(true));
    var guarded := Arm(1, Sattr3, exclusive);
    match h
    case Unchecked(a) =>
      SattrLayout(a);
      ArmHit(0, Sattr3, guarded, SattrVal(a));
    case Guarded(a) =>
      SattrLayout(a);
      ArmHit(1, Sattr3, exclusive, SattrVal(a));
      ArmMiss(0, Sattr3, guarded, 1, SattrVal(a));
    case Exclusive(v) =>
      assert Encode(Opaque(8), Data(v)) == v;
      ArmHit(2, Opaque(8), Default(true), Data(v));
      ArmMiss(1, Sattr3, exclusive, 2, Data(v));
      ArmMiss(0, Sattr3, guarded, 2, Data(v));
  }

  /** mknoddata3 of a character (4) or block (3) device */
  lemma DeviceLayout(kind: nat, a: Sattr, major: nat, minor: nat)
    requires 3 <= kind <= 4 && a.Fits() && major < Pow256(4) && minor < Pow256(4)
    ensures var v := Choice(kind, Both(SattrVal(a), Both(Num(major), Num(minor))));
            Typed(MknodData3, v) &&
            Encode(MknodData3, v) == Be(kind, 4) + (SattrBytes(a) + (Be(major, 4) + Be(minor, 4)))
  {
    Bytes.Widths();
    SattrLayout(a);
    PairLayout(UInt(4), UInt(4), Num(major), Num(minor));
    var device, v := Pair(Sattr3, Spec3), Both(SattrVal(a), Both(Num(major), Num(minor)));
    PairLayout(Sattr3, Spec3, SattrVal(a), Both(Num(major), Num(minor)));
    var pipes := Arm(6, Sattr3, Arm(7, Sattr3, Default(false)));
    ArmHit(kind, device, if kind == 4 then Arm(3, device, pipes) else pipes, v);
    if kind == 3 { ArmMiss(4, device, Arm(3, device, pipes), 3, v); }
  }

  /** mknoddata3 of a socket (6) or a FIFO (7) */
  lemma PipeLayout(kind: nat, a: Sattr)
    requires 6 <= kind <= 7 && a.Fits()
    ensures var v := Choice(kind, SattrVal(a));
            Typed(MknodData3, v) && Encode(MknodData3, v) == Be(kind, 4) + SattrBytes(a)
  {
    Bytes.Widths();
    SattrLayout(a);
    var device, v := Pair(Sattr3, Spec3), SattrVal(a);
    var fifo := Arm(7, Sattr3, Default(false));
    var pipes := Arm(6, Sattr3, fifo);
    ArmHit(kind, Sattr3, if kind == 6 then fifo else Default(false), v);
    if kind == 7 { ArmMiss(6, Sattr3, fifo, 7, v); }
    ArmMiss(3, device, pipes, kind, v);
    ArmMiss(4, device, Arm(3, device, pipes), kind, v);
  }

  /** WRITE3args: handle, offset, count, stable_how, data */
  lemma WriteLayout(fh: seq<byte>, offset: nat, count: nat, stable: nat, data: seq<byte>)
    requires |fh| <= 64 && offset < Pow256(8) && count < Pow256(4) && stable < Pow256(4) && |data| < Pow256(4)
    ensures var v := Both(Data(fh), Both(Num(offset), Both(Num(count), Both(Num(stable), Data(data)))));
            && Typed(ArgsOf(7).value, v)
            && Encode(ArgsOf(7).value, v) ==
               VarOf(fh) + (Be(offset, 8) + (Be(count, 4) + (Be(stable, 4) + VarOf(data))))
  {
    Bytes.Widths();
    var s4 := Pair(UInt(4), VarBytes(0xFFFF_FFFF));
    var s3 := Pair(UInt(4), s4);
    var s2 := Pair(UInt(8), s3);
    var t4 := Both(Num(stable), Data(data));
    var t3 := Both(Num(count), t4);
    var t2 := Both(Num(offset), t3);
    PairLayout(UInt(4), VarBytes(0xFFFF_FFFF), Num(stable), Data(data));
    PairLayout(UInt(4), s4, Num(count), t4);
    PairLayout(UInt(8), s3, Num(offset), t3);
    PairLayout(Fh3, s2, Data(fh), t2);
  }

  predicate IsFh(fh: seq<byte>) { |fh| <= 64 }
  predicate IsName(name: seq<byte>) { |name| < Pow256(4) && 0 !in name }

  /** diropargs3: handle and name */
  lemma DirOpLayout(fh: seq<byte>, name: seq<byte>)
    requires IsFh(fh) && IsName(name)
    ensures var v := Both(Data(fh), Data(name)); Typed(DirOp3, v) && Encode(DirOp3, v) == VarOf(fh) + VarOf(name)
  {
    Bytes.Widths();
    PairLayout(Fh3, Text, Data(fh), Data(name));
  }

  /** GETATTR, READLINK, FSSTAT, FSINFO and PATHCONF take a handle; LOOKUP, REMOVE and RMDIR a name in a directory. */
  lemma PlainLayout(proc: nat, fh: seq<byte>, name: seq<byte>)
    requires IsFh(fh) && IsName(name)
    ensures proc in {1, 5, 18, 19, 20} ==>
              Typed(ArgsOf(proc).value, Data(fh)) && Encode(ArgsOf(proc).value, Data(fh)) == VarOf(fh)
    ensures proc in {3, 12, 13} ==>
              var v := Both(Data(fh), Data(name));
              Typed(ArgsOf(proc).value, v) && Encode(ArgsOf(proc).value, v) == VarOf(fh) + VarOf(name)
  {
    Bytes.Widths();
    DirOpLayout(fh, name);
  }

  /** ACCESS: handle and the rights asked for */
  lemma AccessLayout(fh: seq<byte>, rights: nat)
    requires IsFh(fh) && rights < Pow256(4)
    ensures var v := Both(Data(fh), Num(rights));
            Typed(ArgsOf(4).value, v) && Encode(ArgsOf(4).value, v) == VarOf(fh) + Be(rights, 4)
  {
    Bytes.Widths();
    PairLayout(Fh3, UInt(4), Data(fh), Num(rights));
  }

  /** READ and COMMIT: handle, offset, count */
  lemma RangeLayout(proc: nat, fh: seq<byte>, offset: nat, count: nat)
    requires proc in {6, 21} && IsFh(fh) && offset < Pow256(8) && count < Pow256(4)
    ensures var v := Both(Data(fh), Both(Num(offset), Num(count)));
            Typed(ArgsOf(proc).value, v) && Encode(ArgsOf(proc).value, v) == VarOf(fh) + (Be(offset, 8) + Be(count, 4))
  {
    Bytes.Widths();
    PairLayout(UInt(8), UInt(4), Num(offset), Num(count));
    PairLayout(Fh3, Pair(UInt(8), UInt(4)), Data(fh), Both(Num(offset), Num(count)));
  }

  /** READDIR: handle, cookie, verifier, count */
  lemma ReaddirLayout(fh: seq<byte>, cookie: nat, verf: seq<byte>, count: nat)
    requires IsFh(fh) && cookie < Pow256(8) && |verf| == 8 && count < Pow256(4)
    ensures var v := Both(Data(fh), Both(Num(cookie), Both(Data(verf), Num(count))));
            && Typed(ArgsOf(16).value, v)
            && Encode(ArgsOf(16).value, v) == VarOf(fh) + (Be(cookie, 8) + (verf + Be(count, 4)))
  {
    Bytes.Widths();
    var s3 := Pair(Opaque(8), UInt(4));
    var t3 := Both(Data(verf), Num(count));
    assert Encode(Opaque(8), Data(verf)) == verf;
    PairLayout(Opaque(8), UInt(4), Data(verf), Num(count));
    PairLayout(UInt(8), s3, Num(cookie), t3);
    PairLayout(Fh3, Pair(UInt(8), s3), Data(fh), Both(Num(cookie), t3));
  }

  /** READDIRPLUS: handle, cookie, verifier, and two counts */
  lemma ReaddirplusLayout(fh: seq<byte>, cookie: nat, verf: seq<byte>, dircount: nat, maxcount: nat)
    requires IsFh(fh) && cookie < Pow256(8) && |verf| == 8 && dircount < Pow256(4) && maxcount < Pow256(4)
    ensures var v := Both(Data(fh), Both(Num(cookie), Both(Data(verf), Both(Num(dircount), Num(maxcount)))));
            && Typed(ArgsOf(17).value, v)
            && Encode(ArgsOf(17).value, v) ==
               VarOf(fh) + (Be(cookie, 8) + (verf + (Be(dircount, 4) + Be(maxcount, 4))))
  {
    Bytes.Widths();
    var s4 := Pair(UInt(4), UInt(4));
    var s3 := Pair(Opaque(8), s4);
    var t4 := Both(Num(dircount), Num(maxcount));
    var t3 := Both(Data(verf), t4);
    assert Encode(Opaque(8), Data(verf)) == verf;
    PairLayout(UInt(4), UInt(4), Num(dircount), Num(maxcount));
    PairLayout(Opaque(8), s4, Data(verf), t4);
    PairLayout(UInt(8), s3, Num(cookie), t3);
    PairLayout(Fh3, Pair(UInt(8), s3), Data(fh), Both(Num(cookie), t3));
  }

  /** RENAME: the old place, then the new one. LINK: the file, then the new place. */
  lemma TwoPlacesLayout(fh: seq<byte>, name: seq<byte>, fh2: seq<byte>, name2: seq<byte>)
    requires IsFh(fh) && IsName(name) && IsFh(fh2) && IsName(name2)
    ensures var to := Both(Data(fh2), Data(name2));
            var rename, link := Both(Both(Data(fh), Data(name)), to), Both(Data(fh), to);
            && Typed(ArgsOf(14).value, rename) && Typed(ArgsOf(15).value, link)
            && Encode(ArgsOf(14).value, rename) == VarOf(fh) + VarOf(name) + (VarOf(fh2) + VarOf(name2))
            && Encode(ArgsOf(15).value, link) == VarOf(fh) + (VarOf(fh2) + VarOf(name2))
  {
    Bytes.Widths();
    DirOpLayout(fh, name);
    DirOpLayout(fh2, name2);
    PairLayout(DirOp3, DirOp3, Both(Data(fh), Data(name)), Both(Data(fh2), Data(name2)));
    PairLayout(Fh3, DirOp3, Data(fh), Both(Data(fh2), Data(name2)));
  }

  /** MKDIR: place and attributes. SYMLINK: place, attributes and the text of the link. */
  lemma MakeLayout(fh: seq<byte>, name: seq<byte>, a: Sattr, text: seq<byte>)
    requires IsFh(fh) && IsName(name) && a.Fits() && IsName(text)
    ensures var where := Both(Data(fh), Data(name));
            var mkdir, symlink := Both(where, SattrVal(a)), Both(where, Both(SattrVal(a), Data(text)));
            && Typed(ArgsOf(9).value, mkdir) && Typed(ArgsOf(10).value, symlink)
            && Encode(ArgsOf(9).value, mkdir) == VarOf(fh) + VarOf(name) + SattrBytes(a)
            && Encode(ArgsOf(10).value, symlink) == VarOf(fh) + VarOf(name) + (SattrBytes(a) + VarOf(text))
  {
    Bytes.Widths();
    DirOpLayout(fh, name);
    SattrLayout(a);
    PairLayout(DirOp3, Sattr3, Both(Data(fh), Data(name)), SattrVal(a));
    PairLayout(Sattr3, Text, SattrVal(a), Data(text));
    PairLayout(DirOp3, Pair(Sattr3, Text), Both(Data(fh), Data(name)), Both(SattrVal(a), Data(text)));
  }

  /** CREATE and MKNOD: the place, then how or what to make. */
  lemma PlaceFirst(fh: seq<byte>, name: seq<byte>, how: Val, what: Val)
    requires IsFh(fh) && IsName(name) && Typed(CreateHow3, how) && Typed(MknodData3, what)
    ensures var where := Both(Data(fh), Data(name));
            && Typed(ArgsOf(8).value, Both(where, how)) && Typed(ArgsOf(11).value, Both(where, what))
            && Encode(ArgsOf(8).value, Both(where, how)) == VarOf(fh) + VarOf(name) + Encode(CreateHow3, how)
            && Encode(ArgsOf(11).value, Both(where, what)) == VarOf(fh) + VarOf(name) + Encode(MknodData3, what)
  {
    DirOpLayout(fh, name);
    PairLayout(DirOp3, CreateHow3, Both(Data(fh), Data(name)), how);
    PairLayout(DirOp3, MknodData3, Both(Data(fh), Data(name)), what);
  }

  /** SETATTR: handle, attributes, and a 1 with the time the object must not have changed since, or a 0 */
  lemma SetattrLayout(fh: seq<byte>, a: Sattr, guard: Option<(nat, nat)>)
    requires IsFh(fh) && a.Fits() && (guard.Some? ==> guard.value.0 < Pow256(4) && guard.value.1 < Pow256(4))
    ensures var g := if guard.Some? then Choice(1, Both(Num(guard.value.0), Num(guard.value.1))) else Choice(0, Unit);
            var v := Both(Data(fh), Both(SattrVal(a), g));
            && Typed(ArgsOf(2).value, v)
            && Encode(ArgsOf(2).value, v) == VarOf(fh) + (SattrBytes(a) +
                 if guard.Some? then Be(1, 4) + (Be(guard.value.0, 4) + Be(guard.value.1, 4)) else Be(0, 4))
  {
    Bytes.Widths();
    SattrLayout(a);
    var none := Arm(0, Void, Default(true));
    if guard.Some? {
      var t := Both(Num(guard.value.0), Num(guard.value.1));
      PairLayout(UInt(4), UInt(4), Num(guard.value.0), Num(guard.value.1));
      ArmHit(1, Time3, none, t);
      PairLayout(Sattr3, Guard3, SattrVal(a), Choice(1, t));
      PairLayout(Fh3, Pair(Sattr3, Guard3), Data(fh), Both(SattrVal(a), Choice(1, t)));
    } else {
      ArmHit(0, Void, Default(true), Unit);
      ArmMiss(1, Time3, none, 0, Unit);
      assert Be(0, 4) + [] == Be(0, 4);
      PairLayout(Sattr3, Guard3, SattrVal(a), Choice(0, Unit));
      PairLayout(Fh3, Pair(Sattr3, Guard3), Data(fh), Both(SattrVal(a), Choice(0, Unit)));
    }
  }
}
