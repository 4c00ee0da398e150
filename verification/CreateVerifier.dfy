/** Exclusive CREATE: the client's verifier is kept in the times of the new file. */
module CreateVerifier {
  import opened Bytes
  import opened Bits

  const FT80SEC := 315532800

  // ---------- the hash ----------

  /** A char is signed: bytes from 128 on extend to 32 bits. */
  function SignExtend(c: byte): nat { if c < 128 then c else 0xFFFF_FF00 + c }

  /** One round of fnv1a_32_update */
  function FnvRound(h: nat, c: byte): nat { Xor(h, SignExtend(c)) * 0x0100_0193 % 0x1_0000_0000 }

  /** The hash reads up to the first NUL byte. */
  function Fnv(h: nat, str: seq<byte>): (r: nat)
    requires h < 0x1_0000_0000
    ensures r < 0x1_0000_0000
    decreases |str|
  {
    if str == [] || str[0] == 0 then h else Fnv(FnvRound(h, str[0]), str[1..])
  }

  function Fnv1a(str: seq<byte>): (r: nat)
    ensures r < 0x1_0000_0000
  {
    Fnv(0x811c9dc5, str)
  }

  method HashVerifier(verf: seq<byte>) returns (hash: nat)
    ensures hash == Fnv1a(verf)
  {
    hash := 0x811c9dc5;
    var i := 0;
    assert verf[0..] == verf;
    while i < |verf| && verf[i] != 0
      invariant 0 <= i <= |verf| && hash < 0x1_0000_0000 && Fnv(hash, verf[i..]) == Fnv1a(verf)
    {
      assert verf[i..][1..] == verf[i + 1..];
      hash := FnvRound(hash, verf[i]);
      i := i + 1;
    }
  }

  /** Verifiers that agree up to a NUL byte have the same hash, whatever follows. */
  lemma {:induction false} NulHides(h: nat, common: seq<byte>, x: seq<byte>, y: seq<byte>)
    requires h < 0x1_0000_0000
    ensures Fnv(h, common + [0] + x) == Fnv(h, common + [0] + y)
    decreases |common|
  {
    if common != [] && common[0] != 0 {
      assert (common + [0] + x)[1..] == common[1..] + [0] + x && (common + [0] + y)[1..] == common[1..] + [0] + y;
      NulHides(FnvRound(h, common[0]), common[1..], x, y);
    }
  }

  /** The byte as a signed char, in 32 bits. */
  lemma SignExtends(c: byte)
    ensures SignExtend(c) < 0x1_0000_0000 && SignExtend(c) == FromSigned(c, 1) % 0x1_0000_0000
  {
    Widths();
  }

  /** A round can be undone: multiply by the inverse of the prime and take the byte out again. */
  lemma RoundUndone(h: nat, c: byte)
    requires h < 0x1_0000_0000
    ensures Xor(FnvRound(h, c) * 0x359C_449B % 0x1_0000_0000, SignExtend(c)) == h
  {
    var x := Xor(h, SignExtend(c));
    SignExtends(c);
    Powers();
    XorBound(h, SignExtend(c), 32);
    PrimeUndone(x);
    XorTwice(h, SignExtend(c));
  }

  lemma PrimeUndone(x: nat)
    requires x < 0x1_0000_0000
    ensures x * 0x0100_0193 % 0x1_0000_0000 * 0x359C_449B % 0x1_0000_0000 == x
  {
    var k := x * 0x0100_0193 / 0x1_0000_0000;
    var r := x * 0x0100_0193 % 0x1_0000_0000;
    assert r == x * 0x0100_0193 - 0x1_0000_0000 * k;
    assert r * 0x359C_449B == x + 0x1_0000_0000 * (3513497 * x - 0x359C_449B * k);
  }

  /** Different hashes stay different, and so do those of one hash under different bytes. */
  lemma RoundApart(h: nat, g: nat, c: byte, d: byte)
    requires h < 0x1_0000_0000 && g < 0x1_0000_0000 && (h == g || c == d) && (h != g || c != d)
    ensures FnvRound(h, c) != FnvRound(g, d)
  {
    RoundUndone(h, c);
    RoundUndone(g, d);
    if FnvRound(h, c) == FnvRound(g, d) && h == g {
      var z := FnvRound(h, c) * 0x359C_449B % 0x1_0000_0000;
      XorCommutes(z, SignExtend(c));
      XorCommutes(z, SignExtend(d));
      XorTwice(SignExtend(c), z);
      XorTwice(SignExtend(d), z);
    }
  }

  lemma {:induction false} FnvApart(h: nat, g: nat, str: seq<byte>)
    requires h < 0x1_0000_0000 && g < 0x1_0000_0000 && h != g
    ensures Fnv(h, str) != Fnv(g, str)
    decreases |str|
  {
    if str != [] && str[0] != 0 {
      RoundApart(h, g, str[0], str[0]);
      FnvApart(FnvRound(h, str[0]), FnvRound(g, str[0]), str[1..]);
    }
  }

  /** Both have the same length and differ in byte `k` only, which is NUL in neither. */
  predicate OneApart(v: seq<byte>, w: seq<byte>, k: nat) {
    && k < |v| == |w| && v[k] != w[k] && v[k] != 0 && w[k] != 0
    && forall i :: 0 <= i < |v| && i != k ==> v[i] == w[i]
  }

  /** Verifiers that differ in one byte have different hashes exactly if no NUL comes before it. */
  lemma {:induction false} OneApartIff(h: nat, v: seq<byte>, w: seq<byte>, k: nat)
    requires h < 0x1_0000_0000 && OneApart(v, w, k)
    ensures Fnv(h, v) != Fnv(h, w) <==> forall i :: 0 <= i < k ==> v[i] != 0
    decreases k
  {
    if k == 0 {
      assert v[1..] == w[1..];
      RoundApart(h, h, v[0], w[0]);
      FnvApart(FnvRound(h, v[0]), FnvRound(h, w[0]), v[1..]);
    } else if v[0] != 0 {
      OneApartIff(FnvRound(h, v[0]), v[1..], w[1..], k - 1);
      assert (forall i :: 0 <= i < k ==> v[i] != 0) <==> (forall i :: 0 <= i < k - 1 ==> v[1..][i] != 0);
    }
  }

  /** The published values for no byte and for the letter a. */
  lemma KnownHashes()
    ensures Fnv1a([]) == 0x811C_9DC5 && Fnv1a([97]) == 0xE40C_292C
  {
    XorDigit(0x102_393B, 0, 1, 1);
    XorDigit(0x204_7277, 1, 0, 1);
    XorDigit(0x408_E4EE, 3, 0, 0);
    XorDigit(0x811_C9DC, 6, 0, 0);
    XorDigit(0x1023_93B8, 12, 1, 0);
    XorDigit(0x2047_2771, 24, 0, 0);
    XorDigit(0x408E_4EE2, 48, 1, 1);
    assert Fnv1a([97]) == FnvRound(0x811C_9DC5, 97);
  }

  // ---------- times ----------

  datatype Times = Times(atime: int, mtime: int)

  /** store_create_verifier: 29 bits in the modification time, 3 bits in the access time */
  function Store(hash: nat): Times
    requires hash < 0x1_0000_0000
  {
    Times(Or(hash / 0x2000_0000 * 24 * 64, 0x20) * 3600 + FT80SEC, hash % 0x2000_0000 * 2 + FT80SEC)
  }

  /** Division of the C language, which rounds toward zero. */
  function Div(a: int, b: nat): int
    requires b > 0
  {
    if a >= 0 then a / b else -((-a) / b)
  }

  function ToU32(x: int): nat { x % 0x1_0000_0000 }

  function LowPart(t: Times): int { Div(t.mtime - FT80SEC, 2) }
  function HighPart(t: Times): int { Div(Div(t.atime - FT80SEC, 3600) / 64, 24) }
  function Combine(lo: int, hi: int): nat { Or(ToU32(lo), ToU32(hi * 0x2000_0000)) }

  /** The hash that check_create_verifier reads back. */
  function Load(t: Times): nat { Combine(LowPart(t), HighPart(t)) }

  lemma StoreTimes(hash: nat)
    requires hash < 0x1_0000_0000
    ensures Store(hash) ==
            Times((1536 * (hash / 0x2000_0000) + 32) * 3600 + FT80SEC, 2 * (hash % 0x2000_0000) + FT80SEC)
    ensures 0 <= Store(hash).atime < 0x8000_0000 && 0 <= Store(hash).mtime < 0x8000_0000
  {
    OrHalfDay(hash / 0x2000_0000);
  }

  lemma OrHalfDay(x: nat)
    ensures Or(x * 24 * 64, 0x20) == 1536 * x + 32
  {
    Powers();
    OrCommutes(x * 24 * 64, 32);
    OrDisjoint(32, 24 * x, 6);
  }

  lemma {:induction false} OrCommutes(a: nat, b: nat)
    ensures Or(a, b) == Or(b, a)
    decreases a + b
  {
    if a != 0 && b != 0 { OrCommutes(a / 2, b / 2); }
  }

  /** How far a file system may move the times it was given. */
  predicate Tolerable(da: int, dm: int) { -32 * 3600 <= da < 1504 * 3600 && 0 <= dm <= 1 }

  lemma OrAbove(y: nat, x: nat)
    requires y < 0x2000_0000
    ensures Or(y, x * 0x2000_0000) == y + x * 0x2000_0000
  {
    Powers();
    OrDisjoint(y, x, 29);
  }

  /** Shifts of less than 448 days and 17 years, so that nothing wraps around. */
  predicate Moderate(da: int, dm: int) { -10752 * 3600 <= da < 10720 * 3600 && -0x2000_0000 <= dm < 0x2000_0000 }

  /** The shifts under which a hash is read back. Division that rounds toward zero gives more room below
      when the bits stored in a time are all zero. */
  predicate Recovers(hash: nat, da: int, dm: int) {
    && (if hash / 0x2000_0000 == 0 then -1505 * 3600 < da else -32 * 3600 <= da) && da < 1504 * 3600
    && (if hash % 0x2000_0000 == 0 then -1 <= dm else 0 <= dm) && dm <= 1
  }

  lemma LowIff(y: nat, dm: int)
    ensures Div(2 * y + dm, 2) == y <==> (if y == 0 then -1 <= dm else 0 <= dm) && dm <= 1
  {}

  lemma LowNear(y: nat, dm: int)
    requires y < 0x2000_0000 && -0x2000_0000 <= dm < 0x2000_0000
    ensures -0x2000_0000 < Div(2 * y + dm, 2) - y < 0x2000_0000
  {}

  /** The hours that the access time holds, rounded toward zero. */
  function Hours(x: nat, da: int): int { Div((1536 * x + 32) * 3600 + da, 3600) }

  lemma HoursIff(x: nat, da: int)
    ensures x > 0 ==> (1536 * x <= Hours(x, da) <==> -32 * 3600 <= da)
    ensures x == 0 ==> (-1472 <= Hours(x, da) <==> -1505 * 3600 < da)
    ensures Hours(x, da) < 1536 * (x + 1) <==> da < 1504 * 3600
  {}

  lemma HighIff(x: nat, h: int)
    ensures Div(h / 64, 24) == x <==> (if x == 0 then -1472 <= h else 1536 * x <= h) && h < 1536 * (x + 1)
  {}

  lemma HighNear(x: nat, da: int)
    requires x < 8 && -10752 * 3600 <= da < 10720 * 3600
    ensures x - 8 < Div(Hours(x, da) / 64, 24) < x + 8
  {
    var h := Hours(x, da);
    assert 1536 * x - 10720 <= h <= 1536 * x + 10752;
  }

  lemma HighExact(x: nat, da: int)
    requires x < 8 && -10752 * 3600 <= da < 10720 * 3600
    ensures Div(Hours(x, da) / 64, 24) % 8 == x <==>
            (if x == 0 then -1505 * 3600 < da else -32 * 3600 <= da) && da < 1504 * 3600
  {
    HighNear(x, da);
    HighIff(x, Hours(x, da));
    HoursIff(x, da);
  }

  /** What is read back is `y + x * 2^29` exactly if the low part is `y` and the high part `x`, modulo 8. */
  lemma CombineIff(lo: int, hi: int, x: nat, y: nat)
    requires x < 8 && y < 0x2000_0000 && -0x2000_0000 < lo - y < 0x2000_0000
    ensures Combine(lo, hi) == y + x * 0x2000_0000 <==> lo == y && hi % 8 == x
  {
    ShiftedHigh(hi);
    LowKept(ToU32(lo), hi % 8);
    LowBits(lo, x, y);
    if lo == y { OrAbove(y, hi % 8); }
  }

  lemma LowKept(a: nat, b: nat)
    ensures Or(a, b * 0x2000_0000) % 0x2000_0000 == a % 0x2000_0000
  {
    var r, q := a % 0x2000_0000, a / 0x2000_0000;
    OrParts(r, q, b);
    LowOf(r, Or(q, b));
  }

  lemma OrParts(r: nat, q: nat, b: nat)
    requires r < 0x2000_0000
    ensures Or(r + q * 0x2000_0000, b * 0x2000_0000) == r + Or(q, b) * 0x2000_0000
  {
    Powers();
    OrSplit(r, q, b, 29);
  }

  lemma LowOf(r: nat, q: nat)
    requires r < 0x2000_0000
    ensures (r + q * 0x2000_0000) % 0x2000_0000 == r
  {}

  lemma ShiftedHigh(hi: int)
    ensures ToU32(hi * 0x2000_0000) == hi % 8 * 0x2000_0000
  {}

  lemma LowBits(lo: int, x: nat, y: nat)
    requires y < 0x2000_0000 && -0x2000_0000 < lo - y < 0x2000_0000
    ensures ToU32(lo) % 0x2000_0000 == (y + x * 0x2000_0000) % 0x2000_0000 ==> lo == y
    ensures lo == y ==> ToU32(lo) == y
  {}

  /** The hash is read back exactly under these shifts. */
  lemma LoadStoreIff(hash: nat, da: int, dm: int)
    requires hash < 0x1_0000_0000 && Moderate(da, dm)
    ensures Load(Times(Store(hash).atime + da, Store(hash).mtime + dm)) == hash <==> Recovers(hash, da, dm)
  {
    var x, y := hash / 0x2000_0000, hash % 0x2000_0000;
    StoreTimes(hash);
    var t := Times(Store(hash).atime + da, Store(hash).mtime + dm);
    assert LowPart(t) == Div(2 * y + dm, 2) && HighPart(t) == Div(Hours(x, da) / 64, 24);
    LowNear(y, dm);
    CombineIff(LowPart(t), HighPart(t), x, y);
    LowIff(y, dm);
    HighExact(x, da);
  }

  /** The hash survives the times being shifted by -32 to 1504 hours and rounded up by a second. */
  lemma LoadStore(hash: nat, da: int, dm: int)
    requires hash < 0x1_0000_0000 && Tolerable(da, dm)
    ensures Load(Times(Store(hash).atime + da, Store(hash).mtime + dm)) == hash
  {
    LoadStoreIff(hash, da, dm);
  }

  // ---------- the procedure ----------

  datatype File = File(id: nat, times: Times)

  /** The files of a directory, and the number of files ever made in it. */
  datatype Dir = Dir(files: map<seq<byte>, File>, made: nat)

  /** What the system calls of one CREATE do: each succeeds or not, and stat shifts the times. */
  datatype Env = Env(openOk: bool, statOk: bool, storeOk: bool, restatOk: bool, da: int, dm: int, now: Times)

  datatype Status = Ok(id: nat) | Io | Exist | Failed

  function Shifted(f: File, e: Env): Times { Times(f.times.atime + e.da, f.times.mtime + e.dm) }

  datatype Created = Created(dir: Dir, status: Status)

  /** nfsproc3_create_3_svc in mode EXCLUSIVE, for an acceptable name */
  function Create(d: Dir, name: seq<byte>, hash: nat, e: Env): Created
    requires hash < 0x1_0000_0000
  {
    if name !in d.files then
      if !e.openOk then Created(d, Failed)
      else
        var f := File(d.made, if e.statOk && e.storeOk then Store(hash) else e.now);
        Created(Dir(d.files[name := f], d.made + 1),
                if e.statOk && e.storeOk && e.restatOk && Load(Shifted(f, e)) == hash then Ok(f.id) else Io)
    else if !e.openOk || !e.statOk then Created(d, Failed)
    else Created(d, if Load(Shifted(d.files[name], e)) == hash then Ok(d.files[name].id) else Exist)
  }

  predicate Healthy(e: Env) { e.openOk && e.statOk && e.storeOk && e.restatOk && Tolerable(e.da, e.dm) }

  /** One exclusive CREATE: the client's verifier, and what the system calls do. */
  datatype Call = Call(verf: seq<byte>, env: Env)

  /** The directory after a number of CREATE calls for one name, and the status of each. */
  function CreateAll(d: Dir, name: seq<byte>, calls: seq<Call>): (r: (Dir, seq<Status>))
    ensures |r.1| == |calls|
    decreases |calls|
  {
    if calls == [] then (d, [])
    else
      var c := Create(d, name, Fnv1a(calls[0].verf), calls[0].env);
      var (d2, ss) := CreateAll(c.dir, name, calls[1..]);
      (d2, [c.status] + ss)
  }

  lemma LoadStored(f: File, hash: nat, e: Env)
    requires hash < 0x1_0000_0000 && f.times == Store(hash) && Tolerable(e.da, e.dm)
    ensures Load(Shifted(f, e)) == hash
  {
    LoadStore(hash, e.da, e.dm);
  }

  lemma LoadShifted(f: File, hash: nat, e: Env)
    requires hash < 0x1_0000_0000 && f.times == Store(hash) && Moderate(e.da, e.dm)
    ensures Load(Shifted(f, e)) == hash <==> Recovers(hash, e.da, e.dm)
  {
    LoadStoreIff(hash, e.da, e.dm);
  }

  /** What a later CREATE answers once a file `id` carries `hash`: it succeeds for the same hash, is told
      that the file exists for another one, and fails if the file cannot be opened or examined. */
  function Answer(id: nat, hash: nat, c: Call): Status {
    if !c.env.openOk || !c.env.statOk then Failed else if Fnv1a(c.verf) == hash then Ok(id) else Exist
  }

  lemma LaterCreate(d: Dir, name: seq<byte>, hash: nat, c: Call)
    requires hash < 0x1_0000_0000 && Tolerable(c.env.da, c.env.dm)
    requires name in d.files && d.files[name].times == Store(hash)
    ensures Create(d, name, Fnv1a(c.verf), c.env) == Created(d, Answer(d.files[name].id, hash, c))
  {
    LoadStored(d.files[name], hash, c.env);
  }

  /** CREATE of a new name, exactly: nothing happens if the file cannot be made. Otherwise it is there, with
      the verifier in its times if they could be set, and the client is told so exactly if they could be
      read back and were not shifted too far. */
  lemma FirstCreate(d: Dir, name: seq<byte>, hash: nat, e: Env)
    requires hash < 0x1_0000_0000 && name !in d.files && Moderate(e.da, e.dm)
    ensures var c := Create(d, name, hash, e);
            if !e.openOk then c == Created(d, Failed)
            else
              && c.dir.made == d.made + 1 && c.dir.files.Keys == d.files.Keys + {name} && c.dir.files[name].id == d.made
              && (forall x :: x in d.files ==> c.dir.files[x] == d.files[x])
              && c.dir.files[name].times == (if e.statOk && e.storeOk then Store(hash) else e.now)
              && var kept := e.statOk && e.storeOk && e.restatOk && Recovers(hash, e.da, e.dm);
                 c.status == if kept then Ok(d.made) else Io
  {
    LoadShifted(File(d.made, Store(hash)), hash, e);
  }

  lemma {:induction false} LaterCreates(d: Dir, name: seq<byte>, hash: nat, calls: seq<Call>)
    requires hash < 0x1_0000_0000 && name in d.files && d.files[name].times == Store(hash)
    requires forall k :: 0 <= k < |calls| ==> Tolerable(calls[k].env.da, calls[k].env.dm)
    ensures CreateAll(d, name, calls).0 == d
    ensures forall k :: 0 <= k < |calls| ==> CreateAll(d, name, calls).1[k] == Answer(d.files[name].id, hash, calls[k])
    decreases |calls|
  {
    if calls != [] {
      LaterCreate(d, name, hash, calls[0]);
      LaterCreates(d, name, hash, calls[1..]);
    }
  }

  /** However often the call is retransmitted and whoever else calls in between, with whatever outcome
      of the system calls, and even if the first reply was an error because the times could not be read
      back: one file is made, the first client is told so each time its call gets through, and every client
      with another hash learns that the file exists. */
  lemma RetrySafe(d: Dir, name: seq<byte>, verf: seq<byte>, e: Env, later: seq<Call>)
    requires name !in d.files && e.openOk && e.statOk && e.storeOk
    requires forall k :: 0 <= k < |later| ==> Tolerable(later[k].env.da, later[k].env.dm)
    ensures var first := Create(d, name, Fnv1a(verf), e); var (after, ss) := CreateAll(first.dir, name, later);
            && (Healthy(e) ==> first.status == Ok(d.made)) && after == first.dir
            && after.made == d.made + 1 && after.files.Keys == d.files.Keys + {name}
            && forall k :: 0 <= k < |later| ==> ss[k] == Answer(d.made, Fnv1a(verf), later[k])
  {
    LaterCreates(Create(d, name, Fnv1a(verf), e).dir, name, Fnv1a(verf), later);
    if Healthy(e) { LoadStored(File(d.made, Store(Fnv1a(verf))), Fnv1a(verf), e); }
  }

  /** The same in terms of the verifiers: the first client's own gets the file, and one that differs in a
      single byte, neither holding a NUL before or at it, is told that the file exists. */
  lemma RetryTells(d: Dir, name: seq<byte>, verf: seq<byte>, e: Env, later: seq<Call>, k: nat)
    requires name !in d.files && e.openOk && e.statOk && e.storeOk && k < |later|
    requires forall i :: 0 <= i < |later| ==> Tolerable(later[i].env.da, later[i].env.dm)
    requires later[k].env.openOk && later[k].env.statOk
    ensures var s := CreateAll(Create(d, name, Fnv1a(verf), e).dir, name, later).1[k];
            && (later[k].verf == verf ==> s == Ok(d.made))
            && forall i: nat :: OneApart(verf, later[k].verf, i) ==>
                 (s == Exist <==> forall j :: 0 <= j < i ==> verf[j] != 0)
  {
    RetrySafe(d, name, verf, e, later);
    forall i: nat | OneApart(verf, later[k].verf, i)
      ensures Fnv1a(verf) != Fnv1a(later[k].verf) <==> forall j :: 0 <= j < i ==> verf[j] != 0
    {
      OneApartIff(0x811C_9DC5, verf, later[k].verf, i);
    }
  }

  /** If the times could not be set, the file stays, and a retry succeeds only if the times it
      happens to have read back as the hash. */
  lemma StoreFailure(d: Dir, name: seq<byte>, hash: nat, e: Env, retry: Env)
    requires hash < 0x1_0000_0000 && name !in d.files && e.openOk && !(e.statOk && e.storeOk) && Healthy(retry)
    ensures var c := Create(d, name, hash, e);
            && c.status == Io && name in c.dir.files
            && (Create(c.dir, name, hash, retry).status == Ok(d.made) <==>
                Load(Times(e.now.atime + retry.da, e.now.mtime + retry.dm)) == hash)
            && (Create(c.dir, name, hash, retry).status == Ok(d.made) ||
                Create(c.dir, name, hash, retry).status == Exist)
  {}
}
