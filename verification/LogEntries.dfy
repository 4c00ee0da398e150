/** What the leader puts into the replicated log for one call, and what every replica gets out of it. */
module LogEntries {
  import opened Options
  import opened Bytes
  import opened Buffers
  import opened Xdr
  import opened NfsArgs

  const NGRPS := 16
  const PROC_SIZE := 4
  const INFO_SIZE := 92

  /** raft_client_info_t */
  datatype ClientInfo = ClientInfo(addr: seq<byte>, uid: nat, gid: nat, gidLen: nat, gids: seq<nat>) {
    predicate Fits() {
      && |addr| == 16 && uid < Pow256(4) && gid < Pow256(4) && gidLen < Pow256(4)
      && |gids| == NGRPS && forall k :: 0 <= k < NGRPS ==> gids[k] < Pow256(4)
    }
  }

  /** AUTH_UNIX credentials */
  datatype Auth = Auth(uid: nat, gid: nat, gids: seq<nat>) {
    predicate Words() {
      && uid < 0x1_0000_0000 && gid < 0x1_0000_0000 && |gids| < 0x1_0000_0000
      && forall k :: 0 <= k < |gids| ==> gids[k] < 0x1_0000_0000
    }
  }

  function PutWords(vs: seq<nat>): (b: seq<byte>)
    ensures |b| == 4 * |vs|
  {
    if vs == [] then [] else Be(vs[0], 4) + PutWords(vs[1..])
  }

  function GetWords(b: seq<byte>, n: nat): (vs: seq<nat>)
    requires |b| >= 4 * n
    ensures |vs| == n
  {
    if n == 0 then [] else [FromBe(b[..4])] + GetWords(b[4..], n - 1)
  }

  lemma {:induction false} WordsRoundTrip(vs: seq<nat>, rest: seq<byte>)
    requires forall k :: 0 <= k < |vs| ==> vs[k] < Pow256(4)
    ensures GetWords(PutWords(vs) + rest, |vs|) == vs
  {
    if vs != [] {
      var b := PutWords(vs) + rest;
      assert b[..4] == Be(vs[0], 4) && b[4..] == PutWords(vs[1..]) + rest;
      BeRoundTrip(vs[0], 4);
      WordsRoundTrip(vs[1..], rest);
    }
  }

  /** raft_client_info_serialize: the address as it is, then 19 words in network order */
  function PutInfo(i: ClientInfo): (b: seq<byte>)
    requires |i.addr| == 16 && |i.gids| == NGRPS
    ensures |b| == INFO_SIZE
  {
    i.addr + PutWords([i.uid, i.gid, i.gidLen] + i.gids)
  }

  function GetInfo(b: seq<byte>): (i: ClientInfo)
    requires |b| >= INFO_SIZE
  {
    var w := GetWords(b[16..], 3 + NGRPS);
    ClientInfo(b[..16], w[0], w[1], w[2], w[3..])
  }

  lemma InfoRoundTrip(i: ClientInfo, rest: seq<byte>)
    requires i.Fits()
    ensures GetInfo(PutInfo(i) + rest) == i
  {
    var vs := [i.uid, i.gid, i.gidLen] + i.gids;
    var b := PutInfo(i) + rest;
    assert b[..16] == i.addr && b[16..] == PutWords(vs) + rest;
    WordsRoundTrip(vs, rest);
  }

  /** What the leader records about the caller: at most 16 groups, the rest of the array zero. */
  function InfoOf(addr: seq<byte>, auth: Option<Auth>): ClientInfo {
    match auth
    case None => ClientInfo(addr, 0, 0, 0, seq(NGRPS, _ => 0))
    case Some(a) =>
      ClientInfo(addr, a.uid, a.gid, |a.gids|, seq(NGRPS, i => if 0 <= i < |a.gids| then a.gids[i] else 0))
  }

  // ---------- entries ----------

  datatype Call = Call(proc: nat, info: ClientInfo, args: Val)

  /** Calls that reach the log: a known procedure with arguments of its type. */
  predicate Loggable(c: Call) {
    c.proc < Pow256(4) && c.info.Fits() && ArgsOf(c.proc).Some? && Typed(ArgsOf(c.proc).value, c.args)
  }

  /** raft_serialize_and_replicate_nfs_op; a call without arguments is refused. */
  function Build(c: Call): Option<seq<byte>>
    requires Loggable(c)
  {
    if SizeOf(ArgsOf(c.proc).value, c.args) == 0 then None
    else Some(Be(c.proc, 4) + (PutInfo(c.info) + Encode(ArgsOf(c.proc).value, c.args)))
  }

  /** raft_applylog_cb and the decoding in apply_nfs_operation; `normal` is the entry type. */
  function Parse(normal: bool, b: seq<byte>): Option<Call> {
    if !normal || |b| < PROC_SIZE + INFO_SIZE then None
    else
      var proc := FromBe(b[..4]);
      var info := GetInfo(b[4..]);
      var s :- ArgsOf(proc);
      var p :- Decode(s, b[4 + INFO_SIZE..]);
      Some(Call(proc, info, p.v))
  }

  /** Every replica recovers exactly the call that the leader logged, and the entry has the length
      that was computed before encoding. */
  lemma LogRoundTrip(c: Call)
    requires Loggable(c) && Build(c).Some?
    ensures Parse(true, Build(c).value) == Some(c)
    ensures |Build(c).value| == PROC_SIZE + INFO_SIZE + SizeOf(ArgsOf(c.proc).value, c.args)
  {
    var s := ArgsOf(c.proc).value;
    var args := Encode(s, c.args);
    var b := Build(c).value;
    SizeIsLength(s, c.args);
    BeRoundTrip(c.proc, 4);
    InfoRoundTrip(c.info, args);
    RoundTrip(s, c.args, []);
    assert args + [] == args;
    assert b[..4] == Be(c.proc, 4) && b[4..] == PutInfo(c.info) + args && b[4 + INFO_SIZE..] == args;
  }

  /** Every procedure with arguments can be logged; the NULL procedure cannot. */
  lemma OnlyNullRefused(c: Call)
    requires Loggable(c)
    ensures Build(c) == None <==> c.proc == 0
  {}

  // ---------- from caller to replica ----------

  /** A call as it arrives: words of 32 bits, an IPv4 socket address, arguments of the procedure. */
  predicate Arrives(proc: nat, addr: seq<byte>, auth: Option<Auth>, args: Val) {
    && proc < 0x1_0000_0000 && |addr| == 16 && ArgsOf(proc).Some? && Typed(ArgsOf(proc).value, args)
    && (auth.Some? ==> auth.value.Words())
  }

  /** The call is the caller's, with user, group, number of groups and up to 16 groups each in its place;
      without AUTH_UNIX credentials all of them are zero. */
  ghost predicate Describes(c: Call, proc: nat, addr: seq<byte>, auth: Option<Auth>, args: Val) {
    && c.proc == proc && c.args == args && c.info.addr == addr && |c.info.gids| == 16
    && (auth.None? ==> c.info.uid == 0 && c.info.gid == 0 && c.info.gidLen == 0 &&
                       forall k :: 0 <= k < 16 ==> c.info.gids[k] == 0)
    && (auth.Some? ==> c.info.uid == auth.value.uid && c.info.gid == auth.value.gid &&
                       c.info.gidLen == |auth.value.gids| &&
                       forall k :: 0 <= k < 16 ==>
                         c.info.gids[k] == if k < |auth.value.gids| then auth.value.gids[k] else 0)
  }

  lemma InfoFits(proc: nat, addr: seq<byte>, auth: Option<Auth>, args: Val)
    requires Arrives(proc, addr, auth, args)
    ensures Loggable(Call(proc, InfoOf(addr, auth), args))
  {
    Widths();
  }

  /** What the leader proposes for a call with these credentials. */
  function Entry(proc: nat, addr: seq<byte>, auth: Option<Auth>, args: Val): Option<seq<byte>>
    requires Arrives(proc, addr, auth, args)
  {
    InfoFits(proc, addr, auth, args);
    Build(Call(proc, InfoOf(addr, auth), args))
  }

  /** Every replica gets the caller's call out of the entry, and every call but NULL gives one. */
  lemma CallerLogged(proc: nat, addr: seq<byte>, auth: Option<Auth>, args: Val)
    requires Arrives(proc, addr, auth, args)
    ensures var e := Entry(proc, addr, auth, args);
            && (e.None? <==> proc == 0)
            && (e.Some? ==> Parse(true, e.value).Some? && Describes(Parse(true, e.value).value, proc, addr, auth, args))
  {
    var c := Call(proc, InfoOf(addr, auth), args);
    InfoFits(proc, addr, auth, args);
    OnlyNullRefused(c);
    if proc != 0 { LogRoundTrip(c); }
  }

  lemma {:induction false} WordAt(vs: seq<nat>, k: nat)
    requires k < |vs|
    ensures PutWords(vs)[4 * k..4 * k + 4] == Be(vs[k], 4)
  {
    if k > 0 {
      WordAt(vs[1..], k - 1);
      assert PutWords(vs)[4 * k..4 * k + 4] == PutWords(vs[1..])[4 * (k - 1)..4 * (k - 1) + 4];
    }
  }

  /** The bytes of the caller's description: address, user, group, number of groups, 16 groups. */
  lemma InfoLayout(i: ClientInfo)
    requires |i.addr| == 16 && |i.gids| == NGRPS
    ensures var b := PutInfo(i);
            && b[..16] == i.addr
            && b[16..20] == Be(i.uid, 4) && b[20..24] == Be(i.gid, 4) && b[24..28] == Be(i.gidLen, 4)
            && forall k :: 0 <= k < 16 ==> b[28 + 4 * k..32 + 4 * k] == Be(i.gids[k], 4)
  {
    forall k | 0 <= k < 19 ensures InfoWord(i, k) == Be(([i.uid, i.gid, i.gidLen] + i.gids)[k], 4) {
      WordAt([i.uid, i.gid, i.gidLen] + i.gids, k);
    }
    assert InfoWord(i, 0) == Be(i.uid, 4) && InfoWord(i, 1) == Be(i.gid, 4) && InfoWord(i, 2) == Be(i.gidLen, 4);
    forall k | 0 <= k < 16 ensures PutInfo(i)[28 + 4 * k..32 + 4 * k] == Be(i.gids[k], 4) {
      assert InfoWord(i, 3 + k) == Be(i.gids[k], 4);
    }
  }

  /** Word `k` behind the address. */
  ghost function InfoWord(i: ClientInfo, k: nat): (w: seq<byte>)
    requires |i.addr| == 16 && |i.gids| == NGRPS && k < 19
    ensures w == PutWords([i.uid, i.gid, i.gidLen] + i.gids)[4 * k..4 * k + 4]
  {
    PutInfo(i)[16 + 4 * k..20 + 4 * k]
  }

  /** The bytes of an entry: procedure, caller, arguments. */
  lemma EntryLayout(c: Call)
    requires Loggable(c) && Build(c).Some?
    ensures var b := Build(c).value;
            && |b| >= 96 && b[..4] == Be(c.proc, 4) && b[4..96] == PutInfo(c.info)
            && b[96..] == Encode(ArgsOf(c.proc).value, c.args)
  {
    Parts(Be(c.proc, 4), PutInfo(c.info), Encode(ArgsOf(c.proc).value, c.args));
  }

  lemma Parts(x: seq<byte>, y: seq<byte>, z: seq<byte>)
    ensures var b := x + (y + z);
            && |b| >= |x| + |y| && b[..|x|] == x && b[|x|..|x| + |y|] == y && b[|x| + |y|..] == z
  {}

  lemma {:induction false} WordsOnto(b: seq<byte>, n: nat)
    requires |b| >= 4 * n
    ensures PutWords(GetWords(b, n)) == b[..4 * n]
    ensures forall k :: 0 <= k < n ==> GetWords(b, n)[k] < Pow256(4)
  {
    if n > 0 {
      BeOnto(b[..4]);
      WordsOnto(b[4..], n - 1);
      assert GetWords(b, n)[1..] == GetWords(b[4..], n - 1);
      assert b[..4] + b[4..][..4 * (n - 1)] == b[..4 * n];
    }
  }

  lemma InfoOnto(b: seq<byte>)
    requires |b| >= INFO_SIZE
    ensures GetInfo(b).Fits() && PutInfo(GetInfo(b)) == b[..INFO_SIZE]
  {
    var w := GetWords(b[16..], 3 + NGRPS);
    WordsOnto(b[16..], 3 + NGRPS);
    assert w == [w[0], w[1], w[2]] + w[3..];
    assert b[..16] + b[16..][..76] == b[..92];
  }

  /** A replica takes a call only from a normal entry of full length, and the procedure and the caller are
      those that the bytes stand for. Any such call could be logged again. */
  lemma ParseSound(normal: bool, b: seq<byte>)
    requires Parse(normal, b).Some?
    ensures var c := Parse(normal, b).value;
            && normal && |b| >= 96 && Loggable(c)
            && Be(c.proc, 4) == b[..4] && PutInfo(c.info) == b[4..96]
  {
    DecodeTyped(ArgsOf(FromBe(b[..4])).value, b[4 + INFO_SIZE..]);
    BeOnto(b[..4]);
    InfoOnto(b[4..]);
    assert b[4..][..INFO_SIZE] == b[4..96];
  }

  // ---------- the credentials that a replica runs the call with ----------

  /** authunix_parms: the number of groups and the array they are in. */
  datatype Cred = Cred(uid: nat, gid: nat, len: nat, gids: seq<nat>)

  /** The groups that a reader of the credentials sees. */
  function Groups(c: Cred): Option<seq<nat>> {
    if c.len <= |c.gids| then Some(c.gids[..c.len]) else None
  }

  function Rebuild(info: ClientInfo): Cred
    requires |info.gids| == NGRPS
  {
    var gids := seq(NGRPS, i => if 0 <= i < NGRPS && i < info.gidLen then info.gids[i] else 0);
    Cred(info.uid, info.gid, info.gidLen, gids)
  }

  /** A replica runs the call as the caller, with all of the caller's groups, exactly if there are at most 16. */
  lemma RunsAsCaller(c: Call, proc: nat, addr: seq<byte>, a: Auth, args: Val)
    requires Describes(c, proc, addr, Some(a), args)
    ensures var r := Rebuild(c.info);
            && r.uid == a.uid && r.gid == a.gid && r.len == |a.gids| && |r.gids| == 16
            && (Groups(r) == Some(a.gids) <==> |a.gids| <= 16)
            && forall k :: 0 <= k < 16 && k < |a.gids| ==> r.gids[k] == a.gids[k]
  {
    var r := Rebuild(c.info);
    if |a.gids| <= 16 { assert r.gids[..r.len] == a.gids; }
  }

  // ---------- the code ----------

  /** The loop that copies the caller's groups. */
  method Describe(addr: seq<byte>, auth: Option<Auth>) returns (info: ClientInfo)
    ensures info == InfoOf(addr, auth)
  {
    var gids: seq<nat> := seq(NGRPS, _ => 0);
    if auth.None? {
      return ClientInfo(addr, 0, 0, 0, gids);
    }
    var a := auth.value;
    var i := 0;
    while i < |a.gids| && i < NGRPS
      invariant 0 <= i <= NGRPS && i <= |a.gids| && |gids| == NGRPS
      invariant forall k :: 0 <= k < NGRPS ==> gids[k] == if k < i then a.gids[k] else 0
    {
      gids := gids[i := a.gids[i]];
      i := i + 1;
    }
    info := ClientInfo(addr, a.uid, a.gid, |a.gids|, gids);
  }

  /** The loop over the group array. */
  method SerializeWords(vs: seq<nat>, w: Writer)
    requires w.Valid() && w.len + 4 * |vs| <= w.data.Length
    modifies w, w.data
    ensures w.Valid() && w.Contents() == old(w.Contents()) + PutWords(vs)
  {
    ghost var start := w.Contents();
    assert vs[0..] == vs;
    for k := 0 to |vs|
      invariant w.Valid() && w.len + 4 * (|vs| - k) <= w.data.Length
      invariant w.Contents() + PutWords(vs[k..]) == start + PutWords(vs)
    {
      assert vs[k..][0] == vs[k] && vs[k..][1..] == vs[k + 1..];
      ghost var before := w.Contents();
      w.Put(Be(vs[k], 4));
      assert before + (Be(vs[k], 4) + PutWords(vs[k + 1..])) == w.Contents() + PutWords(vs[k + 1..]);
    }
    assert w.Contents() + [] == w.Contents();
  }

  /** raft_client_info_serialize */
  method SerializeInfo(i: ClientInfo, w: Writer)
    requires |i.addr| == 16 && |i.gids| == NGRPS && w.Valid() && w.len + INFO_SIZE <= w.data.Length
    modifies w, w.data
    ensures w.Valid() && w.Contents() == old(w.Contents()) + PutInfo(i)
  {
    ghost var start := w.Contents();
    w.Put(i.addr);
    w.Put(Be(i.uid, 4));
    w.Put(Be(i.gid, 4));
    w.Put(Be(i.gidLen, 4));
    ghost var three := Be(i.uid, 4) + Be(i.gid, 4) + Be(i.gidLen, 4);
    assert w.Contents() == start + (i.addr + three);
    SerializeWords(i.gids, w);
    ThreeWords(i.uid, i.gid, i.gidLen, i.gids);
    Regroup(i.addr, three, PutWords(i.gids));
    Regroup(start, i.addr + three, PutWords(i.gids));
  }

  lemma ThreeWords(a: nat, b: nat, c: nat, more: seq<nat>)
    ensures PutWords([a, b, c] + more) == (Be(a, 4) + Be(b, 4) + Be(c, 4)) + PutWords(more)
  {
    assert ([a, b, c] + more)[1..] == [b, c] + more && ([b, c] + more)[1..] == [c] + more && ([c] + more)[1..] == more;
    assert PutWords([c] + more) == Be(c, 4) + PutWords(more);
    assert PutWords([b, c] + more) == Be(b, 4) + (Be(c, 4) + PutWords(more));
    assert PutWords([a, b, c] + more) == Be(a, 4) + (Be(b, 4) + (Be(c, 4) + PutWords(more)));
  }

  /** The buffer is allocated with the computed size, and the entry fills it exactly. */
  method Assemble(proc: nat, info: ClientInfo, s: Schema, args: Val) returns (r: seq<byte>)
    requires Typed(s, args) && |info.addr| == 16 && |info.gids| == NGRPS
    ensures r == Be(proc, 4) + (PutInfo(info) + Encode(s, args))
    ensures |r| == PROC_SIZE + INFO_SIZE + SizeOf(s, args)
  {
    SizeIsLength(s, args);
    var w := new Writer(PROC_SIZE + INFO_SIZE + SizeOf(s, args));
    w.Put(Be(proc, 4));
    SerializeInfo(info, w);
    ghost var head := Be(proc, 4);
    assert w.Contents() == head + PutInfo(info);
    Put(s, args, w);
    Regroup(head, PutInfo(info), Encode(s, args));
    assert w.Contents() == w.data[..];
    r := w.data[..];
  }

  method BuildEntry(c: Call) returns (r: Option<seq<byte>>)
    requires Loggable(c)
    ensures r == Build(c)
  {
    var s := ArgsOf(c.proc).value;
    if SizeOf(s, c.args) == 0 {
      return None;
    }
    var b := Assemble(c.proc, c.info, s, c.args);
    r := Some(b);
  }

  /** From the call to the entry: whatever replica parses it gets the caller's call. */
  method LogCall(proc: nat, addr: seq<byte>, auth: Option<Auth>, args: Val) returns (r: Option<seq<byte>>)
    requires Arrives(proc, addr, auth, args)
    ensures r.None? <==> proc == 0
    ensures r.Some? ==> Parse(true, r.value).Some? && Describes(Parse(true, r.value).value, proc, addr, auth, args)
  {
    InfoFits(proc, addr, auth, args);
    CallerLogged(proc, addr, auth, args);
    var info := Describe(addr, auth);
    r := BuildEntry(Call(proc, info, args));
  }

  /** The credentials that apply_nfs_operation sets up. */
  method RebuildCred(info: ClientInfo) returns (c: Cred)
    requires |info.gids| == NGRPS
    ensures c == Rebuild(info)
  {
    var gids: seq<nat> := seq(NGRPS, _ => 0);
    var i := 0;
    while i < info.gidLen && i < NGRPS
      invariant 0 <= i <= NGRPS && i <= info.gidLen && |gids| == NGRPS
      invariant forall k :: 0 <= k < NGRPS ==> gids[k] == if k < i then info.gids[k] else 0
    {
      gids := gids[i := info.gids[i]];
      i := i + 1;
    }
    c := Cred(info.uid, info.gid, info.gidLen, gids);
  }

  /** The apply callback up to the point where the procedure runs. */
  method ParseEntry(normal: bool, b: seq<byte>) returns (r: Option<Call>)
    ensures r == Parse(normal, b)
  {
    if !normal || |b| < PROC_SIZE + INFO_SIZE {
      return None;
    }
    var proc := FromBe(b[..4]);
    var s := ArgsOf(proc);
    if s.None? {
      return None;
    }
    var xdrs := new Stream(b[4 + INFO_SIZE..]);
    assert xdrs.data[0..] == xdrs.data;
    var v := xdrs.Get(s.value);
    r := if v.Some? then Some(Call(proc, GetInfo(b[4..]), v.value)) else None;
  }
}
