/** The four messages that replicas exchange, as bytes of a datagram. */
module RaftCodec {
  import opened Options
  import opened Bytes
  import opened Buffers

  const RAFT_MAX_PKT := 20480

  datatype LogEntry = LogEntry(term: int, id: int, kind: int, data: seq<byte>)

  datatype Msg =
    | RequestVote(term: int, candidate: int, lastIdx: int, lastTerm: int)
    | VoteResponse(term: int, granted: int)
    | AppendEntries(term: int, prevIdx: int, prevTerm: int, commit: int, entries: seq<LogEntry>)
    | AppendResponse(term: int, success: int, currentIdx: int, firstIdx: int)

  predicate Fits(v: int, n: nat) { 0 <= 2 * v + Pow256(n) && 2 * v < Pow256(n) }

  predicate EntryFits(e: LogEntry) { Fits(e.term, 8) && Fits(e.id, 8) && Fits(e.kind, 4) && |e.data| < Pow256(4) }

  /** The fields have the widths of the C types. */
  predicate MsgFits(m: Msg) {
    match m
    case RequestVote(t, c, i, lt) => Fits(t, 8) && Fits(c, 4) && Fits(i, 8) && Fits(lt, 8)
    case VoteResponse(t, g) => Fits(t, 8) && Fits(g, 4)
    case AppendEntries(t, pi, pt, c, es) =>
      Fits(t, 8) && Fits(pi, 8) && Fits(pt, 8) && Fits(c, 8) && Fits(|es|, 4) && forall e :: e in es ==> EntryFits(e)
    case AppendResponse(t, s, c, f) => Fits(t, 8) && Fits(s, 4) && Fits(c, 8) && Fits(f, 8)
  }

  // ---------- fields ----------

  /** htobe64 or htonl of a signed field, then memcpy */
  function Put(v: int, n: nat): (s: seq<byte>)
    requires Fits(v, n)
    ensures |s| == n
  {
    Be(Signed(v, n), n)
  }

  /** A parsed value and the bytes after it. */
  datatype Parsed<T> = Parsed(v: T, rest: seq<byte>)

  function Get(b: seq<byte>, n: nat): Option<Parsed<int>> {
    if |b| < n then None else Some(Parsed(FromSigned(FromBe(b[..n]), n), b[n..]))
  }

  lemma GetPut(v: int, n: nat, rest: seq<byte>)
    requires Fits(v, n)
    ensures Get(Put(v, n) + rest, n) == Some(Parsed(v, rest))
  {
    BeRoundTrip(Signed(v, n), n);
    var b := Put(v, n) + rest;
    assert b[..n] == Put(v, n) && b[n..] == rest;
  }

  // ---------- log entries ----------

  /** serialize_msg_entry */
  function PutEntry(e: LogEntry): seq<byte>
    requires EntryFits(e)
  {
    Put(e.term, 8) + (Put(e.id, 8) + (Put(e.kind, 4) + (Be(|e.data|, 4) + e.data)))
  }

  function At(b: seq<byte>, i: nat, n: nat): int
    requires i + n <= |b|
  {
    FromSigned(FromBe(b[i..i + n]), n)
  }

  /** deserialize_msg_entry */
  function GetEntry(b: seq<byte>): Option<Parsed<LogEntry>> {
    if |b| < 24 then None
    else
      var len := FromBe(b[20..24]);
      if |b| < 24 + len then None
      else Some(Parsed(LogEntry(At(b, 0, 8), At(b, 8, 8), At(b, 16, 4), b[24..24 + len]), b[24 + len..]))
  }

  lemma AtPut(b: seq<byte>, i: nat, v: int, n: nat)
    requires Fits(v, n) && i + n <= |b| && b[i..i + n] == Put(v, n)
    ensures At(b, i, n) == v
  {
    BeRoundTrip(Signed(v, n), n);
  }

  lemma GetPutEntry(e: LogEntry, rest: seq<byte>)
    requires EntryFits(e)
    ensures GetEntry(PutEntry(e) + rest) == Some(Parsed(e, rest))
  {
    var b := PutEntry(e) + rest;
    AtPut(b, 0, e.term, 8);
    AtPut(b, 8, e.id, 8);
    AtPut(b, 16, e.kind, 4);
    BeRoundTrip(|e.data|, 4);
    assert b[20..24] == Be(|e.data|, 4) && b[24..24 + |e.data|] == e.data && b[24 + |e.data|..] == rest;
  }

  /** serialize_msg_entry_array */
  function PutEntries(es: seq<LogEntry>): seq<byte>
    requires forall e :: e in es ==> EntryFits(e)
  {
    if es == [] then [] else PutEntry(es[0]) + PutEntries(es[1..])
  }

  /** deserialize_msg_entry_array */
  function GetEntries(b: seq<byte>, n: nat): Option<Parsed<seq<LogEntry>>> {
    if n == 0 then Some(Parsed([], b))
    else
      var e :- GetEntry(b);
      var es :- GetEntries(e.rest, n - 1);
      Some(Parsed([e.v] + es.v, es.rest))
  }

  lemma GetMore(b: seq<byte>, e: Parsed<LogEntry>, es: Parsed<seq<LogEntry>>)
    requires GetEntry(b) == Some(e) && GetEntries(e.rest, |es.v|) == Some(es)
    ensures GetEntries(b, |es.v| + 1) == Some(Parsed([e.v] + es.v, es.rest))
  {}

  lemma GetFirst(e: LogEntry, tail: seq<byte>, es: seq<LogEntry>, rest: seq<byte>)
    requires EntryFits(e) && GetEntries(tail, |es|) == Some(Parsed(es, rest))
    ensures GetEntries(PutEntry(e) + tail, |es| + 1) == Some(Parsed([e] + es, rest))
  {
    GetPutEntry(e, tail);
    GetMore(PutEntry(e) + tail, Parsed(e, tail), Parsed(es, rest));
  }

  lemma {:induction false} GetPutEntries(es: seq<LogEntry>, rest: seq<byte>)
    requires forall e :: e in es ==> EntryFits(e)
    ensures GetEntries(PutEntries(es) + rest, |es|) == Some(Parsed(es, rest))
  {
    if es == [] {
      assert PutEntries(es) + rest == rest;
    } else {
      var more := es[1..];
      assert forall e :: e in more ==> EntryFits(e);
      GetPutEntries(more, rest);
      GetFirst(es[0], PutEntries(more) + rest, more, rest);
      Regroup(PutEntry(es[0]), PutEntries(more), rest);
      assert [es[0]] + more == es;
    }
  }

  // ---------- messages ----------

  function TypeOf(m: Msg): byte {
    match m
    case RequestVote(_, _, _, _) => 1
    case VoteResponse(_, _) => 2
    case AppendEntries(_, _, _, _, _) => 3
    case AppendResponse(_, _, _, _) => 4
  }

  /** The widths of the header fields of each message type, in the order they are written. */
  function FieldWidths(t: byte): seq<nat> {
    if t == 1 then [8, 4, 8, 8]
    else if t == 2 then [8, 4]
    else if t == 3 then [8, 8, 8, 8, 4]
    else [8, 4, 8, 8]
  }

  function Header(m: Msg): (vs: seq<int>)
    ensures |vs| == |FieldWidths(TypeOf(m))|
    ensures MsgFits(m) ==> AllFit(vs, FieldWidths(TypeOf(m)))
  {
    match m
    case RequestVote(t, c, i, lt) => [t, c, i, lt]
    case VoteResponse(t, g) => [t, g]
    case AppendEntries(t, pi, pt, c, es) => [t, pi, pt, c, |es|]
    case AppendResponse(t, s, c, f) => [t, s, c, f]
  }

  predicate AllFit(vs: seq<int>, ws: seq<nat>) {
    |vs| == |ws| && forall i :: 0 <= i < |vs| ==> Fits(vs[i], ws[i])
  }

  function PutFields(vs: seq<int>, ws: seq<nat>): seq<byte>
    requires AllFit(vs, ws)
  {
    if vs == [] then [] else Put(vs[0], ws[0]) + PutFields(vs[1..], ws[1..])
  }

  function GetFields(b: seq<byte>, ws: seq<nat>): (r: Option<Parsed<seq<int>>>)
    ensures r.Some? ==> |r.value.v| == |ws|
    decreases |ws|
  {
    if ws == [] then Some(Parsed([], b))
    else
      var v :- Get(b, ws[0]);
      var vs :- GetFields(v.rest, ws[1..]);
      Some(Parsed([v.v] + vs.v, vs.rest))
  }

  lemma {:induction false} GetPutFields(vs: seq<int>, ws: seq<nat>, rest: seq<byte>)
    requires AllFit(vs, ws)
    ensures GetFields(PutFields(vs, ws) + rest, ws) == Some(Parsed(vs, rest))
    decreases |vs|
  {
    if vs == [] {
      assert PutFields(vs, ws) + rest == rest;
    } else {
      var tail := PutFields(vs[1..], ws[1..]) + rest;
      Regroup(Put(vs[0], ws[0]), PutFields(vs[1..], ws[1..]), rest);
      GetPut(vs[0], ws[0], tail);
      GetPutFields(vs[1..], ws[1..], rest);
      assert [vs[0]] + vs[1..] == vs;
    }
  }

  function Entries(m: Msg): seq<byte>
    requires MsgFits(m)
  {
    if m.AppendEntries? then PutEntries(m.entries) else []
  }

  function PutMsg(m: Msg): seq<byte>
    requires MsgFits(m)
  {
    [TypeOf(m)] + (PutFields(Header(m), FieldWidths(TypeOf(m))) + Entries(m))
  }

  /** raft_net_receive and the handlers: the type selects the header, and the entries of an
      AppendEntries are read only if their number is positive. Other types are dropped. */
  function GetMsg(b: seq<byte>): Option<Parsed<Msg>> {
    if b == [] || b[0] < 1 || b[0] > 4 then None
    else
      var h :- GetFields(b[1..], FieldWidths(b[0]));
      if b[0] == 3 then
        var es :- if h.v[4] > 0 then GetEntries(h.rest, h.v[4]) else Some(Parsed([], h.rest));
        Some(Parsed(AppendEntries(h.v[0], h.v[1], h.v[2], h.v[3], es.v), es.rest))
      else
        Some(Parsed(if b[0] == 1 then RequestVote(h.v[0], h.v[1], h.v[2], h.v[3])
                    else if b[0] == 2 then VoteResponse(h.v[0], h.v[1])
                    else AppendResponse(h.v[0], h.v[1], h.v[2], h.v[3]), h.rest))
  }

  lemma FieldsBack(t: byte, vs: seq<int>, ws: seq<nat>, more: seq<byte>, rest: seq<byte>)
    requires AllFit(vs, ws)
    ensures var b := [t] + (PutFields(vs, ws) + more) + rest;
            b[0] == t && GetFields(b[1..], ws) == Some(Parsed(vs, more + rest))
  {
    var b := [t] + (PutFields(vs, ws) + more) + rest;
    assert b[1..] == PutFields(vs, ws) + (more + rest);
    GetPutFields(vs, ws, more + rest);
  }

  /** Decoding a message followed by anything gives the message back and uses up exactly its bytes. */
  lemma RoundTrip(m: Msg, rest: seq<byte>)
    requires MsgFits(m)
    ensures GetMsg(PutMsg(m) + rest) == Some(Parsed(m, rest))
  {
    FieldsBack(TypeOf(m), Header(m), FieldWidths(TypeOf(m)), Entries(m), rest);
    if m.AppendEntries? { GetPutEntries(m.entries, rest); }
    assert [] + rest == rest;
  }

  /** The fields of the four messages, in the order of the wire. */
  lemma MsgLayout(m: Msg)
    requires MsgFits(m)
    ensures match m
            case RequestVote(t, c, i, lt) => PutMsg(m) == [1] + (Put(t, 8) + (Put(c, 4) + (Put(i, 8) + Put(lt, 8))))
            case VoteResponse(t, g) => PutMsg(m) == [2] + (Put(t, 8) + Put(g, 4))
            case AppendEntries(t, pi, pt, c, es) =>
              PutMsg(m) == [3] + (Put(t, 8) + (Put(pi, 8) + (Put(pt, 8) + (Put(c, 8) + Put(|es|, 4)))) + PutEntries(es))
            case AppendResponse(t, s, c, f) => PutMsg(m) == [4] + (Put(t, 8) + (Put(s, 4) + (Put(c, 8) + Put(f, 8))))
  {
    var vs, ws := Header(m), FieldWidths(TypeOf(m));
    match m
    case RequestVote(_, _, _, _) => FourFields(vs, ws); Regroup(PutFields(vs, ws), [], []);
    case VoteResponse(_, _) => TwoFields(vs, ws); Regroup(PutFields(vs, ws), [], []);
    case AppendEntries(_, _, _, _, _) => FiveFields(vs, ws);
    case AppendResponse(_, _, _, _) => FourFields(vs, ws); Regroup(PutFields(vs, ws), [], []);
  }

  lemma TwoFields(vs: seq<int>, ws: seq<nat>)
    requires AllFit(vs, ws) && |vs| == 2
    ensures PutFields(vs, ws) == Put(vs[0], ws[0]) + Put(vs[1], ws[1])
  {
    LastField(vs[1..], ws[1..]);
  }

  lemma FourFields(vs: seq<int>, ws: seq<nat>)
    requires AllFit(vs, ws) && |vs| == 4
    ensures PutFields(vs, ws) == Put(vs[0], ws[0]) + (Put(vs[1], ws[1]) + (Put(vs[2], ws[2]) + Put(vs[3], ws[3])))
  {
    TwoFields(vs[1..][1..], ws[1..][1..]);
  }

  lemma FiveFields(vs: seq<int>, ws: seq<nat>)
    requires AllFit(vs, ws) && |vs| == 5
    ensures PutFields(vs, ws) ==
            Put(vs[0], ws[0]) + (Put(vs[1], ws[1]) + (Put(vs[2], ws[2]) + (Put(vs[3], ws[3]) + Put(vs[4], ws[4]))))
  {
    FourFields(vs[1..], ws[1..]);
  }

  lemma LastField(vs: seq<int>, ws: seq<nat>)
    requires AllFit(vs, ws) && |vs| == 1
    ensures PutFields(vs, ws) == Put(vs[0], ws[0])
  {
    assert vs[1..] == [] && Put(vs[0], ws[0]) + [] == Put(vs[0], ws[0]);
  }

  // ---------- the code ----------

  /** Write `bytes`; `rest` is what is still to be written. */
  method Emit(w: Writer, bytes: seq<byte>, ghost rest: seq<byte>)
    requires w.Valid() && w.len + |bytes| + |rest| <= w.data.Length
    modifies w, w.data
    ensures w.Valid() && w.len + |rest| <= w.data.Length
    ensures w.Contents() + rest == old(w.Contents()) + (bytes + rest)
  {
    w.Put(bytes);
  }

  /** Write header field `k`, with value `v` and width `n`. */
  method Field(w: Writer, v: int, n: nat, ghost vs: seq<int>, ghost ws: seq<nat>, ghost k: nat)
    requires AllFit(vs, ws) && k < |vs| && vs[k] == v && ws[k] == n
    requires w.Valid() && w.len + |PutFields(vs[k..], ws[k..])| <= w.data.Length
    modifies w, w.data
    ensures w.Valid() && w.len + |PutFields(vs[k + 1..], ws[k + 1..])| <= w.data.Length
    ensures w.Contents() + PutFields(vs[k + 1..], ws[k + 1..]) == old(w.Contents()) + PutFields(vs[k..], ws[k..])
  {
    assert vs[k..][1..] == vs[k + 1..] && ws[k..][1..] == ws[k + 1..];
    Emit(w, Put(v, n), PutFields(vs[k + 1..], ws[k + 1..]));
  }

  ghost predicate Room(w: Writer, m: Msg)
    reads w
  {
    MsgFits(m) && w.Valid() && w.len + |PutFields(Header(m), FieldWidths(TypeOf(m)))| <= w.data.Length
  }

  /** serialize_requestvote */
  method SerializeRequestVote(m: Msg, w: Writer)
    requires m.RequestVote? && Room(w, m)
    modifies w, w.data
    ensures w.Valid() && w.Contents() == old(w.Contents()) + PutFields(Header(m), FieldWidths(TypeOf(m)))
  {
    ghost var vs, ws := Header(m), FieldWidths(TypeOf(m));
    assert vs[0..] == vs && ws[0..] == ws && vs[4..] == [];
    Field(w, m.term, 8, vs, ws, 0);
    Field(w, m.candidate, 4, vs, ws, 1);
    Field(w, m.lastIdx, 8, vs, ws, 2);
    Field(w, m.lastTerm, 8, vs, ws, 3);
    assert w.Contents() + [] == w.Contents();
  }

  /** serialize_requestvote_response */
  method SerializeVoteResponse(m: Msg, w: Writer)
    requires m.VoteResponse? && Room(w, m)
    modifies w, w.data
    ensures w.Valid() && w.Contents() == old(w.Contents()) + PutFields(Header(m), FieldWidths(TypeOf(m)))
  {
    ghost var vs, ws := Header(m), FieldWidths(TypeOf(m));
    assert vs[0..] == vs && ws[0..] == ws && vs[2..] == [];
    Field(w, m.term, 8, vs, ws, 0);
    Field(w, m.granted, 4, vs, ws, 1);
    assert w.Contents() + [] == w.Contents();
  }

  /** serialize_appendentries */
  method SerializeAppendEntries(m: Msg, w: Writer)
    requires m.AppendEntries? && Room(w, m)
    modifies w, w.data
    ensures w.Valid() && w.Contents() == old(w.Contents()) + PutFields(Header(m), FieldWidths(TypeOf(m)))
  {
    ghost var vs, ws := Header(m), FieldWidths(TypeOf(m));
    assert vs[0..] == vs && ws[0..] == ws && vs[5..] == [];
    Field(w, m.term, 8, vs, ws, 0);
    Field(w, m.prevIdx, 8, vs, ws, 1);
    Field(w, m.prevTerm, 8, vs, ws, 2);
    Field(w, m.commit, 8, vs, ws, 3);
    Field(w, |m.entries|, 4, vs, ws, 4);
    assert w.Contents() + [] == w.Contents();
  }

  /** serialize_appendentries_response */
  method SerializeAppendResponse(m: Msg, w: Writer)
    requires m.AppendResponse? && Room(w, m)
    modifies w, w.data
    ensures w.Valid() && w.Contents() == old(w.Contents()) + PutFields(Header(m), FieldWidths(TypeOf(m)))
  {
    ghost var vs, ws := Header(m), FieldWidths(TypeOf(m));
    assert vs[0..] == vs && ws[0..] == ws && vs[4..] == [];
    Field(w, m.term, 8, vs, ws, 0);
    Field(w, m.success, 4, vs, ws, 1);
    Field(w, m.currentIdx, 8, vs, ws, 2);
    Field(w, m.firstIdx, 8, vs, ws, 3);
    assert w.Contents() + [] == w.Contents();
  }

  /** serialize_msg_entry */
  method SerializeEntry(e: LogEntry, w: Writer)
    requires EntryFits(e) && w.Valid() && w.len + |PutEntry(e)| <= w.data.Length
    modifies w, w.data
    ensures w.Valid() && w.Contents() == old(w.Contents()) + PutEntry(e)
  {
    ghost var x2 := Be(|e.data|, 4) + e.data;
    Emit(w, Put(e.term, 8), Put(e.id, 8) + (Put(e.kind, 4) + x2));
    Emit(w, Put(e.id, 8), Put(e.kind, 4) + x2);
    Emit(w, Put(e.kind, 4), x2);
    Emit(w, Be(|e.data|, 4), e.data);
    if |e.data| > 0 {
      w.Put(e.data);
    } else {
      assert w.Contents() + e.data == w.Contents();
    }
  }

  method SerializeEntries(es: seq<LogEntry>, w: Writer)
    requires (forall e :: e in es ==> EntryFits(e)) && w.Valid() && w.len + |PutEntries(es)| <= w.data.Length
    modifies w, w.data
    ensures w.Valid() && w.Contents() == old(w.Contents()) + PutEntries(es)
  {
    ghost var start := w.Contents();
    assert es[0..] == es;
    for i := 0 to |es|
      invariant w.Valid() && w.len + |PutEntries(es[i..])| <= w.data.Length
      invariant w.Contents() + PutEntries(es[i..]) == start + PutEntries(es)
    {
      assert es[i..][0] == es[i] && es[i..][1..] == es[i + 1..];
      Regroup(w.Contents(), PutEntry(es[i]), PutEntries(es[i + 1..]));
      SerializeEntry(es[i], w);
    }
    assert w.Contents() + [] == w.Contents();
  }

  /** A whole datagram: the type byte, the header, and the entries if there are any. */
  method Send(m: Msg) returns (packet: seq<byte>)
    requires MsgFits(m) && |PutMsg(m)| <= RAFT_MAX_PKT
    ensures packet == PutMsg(m)
  {
    var w := new Writer(RAFT_MAX_PKT);
    ghost var fields := PutFields(Header(m), FieldWidths(TypeOf(m)));
    ghost var more := Entries(m);
    w.Put([TypeOf(m)]);
    SerializeHeader(m, w);
    assert w.Contents() == [TypeOf(m)] + fields;
    if m.AppendEntries? && |m.entries| > 0 {
      SerializeEntries(m.entries, w);
      assert w.Contents() == [TypeOf(m)] + fields + more;
    } else {
      assert more == [];
    }
    packet := w.data[..w.len];
    Regroup([TypeOf(m)], fields, more);
  }

  method SerializeHeader(m: Msg, w: Writer)
    requires Room(w, m)
    modifies w, w.data
    ensures w.Valid() && w.Contents() == old(w.Contents()) + PutFields(Header(m), FieldWidths(TypeOf(m)))
  {
    if m.RequestVote? {
      SerializeRequestVote(m, w);
    } else if m.VoteResponse? {
      SerializeVoteResponse(m, w);
    } else if m.AppendResponse? {
      SerializeAppendResponse(m, w);
    } else {
      SerializeAppendEntries(m, w);
    }
  }

  /** deserialize_msg_entry_array: each entry is read where the one before ended. */
  method DeserializeEntries(b: seq<byte>, n: nat) returns (r: Option<Parsed<seq<LogEntry>>>)
    ensures r == GetEntries(b, n)
  {
    var es, rest := [], b;
    PrependNone(GetEntries(b, n));
    for i := 0 to n
      invariant GetEntries(b, n) == Prepend(es, GetEntries(rest, n - i))
    {
      var e := GetEntry(rest);
      if e.None? {
        return None;
      }
      PrependOne(es, e.value.v, GetEntries(e.value.rest, n - i - 1));
      es, rest := es + [e.value.v], e.value.rest;
    }
    assert es + [] == es;
    r := Some(Parsed(es, rest));
  }

  function Prepend(es: seq<LogEntry>, r: Option<Parsed<seq<LogEntry>>>): Option<Parsed<seq<LogEntry>>> {
    if r.Some? then Some(Parsed(es + r.value.v, r.value.rest)) else None
  }

  lemma PrependNone(r: Option<Parsed<seq<LogEntry>>>)
    ensures Prepend([], r) == r
  {
    if r.Some? { assert [] + r.value.v == r.value.v; }
  }

  lemma PrependOne(es: seq<LogEntry>, e: LogEntry, r: Option<Parsed<seq<LogEntry>>>)
    ensures Prepend(es, Prepend([e], r)) == Prepend(es + [e], r)
  {
    if r.Some? { assert es + ([e] + r.value.v) == (es + [e]) + r.value.v; }
  }
}
