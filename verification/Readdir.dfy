/**
  READDIR in pages. A cookie is the position after an entry, tagged with an epoch that every
  REMOVE, RMDIR and RENAME advances; a cookie of another epoch restarts the listing.
 */
module Readdir {
  import opened Options
  import opened Bytes
  import opened Bits
  import Layouts
  import Xdr

  const MAX_ENTRIES := 143
  const RESOK_SIZE := 104
  const ENTRY_SIZE := 24
  const MAX_COUNT := 4096

  // ---------- cookies ----------

  /** opt_32_bit_truncate leaves 20 bits for the position and 12 for the epoch, instead of 32 and 32. */
  function PosBits(short: bool): nat { if short then 20 else 32 }
  function PosSpan(short: bool): nat { if short then 0x10_0000 else 0x1_0000_0000 }
  function EpochSpan(short: bool): nat { if short then 4096 else 0x1_0000_0000 }

  /** The value of `rcookie` in epoch `e`. */
  function Tag(short: bool, e: nat): nat { e % EpochSpan(short) * PosSpan(short) }

  /** change_readdir_cookie */
  function Change(short: bool, rcookie: nat): nat {
    (rcookie / PosSpan(short) + 1) % EpochSpan(short) * PosSpan(short)
  }

  lemma ChangeIsNextEpoch(short: bool, e: nat)
    ensures Change(short, Tag(short, e)) == Tag(short, e + 1)
  {
    SplitCookie(short, e % EpochSpan(short), 0);
    NextEpoch(short, e);
  }

  lemma NextEpoch(short: bool, e: nat)
    ensures (e % EpochSpan(short) + 1) % EpochSpan(short) == (e + 1) % EpochSpan(short)
  {}

  /** The cookie of the entry that ends at position `pos`. */
  function Cookie(rcookie: nat, pos: nat): nat { Or(pos, rcookie) }

  /** Where a READDIR with this cookie starts. */
  function StartOf(short: bool, rcookie: nat, cookie: nat): (r: nat)
    ensures r < PosSpan(short)
  {
    var upper := cookie / PosSpan(short) % EpochSpan(short) * PosSpan(short);
    if cookie != 0 && upper != rcookie then 0 else cookie % PosSpan(short)
  }

  /** Where a cookie leads in epoch `e2`: the bits of its position above its share run into those of its
      own epoch `e`, and if what is there is the tag of `e2`, the server goes on at the rest. */
  lemma StartExact(short: bool, e: nat, e2: nat, pos: nat)
    ensures StartOf(short, Tag(short, e2), Cookie(Tag(short, e), pos)) ==
            if Or(pos / PosSpan(short), e % EpochSpan(short)) % EpochSpan(short) == e2 % EpochSpan(short)
            then pos % PosSpan(short) else 0
  {
    var r, q, x := pos % PosSpan(short), pos / PosSpan(short), e % EpochSpan(short);
    PosSpanBits(short);
    DivMod(pos, PosSpan(short));
    OrSplit(r, q, x, PosBits(short));
    SplitCookie(short, Or(q, x), r);
  }

  /** A cookie leads back to a position that fits exactly if the number of epochs since is a multiple of
      the number of tags; any other epoch restarts. */
  lemma CookieRoundTrip(short: bool, e: nat, bumps: nat, pos: nat)
    requires 0 < pos < PosSpan(short)
    ensures var c := Cookie(Tag(short, e), pos);
            StartOf(short, Tag(short, e + bumps), c) == if bumps % EpochSpan(short) == 0 then pos else 0
  {
    StartExact(short, e, e + bumps, pos);
    Apart(short, e, bumps);
  }

  /** A cookie of a position just past the span is taken, after an odd epoch, for one of the same tag, and
      after an even epoch for one of the next tag. The server then goes on at what is left of the position. */
  lemma CookiePastSpan(short: bool, e: nat, bumps: nat, pos: nat)
    requires PosSpan(short) <= pos < 2 * PosSpan(short)
    ensures var c := Cookie(Tag(short, e), pos);
            StartOf(short, Tag(short, e + bumps), c) ==
            if bumps % EpochSpan(short) == (if e % 2 == 1 then 0 else 1) then pos - PosSpan(short) else 0
  {
    StartExact(short, e, e + bumps, pos);
    assert pos / PosSpan(short) == 1 && pos % PosSpan(short) == pos - PosSpan(short);
    NextTag(short, e);
    if e % 2 == 1 { Apart(short, e, bumps); } else { OneApart(short, e, bumps); }
  }

  /** The position bit that runs into the tag changes it in even epochs. */
  lemma NextTag(short: bool, e: nat)
    ensures Or(1, e % EpochSpan(short)) % EpochSpan(short) == e % EpochSpan(short) + (if e % 2 == 1 then 0 else 1)
    ensures e % 2 == 0 ==> e % EpochSpan(short) + 1 < EpochSpan(short)
  {
    OrOne(e % EpochSpan(short));
    EvenSpan(short, e);
  }

  lemma EvenSpan(short: bool, e: nat)
    ensures e % EpochSpan(short) % 2 == e % 2
  {
    if short { EvenRest(2048 * (e / 4096), e % 4096); }
    else { EvenRest(0x8000_0000 * (e / 0x1_0000_0000), e % 0x1_0000_0000); }
  }

  lemma EvenRest(h: nat, r: nat)
    ensures (2 * h + r) % 2 == r % 2
  {}

  lemma Apart(short: bool, e: nat, bumps: nat)
    ensures e % EpochSpan(short) == (e + bumps) % EpochSpan(short) <==> bumps % EpochSpan(short) == 0
  {}

  lemma OneApart(short: bool, e: nat, bumps: nat)
    requires e % EpochSpan(short) + 1 < EpochSpan(short)
    ensures e % EpochSpan(short) + 1 == (e + bumps) % EpochSpan(short) <==> bumps % EpochSpan(short) == 1
  {}

  /** In the same epoch a cookie leads back to its position exactly if the position fits its bits. */
  lemma PositionFits(short: bool, e: nat, pos: nat)
    requires pos > 0
    ensures StartOf(short, Tag(short, e), Cookie(Tag(short, e), pos)) == pos <==> pos < PosSpan(short)
  {
    if pos < PosSpan(short) { CookieRoundTrip(short, e, 0, pos); }
  }

  /** Whatever the epoch, a cookie leads to the start or to the low bits of its position. */
  lemma StartLow(short: bool, e: nat, e2: nat, pos: nat)
    ensures StartOf(short, Tag(short, e2), Cookie(Tag(short, e), pos)) in {0, pos % PosSpan(short)}
  {
    StartExact(short, e, e2, pos);
  }

  lemma PosSpanBits(short: bool)
    ensures PosSpan(short) == Pow2(PosBits(short))
  {
    Powers();
  }

  lemma SplitCookie(short: bool, e: nat, pos: nat)
    requires pos < PosSpan(short)
    ensures (pos + e * PosSpan(short)) % PosSpan(short) == pos && (pos + e * PosSpan(short)) / PosSpan(short) == e
  {}

  // ---------- one page ----------

  /** How an entry of the directory fares: examined, not examined, or with too long a path. */
  datatype Status = Fine | StatFails | TooLong

  datatype Dirent = Dirent(name: seq<byte>, ino: nat, status: Status)

  datatype Entry3 = Entry3(fileid: nat, name: seq<byte>, cookie: nat)

  datatype Reply = Page(entries: seq<Entry3>, eof: bool) | ReaddirErr | IoErr

  function NameSize(name: seq<byte>): nat { (|name| + 3) / 4 * 4 }

  function EntrySize(d: Dirent): nat { ENTRY_SIZE + NameSize(d.name) }

  function FileId(short: bool, ino: nat): nat {
    if short then Xor(ino / 0x1_0000_0000, ino % 0x1_0000_0000) else ino
  }

  /** What a file id says of an inode number: all of it, or in 32-bit mode the exclusive or of its halves. */
  ghost predicate Identifies(short: bool, fileid: nat, ino: nat) {
    if !short then fileid == ino
    else ino < 0x1_0000_0000_0000_0000 ==> Folds(fileid, ino)
  }
  ghost predicate Folds(fileid: nat, ino: nat) {
    && fileid < 0x1_0000_0000 && (ino < 0x1_0000_0000 ==> fileid == ino)
    && forall k :: 0 <= k < 32 ==> Bit(fileid, k) == (Bit(ino, k) != Bit(ino, k + 32))
  }

  lemma FileIdIdentifies(short: bool, ino: nat)
    ensures Identifies(short, FileId(short, ino), ino)
  {
    if short && ino < 0x1_0000_0000_0000_0000 {
      var q, r := ino / 0x1_0000_0000, ino % 0x1_0000_0000;
      Powers();
      ShiftIs(q, 32);
      XorBound(q, r, 32);
      forall k | 0 <= k < 32 ensures Bit(Xor(q, r), k) == (Bit(ino, k) != Bit(ino, k + 32)) {
        XorBit(q, r, k);
        BitBelow(r, q, 32, k);
        BitAbove(r, q, 32, k);
      }
    }
  }

  function MakeEntry(short: bool, rcookie: nat, d: Dirent, pos: nat): Entry3 {
    Entry3(FileId(short, d.ino), d.name, Cookie(rcookie, pos))
  }

  datatype Filled = Filled(n: nat) | Bad(status: Status)

  /** How many entries from `start` on go into the page, `i` of them being in already. */
  function Fill(dir: seq<Dirent>, start: nat, count: nat, i: nat, size: nat): (r: Filled)
    requires start + i <= |dir| && i <= MAX_ENTRIES
    ensures r.Filled? ==> i <= r.n <= MAX_ENTRIES && start + r.n <= |dir|
    decreases |dir| - start - i
  {
    if start + i == |dir| || size >= count || i == MAX_ENTRIES then Filled(i)
    else
      var d := dir[start + i];
      if !d.status.Fine? then Bad(d.status)
      else if size + EntrySize(d) > count && i > 0 then Filled(i)
      else Fill(dir, start, count, i + 1, size + EntrySize(d))
  }

  function Min(a: nat, b: nat): nat { if a < b then a else b }

  function MakeEntries(short: bool, rcookie: nat, dir: seq<Dirent>, start: nat, pos: nat, n: nat): (es: seq<Entry3>)
    requires start + n <= |dir|
    ensures |es| == n
    ensures forall i :: 0 <= i < n ==> es[i].name == dir[start + i].name && es[i].cookie == Cookie(rcookie, pos + 1 + i)
  {
    if n == 0 then []
    else MakeEntries(short, rcookie, dir, start, pos, n - 1) + [MakeEntry(short, rcookie, dir[start + n - 1], pos + n)]
  }

  /** The reply to a request for the entries after position `pos`. */
  function PageFrom(short: bool, rcookie: nat, dir: seq<Dirent>, pos: nat, count: nat): Reply {
    var start := Min(pos, |dir|);
    match Fill(dir, start, Min(count, MAX_COUNT), 0, RESOK_SIZE)
    case Bad(StatFails) => ReaddirErr
    case Bad(_) => IoErr
    case Filled(n) => Page(MakeEntries(short, rcookie, dir, start, pos, n), start + n == |dir|)
  }

  /** read_dir on the listing `dir` */
  function Read(short: bool, rcookie: nat, dir: seq<Dirent>, cookie: nat, count: nat): Reply {
    PageFrom(short, rcookie, dir, StartOf(short, rcookie, cookie), count)
  }

  // ---------- sizes ----------

  /** xdr_entry3 behind the flag that announces it */
  function XdrEntry(e: Entry3): seq<byte> {
    Be(1, 4) + Be(e.fileid, 8) + Be(|e.name|, 4) + e.name + Xdr.Zeros(Xdr.Pad(|e.name|)) + Be(e.cookie, 8)
  }

  /** entry3 as a type of the XDR routines */
  const EntryType := Xdr.Pair(Xdr.UInt(8), Xdr.Pair(Xdr.VarBytes(0xFFFF_FFFF), Xdr.UInt(8)))

  function EntryVal(e: Entry3): Xdr.Val { Xdr.Both(Xdr.Num(e.fileid), Xdr.Both(Xdr.Data(e.name), Xdr.Num(e.cookie))) }

  /** What a client reads behind the flag is the entry: its id, its name and its cookie. */
  lemma EntryDecodes(e: Entry3, rest: seq<byte>)
    requires EntryFits(e)
    ensures XdrEntry(e)[..4] == [0, 0, 0, 1]
    ensures Xdr.Decode(EntryType, XdrEntry(e)[4..] + rest) == Some(Xdr.Parsed(EntryVal(e), rest))
  {
    Widths();
    ByteOrder(0, 0, 0, 1);
    EntryEncoding(e);
    var body := Xdr.Encode(EntryType, EntryVal(e));
    assert (Be(1, 4) + body)[..4] == Be(1, 4) && (Be(1, 4) + body)[4..] == body;
    Xdr.RoundTrip(EntryType, EntryVal(e), rest);
  }

  lemma EntryEncoding(e: Entry3)
    requires EntryFits(e)
    ensures Xdr.Typed(EntryType, EntryVal(e)) && XdrEntry(e) == Be(1, 4) + Xdr.Encode(EntryType, EntryVal(e))
  {
    Widths();
    var text := Xdr.VarBytes(0xFFFF_FFFF);
    Layouts.PairLayout(text, Xdr.UInt(8), Xdr.Data(e.name), Xdr.Num(e.cookie));
    Layouts.PairLayout(Xdr.UInt(8), Xdr.Pair(text, Xdr.UInt(8)), Xdr.Num(e.fileid),
                       Xdr.Both(Xdr.Data(e.name), Xdr.Num(e.cookie)));
    SixParts(Be(1, 4), Be(e.fileid, 8), Be(|e.name|, 4), e.name, Xdr.Zeros(Xdr.Pad(|e.name|)), Be(e.cookie, 8));
  }

  lemma SixParts(a: seq<byte>, b: seq<byte>, c: seq<byte>, d: seq<byte>, e: seq<byte>, f: seq<byte>)
    ensures a + b + c + d + e + f == a + (b + ((c + (d + e)) + f))
  {}

  function XdrEntries(es: seq<Entry3>): seq<byte> {
    if es == [] then [] else XdrEntries(es[..|es| - 1]) + XdrEntry(es[|es| - 1])
  }

  /** xdr_READDIR3resok with attributes present; `attr` is the encoded fattr3. */
  function XdrResok(attr: seq<byte>, es: seq<Entry3>, eof: bool): seq<byte> {
    Be(1, 4) + attr + Be(0, 8) + XdrEntries(es) + Be(0, 4) + Be(if eof then 1 else 0, 4)
  }

  /** How a client reads the list behind the attributes and the verifier: entries as long as the flag says so,
      then whether that is all. */
  function GetList(b: seq<byte>): Option<(seq<Entry3>, bool)>
    decreases |b|
  {
    if |b| < 8 then None
    else if FromBe(b[..4]) == 0 then Some(([], FromBe(b[4..8]) != 0))
    else
      var p :- Xdr.Decode(EntryType, b[4..]);
      if |p.rest| >= |b| || !IsEntry(p.v) then None
      else
        var (es, eof) :- GetList(p.rest);
        Some(([Entry3(p.v.a.n, p.v.b2.a.b, p.v.b2.b2.n)] + es, eof))
  }

  predicate IsEntry(v: Xdr.Val) { v.Both? && v.a.Num? && v.b2.Both? && v.b2.a.Data? && v.b2.b2.Num? }

  predicate EntryFits(e: Entry3) { e.fileid < Pow256(8) && |e.name| < Pow256(4) && e.cookie < Pow256(8) }

  lemma {:induction false} FirstEntry(es: seq<Entry3>)
    requires es != []
    ensures XdrEntries(es) == XdrEntry(es[0]) + XdrEntries(es[1..])
    decreases |es|
  {
    var n := |es| - 1;
    if n == 0 {
      assert es[..0] == [] && es[1..] == [];
      Regroup([], XdrEntry(es[0]), []);
    } else {
      FirstEntry(es[..n]);
      assert es[..n][1..] == es[1..][..n - 1];
      Regroup(XdrEntry(es[0]), XdrEntries(es[1..][..n - 1]), XdrEntry(es[n]));
    }
  }

  lemma GetFirst(e: Entry3, tail: seq<byte>, es: seq<Entry3>, eof: bool)
    requires EntryFits(e) && GetList(tail) == Some((es, eof))
    ensures GetList(XdrEntry(e) + tail) == Some(([e] + es, eof))
  {
    var b := XdrEntry(e) + tail;
    EntryDecodes(e, tail);
    XdrEntryLen(e);
    ByteOrder(0, 0, 0, 1);
    assert b[..4] == XdrEntry(e)[..4] && b[4..] == XdrEntry(e)[4..] + tail;
    FlagSet();
  }

  lemma FlagSet()
    ensures FromBe([0, 0, 0, 1]) == 1
  {
    Widths();
    ByteOrder(0, 0, 0, 1);
    BeRoundTrip(1, 4);
  }

  function ListEnd(eof: bool): seq<byte> { Be(0, 4) + Be(if eof then 1 else 0, 4) }

  lemma EndDecodes(eof: bool)
    ensures GetList(ListEnd(eof)) == Some(([], eof))
  {
    Widths();
    BeRoundTrip(0, 4);
    BeRoundTrip(if eof then 1 else 0, 4);
    var b := ListEnd(eof);
    assert b[..4] == Be(0, 4) && b[4..8] == Be(if eof then 1 else 0, 4);
  }

  lemma {:induction false} ListDecodes(es: seq<Entry3>, eof: bool)
    requires forall i :: 0 <= i < |es| ==> EntryFits(es[i])
    ensures GetList(XdrEntries(es) + ListEnd(eof)) == Some((es, eof))
    decreases |es|
  {
    ListSplits(es, eof);
    if es == [] {
      EndDecodes(eof);
    } else {
      var more := es[1..];
      ListDecodes(more, eof);
      GetFirst(es[0], XdrEntries(more) + ListEnd(eof), more, eof);
    }
  }

  lemma ListSplits(es: seq<Entry3>, eof: bool)
    ensures XdrEntries(es) + ListEnd(eof) ==
            if es == [] then ListEnd(eof) else XdrEntry(es[0]) + (XdrEntries(es[1..]) + ListEnd(eof))
    ensures es != [] ==> [es[0]] + es[1..] == es
  {
    if es != [] {
      FirstEntry(es);
      Regroup(XdrEntry(es[0]), XdrEntries(es[1..]), ListEnd(eof));
    }
  }

  /** From the bytes of a reply the client gets exactly its entries and its end mark. */
  lemma ResokDecodes(attr: seq<byte>, es: seq<Entry3>, eof: bool)
    requires |attr| == 84 && forall i :: 0 <= i < |es| ==> EntryFits(es[i])
    ensures |XdrResok(attr, es, eof)| >= 96 && GetList(XdrResok(attr, es, eof)[96..]) == Some((es, eof))
  {
    var head := Be(1, 4) + attr + Be(0, 8);
    assert XdrResok(attr, es, eof) == head + (XdrEntries(es) + ListEnd(eof));
    assert (head + (XdrEntries(es) + ListEnd(eof)))[96..] == XdrEntries(es) + ListEnd(eof);
    ListDecodes(es, eof);
  }

  /** Size of `i` entries from `start` on. */
  function SizeTo(dir: seq<Dirent>, start: nat, i: nat): nat
    requires start + i <= |dir|
  {
    if i == 0 then 0 else SizeTo(dir, start, i - 1) + EntrySize(dir[start + i - 1])
  }

  lemma {:induction false} XdrEntriesLen(es: seq<Entry3>, dir: seq<Dirent>, start: nat)
    requires start + |es| <= |dir| && forall i :: 0 <= i < |es| ==> es[i].name == dir[start + i].name
    ensures |XdrEntries(es)| == SizeTo(dir, start, |es|)
  {
    if es != [] {
      XdrEntriesLen(es[..|es| - 1], dir, start);
      XdrEntryLen(es[|es| - 1]);
    }
  }

  lemma XdrEntryLen(e: Entry3)
    ensures |XdrEntry(e)| == ENTRY_SIZE + NameSize(e.name)
  {
    PadIsRounding(|e.name|);
  }

  lemma PadIsRounding(n: nat)
    ensures n + Xdr.Pad(n) == (n + 3) / 4 * 4
  {}

  /** The count kept while filling is the exact size of the reply so far. */
  lemma {:induction false} FillFits(dir: seq<Dirent>, start: nat, count: nat, i: nat)
    requires start + i <= |dir| && i <= MAX_ENTRIES
    requires i <= 1 || RESOK_SIZE + SizeTo(dir, start, i) <= count
    ensures var r := Fill(dir, start, count, i, RESOK_SIZE + SizeTo(dir, start, i));
            r.Filled? ==> r.n <= 1 || RESOK_SIZE + SizeTo(dir, start, r.n) <= count
    decreases MAX_ENTRIES - i
  {
    var size := RESOK_SIZE + SizeTo(dir, start, i);
    if start + i < |dir| && size < count && i < MAX_ENTRIES {
      var next := size + EntrySize(dir[start + i]);
      if dir[start + i].status.Fine? && (next <= count || i == 0) { FillFits(dir, start, count, i + 1); }
    }
  }

  lemma {:induction false} SizeAtLeast(dir: seq<Dirent>, start: nat, i: nat)
    requires start + i <= |dir| && forall d :: d in dir ==> d.name != []
    ensures SizeTo(dir, start, i) >= 28 * i
  {
    if i > 0 {
      assert dir[start + i - 1] in dir;
      SizeAtLeast(dir, start, i - 1);
    }
  }

  lemma FillPage(dir: seq<Dirent>, start: nat, count: nat)
    requires start <= |dir| && count <= MAX_COUNT && forall d :: d in dir ==> d.name != []
    ensures var r := Fill(dir, start, count, 0, RESOK_SIZE);
            r.Filled? ==> r.n <= 142 && (r.n <= 1 || RESOK_SIZE + SizeTo(dir, start, r.n) <= count)
  {
    assert SizeTo(dir, start, 0) == 0;
    FillFits(dir, start, count, 0);
    var r := Fill(dir, start, count, 0, RESOK_SIZE);
    if r.Filled? { SizeAtLeast(dir, start, r.n); }
  }

  /** No page has more than 142 entries, and its encoding keeps within the client's count and within
      4096 bytes unless it holds a single entry. */
  lemma PageFits(short: bool, rcookie: nat, dir: seq<Dirent>, pos: nat, count: nat, attr: seq<byte>)
    requires |attr| == 84 && forall d :: d in dir ==> d.name != []
    requires PageFrom(short, rcookie, dir, pos, count).Page?
    ensures var r := PageFrom(short, rcookie, dir, pos, count);
            && |r.entries| <= 142
            && (|r.entries| <= 1 || |XdrResok(attr, r.entries, r.eof)| <= Min(count, MAX_COUNT))
  {
    var r := PageFrom(short, rcookie, dir, pos, count);
    var start := Min(pos, |dir|);
    FillPage(dir, start, Min(count, MAX_COUNT));
    XdrEntriesLen(r.entries, dir, start);
    ResokLen(attr, r.entries, r.eof);
  }

  lemma ResokLen(attr: seq<byte>, es: seq<Entry3>, eof: bool)
    requires |attr| == 84
    ensures |XdrResok(attr, es, eof)| == RESOK_SIZE + |XdrEntries(es)|
  {}

  // ---------- what a page holds ----------

  lemma {:induction false} FillFine(dir: seq<Dirent>, start: nat, count: nat, i: nat, size: nat)
    requires start + i <= |dir| && i <= MAX_ENTRIES && forall d :: d in dir ==> d.status.Fine?
    requires i == 0 ==> size < count
    ensures Fill(dir, start, count, i, size).Filled?
    ensures start < |dir| && i == 0 ==> Fill(dir, start, count, i, size).n > 0
    decreases MAX_ENTRIES - i
  {
    if start + i < |dir| && size < count && i < MAX_ENTRIES {
      assert dir[start + i] in dir;
      FillFine(dir, start, count, i + 1, size + EntrySize(dir[start + i]));
    }
  }

  /** Where the page that starts at `pos` ends. */
  function PageEnd(dir: seq<Dirent>, count: nat, pos: nat): (end: nat)
    requires pos <= |dir|
    ensures pos <= end <= |dir| && end <= pos + MAX_ENTRIES
  {
    var f := Fill(dir, pos, Min(count, MAX_COUNT), 0, RESOK_SIZE);
    if f.Filled? then pos + f.n else pos
  }

  lemma PageShape(short: bool, rcookie: nat, dir: seq<Dirent>, pos: nat, count: nat)
    requires count > RESOK_SIZE && pos <= |dir| && forall d :: d in dir ==> d.status.Fine?
    ensures var r := PageFrom(short, rcookie, dir, pos, count);
            && r.Page? && pos + |r.entries| <= |dir| && (r.eof <==> pos + |r.entries| == |dir|)
            && (r.eof || r.entries != [])
            && (forall i :: 0 <= i < |r.entries| ==>
                  && r.entries[i].name == dir[pos + i].name && r.entries[i].cookie == Cookie(rcookie, pos + 1 + i)
                  && Identifies(short, r.entries[i].fileid, dir[pos + i].ino))
  {
    FillFine(dir, pos, Min(count, MAX_COUNT), 0, RESOK_SIZE);
    EntriesIdentify(short, rcookie, dir, pos, pos, |PageFrom(short, rcookie, dir, pos, count).entries|);
  }

  lemma EntriesIdentify(short: bool, rcookie: nat, dir: seq<Dirent>, start: nat, pos: nat, n: nat)
    requires start + n <= |dir|
    ensures forall i :: 0 <= i < n ==>
              Identifies(short, MakeEntries(short, rcookie, dir, start, pos, n)[i].fileid, dir[start + i].ino)
  {
    MakeEntriesAt(short, rcookie, dir, start, pos, n);
    forall i | 0 <= i < n
      ensures Identifies(short, MakeEntries(short, rcookie, dir, start, pos, n)[i].fileid, dir[start + i].ino)
    {
      FileIdIdentifies(short, dir[start + i].ino);
    }
  }

  // ---------- how far a page goes ----------

  /** Entry `i` behind the start of the page is looked at, given that all before it are in the page. */
  predicate Looked(dir: seq<Dirent>, start: nat, limit: nat, i: nat) {
    start + i < |dir| && i < 143 && 104 + SizeTo(dir, start, i) < limit
  }

  /** It is examined without an error and fits; the first entry always fits. */
  predicate Taken(dir: seq<Dirent>, start: nat, limit: nat, i: nat) {
    Looked(dir, start, limit, i) && dir[start + i].status.Fine? && (i == 0 || 104 + SizeTo(dir, start, i + 1) <= limit)
  }

  ghost predicate AllTaken(dir: seq<Dirent>, start: nat, limit: nat, n: nat) {
    forall i :: 0 <= i < n ==> Taken(dir, start, limit, i)
  }

  /** Taking entries stops in front of entry `n`, which fails with `status` if it has one. */
  ghost predicate StopsAt(dir: seq<Dirent>, start: nat, limit: nat, n: nat, status: Status) {
    && AllTaken(dir, start, limit, n) && !Taken(dir, start, limit, n)
    && if Looked(dir, start, limit, n) then dir[start + n].status == status else status.Fine?
  }

  lemma {:induction false} FillStops(dir: seq<Dirent>, start: nat, limit: nat, i: nat) returns (n: nat)
    requires start + i <= |dir| && i <= MAX_ENTRIES && AllTaken(dir, start, limit, i)
    ensures match Fill(dir, start, limit, i, RESOK_SIZE + SizeTo(dir, start, i))
            case Filled(m) => n == m && StopsAt(dir, start, limit, n, Fine)
            case Bad(status) => status != Fine && StopsAt(dir, start, limit, n, status)
    decreases MAX_ENTRIES - i
  {
    if Taken(dir, start, limit, i) { n := FillStops(dir, start, limit, i + 1); } else { n := i; }
  }

  /** Entries are taken, from the position the cookie leads to, as long as they fit 4096 bytes and the
      client's count. If that stops at an entry which cannot be examined, the whole call fails; otherwise the
      page is what was taken, and reports the end exactly if that is all. */
  lemma PageExact(short: bool, rcookie: nat, dir: seq<Dirent>, pos: nat, count: nat) returns (n: nat)
    ensures var start := if pos < |dir| then pos else |dir|; var limit := if count < 4096 then count else 4096;
            match PageFrom(short, rcookie, dir, pos, count)
            case Page(es, eof) =>
              && |es| == n && StopsAt(dir, start, limit, n, Fine) && (eof <==> start + n == |dir|)
              && forall i :: 0 <= i < n ==>
                   && es[i].name == dir[start + i].name && es[i].cookie == Cookie(rcookie, pos + 1 + i)
                   && Identifies(short, es[i].fileid, dir[start + i].ino)
            case ReaddirErr => StopsAt(dir, start, limit, n, StatFails)
            case IoErr => StopsAt(dir, start, limit, n, TooLong)
  {
    var start := if pos < |dir| then pos else |dir|;
    var limit := if count < 4096 then count else 4096;
    assert SizeTo(dir, start, 0) == 0;
    n := FillStops(dir, start, limit, 0);
    if PageFrom(short, rcookie, dir, pos, count).Page? { EntriesIdentify(short, rcookie, dir, start, pos, n); }
  }

  /** The entries are those of the directory from `pos` on, with the ids of their inodes. */
  ghost predicate ListsFrom(short: bool, es: seq<Entry3>, dir: seq<Dirent>, pos: nat) {
    var start := if pos < |dir| then pos else |dir|;
    && start + |es| <= |dir|
    && forall i :: 0 <= i < |es| ==>
         es[i].name == dir[start + i].name && Identifies(short, es[i].fileid, dir[start + i].ino)
  }

  lemma ReadLists(short: bool, rcookie: nat, dir: seq<Dirent>, cookie: nat, count: nat)
    ensures var r := Read(short, rcookie, dir, cookie, count);
            r.Page? ==> ListsFrom(short, r.entries, dir, StartOf(short, rcookie, cookie))
  {
    var pos := StartOf(short, rcookie, cookie);
    var r := Read(short, rcookie, dir, cookie, count);
    if r.Page? { EntriesIdentify(short, rcookie, dir, if pos < |dir| then pos else |dir|, pos, |r.entries|); }
  }

  /** Before the end a page makes progress exactly if the client accepts more than the fixed part. */
  lemma ProgressIff(short: bool, rcookie: nat, dir: seq<Dirent>, pos: nat, count: nat)
    requires pos < |dir| && forall d :: d in dir ==> d.status.Fine?
    ensures PageFrom(short, rcookie, dir, pos, count) == Page([], false) <==> count <= RESOK_SIZE
  {}

  // ---------- the code ----------

  /** One element of the static array `entry`; `linked` says that nextentry points to the element after. */
  datatype Cell = Cell(named: bool, e: Entry3, linked: bool)

  const NoEntry := Entry3(0, [], 0)

  /** The list that starts at element `i`. */
  function Chain(cells: seq<Cell>, i: nat): seq<Entry3>
    requires i < |cells|
    decreases |cells| - i
  {
    if cells[i].linked && i + 1 < |cells| then [cells[i].e] + Chain(cells, i + 1) else [cells[i].e]
  }

  lemma {:induction false} ChainIs(cells: seq<Cell>, es: seq<Entry3>, i: nat)
    requires i < |es| <= |cells|
    requires forall j :: 0 <= j < |es| ==> cells[j].e == es[j] && cells[j].linked == (j + 1 < |es|)
    ensures Chain(cells, i) == es[i..]
    decreases |es| - i
  {
    if i + 1 < |es| { ChainIs(cells, es, i + 1); }
  }

  class Reader {
    const short: bool
    const entry: array<Cell>
    var rcookie: nat

    constructor (short32: bool)
      ensures short == short32 && fresh(entry) && entry.Length == MAX_ENTRIES && rcookie == Tag(short, 0)
    {
      short := short32;
      entry := new Cell[MAX_ENTRIES](_ => Cell(false, NoEntry, false));
      rcookie := 0;
    }

    /** change_readdir_cookie */
    method ChangeCookie(ghost e: nat)
      requires rcookie == Tag(short, e)
      modifies this
      ensures rcookie == Tag(short, e + 1)
    {
      ChangeIsNextEpoch(short, e);
      if short {
        rcookie := (rcookie / 0x10_0000 + 1) % 0x1000 * 0x10_0000;
      } else {
        rcookie := (rcookie / 0x1_0000_0000 + 1) % 0x1_0000_0000 * 0x1_0000_0000;
      }
    }

    /** read_dir; `dir` is what opendir and readdir deliver, `mediaGone` that the path is the export
        point of removable media. */
    method ReadDir(dir: Option<seq<Dirent>>, mediaGone: bool, cookie: nat, count: nat) returns (r: Reply)
      requires entry.Length == MAX_ENTRIES
      modifies entry
      ensures r == if dir.Some? then Read(short, rcookie, dir.value, cookie, count)
                   else if mediaGone then Page([], true) else ReaddirErr
      ensures dir.Some? && r.Page? ==> ListsFrom(short, r.entries, dir.value, StartOf(short, rcookie, cookie))
    {
      var pos := StartOf(short, rcookie, cookie);
      var limit := if count > MAX_COUNT then MAX_COUNT else count;
      if dir.None? {
        return if mediaGone then Page([], true) else ReaddirErr;
      }
      var d := dir.value;
      ReadLists(short, rcookie, d, cookie, count);
      var at := Skip(d, pos);
      ghost var es := MakeEntries(short, rcookie, d, at, pos, |d| - at);
      MakeEntriesAt(short, rcookie, d, at, pos, |d| - at);
      var filled := FillArray(d, at, pos, limit, es);
      match filled {
        case Bad(status) => r := if status == StatFails then ReaddirErr else IoErr;
        case Filled(n) =>
          EntriesPrefix(short, rcookie, d, at, pos, n);
          var list := TakeEntries(n, es);
          r := Page(list, at + n == |d|);
      }
    }

    /** The list behind entry[0], if that element was filled. */
    method TakeEntries(n: nat, ghost es: seq<Entry3>) returns (list: seq<Entry3>)
      requires entry.Length == MAX_ENTRIES && n <= MAX_ENTRIES && n <= |es| && Holds(es, n)
      ensures list == es[..n]
    {
      if entry[0].named {
        ChainIs(entry[..], es[..n], 0);
        return Chain(entry[..], 0);
      }
      list := [];
    }

    /** The first `n` elements of the array hold those of `es` and form a list. */
    ghost predicate Holds(es: seq<Entry3>, n: nat)
      requires entry.Length == MAX_ENTRIES && n <= MAX_ENTRIES && n <= |es|
      reads entry
    {
      && entry[0].named == (n > 0)
      && (forall j :: 0 <= j < n ==> entry[j].e == es[j] && entry[j].linked == (j + 1 < n))
    }

    /** The same with a link behind the last of them. */
    ghost predicate HoldsLinked(es: seq<Entry3>, n: nat)
      requires entry.Length == MAX_ENTRIES && n <= MAX_ENTRIES && n <= |es|
      reads entry
    {
      entry[0].named == (n > 0) && forall j :: 0 <= j < n ==> entry[j].e == es[j] && entry[j].linked
    }

    /** The entries before the cookie are read and dropped. */
    method Skip(d: seq<Dirent>, pos: nat) returns (at: nat)
      ensures at == Min(pos, |d|)
    {
      at := 0;
      for i := 0 to pos
        invariant at == Min(i, |d|)
      {
        if at < |d| {
          at := at + 1;
        }
      }
    }

    method Link(i: nat, ghost es: seq<Entry3>)
      requires entry.Length == MAX_ENTRIES && 0 < i < MAX_ENTRIES && i <= |es| && Holds(es, i)
      modifies entry
      ensures HoldsLinked(es, i)
    {
      entry[i - 1] := entry[i - 1].(linked := true);
    }

    method Place(i: nat, e: Entry3, ghost es: seq<Entry3>)
      requires entry.Length == MAX_ENTRIES && i < MAX_ENTRIES && i < |es| && e == es[i] && HoldsLinked(es, i)
      modifies entry
      ensures Holds(es, i + 1)
    {
      entry[i] := Cell(true, e, false);
    }

    /** The last entry is taken back. */
    method Unlink(i: nat, ghost es: seq<Entry3>)
      requires entry.Length == MAX_ENTRIES && 0 < i < MAX_ENTRIES && i < |es| && Holds(es, i + 1)
      modifies entry
      ensures Holds(es, i)
    {
      entry[i - 1] := entry[i - 1].(linked := false);
    }

    method FillArray(d: seq<Dirent>, start: nat, pos: nat, limit: nat, ghost es: seq<Entry3>) returns (r: Filled)
      requires entry.Length == MAX_ENTRIES && start + |es| == |d|
      requires forall j :: 0 <= j < |es| ==> es[j] == MakeEntry(short, rcookie, d[start + j], pos + 1 + j)
      modifies entry
      ensures r == Fill(d, start, limit, 0, RESOK_SIZE)
      ensures r.Filled? ==> Holds(es, r.n)
    {
      var cur: nat, i: nat, size: nat := start, 0, RESOK_SIZE;
      ghost var over := false;
      entry[0] := Cell(false, NoEntry, false);
      while cur < |d| && size < limit && i < MAX_ENTRIES
        invariant i <= MAX_ENTRIES && (over ==> i > 0) && cur == start + i - (if over then 1 else 0) <= |d|
        invariant Holds(es, cur - start)
        invariant over ==> i >= 2 && size > limit && Fill(d, start, limit, 0, RESOK_SIZE) == Filled(i - 1)
        invariant !over ==> Fill(d, start, limit, i, size) == Fill(d, start, limit, 0, RESOK_SIZE)
        decreases MAX_ENTRIES - i
      {
        if i > 0 {
          Link(i, es);
        }
        if d[cur].status == TooLong {
          return Bad(TooLong);
        }
        if d[cur].status == StatFails {
          return Bad(StatFails);
        }
        Place(i, MakeEntry(short, rcookie, d[cur], pos + 1 + i), es);
        size := size + ENTRY_SIZE + NameSize(d[cur].name);
        if size > limit && i > 0 {
          Unlink(i, es);
          over := true;
        } else {
          cur := cur + 1;
        }
        i := i + 1;
      }
      r := Filled(cur - start);
    }
  }

  lemma EntriesPrefix(short: bool, rcookie: nat, dir: seq<Dirent>, start: nat, pos: nat, n: nat)
    requires start + n <= |dir|
    ensures MakeEntries(short, rcookie, dir, start, pos, |dir| - start)[..n] ==
            MakeEntries(short, rcookie, dir, start, pos, n)
  {
    MakeEntriesAt(short, rcookie, dir, start, pos, |dir| - start);
    MakeEntriesAt(short, rcookie, dir, start, pos, n);
  }

  lemma {:induction false} MakeEntriesAt(short: bool, rcookie: nat, dir: seq<Dirent>, start: nat, pos: nat, n: nat)
    requires start + n <= |dir|
    ensures forall i :: 0 <= i < n ==>
              MakeEntries(short, rcookie, dir, start, pos, n)[i] ==
              MakeEntry(short, rcookie, dir[start + i], pos + 1 + i)
  {
    if n > 0 { MakeEntriesAt(short, rcookie, dir, start, pos, n - 1); }
  }
}
