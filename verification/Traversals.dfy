/** READDIR of a directory that changes between the pages. */
module Traversals {
  import opened Bytes
  import opened Bits
  import opened Readdir
  import opened Paging

  /** One READDIR of a traversal: how many removals and renames came before it, and the listing it sees. */
  datatype Visit = Visit(bumps: nat, dir: seq<Dirent>, count: nat)

  /** Where a traversal stands: epoch, cookie to send next, names received, and whether it is over. */
  datatype Traversal = Traversal(epoch: nat, cookie: nat, seen: set<seq<byte>>, done: bool)

  function NameSet(es: seq<Entry3>): set<seq<byte>> { set i | 0 <= i < |es| :: es[i].name }

  function Next(short: bool, t: Traversal, v: Visit): Traversal {
    var e := t.epoch + v.bumps;
    match Read(short, Tag(short, e), v.dir, t.cookie, v.count)
    case Page(es, eof) =>
      Traversal(e, if es == [] then t.cookie else es[|es| - 1].cookie, t.seen + NameSet(es), eof)
    case _ => t.(epoch := e)
  }

  function Run(short: bool, t: Traversal, vs: seq<Visit>): Traversal
    decreases |vs|
  {
    if vs == [] || t.done then t else Run(short, Next(short, t, vs[0]), vs[1..])
  }

  ghost predicate Distinct(dir: seq<Dirent>) {
    forall i, j :: 0 <= i < j < |dir| ==> dir[i].name != dir[j].name
  }

  ghost predicate Has(dir: seq<Dirent>, x: seq<byte>) { exists i :: 0 <= i < |dir| && dir[i].name == x }

  /** A listing that pages can be read from: examined, with distinct names, `x` among them. */
  ghost predicate Regular(v: Visit, x: seq<byte>) {
    v.count > RESOK_SIZE && Distinct(v.dir) && Has(v.dir, x) && forall d :: d in v.dir ==> d.status.Fine?
  }

  /** `f` embeds `a` in `b` in order, so `b` is `a` with entries inserted anywhere. */
  ghost predicate Embeds(a: seq<Dirent>, b: seq<Dirent>, f: seq<nat>) {
    && |f| == |a| && (forall i, j :: 0 <= i < j < |f| ==> f[i] < f[j])
    && (forall i :: 0 <= i < |a| ==> f[i] < |b| && b[f[i]].name == a[i].name)
  }
  ghost predicate Inserted(a: seq<Dirent>, b: seq<Dirent>) { exists f :: Embeds(a, b, f) }

  /** Between two pages the listing may change in any way if the server then restarts the listing; if it
      takes the client's cookie for one of its own, entries may have been inserted but nothing else. */
  ghost predicate Between(short: bool, t: Traversal, a: Visit, b: Visit) {
    StartOf(short, Tag(short, t.epoch + b.bumps), t.cookie) > 0 ==> Inserted(a.dir, b.dir)
  }

  lemma {:induction false} EmbedsForward(a: seq<Dirent>, b: seq<Dirent>, f: seq<nat>, i: nat)
    requires Embeds(a, b, f) && i < |f|
    ensures i <= f[i]
  {
    if i > 0 { EmbedsForward(a, b, f, i - 1); }
  }

  /** Everything called `x` before position `pos` has been received. */
  ghost predicate SeenBefore(dir: seq<Dirent>, pos: nat, x: seq<byte>, seen: set<seq<byte>>) {
    forall j :: 0 <= j < pos && j < |dir| && dir[j].name == x ==> x in seen
  }

  lemma InsertedKeeps(a: seq<Dirent>, b: seq<Dirent>, pos: nat, x: seq<byte>, seen: set<seq<byte>>)
    requires Inserted(a, b) && Distinct(b) && Has(a, x) && SeenBefore(a, pos, x, seen)
    ensures SeenBefore(b, pos, x, seen) && |a| <= |b|
  {
    var f :| Embeds(a, b, f);
    if a != [] { EmbedsForward(a, b, f, |a| - 1); }
    var j :| 0 <= j < |a| && a[j].name == x;
    EmbedsForward(a, b, f, j);
    forall k | 0 <= k < pos && k < |b| && b[k].name == x ensures x in seen {
      assert k == f[j];
    }
  }

  /** The cookie stands for a position of the previous listing with nothing unseen before it. */
  ghost predicate Standing(short: bool, t: Traversal, dir: seq<Dirent>, x: seq<byte>) {
    exists pos :: At(short, t, dir, x, pos)
  }
  ghost predicate At(short: bool, t: Traversal, dir: seq<Dirent>, x: seq<byte>, pos: nat) {
    0 < pos <= |dir| && t.cookie == Cookie(Tag(short, t.epoch), pos) && SeenBefore(dir, pos, x, t.seen)
  }

  lemma PageSees(short: bool, rcookie: nat, v: Visit, pos: nat, x: seq<byte>, seen: set<seq<byte>>)
    requires Regular(v, x) && pos <= |v.dir| && SeenBefore(v.dir, pos, x, seen)
    ensures var r := PageFrom(short, rcookie, v.dir, pos, v.count);
            r.Page? && SeenBefore(v.dir, pos + |r.entries|, x, seen + NameSet(r.entries)) &&
            (r.eof ==> x in seen + NameSet(r.entries))
  {
    PageShape(short, rcookie, v.dir, pos, v.count);
    var es := PageFrom(short, rcookie, v.dir, pos, v.count).entries;
    forall j | 0 <= j < pos + |es| && j < |v.dir| && v.dir[j].name == x ensures x in seen + NameSet(es) {
      if j >= pos { assert es[j - pos].name == x; }
    }
    var k :| 0 <= k < |v.dir| && v.dir[k].name == x;
  }

  /** One page leaves nothing behind, given where it starts. */
  lemma NextFrom(short: bool, t: Traversal, v: Visit, pos: nat, x: seq<byte>)
    requires Regular(v, x) && pos <= |v.dir| && SeenBefore(v.dir, pos, x, t.seen)
    requires StartOf(short, Tag(short, t.epoch + v.bumps), t.cookie) == pos
    ensures var n := Next(short, t, v); if n.done then x in n.seen else Standing(short, n, v.dir, x)
  {
    var rcookie := Tag(short, t.epoch + v.bumps);
    var r := PageFrom(short, rcookie, v.dir, pos, v.count);
    PageSees(short, rcookie, v, pos, x, t.seen);
    PageEnds(short, rcookie, v, pos, x);
    if !r.eof { assert At(short, Next(short, t, v), v.dir, x, pos + |r.entries|); }
  }

  lemma PageEnds(short: bool, rcookie: nat, v: Visit, pos: nat, x: seq<byte>)
    requires Regular(v, x) && pos <= |v.dir|
    ensures var r := PageFrom(short, rcookie, v.dir, pos, v.count);
            r.Page? && (!r.eof ==> r.entries != [] && pos + |r.entries| < |v.dir| &&
                                   r.entries[|r.entries| - 1].cookie == Cookie(rcookie, pos + |r.entries|))
  {
    PageShape(short, rcookie, v.dir, pos, v.count);
  }

  lemma NextKeeps(short: bool, t: Traversal, a: Visit, b: Visit, x: seq<byte>)
    requires Regular(a, x) && Regular(b, x) && Between(short, t, a, b) && Standing(short, t, a.dir, x)
    ensures var n := Next(short, t, b); if n.done then x in n.seen else Standing(short, n, b.dir, x)
  {
    var pos :| At(short, t, a.dir, x, pos);
    var start := StartOf(short, Tag(short, t.epoch + b.bumps), t.cookie);
    StartLow(short, t.epoch, t.epoch + b.bumps, pos);
    if start > 0 { InsertedKeeps(a.dir, b.dir, start, x, t.seen); }
    NextFrom(short, t, b, start, x);
  }

  /** A traversal that stands at `t` after visit `a` goes on with the visits `vs`. */
  ghost predicate Linked(short: bool, t: Traversal, a: Visit, vs: seq<Visit>, x: seq<byte>)
    decreases |vs|
  {
    vs == [] || t.done ||
    (Regular(vs[0], x) && Between(short, t, a, vs[0]) && Linked(short, Next(short, t, vs[0]), vs[0], vs[1..], x))
  }

  lemma {:induction false} RunKeeps(short: bool, t: Traversal, a: Visit, vs: seq<Visit>, x: seq<byte>)
    requires Regular(a, x) && Linked(short, t, a, vs, x)
    requires if t.done then x in t.seen else Standing(short, t, a.dir, x)
    ensures Run(short, t, vs).done ==> x in Run(short, t, vs).seen
    decreases |vs|
  {
    if vs != [] && !t.done {
      NextKeeps(short, t, a, vs[0], x);
      RunKeeps(short, Next(short, t, vs[0]), vs[0], vs[1..], x);
    }
  }

  function Begin(e: nat): Traversal { Traversal(e, 0, {}, false) }

  /** A name that is in the directory throughout a traversal has been returned by the time the end
      is reported. */
  lemma NoneSkipped(short: bool, e: nat, first: Visit, vs: seq<Visit>, x: seq<byte>)
    requires Regular(first, x) && Linked(short, Next(short, Begin(e), first), first, vs, x)
    ensures var t := Run(short, Begin(e), [first] + vs); t.done ==> x in t.seen
  {
    NextFrom(short, Begin(e), first, 0, x);
    RunKeeps(short, Next(short, Begin(e), first), first, vs, x);
    assert ([first] + vs)[1..] == vs;
  }

  // ---------- directories whose positions fit a cookie ----------

  /** Without regard to cookies: a change other than an insertion must show in the tag. */
  ghost predicate Shows(short: bool, a: Visit, vs: seq<Visit>, x: seq<byte>)
    decreases |vs|
  {
    |a.dir| <= PosSpan(short) &&
    (vs == [] ||
     (&& Regular(vs[0], x) && (vs[0].bumps % EpochSpan(short) == 0 ==> Inserted(a.dir, vs[0].dir))
      && Shows(short, vs[0], vs[1..], x)))
  }

  lemma ShownBetween(short: bool, t: Traversal, a: Visit, b: Visit, x: seq<byte>)
    requires |a.dir| <= PosSpan(short) && Standing(short, t, a.dir, x)
    requires b.bumps % EpochSpan(short) == 0 ==> Inserted(a.dir, b.dir)
    ensures Between(short, t, a, b)
  {
    var pos: nat :| At(short, t, a.dir, x, pos);
    if pos < PosSpan(short) { CookieRoundTrip(short, t.epoch, b.bumps, pos); }
    else { StartLow(short, t.epoch, t.epoch + b.bumps, pos); }
  }

  lemma {:induction false} ShownIsLinked(short: bool, t: Traversal, a: Visit, vs: seq<Visit>, x: seq<byte>)
    requires Regular(a, x) && Shows(short, a, vs, x) && (!t.done ==> Standing(short, t, a.dir, x))
    ensures Linked(short, t, a, vs, x)
    decreases |vs|
  {
    if vs != [] && !t.done {
      ShownBetween(short, t, a, vs[0], x);
      NextKeeps(short, t, a, vs[0], x);
      ShownIsLinked(short, Next(short, t, vs[0]), vs[0], vs[1..], x);
    }
  }

  /** In directories no longer than the span, nothing is skipped as long as every change other than an
      insertion comes with a number of removals and renames that is no multiple of the number of tags. */
  lemma NoneSkippedShort(short: bool, e: nat, first: Visit, vs: seq<Visit>, x: seq<byte>)
    requires Regular(first, x) && Shows(short, first, vs, x)
    ensures var t := Run(short, Begin(e), [first] + vs); t.done ==> x in t.seen
  {
    NextFrom(short, Begin(e), first, 0, x);
    ShownIsLinked(short, Next(short, Begin(e), first), first, vs, x);
    NoneSkipped(short, e, first, vs, x);
  }

  /** A traversal of directories longer than the span by a full page never ends, whatever changes. */
  lemma {:induction false} NeverEnds(short: bool, t: Traversal, vs: seq<Visit>)
    requires !t.done && forall v :: v in vs ==> |v.dir| >= PosSpan(short) + MAX_ENTRIES
    ensures !Run(short, t, vs).done
    decreases |vs|
  {
    if vs != [] {
      assert |vs[0].dir| >= PosSpan(short) + MAX_ENTRIES;
      NeverEnds(short, Next(short, t, vs[0]), vs[1..]);
    }
  }

  // ---------- when the tag repeats ----------

  const EntryA := Dirent([97], 1, Fine)
  const EntryB := Dirent([98], 2, Fine)

  /** A client that accepts 105 bytes gets one entry at a time. */
  lemma OneByOne(short: bool, e: nat)
    ensures Next(short, Begin(e), Visit(0, [EntryA, EntryB], 105)) ==
            Traversal(e, Cookie(Tag(short, e), 1), {EntryA.name}, false)
  {
    var dir := [EntryA, EntryB];
    assert Fill(dir, 0, 105, 1, 132) == Filled(1);
    var es := MakeEntries(short, Tag(short, e), dir, 0, 0, 1);
    assert PageFrom(short, Tag(short, e), dir, 0, 105) == Page(es, false);
    assert |es| == 1 && es[0].name == EntryA.name;
    assert NameSet(es) == {EntryA.name};
  }

  lemma PastTheEnd(short: bool, t: Traversal, w: Visit)
    requires StartOf(short, Tag(short, t.epoch + w.bumps), t.cookie) >= |w.dir|
    ensures Next(short, t, w).done && Next(short, t, w).seen == t.seen
  {}

  /** `x` is in both listings of a traversal of two pages, which ends without it. */
  ghost predicate Misses(short: bool, e: nat, v: Visit, w: Visit, x: seq<byte>) {
    var t := Run(short, Begin(e), [v, w]);
    Regular(v, x) && Regular(w, x) && t.done && x !in t.seen
  }

  ghost predicate CanMiss(short: bool, bumps: nat) {
    exists e: nat, v: Visit, w: Visit, x: seq<byte> :: w.bumps == bumps && Misses(short, e, v, w, x)
  }

  lemma TwoPages(short: bool, t: Traversal, v: Visit, w: Visit)
    requires !t.done && !Next(short, t, v).done
    ensures Run(short, t, [v, w]) == Next(short, Next(short, t, v), w)
  {
    var n := Next(short, t, v);
    assert [v, w][1..] == [w] && [w][1..] == [];
    assert Run(short, n, [w]) == Run(short, Next(short, n, w), []);
  }

  /** With as many removals between two pages as there are tags, or a multiple, an entry can be missed. */
  lemma WrapSkips(short: bool, e: nat, bumps: nat)
    requires bumps % EpochSpan(short) == 0
    ensures Misses(short, e, Visit(0, [EntryA, EntryB], 105), Visit(bumps, [EntryB], 105), EntryB.name)
  {
    var v, w := Visit(0, [EntryA, EntryB], 105), Visit(bumps, [EntryB], 105);
    OneByOne(short, e);
    CookieRoundTrip(short, e, bumps, 1);
    PastTheEnd(short, Next(short, Begin(e), v), w);
    TwoPages(short, Begin(e), v, w);
    assert v.dir[1].name == EntryB.name && w.dir[0].name == EntryB.name;
  }

  lemma ShownNotMissed(short: bool, e: nat, v: Visit, w: Visit, x: seq<byte>)
    requires w.bumps % EpochSpan(short) != 0 && Regular(v, x) && Regular(w, x)
    ensures !Misses(short, e, v, w, x)
  {
    var n := Next(short, Begin(e), v);
    NextFrom(short, Begin(e), v, 0, x);
    FirstPage(short, e, v, x);
    if !n.done { CookieRoundTrip(short, n.epoch, w.bumps, PageEnd(v.dir, v.count, 0)); }
    assert Linked(short, Next(short, n, w), w, [w][1..], x);
    NoneSkipped(short, e, v, [w], x);
    assert [v] + [w] == [v, w];
  }

  lemma FirstPage(short: bool, e: nat, v: Visit, x: seq<byte>)
    requires Regular(v, x)
    ensures var n := Next(short, Begin(e), v); var end := PageEnd(v.dir, v.count, 0);
            !n.done ==> 0 < end < PosSpan(short) && n.cookie == Cookie(Tag(short, n.epoch), end)
  {
    PageShape(short, Tag(short, e + v.bumps), v.dir, 0, v.count);
  }

  /** A traversal of two pages can miss an entry that is there all the time if and only if the number of
      removals and renames between the pages is a multiple of the number of tags. */
  lemma CanMissIff(short: bool, bumps: nat)
    requires bumps > 0
    ensures CanMiss(short, bumps) <==> bumps % EpochSpan(short) == 0
  {
    if bumps % EpochSpan(short) == 0 {
      WrapSkips(short, 0, bumps);
      assert Visit(bumps, [EntryB], 105).bumps == bumps;
    } else if CanMiss(short, bumps) {
      var e: nat, v: Visit, w: Visit, x: seq<byte> :| w.bumps == bumps && Misses(short, e, v, w, x);
      ShownNotMissed(short, e, v, w, x);
    }
  }

  // ---------- after any page ----------

  /** The server goes on from the cookie of a page that ended at `pos` in epoch `e`, instead of restarting,
      after `bumps` removals and renames. */
  predicate GoesOn(short: bool, e: nat, pos: nat, bumps: nat) {
    pos % PosSpan(short) != 0 && bumps % EpochSpan(short) == if pos >= PosSpan(short) && e % 2 == 0 then 1 else 0
  }

  lemma GoesOnIff(short: bool, e: nat, pos: nat, bumps: nat)
    requires 0 < pos < PosSpan(short) + MAX_ENTRIES
    ensures StartOf(short, Tag(short, e + bumps), Cookie(Tag(short, e), pos)) ==
            if GoesOn(short, e, pos, bumps) then pos % PosSpan(short) else 0
  {
    PosLow(short, pos);
    if pos < PosSpan(short) { CookieRoundTrip(short, e, bumps, pos); }
    else { CookiePastSpan(short, e, bumps, pos); }
  }

  lemma PosLow(short: bool, pos: nat)
    requires pos < 2 * PosSpan(short)
    ensures pos % PosSpan(short) == if pos < PosSpan(short) then pos else pos - PosSpan(short)
  {}

  /** A traversal stands behind a page of `a` that ended at `pos`, with nothing called `x` left unseen before
      it, and the next page, of `b`, is the last one and leaves `x` out, which is in both listings. */
  ghost predicate MissesAt(short: bool, t: Traversal, a: Visit, b: Visit, x: seq<byte>, pos: nat) {
    && Regular(a, x) && Regular(b, x) && !t.done && At(short, t, a.dir, x, pos)
    && Next(short, t, b).done && x !in Next(short, t, b).seen
  }

  ghost predicate CanMissAt(short: bool, e: nat, pos: nat, bumps: nat) {
    exists t: Traversal, a: Visit, b: Visit, x: seq<byte> ::
      t.epoch == e && b.bumps == bumps && MissesAt(short, t, a, b, x, pos)
  }

  /** A name of nine letters for every number below 2^36. */
  function Letters(k: nat, n: nat): (s: seq<byte>)
    ensures |s| == n
  {
    if n == 0 then [] else Letters(k / 16, n - 1) + [97 + k % 16]
  }

  lemma {:induction false} LettersDiffer(a: nat, b: nat, n: nat)
    requires a != b && a < Pow2(4 * n) && b < Pow2(4 * n)
    ensures Letters(a, n) != Letters(b, n)
  {
    if n > 0 {
      var x, y := Letters(a, n), Letters(b, n);
      assert Pow2(4 * n) == 16 * Pow2(4 * (n - 1)) by { Sixteen(4 * (n - 1)); }
      if a / 16 != b / 16 {
        LettersDiffer(a / 16, b / 16, n - 1);
        assert x[..n - 1] == Letters(a / 16, n - 1) && y[..n - 1] == Letters(b / 16, n - 1);
      } else {
        assert x[n - 1] == 97 + a % 16 && y[n - 1] == 97 + b % 16;
      }
    }
  }

  lemma Sixteen(k: nat)
    ensures Pow2(k + 4) == 16 * Pow2(k)
  {
    assert Pow2(k + 2) == 4 * Pow2(k);
  }

  function Numbered(n: nat): (dir: seq<Dirent>)
    ensures |dir| == n && forall i :: 0 <= i < n ==> dir[i] == Dirent(Letters(i, 9), i, Fine)
  {
    if n == 0 then [] else Numbered(n - 1) + [Dirent(Letters(n - 1, 9), n - 1, Fine)]
  }

  lemma NumberedRegular(n: nat, k: nat, bumps: nat)
    requires k < n < 2 * 0x1_0000_0000
    ensures Regular(Visit(bumps, Numbered(n), 105), Letters(k, 9))
    ensures forall j :: 0 <= j < n && j != k ==> Numbered(n)[j].name != Letters(k, 9)
  {
    var dir := Numbered(n);
    assert Pow2(36) == 16 * 0x1_0000_0000 by { Powers(); Sixteen(32); }
    forall i, j | 0 <= i < j < n ensures dir[i].name != dir[j].name { LettersDiffer(i, j, 9); }
    assert dir[k].name == Letters(k, 9);
  }

  lemma StandsAt(short: bool, e: nat, pos: nat)
    requires 0 < pos < PosSpan(short) + MAX_ENTRIES
    ensures At(short, Traversal(e, Cookie(Tag(short, e), pos), {}, false), Numbered(pos + 1), Letters(pos, 9), pos)
  {
    NumberedRegular(pos + 1, pos, 0);
  }

  lemma SingleRegular(bumps: nat, d: Dirent)
    requires d.status.Fine?
    ensures Regular(Visit(bumps, [d], 105), d.name)
  {
    assert [d][0].name == d.name;
  }

  /** An entry behind position `pos` that has moved to the start is missed when the server goes on. */
  lemma GoingOnMisses(short: bool, e: nat, pos: nat, bumps: nat)
    returns (t: Traversal, a: Visit, b: Visit, x: seq<byte>)
    requires 0 < pos < PosSpan(short) + MAX_ENTRIES && GoesOn(short, e, pos, bumps)
    ensures t.epoch == e && b.bumps == bumps && MissesAt(short, t, a, b, x, pos)
  {
    x := Letters(pos, 9);
    t := Traversal(e, Cookie(Tag(short, e), pos), {}, false);
    a := Visit(0, Numbered(pos + 1), 105);
    b := Visit(bumps, [Dirent(x, pos, Fine)], 105);
    NumberedRegular(pos + 1, pos, 0);
    SingleRegular(bumps, Dirent(x, pos, Fine));
    StandsAt(short, e, pos);
    GoesOnIff(short, e, pos, bumps);
    PastTheEnd(short, t, b);
  }

  /** Behind a page that ended anywhere a cookie can be made for, an entry that is there all the time can be
      missed exactly if the server goes on from the cookie: below the span after a multiple of the number of
      tags, and past it, if the page's epoch was even, after one removal more. */
  lemma CanMissAtIff(short: bool, e: nat, pos: nat, bumps: nat)
    requires 0 < pos < PosSpan(short) + MAX_ENTRIES
    ensures CanMissAt(short, e, pos, bumps) <==> GoesOn(short, e, pos, bumps)
  {
    if GoesOn(short, e, pos, bumps) {
      var t, a, b, x := GoingOnMisses(short, e, pos, bumps);
    } else if CanMissAt(short, e, pos, bumps) {
      var t: Traversal, a: Visit, b: Visit, x: seq<byte> :|
        t.epoch == e && b.bumps == bumps && MissesAt(short, t, a, b, x, pos);
      GoesOnIff(short, e, pos, bumps);
      NextKeeps(short, t, a, b, x);
    }
  }

  // ---------- the same client on a directory that does not change ----------

  function Repeat(v: Visit, n: nat): seq<Visit> { if n == 0 then [] else [v] + Repeat(v, n - 1) }

  function Iterate(next: Traversal -> Traversal, t: Traversal, n: nat): Traversal
    decreases n
  {
    if n == 0 || t.done then t else Iterate(next, next(t), n - 1)
  }

  lemma {:induction false} RunIterates(short: bool, t: Traversal, v: Visit, n: nat, next: Traversal -> Traversal)
    requires next == ((t: Traversal) => Next(short, t, v))
    ensures Run(short, t, Repeat(v, n)) == Iterate(next, t, n)
    decreases n
  {
    if n > 0 {
      assert Repeat(v, n)[0] == v && Repeat(v, n)[1..] == Repeat(v, n - 1);
      if !t.done { RunIterates(short, next(t), v, n - 1, next); }
    }
  }

  /** `next` asks the server `page` for what is behind the cookie of `t`, in epoch `e`. */
  ghost predicate AsksAt(next: Traversal -> Traversal, page: nat -> Reply, e: nat, t: Traversal) {
    var r, n := page(t.cookie), next(t);
    r.Page? && t.epoch == e ==>
      n.epoch == e && n.done == r.eof && (r.entries != [] ==> n.cookie == r.entries[|r.entries| - 1].cookie)
  }

  lemma {:induction false} IterateFollows(next: Traversal -> Traversal, page: nat -> Reply, at: nat -> nat,
                                          t: Traversal, n: nat, short: bool, dir: seq<Dirent>, count: nat)
    requires !t.done && at(t.cookie) <= |dir| && Serves(page, at, short, Odd(t.epoch), dir, count)
    requires forall s :: AsksAt(next, page, t.epoch, s)
    ensures Iterate(next, t, n).done == Follow(page, t.cookie, n).1
    decreases n
  {
    if n > 0 {
      var r := page(t.cookie);
      assert ServedAt(page, at, short, Odd(t.epoch), dir, count, t.cookie);
      assert AsksAt(next, page, t.epoch, t);
      if !r.eof { IterateFollows(next, page, at, next(t), n - 1, short, dir, count); }
    }
  }

  /** Without changes, a traversal ends exactly when the client of `Collect` is told that this is all. */
  lemma RunIsCollect(short: bool, t: Traversal, dir: seq<Dirent>, count: nat, n: nat)
    requires Readable(dir, count) && !t.done && StartOf(short, Tag(short, t.epoch), t.cookie) <= |dir|
    ensures Run(short, t, Repeat(Visit(0, dir, count), n)).done ==
            Collect(short, Tag(short, t.epoch), dir, count, t.cookie, n).1
  {
    var page := (c: nat) => Read(short, Tag(short, t.epoch), dir, c, count);
    var at := (c: nat) => StartOf(short, Tag(short, t.epoch), c);
    var next := (s: Traversal) => Next(short, s, Visit(0, dir, count));
    ServerServes(short, t.epoch, dir, count, page, at);
    RunIterates(short, t, Visit(0, dir, count), n, next);
    IterateFollows(next, page, at, t, n, short, dir, count);
  }

  /** Without changes, a traversal from the start is told the end at some time exactly if one of the first
      144 laps through the directory arrives there. */
  lemma RunEofIff(short: bool, e: nat, dir: seq<Dirent>, count: nat)
    requires Readable(dir, count)
    ensures (exists n: nat :: Run(short, Begin(e), Repeat(Visit(0, dir, count), n)).done) <==>
            (exists i: nat :: i <= MAX_ENTRIES && Arrives(short, Odd(e), dir, count, 0, i))
  {
    EofIff(short, e, dir, count, 0, 0);
    if n: nat :| Run(short, Begin(e), Repeat(Visit(0, dir, count), n)).done {
      RunIsCollect(short, Begin(e), dir, count, n);
      assert Collect(short, Tag(short, e), dir, count, 0, n).1;
    }
    if n: nat :| Collect(short, Tag(short, e), dir, count, 0, n).1 {
      RunIsCollect(short, Begin(e), dir, count, n);
      assert Run(short, Begin(e), Repeat(Visit(0, dir, count), n)).done;
    }
  }
}
