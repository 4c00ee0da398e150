/** READDIR of a directory that does not change, by a client that follows the last cookie of every page. */
module Paging {
  import opened Readdir
  import Pigeonhole

  /** The entries received are those of the listing, in order: the same names with the ids of their inodes. */
  ghost predicate Same(short: bool, es: seq<Entry3>, dir: seq<Dirent>) {
    |es| == |dir| &&
    forall i :: 0 <= i < |es| ==> es[i].name == dir[i].name && Identifies(short, es[i].fileid, dir[i].ino)
  }

  /** What a client collects in `n` pages from a server that answers cookies with `page`, and whether it is
      told that this is all. */
  ghost function Follow(page: nat -> Reply, cookie: nat, n: nat): (seq<Entry3>, bool)
    decreases n
  {
    if n == 0 then ([], false)
    else
      match page(cookie)
      case Page(es, eof) =>
        if eof || es == [] then (es, eof)
        else
          var (rest, end) := Follow(page, es[|es| - 1].cookie, n - 1);
          (es + rest, end)
      case _ => ([], false)
  }

  ghost function Collect(short: bool, rcookie: nat, dir: seq<Dirent>, count: nat, cookie: nat, n: nat)
    : (seq<Entry3>, bool)
  {
    Follow((c: nat) => Read(short, rcookie, dir, c, count), cookie, n)
  }

  predicate Readable(dir: seq<Dirent>, count: nat) { count > RESOK_SIZE && forall d :: d in dir ==> d.status.Fine? }

  /** Following the last cookie of a page leads to the position behind it exactly if that fits. */
  lemma FollowCookie(short: bool, e: nat, dir: seq<Dirent>, count: nat, pos: nat)
    requires count > RESOK_SIZE && pos <= |dir| && forall d :: d in dir ==> d.status.Fine?
    ensures var r := PageFrom(short, Tag(short, e), dir, pos, count);
            && r.Page? && (!r.eof ==> r.entries != [])
            && (!r.eof ==> (StartOf(short, Tag(short, e), r.entries[|r.entries| - 1].cookie) == pos + |r.entries| <==>
                            pos + |r.entries| < PosSpan(short)))
  {
    PageShape(short, Tag(short, e), dir, pos, count);
    var r := PageFrom(short, Tag(short, e), dir, pos, count);
    if !r.eof { PositionFits(short, e, pos + |r.entries|); }
  }

  /** Where, page after page from `pos` on, the first page ends that is the last one or whose end no
      longer fits a cookie. */
  function Boundary(short: bool, dir: seq<Dirent>, count: nat, pos: nat): (end: nat)
    requires pos <= |dir|
    ensures end <= |dir|
    decreases |dir| - pos
  {
    var end := PageEnd(dir, count, pos);
    if end == pos || end == |dir| || end >= PosSpan(short) then end else Boundary(short, dir, count, end)
  }

  // ---------- positions instead of cookies ----------

  predicate Odd(e: nat) { e % 2 == 1 }

  /** Where the cookie of a page that ends at `end` sends the client: behind the page, or back if `end` does
      not fit a cookie, in an odd epoch to what is left of it and in an even one to the start. */
  function Sent(short: bool, odd: bool, end: nat): (pos: nat)
    ensures pos <= end
  {
    if end < PosSpan(short) then end else if odd then end - PosSpan(short) else 0
  }

  lemma SentIs(short: bool, e: nat, end: nat)
    requires 0 < end < 2 * PosSpan(short)
    ensures StartOf(short, Tag(short, e), Cookie(Tag(short, e), end)) == Sent(short, Odd(e), end)
  {
    if end < PosSpan(short) { CookieRoundTrip(short, e, 0, end); } else { CookiePastSpan(short, e, 0, end); }
  }

  /** The same client, seen from the positions at which its pages start. */
  ghost function Pages(short: bool, odd: bool, dir: seq<Dirent>, count: nat, pos: nat, n: nat): (seq<Dirent>, bool)
    requires pos <= |dir|
    decreases n
  {
    var end := PageEnd(dir, count, pos);
    if n == 0 then ([], false)
    else if end == |dir| then (dir[pos..end], true)
    else
      var rest := Pages(short, odd, dir, count, Sent(short, odd, end), n - 1);
      (dir[pos..end] + rest.0, rest.1)
  }

  lemma Advances(dir: seq<Dirent>, count: nat, pos: nat)
    requires Readable(dir, count) && pos < |dir|
    ensures pos < PageEnd(dir, count, pos)
  {
    FillFine(dir, pos, Min(count, MAX_COUNT), 0, RESOK_SIZE);
  }

  lemma PageIs(short: bool, rcookie: nat, dir: seq<Dirent>, pos: nat, count: nat)
    requires Readable(dir, count) && pos <= |dir|
    ensures var r := PageFrom(short, rcookie, dir, pos, count); var end := PageEnd(dir, count, pos);
            && r.Page? && (r.eof <==> end == |dir|) && Same(short, r.entries, dir[pos..end])
            && (!r.eof ==> r.entries != [] && r.entries[|r.entries| - 1].cookie == Cookie(rcookie, end))
  {
    PageShape(short, rcookie, dir, pos, count);
  }

  /** The server answers cookie `c`, which stands for position `at(c)`, with the page that starts there. */
  ghost predicate ServedAt(page: nat -> Reply, at: nat -> nat, short: bool, odd: bool, dir: seq<Dirent>,
                           count: nat, c: nat)
  {
    at(c) <= |dir| ==>
      var r, end := page(c), PageEnd(dir, count, at(c));
      && r.Page? && (r.eof <==> end == |dir|) && Same(short, r.entries, dir[at(c)..end])
      && (!r.eof ==> r.entries != [] && at(r.entries[|r.entries| - 1].cookie) == Sent(short, odd, end))
  }

  ghost predicate Serves(page: nat -> Reply, at: nat -> nat, short: bool, odd: bool, dir: seq<Dirent>, count: nat) {
    forall c: nat :: ServedAt(page, at, short, odd, dir, count, c)
  }

  lemma SameJoin(short: bool, es: seq<Entry3>, dir: seq<Dirent>, fs: seq<Entry3>, more: seq<Dirent>)
    requires Same(short, es, dir) && Same(short, fs, more)
    ensures Same(short, es + fs, dir + more)
  {}

  lemma {:induction false} FollowIs(page: nat -> Reply, at: nat -> nat, short: bool, odd: bool, dir: seq<Dirent>,
                                    count: nat, c: nat, n: nat)
    requires Serves(page, at, short, odd, dir, count) && at(c) <= |dir|
    ensures var got, all := Follow(page, c, n), Pages(short, odd, dir, count, at(c), n);
            got.1 == all.1 && Same(short, got.0, all.0)
    decreases n
  {
    if n > 0 {
      assert ServedAt(page, at, short, odd, dir, count, c);
      var r := page(c);
      if !r.eof {
        var next, end := r.entries[|r.entries| - 1].cookie, PageEnd(dir, count, at(c));
        FollowIs(page, at, short, odd, dir, count, next, n - 1);
        SameJoin(short, r.entries, dir[at(c)..end], Follow(page, next, n - 1).0,
                 Pages(short, odd, dir, count, Sent(short, odd, end), n - 1).0);
      }
    }
  }

  lemma ServerServes(short: bool, e: nat, dir: seq<Dirent>, count: nat, page: nat -> Reply, at: nat -> nat)
    requires Readable(dir, count)
    requires page == ((c: nat) => Read(short, Tag(short, e), dir, c, count))
    requires at == ((c: nat) => StartOf(short, Tag(short, e), c))
    ensures Serves(page, at, short, Odd(e), dir, count)
  {
    forall c: nat ensures ServedAt(page, at, short, Odd(e), dir, count, c) {
      if at(c) <= |dir| {
        var end := PageEnd(dir, count, at(c));
        PageIs(short, Tag(short, e), dir, at(c), count);
        if end < |dir| {
          Advances(dir, count, at(c));
          SentIs(short, e, end);
        }
      }
    }
  }

  lemma CollectIs(short: bool, e: nat, dir: seq<Dirent>, count: nat, cookie: nat, pos: nat, n: nat)
    requires Readable(dir, count) && StartOf(short, Tag(short, e), cookie) == pos <= |dir|
    ensures var got := Collect(short, Tag(short, e), dir, count, cookie, n);
            var all := Pages(short, Odd(e), dir, count, pos, n);
            got.1 == all.1 && Same(short, got.0, all.0)
  {
    var page := (c: nat) => Read(short, Tag(short, e), dir, c, count);
    var at := (c: nat) => StartOf(short, Tag(short, e), c);
    ServerServes(short, e, dir, count, page, at);
    FollowIs(page, at, short, Odd(e), dir, count, cookie, n);
  }

  // ---------- when the pages are the listing ----------

  lemma {:induction false} WholeLap(short: bool, odd: bool, dir: seq<Dirent>, count: nat, pos: nat) returns (n: nat)
    requires Readable(dir, count) && pos <= |dir| && Boundary(short, dir, count, pos) == |dir|
    ensures Pages(short, odd, dir, count, pos, n) == (dir[pos..], true)
    decreases |dir| - pos
  {
    var end := PageEnd(dir, count, pos);
    if end == |dir| {
      assert dir[pos..end] == dir[pos..];
      n := 1;
    } else {
      Advances(dir, count, pos);
      var m := WholeLap(short, odd, dir, count, end);
      assert dir[pos..end] + dir[end..] == dir[pos..];
      n := m + 1;
    }
  }

  /** Whoever is told that this is all has received as many entries as there are from the first page on, and
      more if the client has been sent back. */
  lemma {:induction false} EnoughEntries(short: bool, odd: bool, dir: seq<Dirent>, count: nat, pos: nat, n: nat)
    requires Readable(dir, count) && pos <= |dir| && Pages(short, odd, dir, count, pos, n).1
    ensures |Pages(short, odd, dir, count, pos, n).0| >= |dir| - pos
    ensures Boundary(short, dir, count, pos) != |dir| ==> |Pages(short, odd, dir, count, pos, n).0| > |dir| - pos
    decreases n
  {
    var end := PageEnd(dir, count, pos);
    if end < |dir| {
      Advances(dir, count, pos);
      EnoughEntries(short, odd, dir, count, Sent(short, odd, end), n - 1);
    }
  }

  ghost predicate Lists(short: bool, e: nat, dir: seq<Dirent>, count: nat, cookie: nat, pos: nat, n: nat)
    requires pos <= |dir|
  {
    var got := Collect(short, Tag(short, e), dir, count, cookie, n);
    got.1 && Same(short, got.0, dir[pos..])
  }

  /** The pages of an unchanged directory are the listing from `pos` on, in order, each entry once, and
      the last page reports the end, exactly if the first page that ends past the span of a cookie
      is the last one. */
  lemma PagingIff(short: bool, e: nat, dir: seq<Dirent>, count: nat, cookie: nat, pos: nat)
    requires Readable(dir, count) && StartOf(short, Tag(short, e), cookie) == pos <= |dir|
    ensures (exists n: nat :: Lists(short, e, dir, count, cookie, pos, n)) <==>
            Boundary(short, dir, count, pos) == |dir|
  {
    if Boundary(short, dir, count, pos) == |dir| {
      var n := WholeLap(short, Odd(e), dir, count, pos);
      CollectIs(short, e, dir, count, cookie, pos, n);
      assert Lists(short, e, dir, count, cookie, pos, n);
    } else {
      forall n: nat ensures !Lists(short, e, dir, count, cookie, pos, n) {
        CollectIs(short, e, dir, count, cookie, pos, n);
        if Lists(short, e, dir, count, cookie, pos, n) { EnoughEntries(short, Odd(e), dir, count, pos, n); }
      }
    }
  }

  ghost predicate ListsAll(short: bool, e: nat, dir: seq<Dirent>, count: nat, n: nat) {
    var got := Collect(short, Tag(short, e), dir, count, 0, n);
    got.1 && Same(short, got.0, dir)
  }

  /** From cookie 0 the pages are the whole listing exactly if the first page past the span is the last. */
  lemma WholeDirectory(short: bool, e: nat, dir: seq<Dirent>, count: nat)
    requires Readable(dir, count)
    ensures (exists n: nat :: ListsAll(short, e, dir, count, n)) <==> Boundary(short, dir, count, 0) == |dir|
  {
    assert dir[0..] == dir;
    PagingIff(short, e, dir, count, 0, 0);
    assert forall n: nat :: ListsAll(short, e, dir, count, n) == Lists(short, e, dir, count, 0, 0, n);
  }

  /** A directory whose positions all fit a cookie is always listed in full. */
  lemma {:induction false} ShortBoundary(short: bool, dir: seq<Dirent>, count: nat, pos: nat)
    requires count > RESOK_SIZE && pos <= |dir| <= PosSpan(short) && forall d :: d in dir ==> d.status.Fine?
    ensures Boundary(short, dir, count, pos) == |dir|
    decreases |dir| - pos
  {
    FillFine(dir, pos, Min(count, MAX_COUNT), 0, RESOK_SIZE);
    var end := PageEnd(dir, count, pos);
    if pos < end < |dir| { ShortBoundary(short, dir, count, end); }
  }

  lemma ShortDirectory(short: bool, e: nat, dir: seq<Dirent>, count: nat)
    requires Readable(dir, count) && |dir| <= PosSpan(short)
    ensures exists n: nat :: ListsAll(short, e, dir, count, n)
  {
    ShortBoundary(short, dir, count, 0);
    WholeDirectory(short, e, dir, count);
  }

  // ---------- when the end is reported at all ----------

  /** Where the next lap starts after a lap from `pos`: the client is sent back from the first page past the span. */
  function NextLap(short: bool, odd: bool, dir: seq<Dirent>, count: nat, pos: nat): (next: nat)
    requires pos <= |dir|
    ensures next <= |dir|
  {
    Sent(short, odd, Boundary(short, dir, count, pos))
  }

  /** Where lap `i` starts, the first one starting at `pos`. */
  function LapAt(short: bool, odd: bool, dir: seq<Dirent>, count: nat, pos: nat, i: nat): (at: nat)
    requires pos <= |dir|
    ensures at <= |dir|
    decreases i
  {
    if i == 0 then pos else LapAt(short, odd, dir, count, NextLap(short, odd, dir, count, pos), i - 1)
  }

  /** Lap `i` arrives at the end of the directory. */
  predicate Arrives(short: bool, odd: bool, dir: seq<Dirent>, count: nat, pos: nat, i: nat)
    requires pos <= |dir|
  {
    Boundary(short, dir, count, LapAt(short, odd, dir, count, pos, i)) == |dir|
  }

  /** A lap that is not the last hands over to the next one. */
  lemma {:induction false} LapForward(short: bool, odd: bool, dir: seq<Dirent>, count: nat, pos: nat, m: nat)
    returns (n: nat)
    requires Readable(dir, count) && pos <= |dir| && Boundary(short, dir, count, pos) != |dir|
    requires Pages(short, odd, dir, count, NextLap(short, odd, dir, count, pos), m).1
    ensures Pages(short, odd, dir, count, pos, n).1
    decreases |dir| - pos
  {
    var end := PageEnd(dir, count, pos);
    Advances(dir, count, pos);
    if end >= PosSpan(short) {
      n := m + 1;
    } else {
      var k := LapForward(short, odd, dir, count, end, m);
      n := k + 1;
    }
  }

  lemma {:induction false} LapBack(short: bool, odd: bool, dir: seq<Dirent>, count: nat, pos: nat, n: nat)
    returns (m: nat)
    requires Readable(dir, count) && pos <= |dir| && Boundary(short, dir, count, pos) != |dir|
    requires Pages(short, odd, dir, count, pos, n).1
    ensures m < n && Pages(short, odd, dir, count, NextLap(short, odd, dir, count, pos), m).1
    decreases |dir| - pos
  {
    var end := PageEnd(dir, count, pos);
    Advances(dir, count, pos);
    if end >= PosSpan(short) {
      m := n - 1;
    } else {
      m := LapBack(short, odd, dir, count, end, n - 1);
    }
  }

  lemma {:induction false} ArrivingEnds(short: bool, odd: bool, dir: seq<Dirent>, count: nat, pos: nat, i: nat)
    returns (n: nat)
    requires Readable(dir, count) && pos <= |dir| && Arrives(short, odd, dir, count, pos, i)
    ensures Pages(short, odd, dir, count, pos, n).1
    decreases i
  {
    if Boundary(short, dir, count, pos) == |dir| {
      n := WholeLap(short, odd, dir, count, pos);
    } else {
      var m := ArrivingEnds(short, odd, dir, count, NextLap(short, odd, dir, count, pos), i - 1);
      n := LapForward(short, odd, dir, count, pos, m);
    }
  }

  lemma {:induction false} EndingArrives(short: bool, odd: bool, dir: seq<Dirent>, count: nat, pos: nat, n: nat)
    returns (i: nat)
    requires Readable(dir, count) && pos <= |dir| && Pages(short, odd, dir, count, pos, n).1
    ensures Arrives(short, odd, dir, count, pos, i)
    decreases n
  {
    if Boundary(short, dir, count, pos) == |dir| {
      i := 0;
    } else {
      var m := LapBack(short, odd, dir, count, pos, n);
      var j := EndingArrives(short, odd, dir, count, NextLap(short, odd, dir, count, pos), m);
      ArrivesNext(short, odd, dir, count, pos, j);
      i := j + 1;
    }
  }

  lemma ArrivesNext(short: bool, odd: bool, dir: seq<Dirent>, count: nat, pos: nat, i: nat)
    requires pos <= |dir| && Arrives(short, odd, dir, count, NextLap(short, odd, dir, count, pos), i)
    ensures Arrives(short, odd, dir, count, pos, i + 1)
  {}

  lemma {:induction false} LapsAdd(short: bool, odd: bool, dir: seq<Dirent>, count: nat, pos: nat, i: nat, j: nat)
    requires pos <= |dir|
    ensures LapAt(short, odd, dir, count, pos, i + j) ==
            LapAt(short, odd, dir, count, LapAt(short, odd, dir, count, pos, i), j)
    decreases i
  {
    if i > 0 { LapsAdd(short, odd, dir, count, NextLap(short, odd, dir, count, pos), i - 1, j); }
  }

  lemma {:induction false} BoundaryPast(short: bool, dir: seq<Dirent>, count: nat, pos: nat)
    requires Readable(dir, count) && pos <= |dir| && Boundary(short, dir, count, pos) != |dir| && pos < PosSpan(short)
    ensures PosSpan(short) <= Boundary(short, dir, count, pos) < PosSpan(short) + MAX_ENTRIES
    decreases |dir| - pos
  {
    var end := PageEnd(dir, count, pos);
    Advances(dir, count, pos);
    if end < PosSpan(short) { BoundaryPast(short, dir, count, end); }
  }

  /** A lap that follows one which did not arrive starts on the first page. */
  lemma LapsStartLow(short: bool, odd: bool, dir: seq<Dirent>, count: nat, pos: nat, i: nat)
    requires Readable(dir, count) && pos <= |dir| && pos < PosSpan(short)
    requires forall j: nat :: j <= i ==> !Arrives(short, odd, dir, count, pos, j)
    ensures LapAt(short, odd, dir, count, pos, i + 1) < MAX_ENTRIES
    decreases i
  {
    if i > 0 { LapsStartLow(short, odd, dir, count, pos, i - 1); }
    var at := LapAt(short, odd, dir, count, pos, i);
    LapsAdd(short, odd, dir, count, pos, i, 1);
    assert !Arrives(short, odd, dir, count, pos, i);
    BoundaryPast(short, dir, count, at);
  }

  /** If any lap arrives, one of the first 144 does. */
  lemma {:induction false} ArrivesEarly(short: bool, odd: bool, dir: seq<Dirent>, count: nat, pos: nat, i: nat)
    returns (j: nat)
    requires Readable(dir, count) && pos <= |dir| && pos < PosSpan(short) && Arrives(short, odd, dir, count, pos, i)
    ensures j <= MAX_ENTRIES && Arrives(short, odd, dir, count, pos, j)
    decreases i
  {
    if i <= MAX_ENTRIES {
      j := i;
    } else {
      var k := ArrivesSooner(short, odd, dir, count, pos, i);
      j := ArrivesEarly(short, odd, dir, count, pos, k);
    }
  }

  lemma ArrivesSooner(short: bool, odd: bool, dir: seq<Dirent>, count: nat, pos: nat, i: nat) returns (k: nat)
    requires Readable(dir, count) && pos <= |dir| && pos < PosSpan(short) && Arrives(short, odd, dir, count, pos, i)
    requires i > MAX_ENTRIES
    ensures k < i && Arrives(short, odd, dir, count, pos, k)
  {
    if k0: nat :| k0 <= MAX_ENTRIES && Arrives(short, odd, dir, count, pos, k0) {
      k := k0;
    } else {
      var f := (j: nat) => LapAt(short, odd, dir, count, pos, j + 1);
      forall j: nat | j <= MAX_ENTRIES ensures f(j) < MAX_ENTRIES { LapsStartLow(short, odd, dir, count, pos, j); }
      var a, b := Pigeonhole.TwoCoincide(f, MAX_ENTRIES);
      LapsAdd(short, odd, dir, count, pos, a + 1, i - (b + 1));
      LapsAdd(short, odd, dir, count, pos, b + 1, i - (b + 1));
      k := a + 1 + (i - (b + 1));
    }
  }

  /** A client that goes on wherever its cookies lead is told the end exactly if one of the first 144 laps
      through the directory arrives there. */
  lemma EofIff(short: bool, e: nat, dir: seq<Dirent>, count: nat, cookie: nat, pos: nat)
    requires Readable(dir, count) && StartOf(short, Tag(short, e), cookie) == pos <= |dir|
    ensures (exists n: nat :: Collect(short, Tag(short, e), dir, count, cookie, n).1) <==>
            (exists i: nat :: i <= MAX_ENTRIES && Arrives(short, Odd(e), dir, count, pos, i))
  {
    var odd := Odd(e);
    if i: nat :| i <= MAX_ENTRIES && Arrives(short, odd, dir, count, pos, i) {
      var n := ArrivingEnds(short, odd, dir, count, pos, i);
      CollectIs(short, e, dir, count, cookie, pos, n);
    }
    if n: nat :| Collect(short, Tag(short, e), dir, count, cookie, n).1 {
      CollectIs(short, e, dir, count, cookie, pos, n);
      var i := EndingArrives(short, odd, dir, count, pos, n);
      var j := ArrivesEarly(short, odd, dir, count, pos, i);
    }
  }

  /** In an even epoch every lap after the first starts at the start, so that from cookie 0 the end is
      reported exactly if the pages are the listing. */
  lemma EvenEofIff(short: bool, e: nat, dir: seq<Dirent>, count: nat)
    requires Readable(dir, count) && e % 2 == 0
    ensures (exists n: nat :: Collect(short, Tag(short, e), dir, count, 0, n).1) <==>
            Boundary(short, dir, count, 0) == |dir|
  {
    EofIff(short, e, dir, count, 0, 0);
    if Boundary(short, dir, count, 0) == |dir| {
      assert Arrives(short, Odd(e), dir, count, 0, 0);
    } else {
      forall i: nat ensures !Arrives(short, Odd(e), dir, count, 0, i) { EvenLaps(short, dir, count, i); }
    }
  }

  lemma {:induction false} EvenLaps(short: bool, dir: seq<Dirent>, count: nat, i: nat)
    requires Readable(dir, count) && Boundary(short, dir, count, 0) != |dir|
    ensures LapAt(short, false, dir, count, 0, i) == 0
  {
    BoundaryPast(short, dir, count, 0);
    if i > 0 { EvenLaps(short, dir, count, i - 1); }
  }

  // ---------- an end that is reported late ----------

  /** All names have one to four bytes. */
  ghost predicate ShortNames(dir: seq<Dirent>) {
    forall d :: d in dir ==> d.status.Fine? && 1 <= |d.name| <= 4
  }

  lemma {:induction false} FillShort(dir: seq<Dirent>, start: nat, i: nat)
    requires ShortNames(dir) && start + i <= |dir| && i <= 142
    ensures Fill(dir, start, MAX_COUNT, i, RESOK_SIZE + 28 * i) == Filled(Min(142, |dir| - start))
    decreases 142 - i
  {
    if start + i < |dir| {
      assert dir[start + i] in dir;
      if i < 142 { FillShort(dir, start, i + 1); }
    }
  }

  lemma {:induction false} SkipPages(dir: seq<Dirent>, pos: nat, k: nat)
    requires ShortNames(dir) && pos + 142 * k < PosSpan(true) <= |dir|
    ensures Boundary(true, dir, MAX_COUNT, pos) == Boundary(true, dir, MAX_COUNT, pos + 142 * k)
    decreases k
  {
    if k > 0 {
      FillShort(dir, pos, 0);
      SkipPages(dir, pos + 142, k - 1);
    }
  }

  lemma LapEnd(dir: seq<Dirent>, pos: nat, k: nat)
    requires ShortNames(dir) && pos + 142 * k < PosSpan(true) <= pos + 142 * (k + 1) && PosSpan(true) <= |dir|
    ensures Boundary(true, dir, MAX_COUNT, pos) == Min(pos + 142 * (k + 1), |dir|)
  {
    SkipPages(dir, pos, k);
    FillShort(dir, pos + 142 * k, 0);
  }

  /** In 32-bit mode a directory of 1048680 entries with short names is not listed in full, and yet in odd
      epochs the end is reported: after two laps that fall back to entries 94 and 46. */
  lemma LateEof(e: nat, dir: seq<Dirent>)
    requires |dir| == 1048680 && ShortNames(dir) && Odd(e)
    ensures forall n: nat :: !ListsAll(true, e, dir, MAX_COUNT, n)
    ensures exists n: nat :: Collect(true, Tag(true, e), dir, MAX_COUNT, 0, n).1
  {
    LapEnd(dir, 0, 7384);
    LapEnd(dir, 94, 7383);
    LapEnd(dir, 46, 7384);
    WholeDirectory(true, e, dir, MAX_COUNT);
    var at := LapAt(true, true, dir, MAX_COUNT, 0, 2);
    assert LapAt(true, true, dir, MAX_COUNT, 94, 1) == LapAt(true, true, dir, MAX_COUNT, 46, 0) == 46;
    assert at == 46;
    assert Arrives(true, Odd(e), dir, MAX_COUNT, 0, 2);
    EofIff(true, e, dir, MAX_COUNT, 0, 0);
  }

  /** A directory that is longer by a full page is never listed to its end, from whatever cookie. */
  lemma LongDirectory(short: bool, e: nat, dir: seq<Dirent>, count: nat, cookie: nat, n: nat)
    requires Readable(dir, count) && |dir| >= PosSpan(short) + MAX_ENTRIES
    ensures !Collect(short, Tag(short, e), dir, count, cookie, n).1
  {
    var pos := StartOf(short, Tag(short, e), cookie);
    CollectIs(short, e, dir, count, cookie, pos, n);
    LongPages(short, Odd(e), dir, count, pos, n);
  }

  lemma {:induction false} LongPages(short: bool, odd: bool, dir: seq<Dirent>, count: nat, pos: nat, n: nat)
    requires pos < PosSpan(short) && |dir| >= PosSpan(short) + MAX_ENTRIES
    ensures !Pages(short, odd, dir, count, pos, n).1
    decreases n
  {
    if n > 0 { LongPages(short, odd, dir, count, Sent(short, odd, PageEnd(dir, count, pos)), n - 1); }
  }
}
