/**
  Incremental MD5: the buffer, the two-word bit counter and the padding.
  The compression of one 64-byte block is a given function.
 */
module Md5 {
  import opened Bytes

  type word = x: int | 0 <= x < 0x1_0000_0000

  /** The digest buffer A, B, C, D. */
  datatype Abcd = Abcd(a: word, b: word, c: word, d: word)

  const Start := Abcd(0x67452301, 0xefcdab89, 0x98badcfe, 0x10325476)

  type Compress = (Abcd, seq<byte>) -> Abcd

  // ---------- the definition: sections 3.1 to 3.5 of RFC 1321 ----------

  /** Run the compression over the whole 64-byte blocks of `m`. */
  function Fold(f: Compress, s: Abcd, m: seq<byte>): Abcd
    decreases |m|
  {
    if |m| < 64 then s else Fold(f, f(s, m[..64]), m[64..])
  }

  /** The bytes of `m` after its last whole block. */
  function Rest(m: seq<byte>): (r: seq<byte>)
    ensures |r| == |m| % 64
  {
    m[|m| - |m| % 64..]
  }

  /** Number of zero bytes after the 0x80 byte: the least that makes the length 56 modulo 64. */
  function Zeros(n: nat): (z: nat)
    ensures (n + 1 + z) % 64 == 56 && z < 64
  {
    (55 - n % 64) % 64
  }

  function Pad(n: nat): (p: seq<byte>)
    ensures |p| == n + 1
  {
    [0x80] + seq(n, _ => 0)
  }

  /** Section 3.1 and 3.2: one bit, zeros, and the length in bits modulo 2^64, low byte first. */
  function Padded(m: seq<byte>): seq<byte> {
    m + Pad(Zeros(|m|)) + Le(8 * |m| % 0x1_0000_0000_0000_0000, 8)
  }

  function Output(s: Abcd): (r: seq<byte>)
    ensures |r| == 16
  {
    Le(s.a, 4) + Le(s.b, 4) + Le(s.c, 4) + Le(s.d, 4)
  }

  /** The initial words as section 3.3 of RFC 1321 lists them, byte by byte. */
  lemma StartBytes()
    ensures Output(Start) == [0x01, 0x23, 0x45, 0x67] + [0x89, 0xab, 0xcd, 0xef] +
                             [0xfe, 0xdc, 0xba, 0x98] + [0x76, 0x54, 0x32, 0x10]
  {
    WordBytes(0x67452301, 0x67, 0x45, 0x23, 0x01);
    WordBytes(0xefcdab89, 0xef, 0xcd, 0xab, 0x89);
    WordBytes(0x98badcfe, 0x98, 0xba, 0xdc, 0xfe);
    WordBytes(0x10325476, 0x10, 0x32, 0x54, 0x76);
  }

  lemma WordBytes(w: word, a: byte, b: byte, c: byte, d: byte)
    requires w == ((a * 256 + b) * 256 + c) * 256 + d
    ensures Le(w, 4) == [d, c, b, a]
  {
    ByteOrder(a, b, c, d);
  }

  function Digest(f: Compress, m: seq<byte>): seq<byte> {
    Output(Fold(f, Start, Padded(m)))
  }

  /** The padded message: whole blocks, the message, a one bit, zeros, and its length in bits; no more than needed. */
  lemma PaddedShape(m: seq<byte>)
    ensures var p := Padded(m);
            && |p| % 64 == 0 && |m| + 9 <= |p| <= |m| + 72 && p[..|m|] == m && p[|m|] == 0x80
            && (forall i :: |m| < i < |p| - 8 ==> p[i] == 0)
            && FromLe(p[|p| - 8..]) == 8 * |m| % 0x1_0000_0000_0000_0000
  {
    var bits := 8 * |m| % 0x1_0000_0000_0000_0000;
    var front := m + Pad(Zeros(|m|));
    Widths();
    LeRoundTrip(bits, 8);
    assert |front| == |m| + 1 + Zeros(|m|) && Padded(m) == front + Le(bits, 8);
    assert Padded(m)[|front|..] == Le(bits, 8);
    BlockEnd(|m| + 1 + Zeros(|m|));
  }

  lemma BlockEnd(n: nat)
    requires n % 64 == 56
    ensures (n + 8) % 64 == 0
  {}

  /** A message of up to 55 bytes is one block. */
  lemma OneBlock(f: Compress, m: seq<byte>)
    requires |m| < 56
    ensures |Padded(m)| == 64 && Digest(f, m) == Output(f(Start, Padded(m)))
  {
    PaddedShape(m);
    Exactly64(|Padded(m)|);
    OneFold(f, Start, Padded(m));
  }

  lemma Exactly64(n: nat)
    requires n % 64 == 0 && 0 < n < 128
    ensures n == 64
  {}

  lemma OneFold(f: Compress, s: Abcd, b: seq<byte>)
    requires |b| == 64
    ensures Fold(f, s, b) == f(s, b)
  {
    assert b[..64] == b && b[64..] == [];
  }

  // ---------- folding in pieces ----------

  lemma {:induction false} FoldBlocks(f: Compress, s: Abcd, a: seq<byte>, b: seq<byte>)
    requires |a| % 64 == 0
    ensures Fold(f, s, a + b) == Fold(f, Fold(f, s, a), b)
    decreases |a|
  {
    if a == [] {
      assert a + b == b;
    } else {
      assert (a + b)[..64] == a[..64] && (a + b)[64..] == a[64..] + b;
      FoldBlocks(f, f(s, a[..64]), a[64..], b);
    }
  }

  /** Whole blocks first, then the rest. */
  lemma SplitRest(f: Compress, s: Abcd, m: seq<byte>, d: seq<byte>)
    ensures Fold(f, s, m + d) == Fold(f, Fold(f, s, m), Rest(m) + d)
    ensures Rest(m + d) == Rest(Rest(m) + d)
  {
    var k := |m| - |m| % 64;
    assert m == m[..k] + Rest(m) && m + d == m[..k] + (Rest(m) + d);
    FoldBlocks(f, s, m[..k], Rest(m) + d);
    FoldBlocks(f, s, m[..k], Rest(m));
    RestBlocks(m[..k], Rest(m) + d);
  }

  lemma RestBlocks(a: seq<byte>, b: seq<byte>)
    requires |a| % 64 == 0
    ensures Rest(a + b) == Rest(b)
  {
    assert |a + b| % 64 == |b| % 64 by { AddBlocks(|a| / 64, |b|); }
  }

  lemma AddBlocks(k: nat, n: nat)
    ensures (64 * k + n) % 64 == n % 64
  {}

  lemma SmallFold(f: Compress, s: Abcd, m: seq<byte>)
    requires |m| < 64
    ensures Fold(f, s, m) == s && Rest(m) == m
  {}

  // ---------- the code ----------

  class State {
    const process: Compress
    const buf: array<byte>
    var lo: word
    var hi: word
    var abcd: Abcd

    /** The state after the bytes `m`. */
    ghost predicate Holds(m: seq<byte>)
      reads this, buf
    {
      && buf.Length == 64
      && abcd == Fold(process, Start, m)
      && buf[..|m| % 64] == Rest(m)
      && lo == Low(8 * |m|) && hi == High(8 * |m|)
    }

    /** md5_init */
    constructor (f: Compress)
      ensures process == f && fresh(buf) && Holds([])
    {
      process := f;
      buf := new byte[64](_ => 0);
      lo, hi, abcd := 0, 0, Start;
    }

    method Count(nbytes: nat, ghost m: seq<byte>)
      requires nbytes < 0x8000_0000 && lo == Low(8 * |m|) && hi == High(8 * |m|)
      modifies this
      ensures lo == Low(8 * (|m| + nbytes)) && hi == High(8 * (|m| + nbytes))
      ensures abcd == old(abcd)
    {
      ghost var bits := 8 * |m|;
      var nbits: word := 8 * nbytes % 0x1_0000_0000;
      hi := (hi + nbytes / 0x2000_0000) % 0x1_0000_0000;
      lo := (lo + nbits) % 0x1_0000_0000;
      if lo < nbits {
        hi := (hi + 1) % 0x1_0000_0000;
      }
      CountWords(bits, nbytes);
    }

    method Append(data: seq<byte>, ghost m: seq<byte>)
      requires Holds(m) && |data| + 64 <= 0x8000_0000
      modifies this, buf
      ensures Holds(m + data)
    {
      var offset := lo / 8 % 64;
      OffsetIsRest(|m|);
      if |data| == 0 {
        assert m + data == m;
        return;
      }
      ghost var start, all := abcd, Rest(m) + data;
      Count(|data|, m);
      var p := 0;
      if offset != 0 {
        p := TopUp(data, offset);
        if offset + p < 64 {
          SmallFold(process, start, all);
          SplitRest(process, Start, m, data);
          return;
        }
        RestDrop(all);
      } else {
        assert all == data[p..];
      }
      assert Fold(process, abcd, data[p..]) == Fold(process, start, all) && Rest(data[p..]) == Rest(all);
      Blocks(data, p);
      SplitRest(process, Start, m, data);
    }

    /** The initial partial block: the buffer is filled up from `data`, and compressed once it is full. */
    method TopUp(data: seq<byte>, offset: nat) returns (copy: nat)
      requires buf.Length == 64 && 0 < offset < 64
      modifies `abcd, buf
      ensures copy <= |data| && offset + copy <= 64
      ensures var all := old(buf[..offset]) + data;
              if offset + copy < 64 then |all| < 64 && abcd == old(abcd) && buf[..|all|] == all
              else |all| >= 64 && abcd == process(old(abcd), all[..64]) && data[copy..] == all[64..]
    {
      ghost var all := buf[..offset] + data;
      copy := if offset + |data| > 64 then 64 - offset else |data|;
      Copy(offset, data[..copy]);
      assert buf[..offset + copy] == all[..offset + copy];
      if offset + copy < 64 {
        assert all[..offset + copy] == all;
      } else {
        assert buf[..] == all[..64];
        abcd := process(abcd, buf[..]);
      }
    }

    /** The full blocks from `p` on, then the bytes left over. */
    method Blocks(data: seq<byte>, start: nat)
      requires start <= |data| && buf.Length == 64
      modifies `abcd, buf
      ensures abcd == Fold(process, old(abcd), data[start..])
      ensures buf[..|Rest(data[start..])|] == Rest(data[start..])
    {
      var p := start;
      while |data| - p >= 64
        invariant start <= p <= |data| && Fold(process, abcd, data[p..]) == Fold(process, old(abcd), data[start..])
        invariant Rest(data[p..]) == Rest(data[start..])
      {
        assert data[p..][..64] == data[p..p + 64] && data[p..][64..] == data[p + 64..];
        RestDrop(data[p..]);
        abcd := process(abcd, data[p..p + 64]);
        p := p + 64;
      }
      SmallFold(process, abcd, data[p..]);
      if p < |data| {
        Copy(0, data[p..]);
      }
    }

    method Copy(offset: nat, bytes: seq<byte>)
      requires offset + |bytes| <= buf.Length
      modifies buf
      ensures buf[..offset + |bytes|] == old(buf[..offset]) + bytes
    {
      for i := 0 to |bytes|
        invariant buf[..offset + i] == old(buf[..offset]) + bytes[..i]
      {
        buf[offset + i] := bytes[i];
      }
    }

    /** md5_finish */
    method Finish(ghost m: seq<byte>) returns (digest: seq<byte>)
      requires Holds(m)
      modifies this, buf
      ensures digest == Digest(process, m)
    {
      var data := Le(lo, 4) + Le(hi, 4);
      var pad := Pad((55 - lo / 8) % 64);
      assert m + pad + data == Padded(m) by { FinishPads(m); }
      AppendLast(pad, data, m);
      digest := Output(abcd);
    }

    /** The two final appends. */
    method AppendLast(pad: seq<byte>, data: seq<byte>, ghost m: seq<byte>)
      requires Holds(m) && |pad| <= 64 && |data| == 8
      modifies this, buf
      ensures abcd == Fold(process, Start, m + pad + data)
    {
      Append(pad, m);
      Append(data, m + pad);
    }
  }

  lemma FinishPads(m: seq<byte>)
    ensures var n := 8 * |m|; m + Pad((55 - Low(n) / 8) % 64) + (Le(Low(n), 4) + Le(High(n), 4)) == Padded(m)
  {
    CountBytes(8 * |m|);
    OffsetIsRest(|m|);
  }

  /** The low and high word of a 64-bit count. */
  function Low(bits: nat): word { bits % 0x1_0000_0000 }
  function High(bits: nat): word { bits / 0x1_0000_0000 % 0x1_0000_0000 }

  lemma LowOfBytes(n: nat)
    ensures Low(8 * n) / 8 == n % 0x2000_0000
  {
    var q, r := n / 0x2000_0000, n % 0x2000_0000;
    assert 8 * n == 0x1_0000_0000 * q + 8 * r;
  }

  lemma ModSixtyFour(n: nat)
    ensures n % 0x2000_0000 % 64 == n % 64
    ensures (55 - n % 0x2000_0000) % 64 == (55 - n % 64) % 64
  {
    var q, r := n / 0x2000_0000, n % 0x2000_0000;
    var u, t := r / 64, r % 64;
    assert n == 64 * (0x80_0000 * q + u) + t;
    assert 55 - r == 55 - t - 64 * u;
  }

  lemma OffsetIsRest(n: nat)
    ensures Low(8 * n) / 8 % 64 == n % 64
    ensures (55 - Low(8 * n) / 8) % 64 == (55 - n % 64) % 64
  {
    LowOfBytes(n);
    ModSixtyFour(n);
  }

  /** Adding in two words with a carry is adding modulo 2^64. */
  lemma CountWords(bits: nat, nbytes: nat)
    requires nbytes < 0x8000_0000
    ensures var nbits := 8 * nbytes % 0x1_0000_0000;
            var lo := (Low(bits) + nbits) % 0x1_0000_0000;
            var hi := (High(bits) + nbytes / 0x2000_0000) % 0x1_0000_0000;
            && lo == Low(bits + 8 * nbytes)
            && (if lo < nbits then (hi + 1) % 0x1_0000_0000 else hi) == High(bits + 8 * nbytes)
  {
    var q, r := bits / 0x1_0000_0000, bits % 0x1_0000_0000;
    var x, nbits := nbytes / 0x2000_0000, 8 * nbytes % 0x1_0000_0000;
    assert bits + 8 * nbytes == 0x1_0000_0000 * (q + x) + (r + nbits);
    Carry(q, x, r, nbits);
    Wrap(q, x);
  }

  lemma Wrap(q: nat, x: nat)
    ensures (q % 0x1_0000_0000 + x) % 0x1_0000_0000 == (q + x) % 0x1_0000_0000
    ensures ((q + x) % 0x1_0000_0000 + 1) % 0x1_0000_0000 == (q + x + 1) % 0x1_0000_0000
  {
    AddWords(q / 0x1_0000_0000, q % 0x1_0000_0000 + x);
    AddWords((q + x) / 0x1_0000_0000, (q + x) % 0x1_0000_0000 + 1);
  }

  lemma AddWords(k: nat, n: nat)
    ensures (0x1_0000_0000 * k + n) % 0x1_0000_0000 == n % 0x1_0000_0000
  {}

  lemma Carry(q: nat, x: nat, r: nat, n: nat)
    requires r < 0x1_0000_0000 && n < 0x1_0000_0000
    ensures var sum := 0x1_0000_0000 * (q + x) + (r + n); var lo := (r + n) % 0x1_0000_0000;
            && lo == Low(sum)
            && (if lo < n then (q + x + 1) % 0x1_0000_0000 else (q + x) % 0x1_0000_0000) == High(sum)
  {
    var c := if r + n >= 0x1_0000_0000 then 1 else 0;
    assert (0x1_0000_0000 * (q + x) + (r + n)) / 0x1_0000_0000 == q + x + c;
  }

  lemma CountBytes(bits: nat)
    ensures Le(bits % 0x1_0000_0000_0000_0000, 8) == Le(Low(bits), 4) + Le(High(bits), 4)
  {
    var lo, hi := Le(Low(bits), 4), Le(High(bits), 4);
    Widths();
    LeRoundTrip(Low(bits), 4);
    LeRoundTrip(High(bits), 4);
    FromLeConcat(lo, hi);
    LeOnto(lo + hi);
    TwoWords(bits);
  }

  lemma TwoWords(bits: nat)
    ensures bits % 0x1_0000_0000_0000_0000 == Low(bits) + 0x1_0000_0000 * High(bits)
  {}

  lemma RestDrop(m: seq<byte>)
    requires |m| >= 64
    ensures Rest(m[64..]) == Rest(m)
  {}

  /** However the message is cut into pieces, the digest is that of the whole message. */
  function Concat(chunks: seq<seq<byte>>): seq<byte> {
    if chunks == [] then [] else Concat(chunks[..|chunks| - 1]) + chunks[|chunks| - 1]
  }

  method DigestOf(f: Compress, chunks: seq<seq<byte>>) returns (digest: seq<byte>)
    requires forall c :: c in chunks ==> |c| + 64 <= 0x8000_0000
    ensures digest == Digest(f, Concat(chunks))
  {
    var st := new State(f);
    for i := 0 to |chunks|
      invariant fresh(st) && fresh(st.buf) && st.process == f && st.Holds(Concat(chunks[..i]))
    {
      assert chunks[..i + 1][..i] == chunks[..i];
      st.Append(chunks[i], Concat(chunks[..i]));
    }
    assert chunks[..|chunks|] == chunks;
    digest := st.Finish(Concat(chunks));
  }
}
