/** The exports list: which host entry matches a client, and which export a path belongs to. */
module Exports {
  import opened Options

  function Copies(b: bool, n: nat): (s: seq<bool>)
    ensures |s| == n && forall i :: 0 <= i < n ==> s[i] == b
  {
    if n == 0 then [] else Copies(b, n - 1) + [b]
  }

  /** An IPv6 address and an IPv4 netmask as bits, the most significant first. */
  type Addr = s: seq<bool> | |s| == 128 witness Copies(false, 128)
  type Mask = s: seq<bool> | |s| == 32 witness Copies(false, 32)

  // ---------- comparing addresses ----------

  predicate SamePrefix(a: Addr, b: Addr, prefix: nat) {
    forall i :: 0 <= i < 128 && i < prefix ==> a[i] == b[i]
  }

  /** is_equal_addr: build the mask word by word and bit by bit, then compare what it lets through. */
  method IsEqualAddr(a: Addr, b: Addr, prefix: nat) returns (r: bool)
    ensures r == SamePrefix(a, b, prefix)
  {
    var mask := new bool[128](_ => false);
    for word := 0 to 4
      invariant forall i :: 0 <= i < 128 ==> mask[i] == (i < 32 * word && i < prefix)
    {
      var bit := 0;
      while bit < 32
        invariant 0 <= bit <= 32
        invariant forall i :: 0 <= i < 128 ==> mask[i] == (i < 32 * word + bit && i < prefix)
      {
        if 32 * word + bit >= prefix {
          break;
        }
        mask[32 * word + bit] := true;
        bit := bit + 1;
      }
    }
    r := true;
    for i := 0 to 128
      invariant r == forall j :: 0 <= j < i && mask[j] ==> a[j] == b[j]
    {
      if (a[i] && mask[i]) != (b[i] && mask[i]) {
        r := false;
      }
    }
  }

  // ---------- netmasks ----------

  /** `p` ones followed by zeros. */
  ghost predicate IsPrefixMask(m: Mask, p: nat) {
    p <= 32 && forall k :: 0 <= k < 32 ==> m[k] == (k < p)
  }

  /** make_prefix: bits are examined from the least significant up. */
  method MakePrefix(m: Mask) returns (prefix: nat, error: bool)
    ensures error <==> forall p :: !IsPrefixMask(m, p)
    ensures !error ==> IsPrefixMask(m, prefix)
  {
    prefix, error := 0, false;
    var i := 0;
    while i < 32
      invariant 0 <= i <= 32 && prefix == 0
      invariant forall k :: 32 - i <= k < 32 ==> !m[k]
    {
      if m[31 - i] {
        prefix := 32 - i;
        break;
      }
      i := i + 1;
    }
    ghost var low := i;
    while i < 32
      invariant low <= i <= 32
      invariant forall k :: 32 - i <= k < 32 - low ==> m[k]
    {
      if !m[31 - i] {
        error := true;
        assert m[31 - low] && 31 - i < 31 - low;
        return;
      }
      i := i + 1;
    }
    assert IsPrefixMask(m, 32 - low);
  }

  /** The 96 bits of ::ffff */
  function MappedHead(): (s: seq<bool>)
    ensures |s| == 96 && forall i :: 0 <= i < 96 ==> s[i] == (i >= 80)
  {
    Copies(false, 80) + Copies(true, 16)
  }

  /** ::ffff:a.b.c.d */
  function Mapped(v4: Mask): Addr { MappedHead() + v4 }

  /** A host entry with a dotted netmask, as set_oldnet fills it in, matches exactly the clients with an
      IPv4-mapped address that agree with the entry under the mask. */
  lemma OldNetMatches(remote: Addr, v4: Mask, m: Mask, p: nat)
    requires IsPrefixMask(m, p)
    ensures SamePrefix(remote, Mapped(v4), p + 96) <==>
            remote[..96] == MappedHead() && forall k :: 0 <= k < 32 ==> (remote[96 + k] && m[k]) == (v4[k] && m[k])
  {}

  // ---------- choosing the export ----------

  datatype Host = Host(addr: Addr, prefix: nat, options: int, anonuid: nat, anongid: nat, passwordHash: nat)

  datatype Item = Item(path: string, hosts: seq<Host>, fsid: nat)

  const ANON_NOTSPECIAL := 0xFFFF_FFFF

  predicate HostMatches(h: Host, remote: Addr) { SamePrefix(remote, h.addr, h.prefix) }

  /** The first matching host of a list, from index `k` on; -1 if there is none. */
  function FirstHost(hosts: seq<Host>, remote: Addr, k: nat := 0): (r: int)
    requires k <= |hosts|
    ensures r == -1 || k <= r < |hosts|
    ensures r == -1 ==> forall j :: k <= j < |hosts| ==> !HostMatches(hosts[j], remote)
    ensures r != -1 ==> HostMatches(hosts[r], remote) && forall j :: k <= j < r ==> !HostMatches(hosts[j], remote)
    decreases |hosts| - k
  {
    if k == |hosts| then -1 else if HostMatches(hosts[k], remote) then k else FirstHost(hosts, remote, k + 1)
  }

  /** An export applies if its path is a non-empty string prefix and some host entry matches. */
  predicate Applies(it: Item, path: string, remote: Addr) {
    it.path != "" && it.path <= path && FirstHost(it.hosts, remote) != -1
  }

  /** `i` is the longest applicable export among the first `n`, the first of its length. */
  ghost predicate Longest(list: seq<Item>, n: nat, path: string, remote: Addr, i: nat)
    requires n <= |list|
  {
    && i < n && Applies(list[i], path, remote)
    && forall j :: 0 <= j < n && Applies(list[j], path, remote) ==>
         |list[j].path| < |list[i].path| || (|list[j].path| == |list[i].path| && i <= j)
  }

  ghost predicate NoneApplies(list: seq<Item>, n: nat, path: string, remote: Addr)
    requires n <= |list|
  {
    forall j :: 0 <= j < n ==> !Applies(list[j], path, remote)
  }

  /** strstr(path, "/../") */
  predicate Climbs(path: string) { exists k :: 0 <= k < |path| && ClimbsAt(path, k) }
  predicate ClimbsAt(path: string, k: nat) { k + 4 <= |path| && path[k..k + 4] == "/../" }

  /** There is at most one longest export. */
  lemma LongestUnique(list: seq<Item>, path: string, remote: Addr, i: nat, j: nat)
    requires Longest(list, |list|, path, remote, i) && Longest(list, |list|, path, remote, j)
    ensures i == j
  {}

  /** The results of the last look-up, kept for the rest of a call. */
  class Selection {
    var opts: int
    var exportPath: Option<string>
    var fsid: nat
    var anonuid: nat
    var anongid: nat
    var passwordHash: nat

    constructor ()
      ensures opts == -1
    {
      opts, exportPath, fsid, anonuid, anongid, passwordHash := -1, None, 0, ANON_NOTSPECIAL, ANON_NOTSPECIAL, 0;
    }

    /** The fields describe item `it` and its first host for the client. */
    ghost predicate Describes(it: Item, remote: Addr)
      reads this
    {
      var h := FirstHost(it.hosts, remote);
      && h != -1 && opts == it.hosts[h].options && exportPath == Some(it.path) && fsid == it.fsid
      && anonuid == it.hosts[h].anonuid && anongid == it.hosts[h].anongid && passwordHash == it.hosts[h].passwordHash
    }

    ghost predicate Cleared()
      reads this
    {
      opts == -1 && exportPath == None && fsid == 0 && anonuid == anongid == ANON_NOTSPECIAL
    }

    /** find_host */
    method FindHost(remote: Addr, hosts: seq<Host>) returns (idx: int)
      modifies `passwordHash
      ensures idx == FirstHost(hosts, remote)
      ensures passwordHash == if idx == -1 then old(passwordHash) else hosts[idx].passwordHash
    {
      for k := 0 to |hosts|
        invariant FirstHost(hosts, remote, k) == FirstHost(hosts, remote) && passwordHash == old(passwordHash)
      {
        var equal := IsEqualAddr(remote, hosts[k].addr, hosts[k].prefix);
        if equal {
          passwordHash := hosts[k].passwordHash;
          return k;
        }
      }
      idx := -1;
    }

    /** exports_options; `path` and `remote` are absent if the pointer is null or the client unknown. */
    method Lookup(list: seq<Item>, path: Option<string>, remote: Option<Addr>) returns (r: int)
      modifies this
      ensures r == opts
      ensures path.None? || Climbs(path.value) || remote.None? ==> Cleared()
      ensures path.Some? && !Climbs(path.value) && remote.Some? ==>
                if NoneApplies(list, |list|, path.value, remote.value) then Cleared()
                else exists i: nat :: Longest(list, |list|, path.value, remote.value, i) &&
                                    Describes(list[i], remote.value)
    {
      opts, exportPath, fsid, anonuid, anongid := -1, None, 0, ANON_NOTSPECIAL, ANON_NOTSPECIAL;
      if path.None? {
        return opts;
      }
      var climbs := FindClimb(path.value);
      if climbs || remote.None? {
        return opts;
      }
      r := Scan(list, path.value, remote.value);
    }

    /** The loop over the list: a longer applicable export replaces what was found before. */
    method Scan(list: seq<Item>, p: string, c: Addr) returns (r: int)
      requires Cleared()
      modifies this
      ensures r == opts
      ensures if NoneApplies(list, |list|, p, c) then Cleared()
              else exists i: nat :: Longest(list, |list|, p, c, i) && Describes(list[i], c)
    {
      var lastLen: nat := 0;
      ghost var best: nat := 0;
      for n := 0 to |list|
        invariant lastLen == 0 ==> Cleared() && NoneApplies(list, n, p, c)
        invariant lastLen > 0 ==>
                    Longest(list, n, p, c, best) && lastLen == |list[best].path| && Describes(list[best], c)
      {
        var it := list[n];
        if |it.path| > lastLen && it.path <= p {
          var h := FindHost(c, it.hosts);
          if h != -1 {
            var host := it.hosts[h];
            opts, exportPath, fsid := host.options, Some(it.path), it.fsid;
            anonuid, anongid := host.anonuid, host.anongid;
            lastLen := |it.path|;
            best := n;
          }
        }
      }
      if lastLen > 0 {
        assert Applies(list[best], p, c);
      }
      r := opts;
    }

    method FindClimb(path: string) returns (found: bool)
      ensures found == Climbs(path)
    {
      for k := 0 to |path|
        invariant forall j :: 0 <= j < k ==> !ClimbsAt(path, j)
      {
        if ClimbsAt(path, k) {
          return true;
        }
      }
      found := false;
    }
  }
}
