/** From ranges to the daemon's decision: greyd-setup collapses the ranges, the daemon builds
    a trie from the blocks it is sent and looks addresses up in it. */
module Daemon {
  import opened Arithmetic
  import opened Basics
  import opened IpRange
  import opened Blacklist
  import Trie

  /** The bits of an IPv4 address, most significant first. */
  function Bits32(x: U32): (b: Trie.Bits)
    ensures |b| == 32
  {
    seq(32, i requires 0 <= i < 32 => (x / Pow2(31 - i)) % 2 == 1)
  }

  lemma HalfOf(x: U32, n: nat)
    requires 1 <= n <= 32
    ensures x / Size(n - 1) == x / Size(n) / 2
    ensures Bits32(x)[n - 1] <==> (x / Size(n)) % 2 == 1
  {
    assert Size(n - 1) == 2 * Size(n) == Size(n) * 2;
    DivDiv(x, Size(n), 2);
  }

  /** The first n bits agree exactly when the /n networks do. */
  lemma {:induction false} BitsArePrefixes(x: U32, y: U32, n: nat)
    requires n <= 32
    ensures Bits32(x)[..n] == Bits32(y)[..n] <==> x / Size(n) == y / Size(n)
  {
    hide Size, Pow2;
    if n == 0 {
      WholeIsZero(x);
      WholeIsZero(y);
    } else {
      BitsArePrefixes(x, y, n - 1);
      HalfOf(x, n);
      HalfOf(y, n);
      assert Bits32(x)[..n] == Bits32(x)[..n - 1] + [Bits32(x)[n - 1]];
      assert Bits32(y)[..n] == Bits32(y)[..n - 1] + [Bits32(y)[n - 1]];
      SameByHalves(x / Size(n), y / Size(n));
    }
  }

  lemma WholeIsZero(x: U32)
    ensures x / Size(0) == 0
  {
    Pow32();
  }

  lemma SameByHalves(u: int, v: int)
    ensures u == v <==> u / 2 == v / 2 && u % 2 == v % 2
  {
  }

  lemma InIsPrefix(x: int, c: Cidr)
    requires Aligned(c)
    ensures In(x, c) <==> x / Size(c.bits) == c.addr / Size(c.bits)
  {
    hide Pow2, Size;
    var p := Size(c.bits);
    var q := c.addr / p;
    Exact(c.addr, p);
    assert q * p + p == (q + 1) * p;
    if In(x, c) { DivMul(x, q, p); }
  }

  function PrefixOf(c: Cidr): Trie.Prefix
    requires c.bits <= 32
  {
    Trie.Prefix(32, Bits32(c.addr)[..c.bits])
  }

  /** An address has a stored prefix of its own bits exactly when a stored block holds it. */
  lemma PrefixCovers(x: U32, c: Cidr, j: nat)
    requires Aligned(c) && j <= 32
    ensures PrefixOf(c) == Trie.Prefix(32, Bits32(x)[..j]) <==> j == c.bits && In(x, c)
  {
    InIsPrefix(x, c);
    if j == c.bits { BitsArePrefixes(x, c.addr, j); }
    assert |Bits32(x)[..j]| == j && |Bits32(c.addr)[..c.bits]| == c.bits;
  }

  /** ParsePrefix refuses a prefix length of zero, and the daemon skips what it refuses. */
  method Install(cidrs: seq<Cidr>) returns (t: Trie.Trie)
    requires forall i :: 0 <= i < |cidrs| ==> cidrs[i].bits <= 32
    ensures t.Valid() && fresh(t) && fresh(t.nodes.Values)
    ensures forall p :: p in t.Prefixes() <==>
      exists i :: 0 <= i < |cidrs| && cidrs[i].bits > 0 && p == PrefixOf(cidrs[i])
  {
    hide Bits32, PrefixOf;
    t := new Trie.Trie();
    for i := 0 to |cidrs|
      invariant t.Valid() && fresh(t) && fresh(t.nodes.Values)
      invariant forall p :: p in t.Prefixes() <==>
        exists k :: 0 <= k < i && cidrs[k].bits > 0 && p == PrefixOf(cidrs[k])
    {
      if cidrs[i].bits > 0 {
        PrefixOfIs(cidrs[i]);
        var _ := t.Insert(Bits32(cidrs[i].addr), cidrs[i].bits);
      }
    }
  }

  lemma PrefixOfIs(c: Cidr)
    requires c.bits <= 32
    ensures PrefixOf(c) == Trie.Prefix(32, Bits32(c.addr)[..c.bits])
  {
  }

  /** The whole way: an address matches the daemon's list exactly when it lies in some black
      range and in no white one. */
  method CollapsedListMatches(list: RangeList, x: U32) returns (hit: bool)
    requires list.Valid()
    ensures hit <==> Listed(list.added, x)
  {
    var cidrs := list.Collapse();
    var t := Install(cidrs);
    hit := t.Contains(Bits32(x));
    MatchIsCover(cidrs, x);
  }

  /** No block is lost: every one has a positive prefix length. */
  lemma MatchIsCover(cidrs: seq<Cidr>, x: U32)
    requires Greedy(cidrs) && forall i :: 0 <= i < |cidrs| ==> 1 <= cidrs[i].bits <= 32
    ensures (exists j, i :: 0 <= j <= 32 && 0 <= i < |cidrs| && cidrs[i].bits > 0 &&
                            Trie.Prefix(32, Bits32(x)[..j]) == PrefixOf(cidrs[i])) <==> Covers(cidrs, x)
  {
    hide Bits32, PrefixOf, In;
    if Covers(cidrs, x) {
      var i :| 0 <= i < |cidrs| && In(x, cidrs[i]);
      PrefixCovers(x, cidrs[i], cidrs[i].bits);
    }
    if j, i :| 0 <= j <= 32 && 0 <= i < |cidrs| && cidrs[i].bits > 0 &&
               Trie.Prefix(32, Bits32(x)[..j]) == PrefixOf(cidrs[i])
    {
      PrefixCovers(x, cidrs[i], j);
    }
  }
}
