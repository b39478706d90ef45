/** IPv4 range arithmetic of internal/ip: decomposing an address range into CIDR blocks
    (the prefix notation of section 3.1 of RFC 4632). Addresses are 32-bit integers in host
    order; masking with imask(b) is clearing the low 32 - b bits. */
module IpRange {
  import opened Arithmetic
  import opened Basics

  const LAST := 0xffff_ffff

  datatype Cidr = Cidr(addr: U32, bits: nat)

  function Pow2(n: nat): (p: nat)
    ensures p > 0
  {
    if n == 0 then 1 else 2 * Pow2(n - 1)
  }

  lemma {:induction false} PowAdd(m: nat, n: nat)
    ensures Pow2(m + n) == Pow2(m) * Pow2(n)
  {
    if m > 0 {
      PowAdd(m - 1, n);
      assert Pow2(m + n) == 2 * Pow2(m - 1 + n);
    }
  }

  lemma Pow32()
    ensures Pow2(32) == SPACE
  {
    assert Pow2(8) == 256;
    PowAdd(8, 8);
    PowAdd(16, 16);
  }

  /** The number of addresses behind a prefix length. */
  function Size(bits: nat): (p: nat)
    requires bits <= 32
    ensures p > 0
  {
    Pow2(32 - bits)
  }

  /** a & imask(bits). */
  function Masked(a: U32, bits: nat): int
    requires bits <= 32
  {
    a / Size(bits) * Size(bits)
  }

  predicate AlignedAt(a: int, bits: nat) {
    bits <= 32 && a % Size(bits) == 0
  }

  predicate In(x: int, c: Cidr) {
    c.bits <= 32 && c.addr <= x < c.addr + Size(c.bits)
  }

  /** A coarser block is a whole number of finer ones. */
  lemma Ratio(b: nat, c: nat)
    requires b <= c <= 32
    ensures Size(b) == Size(c) * Pow2(c - b)
  {
    PowAdd(32 - c, c - b);
  }

  /** What is aligned to a block is aligned to its halves. */
  lemma AlignedFiner(a: int, b: nat, c: nat)
    requires b <= c <= 32 && AlignedAt(a, b)
    ensures AlignedAt(a, c)
  {
    hide Pow2, Size;
    Ratio(b, c);
    FactorAligned(a, Size(c), Pow2(c - b));
  }

  /** Equal longer prefixes have equal shorter ones. */
  lemma PrefixCoarser(a: int, e: int, b: nat, c: nat)
    requires 0 <= a && 0 <= e && b <= c <= 32 && a / Size(c) == e / Size(c)
    ensures a / Size(b) == e / Size(b)
  {
    Ratio(b, c);
    DivDiv(a, Size(c), Pow2(c - b));
    DivDiv(e, Size(c), Pow2(c - b));
  }

  lemma MaskedIsPrefix(a: U32, b: U32, bits: nat)
    requires bits <= 32
    ensures Masked(a, bits) == Masked(b, bits) <==> a / Size(bits) == b / Size(bits)
    ensures Masked(a, bits) == a <==> AlignedAt(a, bits)
  {
    hide Pow2, Size;
    MulInjective(a / Size(bits), b / Size(bits), Size(bits));
    Euclid(a, Size(bits));
  }

  /** maxBlock: the shortest prefix length the address is aligned to. */
  method MaxBlock(addr: U32, bits0: nat) returns (bits: nat)
    requires bits0 <= 32 && AlignedAt(addr, bits0)
    ensures bits <= bits0 && AlignedAt(addr, bits)
    ensures forall b: nat :: b < bits ==> !AlignedAt(addr, b)
  {
    bits := bits0;
    while bits > 0
      invariant bits <= bits0 && AlignedAt(addr, bits)
    {
      MaskedIsPrefix(addr, addr, bits - 1);
      if Masked(addr, bits - 1) != addr {
        forall b: nat | b < bits && AlignedAt(addr, b) ensures false {
          AlignedFiner(addr, b, bits - 1);
        }
        return;
      }
      bits := bits - 1;
    }
  }

  /** Go's b + 1 on a uint32. */
  function Succ(b: U32): U32 { if b == LAST then 0 else b + 1 }

  /** maxDiff: the shortest prefix length on which a and the successor of b differ. */
  method MaxDiff(a: U32, b: U32) returns (bits: nat)
    ensures 1 <= bits <= 32
    ensures forall i :: 0 <= i < bits ==> a / Size(i) == Succ(b) / Size(i)
    ensures bits < 32 ==> a / Size(bits) != Succ(b) / Size(bits)
  {
    var s := Succ(b);
    bits := 0;
    while bits < 32
      invariant bits <= 32
      invariant forall i :: 0 <= i < bits ==> a / Size(i) == s / Size(i)
    {
      MaskedIsPrefix(a, s, bits);
      if Masked(a, bits) != Masked(s, bits) {
        Pow32();
        assert a / Size(0) == 0 && s / Size(0) == 0;
        return;
      }
      bits := bits + 1;
    }
  }

  predicate WholeSpace(start: U32, end: U32) { start == 0 && end == LAST }

  /** The block of a start address: aligned, inside the range, and not to be enlarged; at the start
      of the whole space, a single address. */
  ghost predicate BestBlock(start: U32, end: U32, bits: nat) {
    && 1 <= bits <= 32 && AlignedAt(start, bits) && start + Size(bits) <= end + 1
    && (WholeSpace(start, end) ==> bits == 32)
    && (WholeSpace(start, end) || forall b: nat :: b < bits && AlignedAt(start, b) ==> end + 1 < start + Size(b))
  }

  /** The larger of the two lengths is the best block. */
  lemma BestOfBoth(start: U32, end: U32, block: nat, diff: nat, bits: nat)
    requires start <= end && block <= 32 && 1 <= diff <= 32
    requires AlignedAt(start, block) && forall b: nat :: b < block ==> !AlignedAt(start, b)
    requires forall i :: 0 <= i < diff ==> start / Size(i) == Succ(end) / Size(i)
    requires diff < 32 ==> start / Size(diff) != Succ(end) / Size(diff)
    requires bits == if diff > block then diff else block
    ensures BestBlock(start, end, bits)
  {
    AlignedFiner(start, block, bits);
    BlockFits(start, end, diff, bits);
    if !WholeSpace(start, end) {
      forall b: nat | b < bits && AlignedAt(start, b) ensures end + 1 < start + Size(b) {
        assert start / Size(b) == Succ(end) / Size(b);
        BlockTooBig(start, end, b);
      }
    } else if diff < 32 {
      ZeroDiv(Size(diff));
    }
  }

  lemma BlockFits(start: U32, end: U32, diff: nat, bits: nat)
    requires start <= end && 1 <= diff <= bits <= 32 && AlignedAt(start, bits)
    requires diff < 32 ==> start / Size(diff) != Succ(end) / Size(diff)
    ensures start + Size(bits) <= end + 1
  {
    if diff == 32 {
      assert Size(bits) == 1;
    } else {
      hide Pow2, Size;
      if end == LAST {
        FitsToTheEnd(start, bits);
      } else {
        if start / Size(bits) == (end + 1) / Size(bits) { PrefixCoarser(start, end + 1, diff, bits); }
        PastTheBlock(start, end + 1, Size(bits));
      }
    }
  }

  /** An address with another prefix lies behind the whole block. */
  lemma PastTheBlock(start: int, e: int, p: int)
    requires p > 0 && start % p == 0 && start <= e && start / p != e / p
    ensures start + p <= e
  {
    DivOrder(start, e, p);
    Euclid(start, p);
    Euclid(e, p);
    NextMultiple(start / p, e / p, p);
  }

  lemma FitsToTheEnd(start: U32, bits: nat)
    requires AlignedAt(start, bits)
    ensures start + Size(bits) <= SPACE
  {
    hide Pow2;
    var p := Size(bits);
    var r := Pow2(bits);
    Pow32();
    Ratio(0, bits);
    assert r * p == p * r == SPACE;
    assert start == start / p * p;
    NextMultiple(start / p, r, p);
  }

  lemma BlockTooBig(start: U32, end: U32, b: nat)
    requires start <= end && !WholeSpace(start, end) && AlignedAt(start, b)
    requires start / Size(b) == Succ(end) / Size(b)
    ensures end + 1 < start + Size(b)
  {
    hide Pow2, Size;
    InsideTheBlock(start, Succ(end), Size(b));
  }

  lemma InsideTheBlock(start: int, e: int, p: int)
    requires p > 0 && start % p == 0 && start / p == e / p
    ensures start <= e < start + p
  {
    Euclid(start, p);
    Euclid(e, p);
  }

  // ----- decompositions -----

  ghost predicate Aligned(c: Cidr) { AlignedAt(c.addr, c.bits) }

  ghost predicate AllAligned(cs: seq<Cidr>) {
    forall i :: 0 <= i < |cs| ==> Aligned(cs[i])
  }

  ghost predicate Covers(cs: seq<Cidr>, x: int) {
    exists i :: 0 <= i < |cs| && In(x, cs[i])
  }

  function End(c: Cidr): int
    requires c.bits <= 32
  {
    c.addr + Size(c.bits)
  }

  /** Blocks that follow one another from s up to (not including) t. */
  ghost predicate Chain(s: int, cs: seq<Cidr>, t: int) {
    && (forall i :: 0 <= i < |cs| ==> cs[i].bits <= 32)
    && (if cs == [] then s == t else cs[0].addr == s && End(cs[|cs| - 1]) == t)
    && (forall i :: 0 < i < |cs| ==> cs[i].addr == End(cs[i - 1]))
  }

  /** Each block is as large as its start address and the end of the range allow. */
  ghost predicate AllBest(cs: seq<Cidr>, end: U32) {
    forall i :: 0 <= i < |cs| ==> cs[i].addr <= end && BestBlock(cs[i].addr, end, cs[i].bits)
  }

  /** Go's uint32(1) << n. */
  function ShiftOne(n: nat): U32 {
    Pow32();
    if n >= 32 then 0 else PowBelow(n); Pow2(n)
  }

  lemma {:induction false} PowMono(m: nat, n: nat)
    requires m <= n
    ensures Pow2(m) <= Pow2(n)
  {
    if m < n { PowMono(m, n - 1); }
  }

  lemma PowBelow(n: nat)
    requires n < 32
    ensures Pow2(n) < SPACE
  {
    Pow32();
    PowMono(n, 31);
    PowDouble(31);
  }

  lemma PowDouble(n: nat)
    ensures Pow2(n + 1) == 2 * Pow2(n)
  {
  }

  /** RangeToCIDRs. It ends on every pair of bounds (no step is zero), and the blocks of a
      non-empty range are aligned, follow one another from start to end without a gap or an
      overlap, and never have prefix length 0. */
  method RangeToCIDRs(start: U32, end: U32) returns (out: seq<Cidr>)
    ensures start > end ==> out == []
    ensures start <= end ==> Chain(start, out, end + 1) && AllBest(out, end)
  {
    hide Chain, AllBest, BestBlock, Size, AlignedAt, ShiftOne;
    out := [];
    EmptyChain(start, end);
    var at := start;
    while at <= end
      invariant Chain(start, out, at) && AllBest(out, end)
      invariant start <= end ==> at <= end + 1
      invariant start > end ==> at == start && out == []
      decreases SPACE - at
    {
      HostAligned(at);
      var maxsize := MaxBlock(at, 32);
      var diff := MaxDiff(at, end);
      ghost var block := maxsize;
      if diff > maxsize { maxsize := diff; }
      BestOfBoth(at, end, block, diff, maxsize);
      Advance(at, end, maxsize);
      ExtendChain(start, out, at, end, Cidr(at, maxsize));
      out := out + [Cidr(at, maxsize)];
      var step := ShiftOne(32 - maxsize);
      var next := (at + step) % SPACE;
      if next < at {
        assert at + step == end + 1;
        break;
      }
      at := next;
    }
  }

  lemma EmptyChain(s: int, end: U32)
    ensures Chain(s, [], s) && AllBest([], end)
  {
  }

  lemma HostAligned(a: U32)
    ensures AlignedAt(a, 32)
  {
    assert Size(32) == 1;
  }

  /** The step is the size of the block, never 0, and wraps only past the last address. */
  lemma Advance(at: U32, end: U32, bits: nat)
    requires BestBlock(at, end, bits)
    ensures var step := ShiftOne(32 - bits);
      && step == Size(bits) > 0
      && at + step <= end + 1
      && (at + step) % SPACE == if at + step == SPACE then 0 else at + step
  {
    PowBelow(32 - bits);
  }

  lemma ExtendChain(s: int, cs: seq<Cidr>, t: int, end: U32, c: Cidr)
    requires Chain(s, cs, t) && AllBest(cs, end) && c.addr == t <= end && BestBlock(t, end, c.bits)
    ensures Chain(s, cs + [c], t + Size(c.bits)) && AllBest(cs + [c], end)
  {
  }

  // ----- a chain covers its range exactly, once -----

  lemma {:induction false} ChainOrder(s: int, cs: seq<Cidr>, t: int, i: nat, j: nat)
    requires Chain(s, cs, t) && i < j < |cs|
    ensures End(cs[i]) <= cs[j].addr
  {
    if i + 1 < j { ChainOrder(s, cs, t, i, j - 1); }
  }

  /** The blocks ascend and no two of them share an address. */
  lemma ChainDisjoint(s: int, cs: seq<Cidr>, t: int, i: nat, j: nat, x: int)
    requires Chain(s, cs, t) && i < |cs| && j < |cs| && In(x, cs[i]) && In(x, cs[j])
    ensures i == j
  {
    if i < j { ChainOrder(s, cs, t, i, j); }
    if j < i { ChainOrder(s, cs, t, j, i); }
  }

  /** The blocks hold exactly the addresses of the range. */
  lemma {:induction false} ChainCovers(s: int, cs: seq<Cidr>, t: int, x: int)
    requires Chain(s, cs, t)
    ensures s <= t && (Covers(cs, x) <==> s <= x < t)
  {
    if cs != [] {
      var n := |cs| - 1;
      var mid := cs[n].addr;
      assert Chain(s, cs[..n], mid);
      ChainCovers(s, cs[..n], mid, x);
      if Covers(cs, x) {
        var i :| 0 <= i < |cs| && In(x, cs[i]);
        if i < n { assert In(x, cs[..n][i]); }
      }
      if Covers(cs[..n], x) {
        var i :| 0 <= i < |cs[..n]| && In(x, cs[..n][i]);
        assert In(x, cs[i]);
      }
      if mid <= x < t { assert In(x, cs[n]); }
    }
  }

  // ----- minimality -----

  lemma Exact(a: int, p: int)
    requires p > 0 && a % p == 0
    ensures a == a / p * p
  {
  }

  lemma Spans(q: int, r: int, w: int, p: int)
    ensures q * p + p == (q + 1) * p && r * p + p * w == (r + w) * p
  {
  }

  lemma LaminarInts(q: int, r: int, w: int, p: int, x: int)
    requires p > 0 && q * p <= x < (q + 1) * p && r * p <= x < (r + w) * p
    ensures r * p <= q * p && (q + 1) * p <= (r + w) * p
  {
    if q < r { MulMono(q + 1, r, p); }
    if r + w < q + 1 { MulMono(r + w, q, p); }
    MulMono(r, q, p);
    MulMono(q + 1, r + w, p);
  }

  /** Aligned blocks are nested or disjoint: of two that meet, the smaller is inside. */
  lemma Laminar(b: Cidr, c: Cidr, x: int)
    requires Aligned(b) && Aligned(c) && In(x, b) && In(x, c) && c.bits <= b.bits
    ensures c.addr <= b.addr && End(b) <= End(c)
  {
    hide Pow2, Size;
    AlignedFiner(c.addr, c.bits, b.bits);
    Ratio(c.bits, b.bits);
    var p := Size(b.bits);
    var q, r, w := b.addr / p, c.addr / p, Pow2(b.bits - c.bits);
    Exact(b.addr, p);
    Exact(c.addr, p);
    Spans(q, r, w, p);
    LaminarInts(q, r, w, p, x);
  }

  /** No aligned block of the covered set is larger than block k and starts where it does. */
  ghost predicate MaximalAt(cs: seq<Cidr>, k: nat)
    requires k < |cs|
  {
    forall c :: Aligned(c) && c.addr == cs[k].addr && c.bits < cs[k].bits ==>
      exists x :: In(x, c) && !Covers(cs, x)
  }

  ghost predicate Ascending(cs: seq<Cidr>) {
    && AllAligned(cs)
    && forall i, j :: 0 <= i < j < |cs| ==> End(cs[i]) <= cs[j].addr
  }

  /** Ascending blocks, none of which can be enlarged in place. */
  ghost predicate Greedy(cs: seq<Cidr>) {
    Ascending(cs) && forall k: nat :: k < |cs| ==> MaximalAt(cs, k)
  }

  ghost function IndexOf(cs: seq<Cidr>, x: int): (k: nat)
    requires Covers(cs, x)
    ensures k < |cs| && In(x, cs[k])
  {
    var k: nat :| k < |cs| && In(x, cs[k]);
    k
  }

  lemma AscendingOnce(cs: seq<Cidr>, i: nat, j: nat, x: int)
    requires Ascending(cs) && i < |cs| && j < |cs| && In(x, cs[i]) && In(x, cs[j])
    ensures i == j
  {
  }

  lemma InsideNotLarger(cs: seq<Cidr>, b: Cidr)
    requires Greedy(cs) && Aligned(b) && forall x :: In(x, b) ==> Covers(cs, x)
    requires Covers(cs, b.addr)
    ensures cs[IndexOf(cs, b.addr)].bits <= b.bits
  {
    var k := IndexOf(cs, b.addr);
    if b.bits < cs[k].bits {
      Laminar(cs[k], b, b.addr);
      Enlarged(cs, k, b);
    }
  }

  lemma Enlarged(cs: seq<Cidr>, k: nat, b: Cidr)
    requires Greedy(cs) && k < |cs| && Aligned(b) && b.addr == cs[k].addr && b.bits < cs[k].bits
    ensures exists x :: In(x, b) && !Covers(cs, x)
  {
    assert MaximalAt(cs, k);
  }

  /** A block inside the covered set holds the start of at most one greedy block: that of
      the block its own first address is in. */
  lemma OneStartPerBlock(cs: seq<Cidr>, b: Cidr, i: nat)
    requires Greedy(cs) && Aligned(b) && i < |cs| && In(cs[i].addr, b)
    requires Covers(cs, b.addr) && forall x :: In(x, b) ==> Covers(cs, x)
    ensures i == IndexOf(cs, b.addr)
  {
    var k := IndexOf(cs, b.addr);
    InsideNotLarger(cs, b);
    Laminar(b, cs[k], b.addr);
    AscendingOnce(cs, i, k, cs[i].addr);
  }

  ghost predicate SameAddresses(cs: seq<Cidr>, ds: seq<Cidr>) {
    forall x :: Covers(cs, x) <==> Covers(ds, x)
  }

  /** A choice of n different numbers below m. */
  lemma {:induction false} Pigeonhole(f: seq<nat>, m: nat)
    requires forall i :: 0 <= i < |f| ==> f[i] < m
    requires forall i, j :: 0 <= i < j < |f| ==> f[i] != f[j]
    ensures |f| <= m
    decreases |f|
  {
    if |f| > 0 {
      var n := |f| - 1;
      var g := seq(n, i requires 0 <= i < n => if f[i] == m - 1 then f[n] else f[i]);
      Pigeonhole(g, m - 1);
    }
  }

  lemma GreedyAligned(cs: seq<Cidr>)
    requires Greedy(cs)
    ensures AllAligned(cs)
  {
  }

  lemma StartCovered(cs: seq<Cidr>, ds: seq<Cidr>, i: nat)
    requires AllAligned(cs) && SameAddresses(cs, ds) && i < |cs|
    ensures Covers(ds, cs[i].addr)
  {
    assert In(cs[i].addr, cs[i]);
    assert Covers(cs, cs[i].addr);
  }

  lemma HoldersDiffer(cs: seq<Cidr>, ds: seq<Cidr>, i: nat, j: nat)
    requires Greedy(cs) && AllAligned(ds) && SameAddresses(cs, ds) && i < |cs| && j < |cs|
    requires Covers(ds, cs[i].addr) && Covers(ds, cs[j].addr)
    requires IndexOf(ds, cs[i].addr) == IndexOf(ds, cs[j].addr)
    ensures i == j
  {
    var b := ds[IndexOf(ds, cs[i].addr)];
    forall x | In(x, b) ensures Covers(cs, x) { assert Covers(ds, x); }
    assert In(b.addr, b);
    OneStartPerBlock(cs, b, i);
    OneStartPerBlock(cs, b, j);
  }

  /** No list of aligned blocks with the same addresses is shorter than a greedy one. */
  lemma GreedyIsMinimal(cs: seq<Cidr>, ds: seq<Cidr>)
    requires Greedy(cs) && AllAligned(ds) && SameAddresses(cs, ds)
    ensures |cs| <= |ds|
  {
    hide Greedy, Covers, SameAddresses, AllAligned;
    assert AllAligned(cs) by { GreedyAligned(cs); }
    forall i | 0 <= i < |cs| ensures Covers(ds, cs[i].addr) { StartCovered(cs, ds, i); }
    var f: seq<nat> := seq(|cs|, i requires 0 <= i < |cs| && Covers(ds, cs[i].addr) => IndexOf(ds, cs[i].addr));
    forall i, j | 0 <= i < j < |f| ensures f[i] != f[j] {
      if f[i] == f[j] { HoldersDiffer(cs, ds, i, j); }
    }
    Pigeonhole(f, |ds|);
  }

  /** The blocks of any range but the whole address space are greedy. */
  lemma ChainIsGreedy(start: U32, end: U32, cs: seq<Cidr>)
    requires start <= end && !WholeSpace(start, end) && Chain(start, cs, end + 1) && AllBest(cs, end)
    ensures Greedy(cs)
  {
    forall i, j | 0 <= i < j < |cs| ensures End(cs[i]) <= cs[j].addr { ChainOrder(start, cs, end + 1, i, j); }
    forall k: nat | k < |cs| ensures MaximalAt(cs, k) {
      assert !WholeSpace(cs[k].addr, end) by {
        if k > 0 { ChainOrder(start, cs, end + 1, 0, k); }
      }
      forall c | Aligned(c) && c.addr == cs[k].addr && c.bits < cs[k].bits
        ensures exists x :: In(x, c) && !Covers(cs, x)
      {
        assert end + 1 < cs[k].addr + Size(c.bits);
        assert In(end + 1, c);
        ChainCovers(start, cs, end + 1, end + 1);
      }
    }
  }

  ghost predicate Minimal(cs: seq<Cidr>) {
    forall ds :: AllAligned(ds) && SameAddresses(cs, ds) ==> |cs| <= |ds|
  }

  /** The decomposition is minimal, as its comment says, for every range except the whole
      address space; there the single block 0.0.0.0/0 is shorter. */
  lemma MinimalExactly(start: U32, end: U32, cs: seq<Cidr>)
    requires start <= end && Chain(start, cs, end + 1) && AllBest(cs, end)
    ensures Minimal(cs) <==> !WholeSpace(start, end)
  {
    if !WholeSpace(start, end) {
      ChainIsGreedy(start, end, cs);
      forall ds | AllAligned(ds) && SameAddresses(cs, ds) ensures |cs| <= |ds| { GreedyIsMinimal(cs, ds); }
    } else {
      WholeSpaceIsLong(cs);
    }
  }

  lemma ChainTail(s: int, cs: seq<Cidr>, t: int)
    requires Chain(s, cs, t) && cs != []
    ensures Chain(End(cs[0]), cs[1..], t)
  {
    var tail := cs[1..];
    assert forall i :: 0 <= i < |tail| ==> tail[i] == cs[i + 1];
  }

  /** From a power of two up to the end of the space, the block that fits is as large as its
      address. */
  lemma PowerBlock(k: nat, bits: nat)
    requires k < 32 && Pow2(k) <= LAST && BestBlock(Pow2(k), LAST, bits)
    ensures bits == 32 - k
  {
    hide Pow2;
    assert Size(32 - k) == Pow2(k) && Size(bits) == Pow2(32 - bits);
    Pow32();
    PowDouble(k);
    PowMono(k + 1, 32);
    Multiple(1, Pow2(k));
    if bits < 32 - k {
      PowMono(k + 1, 32 - bits);
      DivMul(Pow2(k), 0, Pow2(32 - bits));
    }
  }

  lemma {:induction false} PowersLeft(k: nat, cs: seq<Cidr>)
    requires k <= 32 && Chain(Pow2(k), cs, SPACE) && AllBest(cs, LAST)
    ensures |cs| == 32 - k
    decreases 32 - k
  {
    hide Pow2, BestBlock;
    Pow32();
    if k < 32 {
      PowBelow(k);
      PowerBlock(k, cs[0].bits);
      PowDouble(k);
      assert End(cs[0]) == Pow2(k + 1);
      ChainTail(Pow2(k), cs, SPACE);
      PowersLeft(k + 1, cs[1..]);
    }
  }

  /** For the whole space the first block is a single address, and 32 doubling ones follow. */
  lemma WholeSpaceIsLong(cs: seq<Cidr>)
    requires Chain(0, cs, SPACE) && AllBest(cs, LAST)
    ensures |cs| == 33 && !Minimal(cs)
  {
    assert End(cs[0]) == Pow2(0);
    ChainTail(0, cs, SPACE);
    PowersLeft(0, cs[1..]);
    OneBlockWouldDo(cs);
  }

  lemma OneBlockWouldDo(cs: seq<Cidr>)
    requires Chain(0, cs, SPACE) && |cs| > 1
    ensures !Minimal(cs)
  {
    Pow32();
    var all := [Cidr(0, 0)];
    forall x ensures Covers(all, x) <==> 0 <= x < SPACE {
      assert In(x, all[0]) <==> 0 <= x < SPACE;
    }
    forall x ensures Covers(cs, x) <==> 0 <= x < SPACE { ChainCovers(0, cs, SPACE, x); }
    assert AllAligned(all) && SameAddresses(cs, all);
  }

  /** The program meets the minimality its comment promises, wherever it can hold. */
  method MinimalRange(start: U32, end: U32) returns (out: seq<Cidr>)
    ensures start <= end && !WholeSpace(start, end) ==> Minimal(out)
    ensures forall x :: Covers(out, x) <==> start <= x <= end
  {
    out := RangeToCIDRs(start, end);
    if start <= end {
      MinimalExactly(start, end, out);
      forall x ensures Covers(out, x) <==> start <= x <= end { ChainCovers(start, out, end + 1, x); }
    }
  }
}
