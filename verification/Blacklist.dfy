/** Merging black and white address ranges into CIDR blocks (internal/blacklist): the range
    boundaries are sorted and swept once, and every blacklisted region is decomposed. */
module Blacklist {
  import opened Basics
  import opened IpRange

  /** A recorded boundary: +1 where a range of its colour starts, -1 where it ends. */
  datatype RangeEntry = RangeEntry(addr: U32, black: int, white: int)

  /** A half-open range given to AddRange. */
  datatype Range = Range(start: U32, end: U32, isWhite: bool)

  predicate Inside(r: Range, x: int) { r.start <= x < r.end }

  /** What it means to be listed: in some black range and in no white one. */
  ghost predicate Listed(added: seq<Range>, x: int) {
    && (exists i :: 0 <= i < |added| && !added[i].isWhite && Inside(added[i], x))
    && (forall i :: 0 <= i < |added| && added[i].isWhite ==> !Inside(added[i], x))
  }

  function Boundaries(r: Range): seq<RangeEntry> {
    if r.isWhite then [RangeEntry(r.start, 0, 1), RangeEntry(r.end, 0, -1)]
    else [RangeEntry(r.start, 1, 0), RangeEntry(r.end, -1, 0)]
  }

  function AllBoundaries(added: seq<Range>): seq<RangeEntry> {
    if added == [] then []
    else AllBoundaries(added[..|added| - 1]) + Boundaries(added[|added| - 1])
  }

  // ----- depths -----

  function Weight(e: RangeEntry, white: bool): int { if white then e.white else e.black }

  /** The total of the boundaries at or before x. */
  function Depth(es: seq<RangeEntry>, x: int, white: bool): int {
    if es == [] then 0
    else
      var e := es[|es| - 1];
      Depth(es[..|es| - 1], x, white) + if e.addr <= x then Weight(e, white) else 0
  }

  lemma DepthSnoc(es: seq<RangeEntry>, e: RangeEntry, x: int, white: bool)
    ensures Depth(es + [e], x, white) == Depth(es, x, white) + if e.addr <= x then Weight(e, white) else 0
  {
    assert (es + [e])[..|es|] == es;
  }

  /** How many ranges of a colour hold x. */
  function Holding(added: seq<Range>, x: int, white: bool): nat {
    if added == [] then 0
    else
      var r := added[|added| - 1];
      Holding(added[..|added| - 1], x, white) + if r.isWhite == white && Inside(r, x) then 1 else 0
  }

  predicate Ordered(added: seq<Range>) {
    forall i :: 0 <= i < |added| ==> added[i].start <= added[i].end
  }

  lemma {:induction false} DepthIsHolding(added: seq<Range>, x: int, white: bool)
    requires Ordered(added)
    ensures Depth(AllBoundaries(added), x, white) == Holding(added, x, white)
  {
    if added != [] {
      var n := |added| - 1;
      var es, r := AllBoundaries(added[..n]), added[n];
      DepthIsHolding(added[..n], x, white);
      var b := Boundaries(r);
      assert es + b == es + [b[0]] + [b[1]];
      DepthSnoc(es, b[0], x, white);
      DepthSnoc(es + [b[0]], b[1], x, white);
    }
  }

  lemma {:induction false} HoldingSome(added: seq<Range>, x: int, white: bool)
    ensures Holding(added, x, white) > 0 <==>
            exists i :: 0 <= i < |added| && added[i].isWhite == white && Inside(added[i], x)
  {
    if added != [] {
      var n := |added| - 1;
      HoldingSome(added[..n], x, white);
      if i :| 0 <= i < |added| && added[i].isWhite == white && Inside(added[i], x) {
        if i < n { assert added[..n][i] == added[i]; }
      }
      if Holding(added[..n], x, white) > 0 {
        var i :| 0 <= i < n && added[..n][i].isWhite == white && Inside(added[..n][i], x);
        assert added[i] == added[..n][i];
      }
    }
  }

  // ----- sorting -----

  /** sort.SliceStable by address, one insertion at a time. */
  function InsertEntry(es: seq<RangeEntry>, e: RangeEntry): (r: seq<RangeEntry>)
    ensures |r| == |es| + 1
  {
    if es == [] || es[|es| - 1].addr <= e.addr then es + [e]
    else InsertEntry(es[..|es| - 1], e) + [es[|es| - 1]]
  }

  function StableSort(es: seq<RangeEntry>): (r: seq<RangeEntry>)
    ensures |r| == |es|
  {
    if es == [] then [] else InsertEntry(StableSort(es[..|es| - 1]), es[|es| - 1])
  }

  ghost predicate ByAddress(es: seq<RangeEntry>) {
    forall i, j :: 0 <= i < j < |es| ==> es[i].addr <= es[j].addr
  }

  lemma {:induction false} InsertKeeps(es: seq<RangeEntry>, e: RangeEntry)
    ensures multiset(InsertEntry(es, e)) == multiset(es) + multiset{e}
  {
    if es != [] && es[|es| - 1].addr > e.addr {
      InsertKeeps(es[..|es| - 1], e);
      assert es == es[..|es| - 1] + [es[|es| - 1]];
    }
  }

  lemma {:induction false} InsertDepth(es: seq<RangeEntry>, e: RangeEntry, x: int, white: bool)
    ensures Depth(InsertEntry(es, e), x, white) == Depth(es + [e], x, white)
  {
    DepthSnoc(es, e, x, white);
    if es != [] && es[|es| - 1].addr > e.addr {
      var front, last := es[..|es| - 1], es[|es| - 1];
      InsertDepth(front, e, x, white);
      DepthSnoc(InsertEntry(front, e), last, x, white);
      DepthSnoc(front, e, x, white);
    }
  }

  lemma {:induction false} InsertByAddress(es: seq<RangeEntry>, e: RangeEntry)
    requires ByAddress(es)
    ensures ByAddress(InsertEntry(es, e))
  {
    if es != [] && es[|es| - 1].addr > e.addr {
      var front, last := es[..|es| - 1], es[|es| - 1];
      InsertByAddress(front, e);
      InsertKeeps(front, e);
      var r := InsertEntry(front, e);
      forall i | 0 <= i < |r| ensures r[i].addr <= last.addr {
        assert r[i] in multiset(r);
        if r[i] != e {
          assert r[i] in front;
          var j :| 0 <= j < |front| && front[j] == r[i];
          assert es[j] == r[i];
        }
      }
    }
  }

  /** The sorted boundaries are in order and are the same ones. */
  lemma {:induction false} SortIsPermutation(es: seq<RangeEntry>)
    ensures ByAddress(StableSort(es)) && multiset(StableSort(es)) == multiset(es)
  {
    if es != [] {
      var front, last := es[..|es| - 1], es[|es| - 1];
      SortIsPermutation(front);
      InsertByAddress(StableSort(front), last);
      InsertKeeps(StableSort(front), last);
      assert es == front + [last];
    }
  }

  /** Sorting does not change the depths. */
  lemma {:induction false} SortDepth(es: seq<RangeEntry>, x: int, white: bool)
    ensures Depth(StableSort(es), x, white) == Depth(es, x, white)
  {
    if es != [] {
      var front, last := es[..|es| - 1], es[|es| - 1];
      SortDepth(front, x, white);
      InsertDepth(StableSort(front), last, x, white);
      DepthSnoc(StableSort(front), last, x, white);
    }
  }

  // ----- the sweep -----

  function Total(es: seq<RangeEntry>, white: bool): int {
    if es == [] then 0 else Total(es[..|es| - 1], white) + Weight(es[|es| - 1], white)
  }

  lemma TotalStep(es: seq<RangeEntry>, i: nat, white: bool)
    requires i < |es|
    ensures Total(es[..i + 1], white) == Total(es[..i], white) + Weight(es[i], white)
  {
    assert es[..i + 1][..i] == es[..i];
  }

  lemma {:induction false} DepthOfPrefix(es: seq<RangeEntry>, i: nat, x: int, white: bool)
    requires i <= |es|
    requires forall j :: 0 <= j < i ==> es[j].addr <= x
    requires forall j :: i <= j < |es| ==> es[j].addr > x
    ensures Depth(es, x, white) == Total(es[..i], white)
    decreases |es|
  {
    if i == |es| {
      assert es[..i] == es;
      if i > 0 {
        DepthOfPrefix(es[..i - 1], i - 1, x, white);
        assert es[..i - 1][..i - 1] == es[..i - 1];
      }
    } else {
      var n := |es| - 1;
      DepthOfPrefix(es[..n], i, x, white);
      assert es[..n][..i] == es[..i];
    }
  }

  /** Between two boundaries the running sums decide membership. */
  lemma SweepDecides(added: seq<Range>, es: seq<RangeEntry>, i: nat, x: int)
    requires Ordered(added) && es == StableSort(AllBoundaries(added)) && i <= |es|
    requires forall j :: 0 <= j < i ==> es[j].addr <= x
    requires forall j :: i <= j < |es| ==> es[j].addr > x
    ensures Total(es[..i], false) >= 0 && Total(es[..i], true) >= 0
    ensures Listed(added, x) <==> Total(es[..i], false) > 0 && Total(es[..i], true) == 0
  {
    DepthOfPrefix(es, i, x, false);
    DepthOfPrefix(es, i, x, true);
    SortDepth(AllBoundaries(added), x, false);
    SortDepth(AllBoundaries(added), x, true);
    DepthIsHolding(added, x, false);
    DepthIsHolding(added, x, true);
    HoldingSome(added, x, false);
    HoldingSome(added, x, true);
  }

  /** The blocks emitted so far are aligned and ascending, end at or before `limit`, and each
      is as large as the region it was cut from allows; `ends` gives the region ends, none of
      which is listed. */
  ghost predicate Emitted(added: seq<Range>, cs: seq<Cidr>, ends: seq<int>, limit: int) {
    && Ascending(cs) && |ends| == |cs|
    && (forall k :: 0 <= k < |cs| ==> End(cs[k]) <= limit)
    && (forall k :: 0 <= k < |cs| ==>
          && 1 <= ends[k] < SPACE && cs[k].addr < ends[k] && !Listed(added, ends[k])
          && BestBlock(cs[k].addr, ends[k] - 1, cs[k].bits))
  }

  /** Nothing can be enlarged in the finished list. */
  lemma EmittedIsGreedy(added: seq<Range>, cs: seq<Cidr>, ends: seq<int>, limit: int)
    requires Emitted(added, cs, ends, limit)
    requires forall x :: Covers(cs, x) <==> Listed(added, x)
    ensures Greedy(cs)
  {
    hide Listed, Covers;
    forall k: nat | k < |cs| ensures MaximalAt(cs, k) {
      forall c | Aligned(c) && c.addr == cs[k].addr && c.bits < cs[k].bits
        ensures exists x :: In(x, c) && !Covers(cs, x)
      {
        assert ends[k] < cs[k].addr + Size(c.bits);
        assert In(ends[k], c);
      }
    }
  }

  /** The blocks of a region lie in it, in order. */
  lemma RegionAscends(start: int, region: seq<Cidr>, end: int)
    requires 1 <= end <= SPACE && Chain(start, region, end) && AllBest(region, end - 1)
    ensures Ascending(region)
    ensures forall k :: 0 <= k < |region| ==> start <= region[k].addr && End(region[k]) <= end
  {
    forall k | 0 <= k < |region| ensures start <= region[k].addr && End(region[k]) <= end && Aligned(region[k]) {
      if k > 0 { ChainOrder(start, region, end, 0, k); }
      if k < |region| - 1 { ChainOrder(start, region, end, k, |region| - 1); }
    }
    forall i, j | 0 <= i < j < |region| ensures End(region[i]) <= region[j].addr {
      ChainOrder(start, region, end, i, j);
    }
  }

  lemma EmitMore(added: seq<Range>, cs: seq<Cidr>, ends: seq<int>, limit: int, region: seq<Cidr>, end: int)
    requires Emitted(added, cs, ends, limit) && 0 <= limit < end < SPACE && !Listed(added, end)
    requires Chain(limit, region, end) && AllBest(region, end - 1)
    ensures Emitted(added, cs + region, ends + seq(|region|, _ => end), end)
    ensures forall x :: Covers(cs + region, x) <==> Covers(cs, x) || limit <= x < end
  {
    hide Listed, Chain, Covers, In, BestBlock, Size;
    RegionAscends(limit, region, end);
    forall x ensures Covers(cs + region, x) <==> Covers(cs, x) || limit <= x < end {
      ChainCovers(limit, region, end, x);
      CoversConcat(cs, region, x);
    }
  }

  lemma CoversConcat(cs: seq<Cidr>, ds: seq<Cidr>, x: int)
    ensures Covers(cs + ds, x) <==> Covers(cs, x) || Covers(ds, x)
  {
    var all := cs + ds;
    if i :| 0 <= i < |all| && In(x, all[i]) {
      if i < |cs| { assert In(x, cs[i]); } else { assert In(x, ds[i - |cs|]); }
    }
    if i :| 0 <= i < |cs| && In(x, cs[i]) { assert In(x, all[i]); }
    if i :| 0 <= i < |ds| && In(x, ds[i]) { assert In(x, all[|cs| + i]); }
  }

  /** How the sweep stands after the boundaries es[..i], the last of them at `cur`. */
  ghost predicate Swept(added: seq<Range>, es: seq<RangeEntry>, i: int, cs: seq<Cidr>, ends: seq<int>,
                        state: int, bstart: int, cur: int)
  {
    var limit := if state == 1 then bstart else cur;
    && 0 <= i <= |es| && (state == 0 || state == 1) && 0 <= limit <= cur < SPACE
    && (if i == 0 then cur == 0 && state == 0 && cs == [] else cur == es[i - 1].addr)
    && (0 < i < |es| ==> cur < es[i].addr)
    && (i > 0 ==> (state == 1 <==> Total(es[..i], false) > 0 && Total(es[..i], true) == 0))
    && Emitted(added, cs, ends, limit)
    && (forall x :: x < cur ==> (Listed(added, x) <==> Covers(cs, x) || (state == 1 && bstart <= x)))
  }

  lemma EmittedBelow(added: seq<Range>, cs: seq<Cidr>, ends: seq<int>, limit: int, x: int)
    requires Emitted(added, cs, ends, limit) && Covers(cs, x)
    ensures x < limit
  {
  }

  /** Up to the next boundary nothing changes. */
  lemma SweepGap(added: seq<Range>, es: seq<RangeEntry>, i: int, cs: seq<Cidr>, ends: seq<int>,
                 state: int, bstart: int, cur: int, x: int)
    requires Ordered(added) && es == StableSort(AllBoundaries(added)) && ByAddress(es)
    requires Swept(added, es, i, cs, ends, state, bstart, cur) && (i < |es| ==> x < es[i].addr)
    ensures Listed(added, x) <==> Covers(cs, x) || (state == 1 && bstart <= x)
  {
    hide Listed;
    if i == 0 || cur <= x {
      SweepDecides(added, es, i, x);
      if Covers(cs, x) { EmittedBelow(added, cs, ends, if state == 1 then bstart else cur, x); }
    }
  }

  /** What the depths behind a group of equal addresses say about that address. */
  lemma GroupDecides(added: seq<Range>, es: seq<RangeEntry>, i: int, i': int)
    requires Ordered(added) && es == StableSort(AllBoundaries(added)) && ByAddress(es)
    requires 0 <= i < i' <= |es| && forall j :: i <= j < i' ==> es[j].addr == es[i].addr
    requires i' < |es| ==> es[i'].addr != es[i].addr
    ensures es[i' - 1].addr == es[i].addr && (i' < |es| ==> es[i].addr < es[i'].addr)
    ensures Total(es[..i'], false) >= 0 && Total(es[..i'], true) >= 0
    ensures Listed(added, es[i].addr) <==> Total(es[..i'], false) > 0 && Total(es[..i'], true) == 0
  {
    hide Listed, Total, StableSort, AllBoundaries, Ordered;
    SweepDecides(added, es, i', es[i].addr);
  }

  lemma SweptMoves(added: seq<Range>, cs: seq<Cidr>, ends: seq<int>, limit: int, limit': int)
    requires Emitted(added, cs, ends, limit) && limit <= limit'
    ensures Emitted(added, cs, ends, limit')
  {
    hide Listed, BestBlock, Ascending;
  }

  /** The sweep over one group of equal addresses, as the source does it. */
  lemma SweepGroup(added: seq<Range>, es: seq<RangeEntry>, i: int, cs: seq<Cidr>, ends: seq<int>,
                   state: int, bstart: int, cur: int, i': int, state': int)
    requires Ordered(added) && es == StableSort(AllBoundaries(added)) && ByAddress(es)
    requires Swept(added, es, i, cs, ends, state, bstart, cur) && i < i' <= |es|
    requires forall j :: i <= j < i' ==> es[j].addr == es[i].addr
    requires i' < |es| ==> es[i'].addr != es[i].addr
    requires state' == if Total(es[..i'], false) > 0 && Total(es[..i'], true) == 0 then 1 else 0
    ensures Total(es[..i'], false) >= 0 && Total(es[..i'], true) >= 0
    ensures state == state' ==> Swept(added, es, i', cs, ends, state', bstart, es[i].addr)
    ensures state < state' ==> Swept(added, es, i', cs, ends, state', es[i].addr, es[i].addr)
    ensures state > state' ==> bstart < es[i].addr && !Listed(added, es[i].addr)
    ensures forall x :: x < es[i].addr ==> (Listed(added, x) <==> Covers(cs, x) || (state == 1 && bstart <= x))
  {
    hide Listed, Covers, StableSort, AllBoundaries, ByAddress, Ordered, Emitted, Total;
    var addr := es[i].addr;
    SweepGaps(added, es, i, cs, ends, state, bstart, cur);
    GroupDecides(added, es, i, i');
    SweptMoves(added, cs, ends, if state == 1 then bstart else cur, addr);
  }

  lemma SweepGaps(added: seq<Range>, es: seq<RangeEntry>, i: int, cs: seq<Cidr>, ends: seq<int>,
                  state: int, bstart: int, cur: int)
    requires Ordered(added) && es == StableSort(AllBoundaries(added)) && ByAddress(es)
    requires Swept(added, es, i, cs, ends, state, bstart, cur) && 0 <= i < |es|
    ensures forall x :: x < es[i].addr ==> (Listed(added, x) <==> Covers(cs, x) || (state == 1 && bstart <= x))
  {
    hide Listed, Covers, Ordered, ByAddress, Swept;
    forall x | x < es[i].addr ensures Listed(added, x) <==> Covers(cs, x) || (state == 1 && bstart <= x) {
      SweepGap(added, es, i, cs, ends, state, bstart, cur, x);
    }
  }

  /** Closing a region. */
  lemma SweepClose(added: seq<Range>, es: seq<RangeEntry>, i': int, cs: seq<Cidr>, ends: seq<int>,
                   bstart: int, addr: int, region: seq<Cidr>)
    requires 0 < i' <= |es| && 0 <= bstart < addr < SPACE && Emitted(added, cs, ends, bstart) && !Listed(added, addr)
    requires addr == es[i' - 1].addr && (i' < |es| ==> addr < es[i'].addr)
    requires !(Total(es[..i'], false) > 0 && Total(es[..i'], true) == 0)
    requires forall x :: x < addr ==> (Listed(added, x) <==> Covers(cs, x) || bstart <= x)
    requires Chain(bstart, region, addr) && AllBest(region, addr - 1)
    ensures Swept(added, es, i', cs + region, ends + seq(|region|, _ => addr), 0, bstart, addr)
  {
    hide Listed, Covers, Emitted;
    EmitMore(added, cs, ends, bstart, region, addr);
  }

  /** At the end every region is closed and the blocks are the listed addresses. */
  lemma SweepEnd(added: seq<Range>, es: seq<RangeEntry>, cs: seq<Cidr>, ends: seq<int>,
                 state: int, bstart: int, cur: int)
    requires Ordered(added) && es == StableSort(AllBoundaries(added)) && ByAddress(es)
    requires Swept(added, es, |es|, cs, ends, state, bstart, cur)
    ensures state == 0 && (forall x :: Covers(cs, x) <==> Listed(added, x)) && Greedy(cs)
  {
    hide Covers;
    SweepDecides(added, es, |es|, SPACE);
    forall x ensures Covers(cs, x) <==> Listed(added, x) {
      SweepGap(added, es, |es|, cs, ends, state, bstart, cur, x);
    }
    EmittedIsGreedy(added, cs, ends, if state == 1 then bstart else cur);
  }

  lemma SweepStart(added: seq<Range>, es: seq<RangeEntry>)
    requires Ordered(added) && es == StableSort(AllBoundaries(added))
    ensures Swept(added, es, 0, [], [], 0, 0, 0)
  {
  }

  lemma AddBoundary(added: seq<Range>, r: Range)
    requires Ordered(added) && r.start <= r.end
    ensures AllBoundaries(added + [r]) == AllBoundaries(added) + Boundaries(r) && Ordered(added + [r])
  {
    assert (added + [r])[..|added|] == added;
  }

  /** A list of ranges to be collapsed; `added` is the history of the calls that counted. */
  class RangeList {
    var count: int
    var ranges: seq<RangeEntry>
    ghost var added: seq<Range>

    ghost predicate Valid()
      reads this
    {
      Ordered(added) && ranges == AllBoundaries(added) && count == 2 * |added|
    }

    constructor ()
      ensures Valid() && added == []
    {
      count, ranges, added := 0, [], [];
    }

    /** A range with start > end is ignored. */
    method AddRange(start: U32, end: U32, isWhite: bool)
      requires Valid()
      modifies this
      ensures Valid()
      ensures added == if start > end then old(added) else old(added) + [Range(start, end, isWhite)]
    {
      if start > end { return; }
      AddBoundary(added, Range(start, end, isWhite));
      if isWhite {
        ranges := ranges + [RangeEntry(start, 0, 1), RangeEntry(end, 0, -1)];
      } else {
        ranges := ranges + [RangeEntry(start, 1, 0), RangeEntry(end, -1, 0)];
      }
      count := count + 2;
      added := added + [Range(start, end, isWhite)];
    }

    /** The blocks hold exactly the addresses that are in some black range and in no white
        one, and no shorter list of CIDR blocks does. */
    method Collapse() returns (cidrs: seq<Cidr>)
      requires Valid()
      ensures forall x :: Covers(cidrs, x) <==> Listed(added, x)
      ensures Greedy(cidrs) && Minimal(cidrs)
      ensures forall i :: 0 <= i < |cidrs| ==> 1 <= cidrs[i].bits <= 32
    {
      hide Swept, Listed, Covers, StableSort, AllBoundaries, Total, Chain, AllBest, ByAddress, Greedy;
      var es := StableSort(ranges);
      SortIsPermutation(ranges);
      SweepStart(added, es);
      var bs, ws, state, i, n := 0, 0, 0, 0, |es|;
      var bstart: U32 := 0;
      cidrs := [];
      ghost var cur, ends: seq<int> := 0, [];
      TotalNone(es);
      while i < n
        invariant 0 <= i <= n && Swept(added, es, i, cidrs, ends, state, bstart, cur)
        invariant bs == Total(es[..i], false) && ws == Total(es[..i], true)
        invariant state == 0 || state == 1
      {
        var lastState := state;
        var addr := es[i].addr;
        ghost var i0 := i;
        TotalStep(es, i, false);
        TotalStep(es, i, true);
        bs, ws, i := bs + es[i].black, ws + es[i].white, i + 1;
        while i < n && es[i].addr == addr
          invariant i0 < i <= n && forall j :: i0 <= j < i ==> es[j].addr == addr
          invariant bs == Total(es[..i], false) && ws == Total(es[..i], true)
        {
          TotalStep(es, i, false);
          TotalStep(es, i, true);
          bs, ws, i := bs + es[i].black, ws + es[i].white, i + 1;
        }
        SweepGroup(added, es, i0, cidrs, ends, state, bstart, cur, i, if bs > 0 && ws == 0 then 1 else 0);
        if state == 1 && bs == 0 {
          state := 0;
        } else if state == 0 && bs > 0 {
          state := 1;
        }
        if ws > 0 { state := 0; }
        if lastState == 0 && state == 1 { bstart := addr; }
        if lastState == 1 && state == 0 {
          var region := RangeToCIDRs(bstart, addr - 1);
          SweptEmitted(added, es, i0, cidrs, ends, bstart, cur);
          if i < n { NextAddress(es, i); }
          SweepClose(added, es, i, cidrs, ends, bstart, addr, region);
          cidrs, ends := cidrs + region, ends + seq(|region|, _ => addr);
        }
        cur := addr;
      }
      assert es[..n] == es;
      SweepEnd(added, es, cidrs, ends, state, bstart, cur);
      forall ds | AllAligned(ds) && SameAddresses(cidrs, ds) ensures |cidrs| <= |ds| { GreedyIsMinimal(cidrs, ds); }
      SweptBits(added, es, n, cidrs, ends, state, bstart, cur);
    }
  }

  lemma TotalNone(es: seq<RangeEntry>)
    ensures Total(es[..0], false) == 0 && Total(es[..0], true) == 0
  {
  }

  lemma SweptEmitted(added: seq<Range>, es: seq<RangeEntry>, i: int, cs: seq<Cidr>, ends: seq<int>, bstart: int,
                     cur: int)
    requires Swept(added, es, i, cs, ends, 1, bstart, cur)
    ensures Emitted(added, cs, ends, bstart) && 0 <= bstart
  {
  }

  lemma NextAddress(es: seq<RangeEntry>, i: nat)
    requires ByAddress(es) && 0 < i < |es|
    ensures es[i - 1].addr <= es[i].addr
  {
  }

  lemma SweptBits(added: seq<Range>, es: seq<RangeEntry>, i: int, cs: seq<Cidr>, ends: seq<int>,
                  state: int, bstart: int, cur: int)
    requires Swept(added, es, i, cs, ends, state, bstart, cur)
    ensures forall k :: 0 <= k < |cs| ==> 1 <= cs[k].bits <= 32
  {
  }
}
