/** The anti-replay window of internal/sync: a 64-bit bitmap per peer, against a reference that
    remembers every counter it has accepted since the peer's last reset. */
module Replay {
  import opened Basics

  const WIDTH := 64
  const MAX_PEERS := 1024

  /** A uint64 as its bits, least significant first; a left shift drops what leaves bit 63. */
  type Bitmap = b: seq<bool> | |b| == WIDTH witness seq(WIDTH, _ => false)

  function Zero(): Bitmap { seq(WIDTH, _ => false) }

  function Shl(b: Bitmap, s: nat): Bitmap
    requires s < WIDTH
  {
    seq(s, _ => false) + b[..WIDTH - s]
  }

  function Set(b: Bitmap, i: nat): Bitmap
    requires i < WIDTH
  {
    b[i := true]
  }

  /** The window of one peer: the highest counter seen and the ones just below it. */
  datatype ReplayState = ReplayState(hi: U32, bitmap: Bitmap, seen: bool, last: int)

  // ----- the reference -----

  /** Every counter accepted since the last reset, and the highest of them. */
  datatype Reference = Reference(hi: U32, accepted: set<U32>)

  datatype Verdict = Fresh | Filled | Reset | Duplicate | Stale

  predicate Accepts(v: Verdict) { v == Fresh || v == Filled || v == Reset }

  /** A counter above all others is new; one inside the window is judged by whether it was
      accepted before; a small one far below means the peer restarted. */
  function Judge(r: Option<Reference>, window: nat, c: U32): Verdict {
    if r.None? then Reset
    else if c > r.value.hi then Fresh
    else if r.value.hi - c < window then if c in r.value.accepted then Duplicate else Filled
    else if c < window then Reset
    else Stale
  }

  function Remember(r: Option<Reference>, window: nat, c: U32): Option<Reference> {
    match Judge(r, window, c)
    case Reset => Some(Reference(c, {c}))
    case Fresh => Some(Reference(c, r.value.accepted + {c}))
    case Filled => Some(Reference(r.value.hi, r.value.accepted + {c}))
    case _ => r
  }

  /** The bitmap is the reference's memory of the 64 counters up to the highest. */
  ghost predicate Mirrors(st: ReplayState, r: Reference) {
    && st.seen && st.hi == r.hi && st.hi in r.accepted
    && (forall c :: c in r.accepted ==> c <= st.hi)
    && (forall d :: 0 <= d < WIDTH && d <= st.hi ==> (st.bitmap[d] <==> st.hi - d in r.accepted))
  }

  // ----- runs of one peer's counters -----

  function Run(window: nat, cs: seq<U32>): Option<Reference> {
    if cs == [] then None
    else Remember(Run(window, cs[..|cs| - 1]), window, cs[|cs| - 1])
  }

  function VerdictAt(window: nat, cs: seq<U32>, i: nat): Verdict
    requires i < |cs|
  {
    Judge(Run(window, cs[..i]), window, cs[i])
  }

  lemma VerdictIs(window: nat, cs: seq<U32>, i: nat)
    requires i < |cs|
    ensures VerdictAt(window, cs, i) == Judge(Run(window, cs[..i]), window, cs[i])
  {
  }

  lemma RunNothing(window: nat)
    ensures Run(window, []) == None
  {
  }

  lemma RunStep(window: nat, cs: seq<U32>, i: nat)
    requires i < |cs|
    ensures Run(window, cs[..i + 1]) == Remember(Run(window, cs[..i]), window, cs[i])
  {
    assert cs[..i + 1][..i] == cs[..i];
  }

  lemma {:induction false} RunBounded(window: nat, cs: seq<U32>)
    ensures var r := Run(window, cs);
      r.Some? ==> r.value.hi in r.value.accepted && forall c :: c in r.value.accepted ==> c <= r.value.hi
  {
    if cs != [] { RunBounded(window, cs[..|cs| - 1]); }
  }

  /** The counter at i was accepted and no reset came between it and place j. */
  ghost predicate Live(window: nat, cs: seq<U32>, i: nat, j: nat) {
    i < j <= |cs| && Accepts(VerdictAt(window, cs, i)) && forall n :: i < n < j ==> VerdictAt(window, cs, n) != Reset
  }

  /** An accepted counter is remembered until the next reset. */
  lemma {:induction false} Remembered(window: nat, cs: seq<U32>, i: nat, j: nat)
    requires Live(window, cs, i, j)
    ensures Run(window, cs[..j]).Some? && cs[i] in Run(window, cs[..j]).value.accepted
    decreases j
  {
    RunStep(window, cs, j - 1);
    if i < j - 1 {
      Remembered(window, cs, i, j - 1);
      assert VerdictAt(window, cs, j - 1) != Reset;
    }
  }

  /** What is remembered was accepted, and no reset has come since. */
  lemma {:induction false} RememberedWasAccepted(window: nat, cs: seq<U32>, j: nat, c: U32) returns (i: nat)
    requires j <= |cs| && Run(window, cs[..j]).Some? && c in Run(window, cs[..j]).value.accepted
    ensures Live(window, cs, i, j) && cs[i] == c
    decreases j
  {
    RunStep(window, cs, j - 1);
    if cs[j - 1] == c && Accepts(VerdictAt(window, cs, j - 1)) {
      i := j - 1;
    } else {
      i := RememberedWasAccepted(window, cs, j - 1, c);
    }
  }

  /** Between resets no counter is accepted twice. */
  lemma AcceptedOnce(window: nat, cs: seq<U32>, i: nat, j: nat)
    requires i < j < |cs| && Accepts(VerdictAt(window, cs, i)) && Accepts(VerdictAt(window, cs, j))
    requires forall n :: i < n <= j ==> VerdictAt(window, cs, n) != Reset
    ensures cs[i] != cs[j]
  {
    Remembered(window, cs, i, j);
    RunBounded(window, cs[..j]);
  }

  /** The counter at j repeats one accepted since the last reset. */
  ghost predicate Repeats(window: nat, cs: seq<U32>, j: nat) {
    j < |cs| && exists i: nat :: Live(window, cs, i, j) && cs[i] == cs[j]
  }

  /** It lies a whole window or more below one accepted since the last reset. */
  ghost predicate Behind(window: nat, cs: seq<U32>, j: nat) {
    j < |cs| && exists i: nat :: Live(window, cs, i, j) && cs[i] - cs[j] >= window
  }

  lemma RepeatsExactly(window: nat, cs: seq<U32>, j: nat)
    requires j < |cs|
    ensures var r := Run(window, cs[..j]);
      Repeats(window, cs, j) <==> r.Some? && cs[j] in r.value.accepted
  {
    var r := Run(window, cs[..j]);
    if i: nat :| Live(window, cs, i, j) && cs[i] == cs[j] { Remembered(window, cs, i, j); }
    if r.Some? && cs[j] in r.value.accepted { var i := RememberedWasAccepted(window, cs, j, cs[j]); }
  }

  lemma BehindExactly(window: nat, cs: seq<U32>, j: nat)
    requires j < |cs|
    ensures var r := Run(window, cs[..j]);
      Behind(window, cs, j) <==> r.Some? && r.value.hi - cs[j] >= window
  {
    var r := Run(window, cs[..j]);
    RunBounded(window, cs[..j]);
    if i: nat :| Live(window, cs, i, j) && cs[i] - cs[j] >= window { Remembered(window, cs, i, j); }
    if r.Some? && r.value.hi - cs[j] >= window { var i := RememberedWasAccepted(window, cs, j, r.value.hi); }
  }

  /** Which counters are refused, over the sequence alone: those that repeat one accepted since
      the last reset or lie behind the window, but not one behind it that is small enough to mean
      a restart. In particular no unseen counter inside the window is refused. */
  lemma RefusedExactly(window: nat, cs: seq<U32>, j: nat)
    requires j < |cs|
    ensures !Accepts(VerdictAt(window, cs, j)) <==>
      (Repeats(window, cs, j) || Behind(window, cs, j)) && !(Behind(window, cs, j) && cs[j] < window)
  {
    RunBounded(window, cs[..j]);
    RepeatsExactly(window, cs, j);
    BehindExactly(window, cs, j);
  }

  // ----- the bitmap decides as the reference does -----

  /** The configured int is cut to a uint32 before it is capped. */
  function Window(configured: nat): nat {
    var window := configured % SPACE;
    if window > WIDTH then WIDTH else window
  }

  /** A multiple of 2^32, however large, leaves no window at all. */
  lemma MultipleSwitchesOff(n: nat)
    ensures Window(n * SPACE) == 0
  {
    assert (n * SPACE) % SPACE == 0;
  }

  /** The window is the configured one, at most 64, unless it is out of the range of a uint32 and
      the part that is left is below 64. */
  lemma WindowExactly(configured: nat)
    ensures Window(configured) == (if configured > WIDTH then WIDTH else configured) <==>
            configured < SPACE || configured % SPACE >= WIDTH
  {
  }

  lemma FreshMirrors(st: ReplayState, r: Reference, c: U32)
    requires Mirrors(st, r) && c > st.hi
    ensures var shift := c - st.hi;
      var b := Set(if shift >= WIDTH then Zero() else Shl(st.bitmap, shift), 0);
      Mirrors(st.(hi := c, bitmap := b), Reference(c, r.accepted + {c}))
  {
    var shift := c - st.hi;
    var b := Set(if shift >= WIDTH then Zero() else Shl(st.bitmap, shift), 0);
    forall d | 0 <= d < WIDTH && d <= c ensures b[d] <==> c - d in r.accepted + {c} {
      if shift <= d { assert shift < WIDTH && b[d] == st.bitmap[d - shift]; }
    }
  }

  lemma FilledMirrors(st: ReplayState, r: Reference, c: U32)
    requires Mirrors(st, r) && c <= st.hi && st.hi - c < WIDTH
    ensures st.bitmap[st.hi - c] <==> c in r.accepted
    ensures Mirrors(st.(bitmap := Set(st.bitmap, st.hi - c)), r.(accepted := r.accepted + {c}))
  {
    var b := Set(st.bitmap, st.hi - c);
    assert st.bitmap[st.hi - c] <==> st.hi - (st.hi - c) in r.accepted;
    forall d | 0 <= d < WIDTH && d <= st.hi ensures b[d] <==> st.hi - d in r.accepted + {c} { }
  }

  lemma FirstMirrors(c: U32, now: int)
    ensures Mirrors(ReplayState(c, Set(Zero(), 0), true, now), Reference(c, {c}))
  {
  }

  lemma Touched(st: ReplayState, now: int, r: Reference)
    requires Mirrors(st, r)
    ensures Mirrors(st.(last := now), r) && st.seen
  {
  }

  /** The part of acceptCounter that works on one peer's window. */
  method AdvanceWindow(st: ReplayState, window: nat, counter: U32, now: int, ghost r: Option<Reference>)
    returns (st': ReplayState, ok: bool)
    requires 0 < window <= WIDTH
    requires st.last == now && if r.None? then !st.seen else Mirrors(st, r.value)
    ensures st'.last == now
    ensures ok == Accepts(Judge(r, window, counter))
    ensures Remember(r, window, counter).Some? && Mirrors(st', Remember(r, window, counter).value)
  {
    hide Mirrors;
    if r.Some? { Touched(st, st.last, r.value); SameHigh(st, r.value); }
    if !st.seen {
      FirstMirrors(counter, now);
      return ReplayState(counter, Set(Zero(), 0), true, now), true;
    } else if counter > st.hi {
      FreshMirrors(st, r.value, counter);
      var shift := counter - st.hi;
      var b := if shift >= 64 then Zero() else Shl(st.bitmap, shift);
      return st.(bitmap := Set(b, 0), hi := counter), true;
    } else if st.hi - counter < window {
      FilledMirrors(st, r.value, counter);
      if st.bitmap[st.hi - counter] { return st, false; }
      return st.(bitmap := Set(st.bitmap, st.hi - counter)), true;
    } else if counter < window {
      FirstMirrors(counter, st.last);
      return st.(hi := counter, bitmap := Set(Zero(), 0)), true;
    } else {
      return st, false;
    }
  }

  lemma SameHigh(st: ReplayState, r: Reference)
    requires Mirrors(st, r)
    ensures st.hi == r.hi
  {
  }

  /** The peers of a receiver. `refs` is what an unbounded receiver would remember of the same
      peers. */
  class Engine<Peer(==, !new)> {
    var replay: map<Peer, ReplayState>
    const configured: nat
    ghost var refs: map<Peer, Reference>

    ghost predicate Valid()
      reads this
    {
      && replay.Keys == refs.Keys && |replay| <= MAX_PEERS
      && forall a :: a in replay ==> Mirrors(replay[a], refs[a])
    }

    constructor (configured: nat)
      ensures Valid() && replay == map[] && this.configured == configured
    {
      replay, refs := map[], map[];
      this.configured := configured;
    }

    ghost function Known(a: Peer): Option<Reference>
      reads this
    {
      if a in refs then Some(refs[a]) else None
    }

    /** evictReplayPeer: one peer goes, and none was heard from earlier. */
    method Evict() returns (ghost gone: Peer)
      requires Valid() && replay != map[]
      modifies this
      ensures Valid() && gone in old(replay)
      ensures replay == old(replay) - {gone} && refs == old(refs) - {gone}
      ensures forall a :: a in old(replay) ==> old(replay)[gone].last <= old(replay)[a].last
    {
      var rest := replay.Keys;
      var oldest :| oldest in rest;
      rest := rest - {oldest};
      while rest != {}
        invariant rest <= replay.Keys && oldest in replay.Keys - rest
        invariant forall a :: a in replay.Keys - rest ==> replay[oldest].last <= replay[a].last
        decreases rest
      {
        var a :| a in rest;
        if replay[a].last < replay[oldest].last { oldest := a; }
        rest := rest - {a};
      }
      gone := oldest;
      assert (replay - {oldest}).Keys == replay.Keys - {oldest};
      replay, refs := replay - {oldest}, refs - {oldest};
    }

    /** acceptCounter: decides exactly as the reference, for every window up to 64, never keeps
        more than 1024 peers, and forgets one only to make room for a new one. A sender without a
        usable address is None. */
    method AcceptCounter(from: Option<Peer>, counter: U32, now: int) returns (ok: bool)
      requires Valid()
      modifies this
      ensures Valid()
      ensures Window(configured) == 0 || from.None? ==> ok && replay == old(replay) && refs == old(refs)
      ensures Window(configured) > 0 && from.Some? ==>
        && ok == Accepts(Judge(old(Known(from.value)), Window(configured), counter))
        && Known(from.value) == Remember(old(Known(from.value)), Window(configured), counter)
      ensures forall a :: Some(a) != from && a in refs ==> a in old(refs) && refs[a] == old(refs)[a]
      ensures Window(configured) > 0 && from.Some? ==> from.value in replay && replay[from.value].last == now
      ensures forall a :: Some(a) != from && a in replay ==> a in old(replay) && replay[a] == old(replay)[a]
      ensures (from.Some? && from.value in old(refs)) || |old(replay)| < MAX_PEERS ==> old(refs).Keys <= refs.Keys
    {
      hide Mirrors, Judge, Remember;
      var window := configured % SPACE;
      if window == 0 { return true; }
      if window > 64 { window := 64; }
      if from.None? { return true; }
      ok := Admit(from.value, window, counter, now);
    }

    /** The part under the lock, for a peer known or new. */
    method Admit(addr: Peer, window: nat, counter: U32, now: int) returns (ok: bool)
      requires Valid() && 0 < window <= WIDTH
      modifies this
      ensures Valid() && ok == Accepts(Judge(old(Known(addr)), window, counter))
      ensures Known(addr) == Remember(old(Known(addr)), window, counter)
      ensures forall a :: a != addr && a in refs ==> a in old(refs) && refs[a] == old(refs)[a]
      ensures addr in replay && replay[addr].last == now
      ensures forall a :: a != addr && a in replay ==> a in old(replay) && replay[a] == old(replay)[a]
      ensures addr in old(refs) || |old(replay)| < MAX_PEERS ==> old(refs).Keys <= refs.Keys
    {
      hide Mirrors, Judge, Remember;
      var st := ReplayState(0, Zero(), false, now);
      if addr !in replay {
        if |replay| >= MAX_PEERS { var _ := Evict(); }
      } else {
        st := replay[addr].(last := now);
        Touched(replay[addr], now, refs[addr]);
      }
      ghost var r := Known(addr);
      st, ok := AdvanceWindow(st, window, counter, now, r);
      Insert(addr, st, Remember(r, window, counter).value);
    }

    lemma Unheard(addr: Peer)
      requires Valid() && addr !in replay
      ensures Known(addr) == None
    {
    }

    /** The counters of a peer not yet heard of, one after the other: each is accepted exactly as the
        theorems about sequences say. */
    method AcceptAll(addr: Peer, cs: seq<U32>, now: int) returns (oks: seq<bool>)
      requires Valid() && addr !in replay && Window(configured) > 0
      modifies this
      ensures Valid() && |oks| == |cs|
      ensures forall i :: 0 <= i < |cs| ==> oks[i] == Accepts(VerdictAt(Window(configured), cs, i))
      ensures Known(addr) == Run(Window(configured), cs)
    {
      hide Judge, Remember, Mirrors, Run, Valid, Window, VerdictAt, Accepts;
      oks := [];
      Unheard(addr);
      RunNothing(Window(configured));
      assert cs[..0] == [];
      for i := 0 to |cs|
        invariant Valid() && |oks| == i && Known(addr) == Run(Window(configured), cs[..i])
        invariant forall j :: 0 <= j < i ==> oks[j] == Accepts(VerdictAt(Window(configured), cs, j))
      {
        RunStep(Window(configured), cs, i);
        VerdictIs(Window(configured), cs, i);
        var ok := AcceptCounter(Some(addr), cs[i], now);
        oks := oks + [ok];
      }
      assert cs[..|cs|] == cs;
    }

    method Insert(addr: Peer, st: ReplayState, ghost r: Reference)
      requires Valid() && Mirrors(st, r) && (addr in replay || |replay| < MAX_PEERS)
      modifies this
      ensures Valid() && replay == old(replay)[addr := st] && refs == old(refs)[addr := r]
    {
      assert replay[addr := st].Keys == replay.Keys + {addr};
      replay, refs := replay[addr := st], refs[addr := r];
    }
  }
}
