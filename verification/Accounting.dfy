/** Connection accounting of internal/smtp: counters shared by all connections and updated
    under one lock, while every connection goes through its own steps in any interleaving. */
module Accounting {
  import opened Basics

  /** A client address. An invalid netip.Addr is None. */
  type Addr = int
  type Source = Option<Addr>

  /** What the lock protects. */
  datatype Counts = Counts(clients: int, black: int, perSource: map<Addr, int>)

  datatype Limits = Limits(maxCons: int, maxPerSource: int)

  const EMPTY := Counts(0, 0, map[])

  /** A Go map read: 0 for a missing key. */
  function At(m: map<Addr, int>, a: Addr): int { if a in m then m[a] else 0 }

  function Raise(m: map<Addr, int>, s: Source): map<Addr, int> {
    if s.None? then m else m[s.value := At(m, s.value) + 1]
  }

  function Lower(m: map<Addr, int>, s: Source): map<Addr, int> {
    if s.None? then m
    else if At(m, s.value) <= 1 then m - {s.value}
    else m[s.value := m[s.value] - 1]
  }

  predicate Grants(l: Limits, c: Counts, src: Source) {
    && !(l.maxCons > 0 && c.clients >= l.maxCons)
    && !(l.maxPerSource > 0 && src.Some? && At(c.perSource, src.value) >= l.maxPerSource)
  }

  function Reserved(c: Counts, src: Source): Counts {
    c.(clients := c.clients + 1, perSource := Raise(c.perSource, src))
  }

  function Moved(c: Counts, from: Source, to: Source): Counts {
    if from == to then c else c.(perSource := Raise(Lower(c.perSource, from), to))
  }

  function Removed(c: Counts, src: Source, black: bool): Counts {
    Counts(c.clients - 1, if black then c.black - 1 else c.black, Lower(c.perSource, src))
  }

  /** The shared object; each method is one critical section. */
  class Counters {
    var clients: int
    var blackClients: int
    var perSource: map<Addr, int>
    const limits: Limits

    constructor (limits: Limits)
      ensures this.limits == limits && Value() == EMPTY
    {
      clients, blackClients, perSource := 0, 0, map[];
      this.limits := limits;
    }

    function Value(): Counts
      reads this
    {
      Counts(clients, blackClients, perSource)
    }

    method Reserve(src: Source) returns (ok: bool)
      modifies this
      ensures ok == Grants(limits, old(Value()), src)
      ensures Value() == if ok then Reserved(old(Value()), src) else old(Value())
    {
      if limits.maxCons > 0 && clients >= limits.maxCons { return false; }
      if limits.maxPerSource > 0 && src.Some? && At(perSource, src.value) >= limits.maxPerSource { return false; }
      clients := clients + 1;
      if src.Some? { perSource := perSource[src.value := At(perSource, src.value) + 1]; }
      return true;
    }

    method MarkBlack() returns (n: int)
      modifies this
      ensures Value() == old(Value()).(black := old(blackClients) + 1) && n == blackClients
    {
      blackClients := blackClients + 1;
      return blackClients;
    }

    method ReassignSource(from: Source, to: Source)
      modifies this
      ensures Value() == Moved(old(Value()), from, to)
    {
      if from == to { return; }
      if from.Some? {
        if At(perSource, from.value) <= 1 {
          perSource := perSource - {from.value};
        } else {
          perSource := perSource[from.value := perSource[from.value] - 1];
        }
      }
      if to.Some? { perSource := perSource[to.value := At(perSource, to.value) + 1]; }
    }

    method Remove(src: Source, black: bool)
      modifies this
      ensures Value() == Removed(old(Value()), src, black)
    {
      clients := clients - 1;
      if black { blackClients := blackClients - 1; }
      if src.Some? {
        if At(perSource, src.value) <= 1 {
          perSource := perSource - {src.value};
        } else {
          perSource := perSource[src.value := perSource[src.value] - 1];
        }
      }
    }
  }

  // ----- the system -----

  /** Where a connection is between two critical sections. */
  datatype Phase =
    | Accepted                  // slot reserved, blacklists not matched yet
    | Marking                   // matched a blacklist, not yet counted black
    | Ready
    | Moving(to: Source)        // slot moved in the table, field still to be updated
    | Rematching(wasBlack: bool) // black recomputed, counter still to be fixed up

  /** `held` and `black` are the fields of the connection; `slot` and `counted` are what the
      table holds for it. */
  datatype Conn = Conn(held: Source, black: bool, slot: Source, counted: bool, phase: Phase)

  datatype System = System(counts: Counts, conns: map<nat, Conn>)

  datatype Event =
    | Accept(id: nat, src: Source)
    | Match(id: nat, listed: bool)
    | Mark(id: nat)
    | Move(id: nat, to: Source)      // reassignSource
    | Adopt(id: nat)                 // c.reservedSrc = src
    | Rematch(id: nat, listed: bool) // matchBlacklists for the real client
    | Recount(id: nat)               // the locked part of rematchAfterProxy
    | Close(id: nat)

  const START := System(EMPTY, map[])

  /** One step of one connection, or one accept; a step that is not due does nothing. */
  function Step(l: Limits, s: System, e: Event): System {
    match e
    case Accept(id, src) =>
      if id in s.conns || !Grants(l, s.counts, src) then s
      else System(Reserved(s.counts, src), s.conns[id := Conn(src, false, src, false, Accepted)])
    case Match(id, listed) =>
      if id !in s.conns || s.conns[id].phase != Accepted then s
      else s.(conns := s.conns[id := s.conns[id].(black := listed, phase := if listed then Marking else Ready)])
    case Mark(id) =>
      if id !in s.conns || s.conns[id].phase != Marking then s
      else System(s.counts.(black := s.counts.black + 1), s.conns[id := s.conns[id].(counted := true, phase := Ready)])
    case Move(id, to) =>
      if id !in s.conns || s.conns[id].phase != Ready then s
      else System(Moved(s.counts, s.conns[id].held, to), s.conns[id := s.conns[id].(slot := to, phase := Moving(to))])
    case Adopt(id) =>
      if id !in s.conns || !s.conns[id].phase.Moving? then s
      else s.(conns := s.conns[id := s.conns[id].(held := s.conns[id].phase.to, phase := Ready)])
    case Rematch(id, listed) =>
      if id !in s.conns || s.conns[id].phase != Ready then s
      else s.(conns := s.conns[id := s.conns[id].(black := listed, phase := Rematching(s.conns[id].black))])
    case Recount(id) =>
      if id !in s.conns || !s.conns[id].phase.Rematching? then s
      else
        var c := s.conns[id];
        var d := if c.black == c.phase.wasBlack then 0 else if c.black then 1 else -1;
        System(s.counts.(black := s.counts.black + d), s.conns[id := c.(counted := c.black, phase := Ready)])
    case Close(id) =>
      if id !in s.conns || s.conns[id].phase != Ready then s
      else System(Removed(s.counts, s.conns[id].held, s.conns[id].black), s.conns - {id})
  }

  function Run(l: Limits, es: seq<Event>): System {
    if es == [] then START else Step(l, Run(l, es[..|es| - 1]), es[|es| - 1])
  }

  // ----- conservation -----

  ghost function Holders(conns: map<nat, Conn>, a: Addr): set<nat> {
    set id | id in conns && conns[id].slot == Some(a)
  }

  ghost function Blacks(conns: map<nat, Conn>): set<nat> {
    set id | id in conns && conns[id].counted
  }

  /** A connection's fields agree with the table, except in the middle of its own step. */
  predicate InStep(c: Conn) {
    match c.phase
    case Accepted => c.held == c.slot && !c.counted && !c.black
    case Marking => c.held == c.slot && !c.counted && c.black
    case Ready => c.held == c.slot && c.counted == c.black
    case Moving(to) => c.slot == to && c.counted == c.black
    case Rematching(wasBlack) => c.held == c.slot && c.counted == wasBlack
  }

  ghost predicate Conserved(l: Limits, s: System) {
    && (forall id :: id in s.conns ==> InStep(s.conns[id]))
    && s.counts.clients == |s.conns|
    && s.counts.black == |Blacks(s.conns)|
    && (forall a :: At(s.counts.perSource, a) == |Holders(s.conns, a)|)
    && (forall a :: a in s.counts.perSource ==> s.counts.perSource[a] > 0)
    && (l.maxCons > 0 ==> s.counts.clients <= l.maxCons)
  }

  /** Changing one connection changes the sets by that one element. */
  lemma HoldersUpdate(conns: map<nat, Conn>, id: nat, c: Conn, a: Addr)
    ensures Holders(conns[id := c], a) ==
            if c.slot == Some(a) then Holders(conns, a) + {id} else Holders(conns, a) - {id}
  {
  }

  lemma BlacksUpdate(conns: map<nat, Conn>, id: nat, c: Conn)
    ensures Blacks(conns[id := c]) == if c.counted then Blacks(conns) + {id} else Blacks(conns) - {id}
  {
  }

  lemma RemoveConn(conns: map<nat, Conn>, id: nat)
    requires id in conns
    ensures |conns - {id}| == |conns| - 1
    ensures |Blacks(conns - {id})| == |Blacks(conns)| - if conns[id].counted then 1 else 0
  {
    assert (conns - {id}).Keys == conns.Keys - {id};
    assert Blacks(conns - {id}) == Blacks(conns) - {id};
  }

  lemma RemoveHolder(conns: map<nat, Conn>, id: nat, a: Addr)
    requires id in conns
    ensures |Holders(conns - {id}, a)| == |Holders(conns, a)| - if conns[id].slot == Some(a) then 1 else 0
  {
    assert Holders(conns - {id}, a) == Holders(conns, a) - {id};
  }

  lemma AddConn(conns: map<nat, Conn>, id: nat, c: Conn)
    requires id !in conns
    ensures |conns[id := c]| == |conns| + 1
  {
    assert conns[id := c].Keys == conns.Keys + {id};
  }

  lemma UpdateConn(conns: map<nat, Conn>, id: nat, c: Conn)
    requires id in conns
    ensures |conns[id := c]| == |conns|
  {
    assert conns[id := c].Keys == conns.Keys;
  }

  lemma RaiseAt(m: map<Addr, int>, s: Source, a: Addr)
    requires forall b :: b in m ==> m[b] > 0
    ensures At(Raise(m, s), a) == At(m, a) + if s == Some(a) then 1 else 0
    ensures forall b :: b in Raise(m, s) ==> Raise(m, s)[b] > 0
  {
  }

  lemma LowerAt(m: map<Addr, int>, s: Source, a: Addr)
    requires forall b :: b in m ==> m[b] > 0
    requires s.Some? ==> s.value in m
    ensures At(Lower(m, s), a) == At(m, a) - if s == Some(a) then 1 else 0
    ensures forall b :: b in Lower(m, s) ==> Lower(m, s)[b] > 0
  {
  }

  /** A connection that holds a slot keeps its source in the table. */
  lemma SlotInTable(l: Limits, s: System, id: nat)
    requires Conserved(l, s) && id in s.conns && s.conns[id].slot.Some?
    ensures s.conns[id].slot.value in s.counts.perSource
  {
    var a := s.conns[id].slot.value;
    assert id in Holders(s.conns, a);
    assert At(s.counts.perSource, a) == |Holders(s.conns, a)| > 0;
  }

  lemma AcceptConserved(l: Limits, s: System, id: nat, src: Source)
    requires Conserved(l, s)
    ensures Conserved(l, Step(l, s, Accept(id, src)))
  {
    hide Holders, Blacks, Raise;
    var t := Step(l, s, Accept(id, src));
    if t != s {
      var c := Conn(src, false, src, false, Accepted);
      AddConn(s.conns, id, c);
      BlacksUpdate(s.conns, id, c);
      NoBlack(s.conns, id);
      forall a ensures At(t.counts.perSource, a) == |Holders(t.conns, a)| {
        RaiseAt(s.counts.perSource, src, a);
        HoldersUpdate(s.conns, id, c, a);
        NoHolder(s.conns, id, a);
      }
      RaiseAt(s.counts.perSource, src, 0);
    }
  }

  lemma NoHolder(conns: map<nat, Conn>, id: nat, a: Addr)
    requires id !in conns
    ensures id !in Holders(conns, a) && Holders(conns, a) - {id} == Holders(conns, a)
  {
  }

  lemma NoBlack(conns: map<nat, Conn>, id: nat)
    requires id !in conns
    ensures Blacks(conns) - {id} == Blacks(conns)
  {
  }

  /** A step that leaves the slot and the black count of a connection alone. */
  lemma SameShare(conns: map<nat, Conn>, id: nat, c: Conn, a: Addr)
    requires id in conns && c.slot == conns[id].slot
    ensures Holders(conns[id := c], a) == Holders(conns, a)
  {
  }

  lemma BlackShare(conns: map<nat, Conn>, id: nat, c: Conn)
    requires id in conns
    ensures |Blacks(conns[id := c])| == |Blacks(conns)| +
            (if c.counted then 1 else 0) - (if conns[id].counted then 1 else 0)
  {
    BlacksUpdate(conns, id, c);
  }

  /** Steps that change the black count, or no counter at all. */
  lemma BlackConserved(l: Limits, s: System, id: nat, c: Conn, d: int)
    requires Conserved(l, s) && id in s.conns && InStep(c) && c.slot == s.conns[id].slot
    requires d == (if c.counted then 1 else 0) - (if s.conns[id].counted then 1 else 0)
    ensures Conserved(l, System(s.counts.(black := s.counts.black + d), s.conns[id := c]))
  {
    hide Holders, Blacks;
    UpdateConn(s.conns, id, c);
    BlackShare(s.conns, id, c);
    forall a ensures |Holders(s.conns[id := c], a)| == At(s.counts.perSource, a) { SameShare(s.conns, id, c, a); }
  }

  lemma HolderShare(conns: map<nat, Conn>, id: nat, c: Conn, a: Addr)
    requires id in conns
    ensures |Holders(conns[id := c], a)| == |Holders(conns, a)| +
            (if c.slot == Some(a) then 1 else 0) - (if conns[id].slot == Some(a) then 1 else 0)
  {
    HoldersUpdate(conns, id, c, a);
  }

  lemma MoveConserved(l: Limits, s: System, id: nat, to: Source)
    requires Conserved(l, s)
    ensures Conserved(l, Step(l, s, Move(id, to)))
  {
    hide Holders, Blacks, Raise, Lower;
    if id in s.conns && s.conns[id].phase == Ready {
      var from := s.conns[id].held;
      var c := s.conns[id].(slot := to, phase := Moving(to));
      var t := Step(l, s, Move(id, to));
      if from.Some? { SlotInTable(l, s, id); }
      UpdateConn(s.conns, id, c);
      BlackShare(s.conns, id, c);
      var low := Lower(s.counts.perSource, from);
      forall a ensures At(t.counts.perSource, a) == |Holders(t.conns, a)| {
        LowerAt(s.counts.perSource, from, a);
        RaiseAt(low, to, a);
        HolderShare(s.conns, id, c, a);
      }
      LowerAt(s.counts.perSource, from, 0);
      RaiseAt(low, to, 0);
    }
  }

  lemma CloseConserved(l: Limits, s: System, id: nat)
    requires Conserved(l, s)
    ensures Conserved(l, Step(l, s, Close(id)))
  {
    hide Lower, Holders, Blacks;
    if id in s.conns && s.conns[id].phase == Ready {
      var from := s.conns[id].held;
      var t := Step(l, s, Close(id));
      if from.Some? { SlotInTable(l, s, id); }
      RemoveConn(s.conns, id);
      forall a ensures At(t.counts.perSource, a) == |Holders(t.conns, a)| {
        RemoveHolder(s.conns, id, a);
        LowerAt(s.counts.perSource, from, a);
      }
      LowerAt(s.counts.perSource, from, 0);
    }
  }

  /** Steps of one connection that touch no counter. */
  lemma QuietConserved(l: Limits, s: System, e: Event)
    requires Conserved(l, s) && (e.Match? || e.Adopt? || e.Rematch?)
    ensures Conserved(l, Step(l, s, e))
  {
    hide Holders, Blacks, Grants, Reserved, Moved, Removed, At;
    if e.id in s.conns {
      var c := s.conns[e.id];
      if e.Match? && c.phase == Accepted {
        BlackConserved(l, s, e.id, c.(black := e.listed, phase := if e.listed then Marking else Ready), 0);
      } else if e.Adopt? && c.phase.Moving? {
        BlackConserved(l, s, e.id, c.(held := c.phase.to, phase := Ready), 0);
      } else if e.Rematch? && c.phase == Ready {
        BlackConserved(l, s, e.id, c.(black := e.listed, phase := Rematching(c.black)), 0);
      }
    }
  }

  /** Steps of one connection that may change the black count. */
  lemma CountConserved(l: Limits, s: System, e: Event)
    requires Conserved(l, s) && (e.Mark? || e.Recount?)
    ensures Conserved(l, Step(l, s, e))
  {
    hide Holders, Blacks, Grants, Reserved, Moved, Removed, At;
    if e.id in s.conns {
      var c := s.conns[e.id];
      if e.Mark? && c.phase == Marking {
        BlackConserved(l, s, e.id, c.(counted := true, phase := Ready), 1);
      } else if e.Recount? && c.phase.Rematching? {
        var d := if c.black == c.phase.wasBlack then 0 else if c.black then 1 else -1;
        BlackConserved(l, s, e.id, c.(counted := c.black, phase := Ready), d);
      }
    }
  }

  lemma StepConserved(l: Limits, s: System, e: Event)
    requires Conserved(l, s)
    ensures Conserved(l, Step(l, s, e))
  {
    hide Step, Conserved;
    match e
    case Accept(id, src) => AcceptConserved(l, s, id, src);
    case Move(id, to) => MoveConserved(l, s, id, to);
    case Close(id) => CloseConserved(l, s, id);
    case Mark(_) => CountConserved(l, s, e);
    case Recount(_) => CountConserved(l, s, e);
    case _ => QuietConserved(l, s, e);
  }

  /** In every run, under every interleaving, the counters are exactly the live connections:
      how many, how many counted black, how many per source, with no entry for nobody and
      never more than the limit. */
  lemma {:induction false} RunConserved(l: Limits, es: seq<Event>)
    ensures Conserved(l, Run(l, es))
  {
    if es == [] {
      assert Blacks(START.conns) == {};
      assert forall a :: Holders(START.conns, a) == {};
    } else {
      RunConserved(l, es[..|es| - 1]);
      StepConserved(l, Run(l, es[..|es| - 1]), es[|es| - 1]);
    }
  }

  /** No counter ever goes negative, and once every connection is closed all are empty. */
  lemma CountersReturnToEmpty(l: Limits, es: seq<Event>)
    ensures var s := Run(l, es);
      && s.counts.clients >= 0 && s.counts.black >= 0 && (forall a :: At(s.counts.perSource, a) >= 0)
      && (s.conns == map[] ==> s.counts == EMPTY)
  {
    RunConserved(l, es);
    var s := Run(l, es);
    if s.conns == map[] {
      assert Blacks(s.conns) == {};
      forall a ensures a !in s.counts.perSource {
        assert Holders(s.conns, a) == {};
        assert At(s.counts.perSource, a) == 0;
      }
      assert s.counts.perSource == map[];
    }
  }

  /** All sources within the per-source cap. */
  ghost predicate WithinCap(l: Limits, s: System) {
    l.maxPerSource > 0 ==> forall a :: At(s.counts.perSource, a) <= l.maxPerSource
  }

  /** A connection's standing is what its last match found: only matching changes it. */
  lemma StandingExactly(l: Limits, s: System, e: Event, id: nat)
    requires id in s.conns && id in Step(l, s, e).conns
    ensures var black := Step(l, s, e).conns[id].black;
      && (e == Match(id, black) || e == Rematch(id, black) || black == s.conns[id].black)
      && (e.Match? && e.id == id && s.conns[id].phase == Accepted ==> black == e.listed)
      && (e.Rematch? && e.id == id && s.conns[id].phase == Ready ==> black == e.listed)
  {
  }

  /** Who is admitted, in every run: a new connection, if and only if the live connections are fewer
      than the limit, where there is one, and those of its source fewer than the cap, where there is
      one and the source is known. A refused one changes nothing. */
  lemma AdmittedExactly(l: Limits, es: seq<Event>, id: nat, src: Source)
    requires id !in Run(l, es).conns
    ensures var s := Run(l, es); var s' := Step(l, s, Accept(id, src));
      && (id in s'.conns <==>
            && (l.maxCons > 0 ==> |s.conns| < l.maxCons)
            && (l.maxPerSource > 0 && src.Some? ==> |Holders(s.conns, src.value)| < l.maxPerSource))
      && (id !in s'.conns ==> s' == s)
  {
    hide Holders;
    RunConserved(l, es);
  }

  /** One step keeps every source within the cap, except exactly when a PROXY header moves a
      connection to a source that is already at the cap. */
  lemma CapExactly(l: Limits, s: System, e: Event)
    requires Conserved(l, s) && WithinCap(l, s)
    ensures WithinCap(l, Step(l, s, e)) <==>
      !(l.maxPerSource > 0 && e.Move? && e.id in s.conns && s.conns[e.id].phase == Ready && e.to.Some? &&
        e.to != s.conns[e.id].held && At(s.counts.perSource, e.to.value) == l.maxPerSource)
  {
    if e.id in s.conns && s.conns[e.id].slot.Some? { SlotInTable(l, s, e.id); }
    var m := s.counts.perSource;
    match e
    case Accept(id, src) =>
      forall a ensures At(Raise(m, src), a) == At(m, a) + if src == Some(a) then 1 else 0 { RaiseAt(m, src, a); }
    case Move(id, to) =>
      if id in s.conns && s.conns[id].phase == Ready && to != s.conns[id].held {
        var from := s.conns[id].held;
        forall a ensures At(Raise(Lower(m, from), to), a) ==
          At(m, a) + (if to == Some(a) then 1 else 0) - (if from == Some(a) then 1 else 0)
        {
          LowerAt(m, from, a);
          RaiseAt(Lower(m, from), to, a);
        }
      }
    case Close(id) =>
      if id in s.conns && s.conns[id].phase == Ready {
        forall a ensures At(Lower(m, s.conns[id].held), a) <= At(m, a) { LowerAt(m, s.conns[id].held, a); }
      }
    case _ =>
  }

  /** Without the PROXY protocol the cap holds in every run. */
  lemma {:induction false} CapWithoutProxy(l: Limits, es: seq<Event>)
    requires forall i :: 0 <= i < |es| ==> !es[i].Move?
    ensures WithinCap(l, Run(l, es))
  {
    if es != [] {
      var front, last := es[..|es| - 1], es[|es| - 1];
      CapWithoutProxy(l, front);
      RunConserved(l, front);
      CapExactly(l, Run(l, front), last);
    }
  }

  lemma RunSnoc(l: Limits, es: seq<Event>, e: Event)
    ensures Run(l, es + [e]) == Step(l, Run(l, es), e)
  {
    assert (es + [e])[..|es|] == es;
  }

  /** With it, two proxied connections of one client pass a cap of one. */
  lemma ProxyExceedsCap()
    ensures exists es :: !WithinCap(Limits(0, 1), Run(Limits(0, 1), es))
  {
    var l := Limits(0, 1);
    var es := ProxiedPair(l);
    var s := Run(l, es);
    RunSnoc(l, es, Move(1, Some(30)));
    RunSnoc(l, es + [Move(1, Some(30))], Move(2, Some(30)));
    hide Run;
    var t := Run(l, es + [Move(1, Some(30))]);
    assert t.counts.perSource == map[20 := 1, 30 := 1] && t.conns[2].phase == Ready && t.conns[2].held == Some(20);
    assert At(Run(l, es + [Move(1, Some(30))] + [Move(2, Some(30))]).counts.perSource, 30) == 2;
  }

  /** Two connections through two proxies. */
  lemma ProxiedPair(l: Limits) returns (es: seq<Event>)
    requires l == Limits(0, 1)
    ensures Run(l, es) == System(Counts(2, 0, map[10 := 1, 20 := 1]),
      map[1 := Conn(Some(10), false, Some(10), false, Ready), 2 := Conn(Some(20), false, Some(20), false, Ready)])
  {
    es := [Accept(1, Some(10))];
    assert es == [] + [Accept(1, Some(10))];
    RunSnoc(l, [], Accept(1, Some(10)));
    RunSnoc(l, es, Match(1, false));
    es := es + [Match(1, false)];
    var one := Conn(Some(10), false, Some(10), false, Ready);
    assert Run(l, es) == System(Counts(1, 0, map[10 := 1]), map[1 := one]);
    RunSnoc(l, es, Accept(2, Some(20)));
    var es' := es + [Accept(2, Some(20))];
    RunSnoc(l, es', Match(2, false));
    hide Run;
    es := es' + [Match(2, false)];
    assert Run(l, es).conns == map[1 := one, 2 := Conn(Some(20), false, Some(20), false, Ready)];
  }
}
