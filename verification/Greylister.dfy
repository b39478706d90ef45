/** The greylisting engine of internal/grey, transaction by transaction: a reader that
    handles each grey message in two transactions, white and trap messages, and the
    scanner, all on one store and in any interleaving. */
module Greylister {
  import opened Basics
  import opened ByteStrings
  import opened Keys
  import opened ScanSpec
  import ScanTheorems

  datatype Config = Config(passTime: int, greyExpiry: int, trapExpiry: int, whiteExpiry: int,
                           spf: bool, whitelistOnPass: bool, trapOnSoftfail: bool, lowPrioMX: Bytes)

  datatype SpfResult = SpfNone | SpfPass | SpfSoftFail | SpfFail | SpfError

  /** A grey message between its trap check and its update: what processGrey holds in
      its locals. `trap` is the verdict of the trap check. */
  datatype Pending = Pending(tuple: Tuple, sync: bool, dst: Bytes, now: int, trap: bool)

  /** What the update transaction works on once the trap check and SPF have spoken. */
  datatype Verdict = SpfWhite | Entry(spamtrap: bool)

  function Decide(cfg: Config, p: Pending, spf: SpfResult): Verdict {
    if !cfg.spf || !p.sync || p.trap then Entry(p.trap)
    else match spf
      case SpfPass => if cfg.whitelistOnPass then SpfWhite else Entry(false)
      case SpfSoftFail => Entry(cfg.trapOnSoftfail)
      case SpfFail => Entry(true)
      case SpfError => Entry(false)
      case SpfNone => Entry(false)
  }

  function EntryKeyOf(t: Tuple, spamtrap: bool): Bytes {
    if spamtrap then AddrKey(t.ip) else EncodeKey(TupleKey(t))
  }

  /** The low priority MX rule, for a message whose key has no entry. `settled` says
      whether the start-up grace period is over. */
  predicate LowPrio(cfg: Config, p: Pending, settled: bool) {
    p.sync && cfg.lowPrioMX != [] && p.dst == cfg.lowPrioMX && settled
  }

  function NewEntry(cfg: Config, now: int, spamtrap: bool): Data {
    var expire := now + if spamtrap then cfg.trapExpiry else cfg.greyExpiry;
    Data(now, expire, expire, 1, if spamtrap then TRAPPED else 0)
  }

  function SeenAgain(cfg: Config, d: Data, now: int, spamtrap: bool): Data {
    d.(bcount := d.bcount + 1,
       pcount := if spamtrap then TRAPPED else 0,
       pass := if d.first + cfg.passTime < now then now else d.pass)
  }

  /** The update transaction of a grey message. */
  function FinishGrey(cfg: Config, s: Store, p: Pending, spf: SpfResult, settled: bool): Store {
    match Decide(cfg, p, spf)
    case SpfWhite => s[AddrKey(p.tuple.ip) := Data(p.now, p.now, p.now + cfg.whiteExpiry, 0, 0)]
    case Entry(spamtrap) =>
      var k := EntryKeyOf(p.tuple, spamtrap);
      if k in s then s[k := SeenAgain(cfg, s[k], p.now, spamtrap)]
      else
        var trap := spamtrap || LowPrio(cfg, p, settled);
        s[EntryKeyOf(p.tuple, trap) := NewEntry(cfg, p.now, trap)]
  }

  /** A white or trap message; `expires` is None when its text is not a number. */
  function NonGrey(s: Store, spamtrap: bool, ip: Bytes, now: int, expires: Option<int>, del: bool): Store {
    var k := AddrKey(ip);
    if !del && (expires.None? || expires.value == 0) then s
    else if k !in s && del then s
    else if k !in s then
      s[k := if spamtrap then Data(now, expires.value, expires.value, 0, TRAPPED)
             else Data(now, now, expires.value, 0, 0)]
    else if del then s - {k}
    else if spamtrap then s[k := s[k].(pcount := TRAPPED, bcount := s[k].bcount + 1)]
    else s[k := s[k].(pcount := s[k].pcount + 1)]
  }

  /** The engine: the methods are the transactions of the source, in its own steps. */
  class Engine {
    var store: Store
    const cfg: Config

    constructor (cfg: Config)
      ensures store == map[] && this.cfg == cfg
    {
      store := map[];
      this.cfg := cfg;
    }

    /** The second transaction of processGrey, with the SPF verdict it waited for. */
    method UpdateGrey(p: Pending, spf: SpfResult, settled: bool)
      modifies this
      ensures store == FinishGrey(cfg, old(store), p, spf, settled)
    {
      var spamtrap, expire, key := false, cfg.greyExpiry, EncodeKey(TupleKey(p.tuple));
      if p.trap {
        spamtrap, expire, key := true, cfg.trapExpiry, AddrKey(p.tuple.ip);
      }
      if cfg.spf && p.sync && !spamtrap {
        if spf == SpfPass && cfg.whitelistOnPass {
          store := store[AddrKey(p.tuple.ip) := Data(p.now, p.now, p.now + cfg.whiteExpiry, 0, 0)];
          return;
        }
        if spf == SpfFail || (spf == SpfSoftFail && cfg.trapOnSoftfail) {
          spamtrap, expire, key := true, cfg.trapExpiry, AddrKey(p.tuple.ip);
        }
      }
      if key !in store {
        if p.sync && cfg.lowPrioMX != [] && p.dst == cfg.lowPrioMX && settled {
          spamtrap, expire, key := true, cfg.trapExpiry, AddrKey(p.tuple.ip);
        }
        var d := Data(p.now, p.now + expire, p.now + expire, 1, 0);
        if spamtrap { d := d.(pcount := TRAPPED); }
        store := store[key := d];
        return;
      }
      var d := store[key];
      d := d.(bcount := d.bcount + 1, pcount := 0);
      if spamtrap { d := d.(pcount := TRAPPED); }
      if d.first + cfg.passTime < p.now { d := d.(pass := p.now); }
      store := store[key := d];
    }

    /** processNonGrey. */
    method UpdateNonGrey(spamtrap: bool, ip: Bytes, now: int, expires: Option<int>, del: bool)
      modifies this
      ensures store == NonGrey(old(store), spamtrap, ip, now, expires, del)
    {
      if !del && (expires.None? || expires.value == 0) { return; }
      var key := AddrKey(ip);
      if key !in store {
        if del { return; }
        var d := Data(now, now, expires.value, 0, 0);
        if spamtrap { d := d.(pcount := TRAPPED, pass := expires.value); }
        store := store[key := d];
      } else if del {
        store := store - {key};
      } else {
        var d := store[key];
        if spamtrap {
          d := d.(pcount := TRAPPED, bcount := d.bcount + 1);
        } else {
          d := d.(pcount := d.pcount + 1);
        }
        store := store[key := d];
      }
    }
  }

  // ----- runs -----

  /** What the engine did, in order. */
  datatype Done =
    | Grey(tuple: Tuple, now: int)   // a grey message reached the entry of its tuple
    | White(ip: Bytes)               // a white message for the address
    | Spf(ip: Bytes)                 // an SPF pass whitelisted the address
    | Other

  datatype World = World(store: Store, pending: map<nat, Pending>, log: seq<Done>)

  datatype Event =
    | Begin(id: nat, p: Pending)
    | Finish(id: nat, spf: SpfResult, settled: bool)
    | Addr(spamtrap: bool, ip: Bytes, at: int, expires: Option<int>, del: bool)
    | ScanTick(time: int)

  const INIT := World(map[], map[], [])

  function Recorded(cfg: Config, s: Store, p: Pending, spf: SpfResult, settled: bool): Done {
    match Decide(cfg, p, spf)
    case SpfWhite => Spf(p.tuple.ip)
    case Entry(spamtrap) =>
      if spamtrap || (EntryKeyOf(p.tuple, spamtrap) !in s && LowPrio(cfg, p, settled)) then Other
      else Grey(p.tuple, p.now)
  }

  /** One transaction. The readers' messages in flight are kept by an arbitrary id, so any
      number of readers and a scanner may interleave. */
  ghost function Step(cfg: Config, v6: Bytes -> bool, w: World, e: Event): World
    requires WellFormed(w.store)
  {
    match e
    case Begin(id, p) => if id in w.pending then w else w.(pending := w.pending[id := p])
    case Finish(id, spf, settled) =>
      if id !in w.pending then w
      else
        var p := w.pending[id];
        World(FinishGrey(cfg, w.store, p, spf, settled), w.pending - {id},
              w.log + [Recorded(cfg, w.store, p, spf, settled)])
    case Addr(spamtrap, ip, at, expires, del) =>
      World(NonGrey(w.store, spamtrap, ip, at, expires, del), w.pending,
            w.log + [if spamtrap || del || expires.None? || expires.value == 0 then Other else White(ip)])
    case ScanTick(time) =>
      w.(store := Scan(w.store, time, cfg.whiteExpiry, v6).store)
  }

  lemma StepWellFormed(cfg: Config, v6: Bytes -> bool, w: World, e: Event)
    requires WellFormed(w.store)
    ensures WellFormed(Step(cfg, v6, w, e).store)
  {
    hide Scan;
    match e
    case Begin(id, p) =>
    case Finish(id, spf, settled) =>
      if id in w.pending {
        var t := w.pending[id].tuple;
        EncodedDecodes(TupleKey(t));
        AddrKeyDecodes(t.ip);
      }
    case Addr(spamtrap, ip, at, expires, del) => AddrKeyDecodes(ip);
    case ScanTick(time) => ScanTheorems.ScanStore(w.store, time, cfg.whiteExpiry, v6);
  }

  /** The world after a whole run from the empty store. */
  ghost function Run(cfg: Config, v6: Bytes -> bool, es: seq<Event>): (w: World)
    ensures WellFormed(w.store)
  {
    if es == [] then INIT
    else
      var w := Run(cfg, v6, es[..|es| - 1]);
      StepWellFormed(cfg, v6, w, es[|es| - 1]);
      Step(cfg, v6, w, es[|es| - 1])
  }

  // ----- the invariant -----

  /** Entry i of the log is a grey message for the tuple stored under k, read at time t. */
  ghost predicate SeenAt(log: seq<Done>, i: int, k: Bytes, t: int) {
    0 <= i < |log| && log[i].Grey? && EncodeKey(TupleKey(log[i].tuple)) == k && log[i].now == t
  }

  /** Two messages for the tuple under k, the second more than passTime after the first. */
  ghost predicate Retried(cfg: Config, log: seq<Done>, k: Bytes, t1: int, t2: int) {
    t1 + cfg.passTime < t2 && exists i, j :: i < j && SeenAt(log, i, k, t1) && SeenAt(log, j, k, t2)
  }

  /** The log accounts for a tuple entry: its first time is that of a logged message, and a
      pass time ahead of its expiry comes from a later retry. */
  ghost predicate TupleAccounted(cfg: Config, log: seq<Done>, k: Bytes, d: Data) {
    && d.pcount == 0
    && (exists i :: SeenAt(log, i, k, d.first))
    && (d.pass == d.expire || Retried(cfg, log, k, d.first, d.pass))
  }

  /** The log accounts for an address being white. */
  ghost predicate Earned(cfg: Config, log: seq<Done>, a: Bytes) {
    || White(a) in log
    || Spf(a) in log
    || exists k, t1, t2 :: IsTuple(k) && TupleAddr(k) == a && Retried(cfg, log, k, t1, t2)
  }

  ghost predicate Accounted(cfg: Config, log: seq<Done>, s: Store) {
    && (forall k :: k in s && IsTuple(k) ==> TupleAccounted(cfg, log, k, s[k]))
    && (forall a :: AddrKey(a) in s && s[AddrKey(a)].pcount >= 0 ==> Earned(cfg, log, a))
  }

  lemma LogGrows(cfg: Config, log: seq<Done>, e: Done)
    ensures forall i, k, t :: SeenAt(log, i, k, t) ==> SeenAt(log + [e], i, k, t)
    ensures forall k, t1, t2 :: Retried(cfg, log, k, t1, t2) ==> Retried(cfg, log + [e], k, t1, t2)
    ensures forall k, d :: TupleAccounted(cfg, log, k, d) ==> TupleAccounted(cfg, log + [e], k, d)
    ensures forall a :: Earned(cfg, log, a) ==> Earned(cfg, log + [e], a)
  {
    hide EncodeKey;
    assert forall i, k, t :: SeenAt(log, i, k, t) ==> SeenAt(log + [e], i, k, t);
    forall k, t1, t2 | Retried(cfg, log, k, t1, t2) ensures Retried(cfg, log + [e], k, t1, t2) {
      var i, j :| i < j && SeenAt(log, i, k, t1) && SeenAt(log, j, k, t2);
      assert SeenAt(log + [e], i, k, t1) && SeenAt(log + [e], j, k, t2);
    }
  }

  lemma KindsDiffer(t: Tuple, a: Bytes)
    ensures IsTuple(EncodeKey(TupleKey(t))) && !IsTuple(AddrKey(a)) && EncodeKey(TupleKey(t)) != AddrKey(a)
  {
    EncodedDecodes(TupleKey(t));
    AddrKeyDecodes(a);
  }

  lemma AddrKeyInjective(a: Bytes)
    ensures forall b :: AddrKey(b) == AddrKey(a) ==> b == a
  {
    AddrKeyDecodes(a);
  }

  /** Writing an address entry that is trapped, or is earned, keeps the account. */
  lemma AddrWriteAccounted(cfg: Config, log: seq<Done>, s: Store, a: Bytes, d: Data)
    requires Accounted(cfg, log, s) && (d.pcount >= 0 ==> Earned(cfg, log, a))
    ensures Accounted(cfg, log, s[AddrKey(a) := d])
  {
    hide Earned, TupleAccounted, IsTuple, AddrKey;
    KindsDiffer(NO_TUPLE, a);
    AddrKeyInjective(a);
  }

  lemma TupleWriteAccounted(cfg: Config, log: seq<Done>, s: Store, t: Tuple, d: Data)
    requires Accounted(cfg, log, s) && TupleAccounted(cfg, log, EncodeKey(TupleKey(t)), d)
    ensures Accounted(cfg, log, s[EncodeKey(TupleKey(t)) := d])
  {
    hide Earned, TupleAccounted, IsTuple, AddrKey, EncodeKey;
    forall a ensures AddrKey(a) != EncodeKey(TupleKey(t)) { KindsDiffer(t, a); }
  }

  lemma LogGrowsAccounted(cfg: Config, log: seq<Done>, e: Done, s: Store)
    requires Accounted(cfg, log, s)
    ensures Accounted(cfg, log + [e], s)
  {
    hide Earned, TupleAccounted, AddrKey, IsTuple, EncodeKey;
    LogGrows(cfg, log, e);
  }

  lemma SeenAgainAccounted(cfg: Config, log: seq<Done>, t: Tuple, d: Data, now: int)
    requires TupleAccounted(cfg, log, EncodeKey(TupleKey(t)), d)
    ensures TupleAccounted(cfg, log + [Grey(t, now)], EncodeKey(TupleKey(t)), SeenAgain(cfg, d, now, false))
  {
    hide EncodeKey;
    var k := EncodeKey(TupleKey(t));
    var log' := log + [Grey(t, now)];
    LogGrows(cfg, log, Grey(t, now));
    var i :| SeenAt(log, i, k, d.first);
    assert SeenAt(log', i, k, d.first) && SeenAt(log', |log|, k, now);
    if d.first + cfg.passTime < now {
      assert Retried(cfg, log', k, d.first, now);
    }
  }

  lemma NewEntryAccounted(cfg: Config, log: seq<Done>, t: Tuple, now: int)
    ensures TupleAccounted(cfg, log + [Grey(t, now)], EncodeKey(TupleKey(t)), NewEntry(cfg, now, false))
  {
    hide EncodeKey;
    assert SeenAt(log + [Grey(t, now)], |log|, EncodeKey(TupleKey(t)), now);
  }

  lemma FinishAccounted(cfg: Config, log: seq<Done>, s: Store, p: Pending, spf: SpfResult, settled: bool)
    requires Accounted(cfg, log, s)
    ensures Accounted(cfg, log + [Recorded(cfg, s, p, spf, settled)], FinishGrey(cfg, s, p, spf, settled))
  {
    hide Accounted, TupleAccounted, EncodeKey, AddrKey, SeenAgain, NewEntry, Decide, LowPrio;
    var e := Recorded(cfg, s, p, spf, settled);
    var log' := log + [e];
    LogGrowsAccounted(cfg, log, e, s);
    match Decide(cfg, p, spf)
    case SpfWhite =>
      assert Spf(p.tuple.ip) in log';
      AddrWriteAccounted(cfg, log', s, p.tuple.ip, Data(p.now, p.now, p.now + cfg.whiteExpiry, 0, 0));
    case Entry(spamtrap) =>
      var k := EntryKeyOf(p.tuple, spamtrap);
      if spamtrap || (k !in s && LowPrio(cfg, p, settled)) {
        TrapWrites(cfg, s, p, spamtrap);
        var d := if k in s then SeenAgain(cfg, s[k], p.now, true) else NewEntry(cfg, p.now, true);
        AddrWriteAccounted(cfg, log', s, p.tuple.ip, d);
      } else if k in s {
        AccountedTuple(cfg, log, s, p.tuple);
        SeenAgainAccounted(cfg, log, p.tuple, s[k], p.now);
        TupleWriteAccounted(cfg, log', s, p.tuple, SeenAgain(cfg, s[k], p.now, false));
      } else {
        NewEntryAccounted(cfg, log, p.tuple, p.now);
        TupleWriteAccounted(cfg, log', s, p.tuple, NewEntry(cfg, p.now, false));
      }
  }

  lemma TrapWrites(cfg: Config, s: Store, p: Pending, spamtrap: bool)
    ensures var k := EntryKeyOf(p.tuple, spamtrap);
      (if k in s then SeenAgain(cfg, s[k], p.now, true) else NewEntry(cfg, p.now, true)).pcount == TRAPPED
  {
  }

  lemma AccountedTuple(cfg: Config, log: seq<Done>, s: Store, t: Tuple)
    requires Accounted(cfg, log, s) && EncodeKey(TupleKey(t)) in s
    ensures TupleAccounted(cfg, log, EncodeKey(TupleKey(t)), s[EncodeKey(TupleKey(t))])
  {
    KindsDiffer(t, []);
  }

  lemma AddrAccounted(cfg: Config, log: seq<Done>, s: Store, e: Done, spamtrap: bool, ip: Bytes, at: int,
                      expires: Option<int>, del: bool)
    requires Accounted(cfg, log, s)
    requires !(spamtrap || del || expires.None? || expires.value == 0) ==> e == White(ip)
    ensures Accounted(cfg, log + [e], NonGrey(s, spamtrap, ip, at, expires, del))
  {
    LogGrowsAccounted(cfg, log, e, s);
    var k := AddrKey(ip);
    var s' := NonGrey(s, spamtrap, ip, at, expires, del);
    hide Accounted, Earned, AddrKey, NonGrey;
    if k in s' {
      AddrMessageWrites(s, spamtrap, ip, at, expires, del);
      if e == White(ip) { WhiteEarned(cfg, log, ip); }
      if s' != s { AddrWriteAccounted(cfg, log + [e], s, ip, s'[k]); }
    } else {
      AddrMessageDeletes(cfg, log + [e], s, spamtrap, ip, at, expires, del);
    }
  }

  lemma WhiteEarned(cfg: Config, log: seq<Done>, ip: Bytes)
    ensures Earned(cfg, log + [White(ip)], ip)
  {
    assert White(ip) in log + [White(ip)];
  }

  lemma AddrMessageWrites(s: Store, spamtrap: bool, ip: Bytes, at: int, expires: Option<int>, del: bool)
    requires var s' := NonGrey(s, spamtrap, ip, at, expires, del); AddrKey(ip) in s'
    ensures var s' := NonGrey(s, spamtrap, ip, at, expires, del);
      s' == s || (s' == s[AddrKey(ip) := s'[AddrKey(ip)]] && !del && expires.Some? && expires.value != 0 &&
                  (spamtrap ==> s'[AddrKey(ip)].pcount == TRAPPED))
  {
  }

  lemma AddrMessageDeletes(cfg: Config, log: seq<Done>, s: Store, spamtrap: bool, ip: Bytes, at: int,
                           expires: Option<int>, del: bool)
    requires Accounted(cfg, log, s) && AddrKey(ip) !in NonGrey(s, spamtrap, ip, at, expires, del)
    ensures Accounted(cfg, log, NonGrey(s, spamtrap, ip, at, expires, del))
  {
    hide Earned, TupleAccounted;
    var s' := NonGrey(s, spamtrap, ip, at, expires, del);
    assert s' == s || s' == s - {AddrKey(ip)};
  }

  /** An accounted tuple that a scan promotes was retried in time. */
  lemma PromotedWasRetried(cfg: Config, log: seq<Done>, s: Store, t: Bytes, now: int)
    requires Accounted(cfg, log, s) && Promoted(s, t, now)
    ensures Retried(cfg, log, t, s[t].first, s[t].pass) && s[t].pass <= now
  {
    assert TupleAccounted(cfg, log, t, s[t]);
  }

  lemma ScanAccounted(cfg: Config, log: seq<Done>, s: Store, now: int, v6: Bytes -> bool)
    requires WellFormed(s) && Accounted(cfg, log, s)
    ensures Accounted(cfg, log, Scan(s, now, cfg.whiteExpiry, v6).store)
  {
    hide Scan, Earned, TupleAccounted, Promoted, Expired;
    var s' := Scan(s, now, cfg.whiteExpiry, v6).store;
    ScanTheorems.ScanStore(s, now, cfg.whiteExpiry, v6);
    forall k | k in s' && IsTuple(k) ensures TupleAccounted(cfg, log, k, s'[k]) {
      ScanTheorems.TuplesAreOld(s, k, now);
    }
    forall a | AddrKey(a) in s' && s'[AddrKey(a)].pcount >= 0 ensures Earned(cfg, log, a) {
      if ScanTheorems.BecomesWhite(s, AddrKey(a), now) { BecameWhiteEarned(cfg, log, s, now, a); }
    }
  }

  lemma BecameWhiteEarned(cfg: Config, log: seq<Done>, s: Store, now: int, a: Bytes)
    requires Accounted(cfg, log, s) && ScanTheorems.BecomesWhite(s, AddrKey(a), now)
    ensures Earned(cfg, log, a)
  {
    hide Earned, AddrKey, Accounted;
    var t :| Promoted(s, t, now) && AddrKey(TupleAddr(t)) == AddrKey(a);
    AddrKeyInjective(a);
    PromotedWasRetried(cfg, log, s, t, now);
    RetryEarns(cfg, log, t, s[t].first, s[t].pass);
  }

  lemma RetryEarns(cfg: Config, log: seq<Done>, k: Bytes, t1: int, t2: int)
    requires IsTuple(k) && Retried(cfg, log, k, t1, t2)
    ensures Earned(cfg, log, TupleAddr(k))
  {
  }

  lemma {:induction false} RunAccounted(cfg: Config, v6: Bytes -> bool, es: seq<Event>)
    ensures var w := Run(cfg, v6, es); Accounted(cfg, w.log, w.store)
  {
    hide Accounted, Scan, FinishGrey, NonGrey, Recorded;
    if es == [] {
      StartAccounted(cfg);
    } else {
      RunAccounted(cfg, v6, es[..|es| - 1]);
      var w := Run(cfg, v6, es[..|es| - 1]);
      match es[|es| - 1]
      case Begin(id, p) =>
      case Finish(id, spf, settled) =>
        if id in w.pending { FinishAccounted(cfg, w.log, w.store, w.pending[id], spf, settled); }
      case Addr(spamtrap, ip, at, expires, del) =>
        var e := if spamtrap || del || expires.None? || expires.value == 0 then Other else White(ip);
        AddrAccounted(cfg, w.log, w.store, e, spamtrap, ip, at, expires, del);
      case ScanTick(time) => ScanAccounted(cfg, w.log, w.store, time, v6);
    }
  }

  lemma StartAccounted(cfg: Config)
    ensures Accounted(cfg, [], map[])
  {
  }

  // ----- the theorems -----

  /** In every run, whatever the clock readings and the interleaving, a tuple that a scan
      would turn into a white address was processed twice, the second time more than
      passTime after the first and not after the scan. */
  lemma NoWhiteWithoutRetry(cfg: Config, v6: Bytes -> bool, es: seq<Event>, t: Bytes, now: int)
    requires Promoted(Run(cfg, v6, es).store, t, now)
    ensures exists t1, t2 :: Retried(cfg, Run(cfg, v6, es).log, t, t1, t2) && t2 <= now
  {
    var w := Run(cfg, v6, es);
    RunAccounted(cfg, v6, es);
    PromotedWasRetried(cfg, w.log, w.store, t, now);
  }

  /** A tuple processed once is never turned white. */
  lemma SeenOnceStaysGrey(cfg: Config, v6: Bytes -> bool, es: seq<Event>, t: Bytes, now: int)
    requires var log := Run(cfg, v6, es).log;
      forall i, j, t1, t2 :: SeenAt(log, i, t, t1) && SeenAt(log, j, t, t2) ==> i == j
    ensures !Promoted(Run(cfg, v6, es).store, t, now)
  {
    hide SeenAt, Promoted;
    if Promoted(Run(cfg, v6, es).store, t, now) {
      NoWhiteWithoutRetry(cfg, v6, es, t, now);
    }
  }

  /** With separable tuples, both messages carried the very tuple that is promoted. */
  lemma RetryIsOfTheTuple(log: seq<Done>, i: int, t: Tuple, at: int)
    requires forall n :: 0 <= n < |log| && log[n].Grey? ==> Separable(log[n].tuple)
    requires Separable(t) && SeenAt(log, i, EncodeKey(TupleKey(t)), at)
    ensures log[i] == Grey(t, at)
  {
    DecodeOfEncode(TupleKey(t));
    DecodeOfEncode(TupleKey(log[i].tuple));
  }

  /** Every address a scan reports white, in every run, was sent as white, passed SPF, or
      belongs to a tuple that was retried after passTime. */
  lemma WhitelistIsEarned(cfg: Config, v6: Bytes -> bool, es: seq<Event>, now: int, a: Bytes)
    requires var p := Scan(Run(cfg, v6, es).store, now, cfg.whiteExpiry, v6);
      a in p.res.whitelist || a in p.res.whitelistV6
    ensures Earned(cfg, Run(cfg, v6, es).log, a)
  {
    hide Scan, Earned, TupleAccounted;
    var w := Run(cfg, v6, es);
    RunAccounted(cfg, v6, es);
    ScanTheorems.ScanLists(w.store, now, cfg.whiteExpiry, v6);
    ScanAccounted(cfg, w.log, w.store, now, v6);
  }

  /** Of two messages that neither the trap check, SPF nor the low priority rule singles out, the
      first never makes a tuple passable; the second does so exactly when it comes later than
      passTime, from its own reading until the grey expiry. */
  lemma RetryIsRewarded(cfg: Config, s: Store, p: Pending, q: Pending, spf: SpfResult, spf': SpfResult,
                        settled: bool, settled': bool, now: int)
    requires p.tuple == q.tuple && EncodeKey(TupleKey(p.tuple)) !in s
    requires Decide(cfg, p, spf) == Entry(false) && !LowPrio(cfg, p, settled) && Decide(cfg, q, spf') == Entry(false)
    ensures var k := EncodeKey(TupleKey(p.tuple));
      var s1 := FinishGrey(cfg, s, p, spf, settled);
      var s2 := FinishGrey(cfg, s1, q, spf', settled');
      && !Passable(s1, k, now)
      && (Passable(s2, k, now) <==> p.now + cfg.passTime < q.now && q.now <= now < p.now + cfg.greyExpiry)
  {
    KindsDiffer(p.tuple, p.tuple.ip);
  }

  /** A passable tuple of an address without a live entry gets that address on the whitelist of
      its family at the next scan. */
  lemma PassableIsWhitelisted(s: Store, k: Bytes, now: int, whiteExp: int, v6: Bytes -> bool)
    requires WellFormed(s) && Passable(s, k, now) && Vacant(s, TupleAddr(k), now)
    ensures var r := Scan(s, now, whiteExp, v6).res; var a := TupleAddr(k);
      a in if v6(a) then r.whitelistV6 else r.whitelist
  {
    hide Scan, Less, AddrKey, TupleAddr;
    var ks := SortedKeys(s.Keys);
    assert k in Elems(ks);
    var i :| 0 <= i < |ks| && ks[i] == k;
    var u := FirstPassable(s, ks, i, now);
    ScanTheorems.ScanStore(s, now, whiteExp, v6);
    assert ScanTheorems.BecomesWhite(s, AddrKey(TupleAddr(u)), now);
    ScanTheorems.ScanLists(s, now, whiteExp, v6);
  }
}
