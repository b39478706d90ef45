/** The promise of greylisting over whole runs: a sender that comes back in time is let in, whatever
    else the daemon does before, between and after. */
module GreyPromise {
  import opened Basics
  import opened ByteStrings
  import opened Keys
  import opened ScanSpec
  import opened Greylister

  function KeyOf(t: Tuple): (k: Bytes)
    ensures IsTuple(k)
  {
    KindsDiffer(t, t.ip);
    EncodeKey(TupleKey(t))
  }

  // ----- worlds after events -----

  ghost function After(cfg: Config, v6: Bytes -> bool, w: World, e: Event): (w': World)
    requires WellFormed(w.store)
    ensures WellFormed(w'.store)
  {
    StepWellFormed(cfg, v6, w, e);
    Step(cfg, v6, w, e)
  }

  ghost function Follow(cfg: Config, v6: Bytes -> bool, w: World, es: seq<Event>): (w': World)
    requires WellFormed(w.store)
    ensures WellFormed(w'.store)
    decreases |es|
  {
    if es == [] then w else Follow(cfg, v6, After(cfg, v6, w, es[0]), es[1..])
  }

  lemma RunSnoc(cfg: Config, v6: Bytes -> bool, es: seq<Event>, e: Event)
    ensures Run(cfg, v6, es + [e]) == After(cfg, v6, Run(cfg, v6, es), e)
  {
    assert (es + [e])[..|es|] == es;
  }

  lemma {:induction false} RunConcat(cfg: Config, v6: Bytes -> bool, es: seq<Event>, fs: seq<Event>)
    ensures Run(cfg, v6, es + fs) == Follow(cfg, v6, Run(cfg, v6, es), fs)
    decreases |fs|
  {
    hide Run, After;
    if fs == [] {
      assert es + fs == es;
    } else {
      RunSnoc(cfg, v6, es, fs[0]);
      assert es + fs == es + [fs[0]] + fs[1..];
      RunConcat(cfg, v6, es + [fs[0]], fs[1..]);
    }
  }

  // ----- a tuple under watch -----

  /** The key of a tuple, the times of its first delivery and its expiry, and the reading at which
      its address should be found white. */
  datatype Watch = Watch(k: Bytes, first: int, expire: int, now: int)

  ghost predicate Watchable(x: Watch) { IsTuple(x.k) && x.now < x.expire }

  /** At the reading, the entry of the address, if there is one, is expired or white and due. */
  ghost predicate Untrapped(s: Store, a: Bytes, now: int) {
    AddrKey(a) in s ==> Expired(s[AddrKey(a)], now) || Due(s[AddrKey(a)], now)
  }

  /** The entry of the address is white and due at the reading, and outlasts it. */
  ghost predicate White(s: Store, a: Bytes, now: int) {
    AddrKey(a) in s && Due(s[AddrKey(a)], now) && now < s[AddrKey(a)].expire
  }

  ghost predicate Stored(s: Store, x: Watch) {
    x.k in s && s[x.k].first == x.first && s[x.k].expire == x.expire && s[x.k].pcount == 0
  }

  /** Delivered once: the pass time is still the expiry. */
  ghost predicate Noted(s: Store, x: Watch) {
    Watchable(x) && Stored(s, x) && s[x.k].pass == x.expire && Untrapped(s, TupleAddr(x.k), x.now)
  }

  /** Retried in time: the address is white already, or the tuple will pass at the reading. */
  ghost predicate Rewarded(cfg: Config, s: Store, x: Watch) {
    && Watchable(x) && Untrapped(s, TupleAddr(x.k), x.now)
    && (White(s, TupleAddr(x.k), x.now) || (Stored(s, x) && x.first + cfg.passTime < s[x.k].pass <= x.now))
  }

  /** A grey message that writes the entry of its tuple: no trap, no SPF pass, and, where there is
      no entry yet, no low priority rule. */
  ghost predicate WritesTuple(cfg: Config, s: Store, p: Pending, spf: SpfResult, settled: bool) {
    Decide(cfg, p, spf) == Entry(false) && (KeyOf(p.tuple) in s || !LowPrio(cfg, p, settled))
  }

  /** A delivery of any other tuple, or of this one: before the retry it must come too early to be
      one, and afterwards not later than the reading. */
  predicate TimelyDelivery(cfg: Config, p: Pending, x: Watch, retried: bool) {
    KeyOf(p.tuple) == x.k ==> p.now <= if retried then x.now else x.first + cfg.passTime
  }

  /** The events that may happen around the two deliveries. Excluded are a trap set on the address,
      and what takes a white entry away before the reading: its deletion once it may count, an SPF
      pass or a re-keying that gives it too short a life, and a clock beyond the reading. */
  ghost predicate Harmless(cfg: Config, w: World, e: Event, x: Watch, retried: bool)
    requires IsTuple(x.k)
  {
    var a := TupleAddr(x.k);
    match e
    case Begin(_, _) => true
    case Finish(id, spf, settled) =>
      id in w.pending ==> HarmlessFinish(cfg, w.store, w.pending[id], spf, settled, x, retried)
    case Addr(spamtrap, ip, at, _, del) => ip != a || (if del then !retried else !spamtrap && at <= x.now)
    case ScanTick(time) =>
      time <= x.now && (retried && x.first + cfg.passTime < time ==> x.now < time + cfg.whiteExpiry)
  }

  ghost predicate HarmlessFinish(cfg: Config, s: Store, p: Pending, spf: SpfResult, settled: bool,
                                 x: Watch, retried: bool)
    requires IsTuple(x.k)
  {
    if WritesTuple(cfg, s, p, spf, settled) then TimelyDelivery(cfg, p, x, retried)
    else
      || p.tuple.ip != TupleAddr(x.k)
      || (Decide(cfg, p, spf) == SpfWhite && p.now <= x.now && (retried ==> x.now < p.now + cfg.whiteExpiry))
  }

  ghost predicate HarmlessRun(cfg: Config, v6: Bytes -> bool, w: World, es: seq<Event>, x: Watch, retried: bool)
    requires WellFormed(w.store) && IsTuple(x.k)
    decreases |es|
  {
    es != [] ==>
      && Harmless(cfg, w, es[0], x, retried)
      && HarmlessRun(cfg, v6, After(cfg, v6, w, es[0]), es[1..], x, retried)
  }

  /** What the events keep: noted until the retry, rewarded from then on. */
  ghost predicate Promised(cfg: Config, s: Store, x: Watch, retried: bool) {
    if retried then Rewarded(cfg, s, x) else Noted(s, x)
  }

  // ----- each event keeps the promise -----

  lemma AddressIsNoTuple(x: Watch, ip: Bytes)
    requires IsTuple(x.k)
    ensures AddrKey(ip) != x.k && !IsTuple(AddrKey(ip))
    ensures AddrKey(ip) == AddrKey(TupleAddr(x.k)) <==> ip == TupleAddr(x.k)
  {
    KindsDiffer(NO_TUPLE, ip);
    AddrKeyInjective(ip);
  }

  /** Writing a tuple other than the watched one. */
  lemma OtherTupleWritten(cfg: Config, s: Store, l: Bytes, d: Data, x: Watch, retried: bool)
    requires Promised(cfg, s, x, retried) && IsTuple(l) && l != x.k
    ensures Promised(cfg, s[l := d], x, retried)
  {
    hide IsTuple, TupleAddr, AddrKey;
    AddressIsNoTuple(x, TupleAddr(x.k));
  }

  /** Writing the entry of an address: another one, or white and due, and lasting if it may count. */
  lemma AddressWritten(cfg: Config, s: Store, ip: Bytes, d: Data, x: Watch, retried: bool)
    requires Promised(cfg, s, x, retried)
    requires ip == TupleAddr(x.k) ==> Due(d, x.now) || Expired(d, x.now)
    requires ip == TupleAddr(x.k) && retried && White(s, ip, x.now) ==> Due(d, x.now) && x.now < d.expire
    ensures Promised(cfg, s[AddrKey(ip) := d], x, retried)
  {
    hide IsTuple, TupleAddr, AddrKey;
    AddressIsNoTuple(x, ip);
  }

  lemma AddressDeleted(cfg: Config, s: Store, ip: Bytes, x: Watch, retried: bool)
    requires Promised(cfg, s, x, retried) && (ip == TupleAddr(x.k) ==> !retried)
    ensures Promised(cfg, s - {AddrKey(ip)}, x, retried)
  {
    hide IsTuple, TupleAddr, AddrKey;
    AddressIsNoTuple(x, ip);
  }

  /** A delivery of the watched tuple itself. */
  lemma OwnDelivery(cfg: Config, s: Store, p: Pending, spf: SpfResult, settled: bool, x: Watch, retried: bool)
    requires Promised(cfg, s, x, retried) && KeyOf(p.tuple) == x.k && WritesTuple(cfg, s, p, spf, settled)
    requires TimelyDelivery(cfg, p, x, retried)
    ensures Promised(cfg, FinishGrey(cfg, s, p, spf, settled), x, retried)
  {
    hide IsTuple, TupleAddr, AddrKey;
    AddressIsNoTuple(x, TupleAddr(x.k));
  }

  lemma TupleDelivery(cfg: Config, s: Store, p: Pending, spf: SpfResult, settled: bool)
    requires WritesTuple(cfg, s, p, spf, settled)
    ensures var s' := FinishGrey(cfg, s, p, spf, settled); var k := KeyOf(p.tuple);
      k in s' && s' == s[k := s'[k]]
  {
  }

  lemma AddressDelivery(cfg: Config, s: Store, p: Pending, spf: SpfResult, settled: bool)
    requires !WritesTuple(cfg, s, p, spf, settled)
    ensures var s' := FinishGrey(cfg, s, p, spf, settled); var l := AddrKey(p.tuple.ip);
      && l in s' && s' == s[l := s'[l]]
      && (Decide(cfg, p, spf) == SpfWhite ==> s'[l] == Data(p.now, p.now, p.now + cfg.whiteExpiry, 0, 0))
  {
  }

  lemma FinishKeeps(cfg: Config, s: Store, p: Pending, spf: SpfResult, settled: bool, x: Watch, retried: bool)
    requires Promised(cfg, s, x, retried) && HarmlessFinish(cfg, s, p, spf, settled, x, retried)
    ensures Promised(cfg, FinishGrey(cfg, s, p, spf, settled), x, retried)
  {
    hide Promised, FinishGrey, WritesTuple, Decide, AddrKey, TupleAddr, IsTuple, EncodeKey;
    var s' := FinishGrey(cfg, s, p, spf, settled);
    if WritesTuple(cfg, s, p, spf, settled) {
      TupleDelivery(cfg, s, p, spf, settled);
      if KeyOf(p.tuple) == x.k {
        OwnDelivery(cfg, s, p, spf, settled, x, retried);
      } else {
        OtherTupleWritten(cfg, s, KeyOf(p.tuple), s'[KeyOf(p.tuple)], x, retried);
      }
    } else {
      AddressDelivery(cfg, s, p, spf, settled);
      AddressWritten(cfg, s, p.tuple.ip, s'[AddrKey(p.tuple.ip)], x, retried);
    }
  }

  lemma AddrKeeps(cfg: Config, s: Store, spamtrap: bool, ip: Bytes, at: int, expires: Option<int>, del: bool,
                  x: Watch, retried: bool)
    requires Promised(cfg, s, x, retried)
    requires ip != TupleAddr(x.k) || (if del then !retried else !spamtrap && at <= x.now)
    ensures Promised(cfg, NonGrey(s, spamtrap, ip, at, expires, del), x, retried)
  {
    hide AddrKey, TupleAddr, IsTuple;
    var s' := NonGrey(s, spamtrap, ip, at, expires, del);
    if del {
      if s' != s { AddressDeleted(cfg, s, ip, x, retried); }
    } else if AddrKey(ip) in s' && s' != s {
      AddressWritten(cfg, s, ip, s'[AddrKey(ip)], x, retried);
    }
  }

  lemma ScanUntrapped(s: Store, time: int, whiteExp: int, v6: Bytes -> bool, a: Bytes, now: int)
    requires WellFormed(s) && Untrapped(s, a, now) && time <= now
    ensures Untrapped(Scan(s, time, whiteExp, v6).store, a, now)
  {
    hide Scan, AddrKey, TupleAddr, Less, Vacant;
    ScanTheorems.ScanStore(s, time, whiteExp, v6);
    var s' := Scan(s, time, whiteExp, v6).store;
    if AddrKey(a) in s' && !ScanSpec.Stays(s, AddrKey(a), time) {
      var t :| Promoted(s, t, time) && AddrKey(TupleAddr(t)) == AddrKey(a);
    }
  }

  lemma ScanKeepsNoted(cfg: Config, s: Store, time: int, v6: Bytes -> bool, x: Watch)
    requires WellFormed(s) && Noted(s, x) && time <= x.now
    ensures Noted(Scan(s, time, cfg.whiteExpiry, v6).store, x)
  {
    hide Scan, AddrKey, TupleAddr, Less, Vacant;
    ScanUntrapped(s, time, cfg.whiteExpiry, v6, TupleAddr(x.k), x.now);
    ScanTheorems.ScanStore(s, time, cfg.whiteExpiry, v6);
    assert ScanSpec.Stays(s, x.k, time);
  }

  lemma ScanKeepsWhite(s: Store, time: int, whiteExp: int, v6: Bytes -> bool, a: Bytes, now: int)
    requires WellFormed(s) && White(s, a, now) && time <= now
    ensures White(Scan(s, time, whiteExp, v6).store, a, now)
  {
    hide Scan, AddrKey, TupleAddr, Less, Vacant;
    KindsDiffer(NO_TUPLE, a);
    ScanTheorems.ScanStore(s, time, whiteExp, v6);
    assert ScanSpec.Stays(s, AddrKey(a), time);
  }

  lemma ScanKeepsRewarded(cfg: Config, s: Store, time: int, v6: Bytes -> bool, x: Watch)
    requires WellFormed(s) && Rewarded(cfg, s, x) && time <= x.now
    requires x.first + cfg.passTime < time ==> x.now < time + cfg.whiteExpiry
    ensures Rewarded(cfg, Scan(s, time, cfg.whiteExpiry, v6).store, x)
  {
    hide Scan, AddrKey, TupleAddr, Less, Vacant;
    var a := TupleAddr(x.k);
    ScanUntrapped(s, time, cfg.whiteExpiry, v6, a, x.now);
    if White(s, a, x.now) {
      ScanKeepsWhite(s, time, cfg.whiteExpiry, v6, a, x.now);
    } else {
      ScanTheorems.ScanStore(s, time, cfg.whiteExpiry, v6);
      if Promoted(s, x.k, time) {
        assert ScanTheorems.BecomesWhite(s, AddrKey(a), time);
      } else {
        assert ScanSpec.Stays(s, x.k, time);
      }
    }
  }

  lemma HarmlessStep(cfg: Config, v6: Bytes -> bool, w: World, e: Event, x: Watch, retried: bool)
    requires WellFormed(w.store) && IsTuple(x.k)
    requires Promised(cfg, w.store, x, retried) && Harmless(cfg, w, e, x, retried)
    ensures Promised(cfg, After(cfg, v6, w, e).store, x, retried)
  {
    hide Noted, Rewarded, FinishGrey, NonGrey, Scan, HarmlessFinish, WellFormed, IsTuple, TupleAddr;
    match e
    case Begin(_, _) =>
    case Finish(id, spf, settled) =>
      if id in w.pending { FinishKeeps(cfg, w.store, w.pending[id], spf, settled, x, retried); }
    case Addr(spamtrap, ip, at, expires, del) =>
      AddrKeeps(cfg, w.store, spamtrap, ip, at, expires, del, x, retried);
    case ScanTick(time) =>
      if retried { ScanKeepsRewarded(cfg, w.store, time, v6, x); } else { ScanKeepsNoted(cfg, w.store, time, v6, x); }
  }

  /** Any number of harmless events, in any order, keeps the promise. */
  lemma {:induction false} HarmlessFollow(cfg: Config, v6: Bytes -> bool, w: World, es: seq<Event>, x: Watch,
                                          retried: bool)
    requires WellFormed(w.store) && IsTuple(x.k)
    requires Promised(cfg, w.store, x, retried) && HarmlessRun(cfg, v6, w, es, x, retried)
    ensures Promised(cfg, Follow(cfg, v6, w, es).store, x, retried)
    decreases |es|
  {
    hide Promised, Harmless, After, WellFormed, IsTuple;
    if es != [] {
      HarmlessStep(cfg, v6, w, es[0], x, retried);
      HarmlessFollow(cfg, v6, After(cfg, v6, w, es[0]), es[1..], x, retried);
    }
  }

  // ----- from the first delivery to the whitelist -----

  lemma FirstDelivery(cfg: Config, s: Store, p: Pending, spf: SpfResult, settled: bool, now: int)
    requires KeyOf(p.tuple) !in s && Untrapped(s, TupleAddr(KeyOf(p.tuple)), now)
    requires WritesTuple(cfg, s, p, spf, settled) && now < p.now + cfg.greyExpiry
    ensures Noted(FinishGrey(cfg, s, p, spf, settled), Watch(KeyOf(p.tuple), p.now, p.now + cfg.greyExpiry, now))
  {
    hide IsTuple, TupleAddr, AddrKey;
    KindsDiffer(p.tuple, TupleAddr(KeyOf(p.tuple)));
  }

  /** The retry: more than the pass time after the first delivery, and not after the reading. */
  lemma SecondDelivery(cfg: Config, s: Store, q: Pending, spf: SpfResult, settled: bool, x: Watch)
    requires Noted(s, x) && KeyOf(q.tuple) == x.k && Decide(cfg, q, spf) == Entry(false)
    requires x.first + cfg.passTime < q.now <= x.now
    ensures Rewarded(cfg, FinishGrey(cfg, s, q, spf, settled), x)
  {
    hide IsTuple, TupleAddr, AddrKey;
    AddressIsNoTuple(x, TupleAddr(x.k));
  }

  /** The scan at the reading puts the address on the whitelist of its family. */
  ghost predicate Reported(cfg: Config, v6: Bytes -> bool, s: Store, a: Bytes, now: int)
    requires WellFormed(s)
  {
    var r := Scan(s, now, cfg.whiteExpiry, v6).res;
    a in if v6(a) then r.whitelistV6 else r.whitelist
  }

  lemma WhiteReported(cfg: Config, v6: Bytes -> bool, s: Store, a: Bytes, now: int)
    requires WellFormed(s) && AddrKey(a) in s && Due(s[AddrKey(a)], now) && !Expired(s[AddrKey(a)], now)
    ensures Reported(cfg, v6, s, a, now)
  {
    hide Scan, AddrKey, Less, Vacant;
    KindsDiffer(NO_TUPLE, a);
    ScanTheorems.ScanStore(s, now, cfg.whiteExpiry, v6);
    assert ScanSpec.Stays(s, AddrKey(a), now);
    ScanTheorems.ScanLists(s, now, cfg.whiteExpiry, v6);
  }

  lemma RewardedReported(cfg: Config, v6: Bytes -> bool, s: Store, x: Watch)
    requires WellFormed(s) && Rewarded(cfg, s, x)
    ensures Reported(cfg, v6, s, TupleAddr(x.k), x.now)
  {
    hide Scan, AddrKey, TupleAddr, Less, IsTuple;
    var a := TupleAddr(x.k);
    if Vacant(s, a, x.now) {
      PassableIsWhitelisted(s, x.k, x.now, cfg.whiteExpiry, v6);
    } else {
      WhiteReported(cfg, v6, s, a, x.now);
    }
  }

  /** Two deliveries that are in flight when they are finished, with the events in between, the
      events after them, and a reading. */
  datatype Retry = Retry(id: nat, spf: SpfResult, settled: bool, between: seq<Event>,
                         id': nat, spf': SpfResult, settled': bool, after: seq<Event>, now: int)

  function Events(r: Retry): seq<Event> {
    [Finish(r.id, r.spf, r.settled)] + r.between + [Finish(r.id', r.spf', r.settled')] + r.after
  }

  ghost function AfterFirst(cfg: Config, v6: Bytes -> bool, w: World, r: Retry): (w': World)
    requires WellFormed(w.store)
    ensures WellFormed(w'.store)
  {
    After(cfg, v6, w, Finish(r.id, r.spf, r.settled))
  }

  ghost function BeforeSecond(cfg: Config, v6: Bytes -> bool, w: World, r: Retry): (w': World)
    requires WellFormed(w.store)
    ensures WellFormed(w'.store)
  {
    Follow(cfg, v6, AfterFirst(cfg, v6, w, r), r.between)
  }

  ghost function AfterSecond(cfg: Config, v6: Bytes -> bool, w: World, r: Retry): (w': World)
    requires WellFormed(w.store)
    ensures WellFormed(w'.store)
  {
    After(cfg, v6, BeforeSecond(cfg, v6, w, r), Finish(r.id', r.spf', r.settled'))
  }

  function WatchOf(cfg: Config, p: Pending, now: int): Watch {
    Watch(KeyOf(p.tuple), p.now, p.now + cfg.greyExpiry, now)
  }

  /** A new tuple whose address is not trapped is delivered, and delivered again more than the pass
      time later; the reading lies between that retry and the grey expiry, and everything else that
      happens is harmless. */
  ghost predicate InTime(cfg: Config, v6: Bytes -> bool, w: World, r: Retry)
    requires WellFormed(w.store)
  {
    && r.id in w.pending && r.id' in BeforeSecond(cfg, v6, w, r).pending
    && var p, q := w.pending[r.id], BeforeSecond(cfg, v6, w, r).pending[r.id'];
    var x := WatchOf(cfg, p, r.now);
    && x.k !in w.store && Untrapped(w.store, TupleAddr(x.k), r.now)
    && WritesTuple(cfg, w.store, p, r.spf, r.settled)
    && HarmlessRun(cfg, v6, AfterFirst(cfg, v6, w, r), r.between, x, false)
    && KeyOf(q.tuple) == x.k && Decide(cfg, q, r.spf') == Entry(false)
    && p.now + cfg.passTime < q.now <= r.now < p.now + cfg.greyExpiry
    && HarmlessRun(cfg, v6, AfterSecond(cfg, v6, w, r), r.after, x, true)
  }

  lemma RetryInWorld(cfg: Config, v6: Bytes -> bool, w: World, r: Retry)
    requires WellFormed(w.store) && InTime(cfg, v6, w, r)
    ensures Reported(cfg, v6, Follow(cfg, v6, AfterSecond(cfg, v6, w, r), r.after).store,
                     TupleAddr(KeyOf(w.pending[r.id].tuple)), r.now)
  {
    hide Noted, Rewarded, HarmlessRun, Untrapped, WritesTuple, FinishGrey, Decide, Follow, Reported, WellFormed,
      IsTuple;
    var p, q := w.pending[r.id], BeforeSecond(cfg, v6, w, r).pending[r.id'];
    var x := WatchOf(cfg, p, r.now);
    FirstDelivery(cfg, w.store, p, r.spf, r.settled, r.now);
    HarmlessFollow(cfg, v6, AfterFirst(cfg, v6, w, r), r.between, x, false);
    SecondDelivery(cfg, BeforeSecond(cfg, v6, w, r).store, q, r.spf', r.settled', x);
    HarmlessFollow(cfg, v6, AfterSecond(cfg, v6, w, r), r.after, x, true);
    RewardedReported(cfg, v6, Follow(cfg, v6, AfterSecond(cfg, v6, w, r), r.after).store, x);
  }

  lemma EventsFollow(cfg: Config, v6: Bytes -> bool, es: seq<Event>, r: Retry)
    ensures Run(cfg, v6, es + Events(r)) ==
            Follow(cfg, v6, AfterSecond(cfg, v6, Run(cfg, v6, es), r), r.after)
  {
    hide Run, After, Follow;
    var first, second := Finish(r.id, r.spf, r.settled), Finish(r.id', r.spf', r.settled');
    RunSnoc(cfg, v6, es, first);
    RunConcat(cfg, v6, es + [first], r.between);
    RunSnoc(cfg, v6, es + [first] + r.between, second);
    RunConcat(cfg, v6, es + [first] + r.between + [second], r.after);
    assert es + Events(r) == es + [first] + r.between + [second] + r.after;
  }

  /** In every run, a sender that comes back in time is whitelisted: whatever other tuples the address
      has, however many scans and further retries there are, each scan at a reading between the retry
      and the grey expiry lists the address. */
  lemma RetryInRunIsWhitelisted(cfg: Config, v6: Bytes -> bool, es: seq<Event>, r: Retry)
    requires InTime(cfg, v6, Run(cfg, v6, es), r)
    ensures Reported(cfg, v6, Run(cfg, v6, es + Events(r)).store,
                     TupleAddr(KeyOf(Run(cfg, v6, es).pending[r.id].tuple)), r.now)
  {
    hide InTime, Run, Reported, Follow, AfterSecond;
    assert r.id in Run(cfg, v6, es).pending by { InTimePending(cfg, v6, Run(cfg, v6, es), r); }
    RetryInWorld(cfg, v6, Run(cfg, v6, es), r);
    EventsFollow(cfg, v6, es, r);
  }

  lemma InTimePending(cfg: Config, v6: Bytes -> bool, w: World, r: Retry)
    requires WellFormed(w.store) && InTime(cfg, v6, w, r)
    ensures r.id in w.pending
  {
  }

  // ----- it does happen -----

  /** A passable tuple, alone with its address, is the one a scan re-keys. */
  lemma AloneIsPromoted(s: Store, k: Bytes, now: int)
    requires Passable(s, k, now) && s.Keys == {k}
    ensures Promoted(s, k, now)
  {
    hide AddrKey, TupleAddr, IsTuple;
    LessIrreflexive(k);
    KindsDiffer(NO_TUPLE, TupleAddr(k));
  }

  /** For every tuple there is a run, four transactions from the empty store, after which a scan
      re-keys it. */
  lemma SomeRunPromotes(cfg: Config, v6: Bytes -> bool, t: Tuple)
    requires cfg.passTime + 1 < cfg.greyExpiry
    ensures exists es, now :: Promoted(Run(cfg, v6, es).store, KeyOf(t), now)
  {
    hide Promoted, IsTuple, TupleAddr, EncodeKey, Run, FinishGrey, Passable;
    var p := Pending(t, false, [], 0, false);
    var q := p.(now := cfg.passTime + 1);
    var es := [Begin(0, p), Finish(0, SpfNone, false), Begin(1, q), Finish(1, SpfNone, false)];
    FourSteps(cfg, v6, p, q);
    RetryIsRewarded(cfg, map[], p, q, SpfNone, SpfNone, false, false, q.now);
    TwoDeliveries(cfg, p, q);
    AloneIsPromoted(Run(cfg, v6, es).store, KeyOf(t), q.now);
  }

  lemma TwoDeliveries(cfg: Config, p: Pending, q: Pending)
    requires p.tuple == q.tuple && !p.sync && !p.trap && !q.sync && !q.trap
    ensures FinishGrey(cfg, FinishGrey(cfg, map[], p, SpfNone, false), q, SpfNone, false).Keys == {KeyOf(p.tuple)}
  {
    hide EncodeKey, IsTuple;
  }

  /** And there is a run with a retry in time, for every tuple and every trap, SPF and low priority
      setting that leaves it alone. */
  lemma SomeRetryIsInTime(cfg: Config, v6: Bytes -> bool, t: Tuple)
    requires cfg.passTime + 1 < cfg.greyExpiry
    ensures exists es, r :: InTime(cfg, v6, Run(cfg, v6, es), r)
  {
    hide IsTuple, TupleAddr, EncodeKey, Run, FinishGrey;
    var p := Pending(t, false, [], 0, false);
    var q := p.(now := cfg.passTime + 1);
    RunSnoc(cfg, v6, [], Begin(0, p));
    RunSnoc(cfg, v6, [Begin(0, p)], Begin(1, q));
    RunNothing(cfg, v6);
    assert [] + [Begin(0, p)] == [Begin(0, p)];
    var w := Run(cfg, v6, [Begin(0, p)] + [Begin(1, q)]);
    assert w == World(map[], map[0 := p, 1 := q], []);
    var r := Retry(0, SpfNone, false, [], 1, SpfNone, false, [], q.now);
    assert InTime(cfg, v6, w, r);
  }

  lemma FourSteps(cfg: Config, v6: Bytes -> bool, p: Pending, q: Pending)
    ensures Run(cfg, v6, [Begin(0, p), Finish(0, SpfNone, false), Begin(1, q), Finish(1, SpfNone, false)]).store ==
            FinishGrey(cfg, FinishGrey(cfg, map[], p, SpfNone, false), q, SpfNone, false)
  {
    hide FinishGrey, Run;
    var a, b, c, d := Begin(0, p), Finish(0, SpfNone, false), Begin(1, q), Finish(1, SpfNone, false);
    RunSnoc(cfg, v6, [], a);
    RunSnoc(cfg, v6, [a], b);
    RunSnoc(cfg, v6, [a, b], c);
    RunSnoc(cfg, v6, [a, b, c], d);
    RunNothing(cfg, v6);
    assert [] + [a] == [a] && [a] + [b] == [a, b] && [a, b] + [c] == [a, b, c] && [a, b, c] + [d] == [a, b, c, d];
  }

  lemma RunNothing(cfg: Config, v6: Bytes -> bool)
    ensures Run(cfg, v6, []) == INIT
  {
  }
}
