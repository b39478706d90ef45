/** What each message does to the store, entry by entry and field by field. */
module GreyFields {
  import opened Basics
  import opened ByteStrings
  import opened Keys
  import opened ScanSpec
  import opened Greylister

  /** The recipient is a trap, or SPF fails the sender hard or, where that counts, softly. */
  predicate Condemned(cfg: Config, p: Pending, spf: SpfResult) {
    p.trap || (cfg.spf && p.sync && (spf == SpfFail || (spf == SpfSoftFail && cfg.trapOnSoftfail)))
  }

  /** SPF passes the sender and that is enough. */
  predicate Cleared(cfg: Config, p: Pending, spf: SpfResult) {
    !p.trap && cfg.spf && p.sync && spf == SpfPass && cfg.whitelistOnPass
  }

  /** A tuple not seen before tries the low priority MX first, after the start-up grace. */
  predicate WrongDoor(cfg: Config, s: Store, p: Pending, settled: bool) {
    p.sync && cfg.lowPrioMX != [] && p.dst == cfg.lowPrioMX && settled && EncodeKey(TupleKey(p.tuple)) !in s
  }

  predicate Traps(cfg: Config, s: Store, p: Pending, spf: SpfResult, settled: bool) {
    Condemned(cfg, p, spf) || (!Cleared(cfg, p, spf) && WrongDoor(cfg, s, p, settled))
  }

  /** All entries but one are as they were, and that one is there. */
  ghost predicate OnlyWrites(s: Store, s': Store, k: Bytes) {
    s'.Keys == s.Keys + {k} && forall x :: x in s && x != k ==> s'[x] == s[x]
  }

  /** A second look at an entry: one more block count, and the pass time if it is late enough. */
  predicate SeenOnce(cfg: Config, d: Data, d': Data, now: int, pcount: int) {
    && d'.first == d.first && d'.expire == d.expire && d'.bcount == d.bcount + 1 && d'.pcount == pcount
    && d'.pass == if now > d.first + cfg.passTime then now else d.pass
  }

  /** A message that traps writes the entry of its address and nothing else: a new one for the trap
      expiry, or, for a condemned sender already known, the old one turned into a trap. */
  lemma TrapOutcome(cfg: Config, s: Store, p: Pending, spf: SpfResult, settled: bool)
    requires Traps(cfg, s, p, spf, settled)
    ensures var s' := FinishGrey(cfg, s, p, spf, settled); var k := AddrKey(p.tuple.ip);
      && OnlyWrites(s, s', k) && s'[k].pcount == -1
      && (Condemned(cfg, p, spf) && k in s ==> SeenOnce(cfg, s[k], s'[k], p.now, -1))
      && (!Condemned(cfg, p, spf) || k !in s ==>
            s'[k] == Data(p.now, p.now + cfg.trapExpiry, p.now + cfg.trapExpiry, 1, -1))
  {
  }

  /** A message that SPF clears whitelists its address afresh. */
  lemma ClearOutcome(cfg: Config, s: Store, p: Pending, spf: SpfResult, settled: bool)
    requires Cleared(cfg, p, spf)
    ensures var s' := FinishGrey(cfg, s, p, spf, settled); var k := AddrKey(p.tuple.ip);
      OnlyWrites(s, s', k) && s'[k] == Data(p.now, p.now, p.now + cfg.whiteExpiry, 0, 0)
  {
  }

  /** Any other message writes the entry of its tuple: a new one whose pass time is its expiry, or the
      old one seen again. */
  lemma GreyOutcome(cfg: Config, s: Store, p: Pending, spf: SpfResult, settled: bool)
    requires !Traps(cfg, s, p, spf, settled) && !Cleared(cfg, p, spf)
    ensures var s' := FinishGrey(cfg, s, p, spf, settled); var k := EncodeKey(TupleKey(p.tuple));
      && OnlyWrites(s, s', k)
      && (k in s ==> SeenOnce(cfg, s[k], s'[k], p.now, 0))
      && (k !in s ==> s'[k] == Data(p.now, p.now + cfg.greyExpiry, p.now + cfg.greyExpiry, 1, 0))
  {
  }

  /** The entry of the address is written as a trap if and only if one of the three causes holds: a
      trap recipient, an SPF failure that counts, or the low priority rule. */
  lemma TrapsExactly(cfg: Config, s: Store, p: Pending, spf: SpfResult, settled: bool)
    ensures var s' := FinishGrey(cfg, s, p, spf, settled); var k := AddrKey(p.tuple.ip);
      Traps(cfg, s, p, spf, settled) <==> OnlyWrites(s, s', k) && s'[k].pcount == -1
  {
    hide FinishGrey, EncodeKey, AddrKey, Traps, Cleared;
    if Traps(cfg, s, p, spf, settled) {
      TrapOutcome(cfg, s, p, spf, settled);
    } else if Cleared(cfg, p, spf) {
      ClearOutcome(cfg, s, p, spf, settled);
    } else {
      GreyOutcome(cfg, s, p, spf, settled);
      KindsDiffer(p.tuple, p.tuple.ip);
    }
  }

  /** The log of a run calls a message grey, cleared or neither by the same causes. */
  lemma RecordedExactly(cfg: Config, s: Store, p: Pending, spf: SpfResult, settled: bool)
    ensures var e := Recorded(cfg, s, p, spf, settled);
      && (e == Spf(p.tuple.ip) <==> Cleared(cfg, p, spf))
      && (e == Grey(p.tuple, p.now) <==> !Cleared(cfg, p, spf) && !Traps(cfg, s, p, spf, settled))
      && (e == Other <==> Traps(cfg, s, p, spf, settled))
  {
  }

  /** A deleting message leaves no entry for its address and touches nothing else. */
  lemma DeleteOutcome(s: Store, spamtrap: bool, ip: Bytes, now: int, expires: Option<int>)
    ensures var s' := NonGrey(s, spamtrap, ip, now, expires, true);
      s'.Keys == s.Keys - {AddrKey(ip)} && forall x :: x in s' ==> s'[x] == s[x]
  {
  }

  /** Without a usable expiry nothing happens. */
  lemma UnusableOutcome(s: Store, spamtrap: bool, ip: Bytes, now: int, expires: Option<int>)
    requires expires.None? || expires.value == 0
    ensures NonGrey(s, spamtrap, ip, now, expires, false) == s
  {
  }

  /** A trap message: a new trap that never passes before its expiry, or a known address turned into
      a trap with its times kept. */
  lemma TrapMessageOutcome(s: Store, ip: Bytes, now: int, expires: int)
    requires expires != 0
    ensures var s' := NonGrey(s, true, ip, now, Some(expires), false); var k := AddrKey(ip);
      && OnlyWrites(s, s', k)
      && (k !in s ==> s'[k] == Data(now, expires, expires, 0, -1))
      && (k in s ==> s'[k] == Data(s[k].first, s[k].pass, s[k].expire, s[k].bcount + 1, -1))
  {
  }

  /** A white message: a new white entry that has passed at once, or one more pass for a known one. */
  lemma WhiteMessageOutcome(s: Store, ip: Bytes, now: int, expires: int)
    requires expires != 0
    ensures var s' := NonGrey(s, false, ip, now, Some(expires), false); var k := AddrKey(ip);
      && OnlyWrites(s, s', k)
      && (k !in s ==> s'[k] == Data(now, now, expires, 0, 0))
      && (k in s ==> s'[k] == Data(s[k].first, s[k].pass, s[k].expire, s[k].bcount, s[k].pcount + 1))
  {
  }
}
