/** What a scan does to every store, for every clock reading and white expiry. */
module ScanTheorems {
  import opened Basics
  import opened ByteStrings
  import opened Keys
  import opened ScanSpec

  ghost predicate BecomesWhite(m: Store, k: Bytes, now: int) {
    exists t :: Promoted(m, t, now) && AddrKey(TupleAddr(t)) == k
  }

  lemma SortedEntries(m: Store)
    requires WellFormed(m)
    ensures forall k :: k in SortedKeys(m.Keys) ==> EntryKey(k)
  {
    assert forall k :: k in SortedKeys(m.Keys) ==> k in Elems(SortedKeys(m.Keys));
  }

  lemma ScanIsMeaning(m: Store, now: int, whiteExp: int, v6: Bytes -> bool)
    requires WellFormed(m)
    ensures Meaning(m, SortedKeys(m.Keys), now, whiteExp, v6, Scan(m, now, whiteExp, v6))
  {
    hide Meaning, Walk, StrictlySorted;
    var ks := SortedKeys(m.Keys);
    SortedEntries(m);
    WalkMeaning(m, ks, |ks|, now, whiteExp, v6);
    assert ks[..|ks|] == ks;
  }

  lemma NewKeysAreAddresses(m: Store, now: int)
    ensures forall k :: k in NewKeys(m, m.Keys, now) ==> IsAddr(k)
  {
    forall k | k in NewKeys(m, m.Keys, now) ensures IsAddr(k) {
      AddrKeyDecodes(TupleAddr(Origin(m, m.Keys, now, k)));
    }
  }

  /** The final store, entry by entry: unexpired entries stay as they are, except that
      the first passable tuple of an address left with no entry becomes that address's
      entry with a fresh expiry. */
  lemma ScanStore(m: Store, now: int, whiteExp: int, v6: Bytes -> bool)
    requires WellFormed(m)
    ensures var s := Scan(m, now, whiteExp, v6).store;
      && WellFormed(s)
      && (forall k :: k in s <==> Stays(m, k, now) || BecomesWhite(m, k, now))
      && (forall k :: Stays(m, k, now) ==> !BecomesWhite(m, k, now) && s[k] == m[k])
      && (forall t :: Promoted(m, t, now) ==>
            t !in s && s[AddrKey(TupleAddr(t))] == m[t].(expire := now + whiteExp))
  {
    hide Scan, Less, Vacant, AddrKey, TupleAddr, DecodeKey;
    var s := Scan(m, now, whiteExp, v6).store;
    ScanIsStoreAfter(m, now, whiteExp, v6);
    forall k ensures BecomesWhite(m, k, now) <==> k in NewKeys(m, m.Keys, now) {
      WhiteIsNewKey(m, k, now);
    }
    forall t | Promoted(m, t, now)
      ensures t !in s && AddrKey(TupleAddr(t)) in NewKeys(m, m.Keys, now)
      ensures s[AddrKey(TupleAddr(t))] == m[t].(expire := now + whiteExp)
    {
      var k := AddrKey(TupleAddr(t));
      WhiteIsNewKey(m, k, now);
      AddrKeyDecodes(TupleAddr(t));
      NewKeysAreAddresses(m, now);
      assert Origin(m, m.Keys, now, k) == t;
    }
    forall k | BecomesWhite(m, k, now) ensures !Stays(m, k, now) && EntryKey(k) {
      WhiteIsFresh(m, k, now);
    }
  }

  lemma ScanIsStoreAfter(m: Store, now: int, whiteExp: int, v6: Bytes -> bool)
    requires WellFormed(m)
    ensures Scan(m, now, whiteExp, v6).store == StoreAfter(m, m.Keys, now, whiteExp)
  {
    hide Scan, StoreAfter;
    ScanIsMeaning(m, now, whiteExp, v6);
  }

  lemma WhiteIsNewKey(m: Store, k: Bytes, now: int)
    ensures BecomesWhite(m, k, now) <==> k in NewKeys(m, m.Keys, now)
  {
    hide AddrKey, TupleAddr, Less, Vacant;
    if BecomesWhite(m, k, now) {
      var t :| Promoted(m, t, now) && AddrKey(TupleAddr(t)) == k;
      assert t in PromotedIn(m, m.Keys, now);
    }
  }

  lemma WhiteIsFresh(m: Store, k: Bytes, now: int)
    requires BecomesWhite(m, k, now)
    ensures !Stays(m, k, now) && EntryKey(k)
  {
    var t :| Promoted(m, t, now) && AddrKey(TupleAddr(t)) == k;
    AddrKeyDecodes(TupleAddr(t));
  }

  // ----- counting -----

  ghost function ExpiredKeys(m: Store, now: int): set<Bytes> {
    set k | k in m && Expired(m[k], now)
  }

  lemma {:induction false} ImageSize(ts: set<Bytes>, ks: set<Bytes>)
    requires forall t :: t in ts ==> IsTuple(t) && AddrKey(TupleAddr(t)) in ks
    requires forall k :: k in ks ==> exists t :: t in ts && AddrKey(TupleAddr(t)) == k
    requires forall t, u :: t in ts && u in ts && TupleAddr(t) == TupleAddr(u) ==> t == u
    ensures |ts| == |ks|
  {
    hide AddrKey, TupleAddr, IsTuple;
    if ts == {} {
      assert ks == {};
    } else {
      var t :| t in ts;
      var k := AddrKey(TupleAddr(t));
      forall u | u in ts - {t} ensures AddrKey(TupleAddr(u)) in ks - {k} {
        AddrKeyDecodes(TupleAddr(u));
        AddrKeyDecodes(TupleAddr(t));
      }
      forall x | x in ks - {k} ensures exists u :: u in ts - {t} && AddrKey(TupleAddr(u)) == x {
        var u :| u in ts && AddrKey(TupleAddr(u)) == x;
        assert u in ts - {t};
      }
      ImageSize(ts - {t}, ks - {k});
    }
  }

  lemma NewKeysSize(m: Store, now: int)
    ensures |NewKeys(m, m.Keys, now)| == |PromotedIn(m, m.Keys, now)|
  {
    hide AddrKey, TupleAddr, Less, Vacant;
    var ts := PromotedIn(m, m.Keys, now);
    forall t, u | t in ts && u in ts && TupleAddr(t) == TupleAddr(u) ensures t == u {
      PromotedOncePerAddress(m, t, u, now);
    }
    ImageSize(ts, NewKeys(m, m.Keys, now));
  }

  ghost function StayKeys(m: Store, now: int): set<Bytes> {
    set k | k in m && Stays(m, k, now)
  }

  lemma KeysBefore(m: Store, now: int)
    ensures m.Keys == StayKeys(m, now) + PromotedIn(m, m.Keys, now) + ExpiredKeys(m, now)
    ensures StayKeys(m, now) !! PromotedIn(m, m.Keys, now) !! ExpiredKeys(m, now)
  {
    hide AddrKey, TupleAddr, Less, Vacant;
  }

  lemma KeysAfter(m: Store, now: int, whiteExp: int, v6: Bytes -> bool)
    requires WellFormed(m)
    ensures Scan(m, now, whiteExp, v6).store.Keys == StayKeys(m, now) + NewKeys(m, m.Keys, now)
    ensures StayKeys(m, now) !! NewKeys(m, m.Keys, now)
  {
    hide Scan, Less, Due;
    ScanIsMeaning(m, now, whiteExp, v6);
    forall k | k in NewKeys(m, m.Keys, now) ensures k !in StayKeys(m, now) {
      var t := Origin(m, m.Keys, now, k);
    }
  }

  lemma SizeOfParts(a: set<Bytes>, b: set<Bytes>, c: set<Bytes>)
    requires a !! b !! c
    ensures |a + b + c| == |a| + |b| + |c|
  {
  }

  /** A scan removes exactly the expired entries from the count: promotion replaces one
      entry by one. */
  lemma ScanCount(m: Store, now: int, whiteExp: int, v6: Bytes -> bool)
    requires WellFormed(m)
    ensures |Scan(m, now, whiteExp, v6).store| + |ExpiredKeys(m, now)| == |m|
  {
    hide Scan, NewKeys, StayKeys, PromotedIn, ExpiredKeys, WellFormed;
    KeysBefore(m, now);
    KeysAfter(m, now, whiteExp, v6);
    NewKeysSize(m, now);
    var s := Scan(m, now, whiteExp, v6).store;
    assert |s| == |s.Keys| && |m| == |m.Keys|;
    SizeOfParts(StayKeys(m, now), PromotedIn(m, m.Keys, now), ExpiredKeys(m, now));
    SizeOfParts(StayKeys(m, now), NewKeys(m, m.Keys, now), {});
    assert s.Keys == StayKeys(m, now) + NewKeys(m, m.Keys, now) + {};
  }

  /** No expired entry survives, exactly when re-keyed entries get a future expiry or
      there is nothing to re-key. */
  lemma ScanExpires(m: Store, now: int, whiteExp: int, v6: Bytes -> bool)
    requires WellFormed(m)
    ensures ExpiredKeys(Scan(m, now, whiteExp, v6).store, now) == {} <==>
            whiteExp > 0 || forall t :: t in m ==> !Promoted(m, t, now)
  {
    hide Scan, Promoted, WellFormed, ExpiredKeys;
    var s := Scan(m, now, whiteExp, v6).store;
    if whiteExp <= 0 && exists t :: t in m && Promoted(m, t, now) {
      var t :| t in m && Promoted(m, t, now);
      RekeyedExpires(m, now, whiteExp, v6, t);
    }
    if k :| k in ExpiredKeys(s, now) {
      ExpiredWasRekeyed(m, now, whiteExp, v6, k);
    }
  }

  /** With a white expiry of zero, a store with one passable tuple keeps an expired entry. */
  lemma ZeroExpiryLeavesExpired(t: Tuple, v6: Bytes -> bool)
    ensures var m := map[EncodeKey(TupleKey(t)) := Data(0, 1, 3, 2, 0)];
      WellFormed(m) && ExpiredKeys(Scan(m, 1, 0, v6).store, 1) != {}
  {
    hide Scan, ExpiredKeys, DecodeKey, EncodeKey, AddrKey, TupleAddr;
    var k := EncodeKey(TupleKey(t));
    var m := map[k := Data(0, 1, 3, 2, 0)];
    EncodedDecodes(TupleKey(t));
    assert k[0] == KEY_TUPLE by { TupleKeyKind(t); }
    AddrKeyDecodes(TupleAddr(k));
    LessIrreflexive(k);
    assert Promoted(m, k, 1);
    RekeyedExpires(m, 1, 0, v6, k);
  }

  lemma TupleKeyKind(t: Tuple)
    ensures EncodeKey(TupleKey(t)) != [] && EncodeKey(TupleKey(t))[0] == KEY_TUPLE
  {
  }

  lemma RekeyedExpires(m: Store, now: int, whiteExp: int, v6: Bytes -> bool, t: Bytes)
    requires WellFormed(m) && whiteExp <= 0 && Promoted(m, t, now)
    ensures ExpiredKeys(Scan(m, now, whiteExp, v6).store, now) != {}
  {
    hide Scan, AddrKey, TupleAddr, Less, Vacant;
    ScanStore(m, now, whiteExp, v6);
    assert BecomesWhite(m, AddrKey(TupleAddr(t)), now);
    assert AddrKey(TupleAddr(t)) in ExpiredKeys(Scan(m, now, whiteExp, v6).store, now);
  }

  lemma ExpiredWasRekeyed(m: Store, now: int, whiteExp: int, v6: Bytes -> bool, k: Bytes)
    requires WellFormed(m) && k in ExpiredKeys(Scan(m, now, whiteExp, v6).store, now)
    ensures whiteExp <= 0 && exists t :: t in m && Promoted(m, t, now)
  {
    hide Scan, AddrKey, TupleAddr, Less, Vacant;
    ScanStore(m, now, whiteExp, v6);
    var t :| Promoted(m, t, now) && AddrKey(TupleAddr(t)) == k;
    assert t in m;
  }

  // ----- the lists -----

  lemma {:induction false} WhitesCover(m: Store, ks: seq<Bytes>, now: int, k: Bytes)
    requires k in Elems(ks) && WhiteOf(m, k, now) != []
    ensures WhiteOf(m, k, now)[0] in Whites(m, ks, now)
  {
    hide WhiteOf;
    var n := |ks| - 1;
    if k != ks[n] {
      var i :| 0 <= i < |ks| && ks[i] == k;
      assert ks[..n][i] == k;
      WhitesCover(m, ks[..n], now, k);
    } else {
      assert WhiteOf(m, ks[n], now)[0] in WhiteOf(m, ks[n], now);
    }
  }

  lemma {:induction false} WhitesDistinct(m: Store, ks: seq<Bytes>, now: int)
    requires StrictlySorted(ks)
    ensures NoDuplicates(Whites(m, ks, now))
  {
    if ks != [] {
      var n := |ks| - 1;
      WhitesDistinct(m, ks[..n], now);
      var last := WhiteOf(m, ks[n], now);
      if last != [] {
        if ks[n] in Elems(ks[..n]) { LessIrreflexive(ks[n]); }
        NotSeen(m, ks[..n], ks[n], now, last[0]);
        assert |last| == 1;
      }
    }
  }

  lemma {:induction false} OfFamilyMembers(xs: seq<Bytes>, v6: Bytes -> bool, fam: bool)
    ensures forall a :: a in OfFamily(xs, v6, fam) <==> a in xs && v6(a) == fam
    ensures NoDuplicates(xs) ==> NoDuplicates(OfFamily(xs, v6, fam))
  {
    if xs != [] {
      var n := |xs| - 1;
      OfFamilyMembers(xs[..n], v6, fam);
      assert xs == xs[..n] + [xs[n]];
    }
  }

  /** The white addresses are exactly those whose surviving entry is due. */
  lemma WhiteExactly(m: Store, now: int, whiteExp: int, v6: Bytes -> bool, a: Bytes)
    requires WellFormed(m)
    ensures var s := Scan(m, now, whiteExp, v6).store;
      a in Whites(m, SortedKeys(m.Keys), now) <==> AddrKey(a) in s && Due(s[AddrKey(a)], now)
  {
    hide Scan, Whites, WellFormed, AddrKey, SortedKeys;
    if a in Whites(m, SortedKeys(m.Keys), now) { WhiteIsDue(m, now, whiteExp, v6, a); }
    var s := Scan(m, now, whiteExp, v6).store;
    if AddrKey(a) in s && Due(s[AddrKey(a)], now) { DueIsWhite(m, now, whiteExp, v6, a); }
  }

  lemma WhiteIsDue(m: Store, now: int, whiteExp: int, v6: Bytes -> bool, a: Bytes)
    requires WellFormed(m) && a in Whites(m, SortedKeys(m.Keys), now)
    ensures var s := Scan(m, now, whiteExp, v6).store; AddrKey(a) in s && Due(s[AddrKey(a)], now)
  {
    hide Scan, Whites, Less, Vacant;
    ScanStore(m, now, whiteExp, v6);
    AddrKeyDecodes(a);
    var k := WhitesMember(m, SortedKeys(m.Keys), now, a);
    if Promoted(m, k, now) {
      assert BecomesWhite(m, AddrKey(a), now);
    } else {
      assert k == [k[0]] + k[1..] == AddrKey(a);
    }
  }

  lemma DueIsWhite(m: Store, now: int, whiteExp: int, v6: Bytes -> bool, a: Bytes)
    requires WellFormed(m)
    requires var s := Scan(m, now, whiteExp, v6).store; AddrKey(a) in s && Due(s[AddrKey(a)], now)
    ensures a in Whites(m, SortedKeys(m.Keys), now)
  {
    hide Scan, Whites, Less, Vacant;
    ScanStore(m, now, whiteExp, v6);
    AddrKeyDecodes(a);
    if BecomesWhite(m, AddrKey(a), now) {
      var t :| Promoted(m, t, now) && AddrKey(TupleAddr(t)) == AddrKey(a);
      WhitesCover(m, SortedKeys(m.Keys), now, t);
    } else {
      WhitesCover(m, SortedKeys(m.Keys), now, AddrKey(a));
    }
  }

  /** A tuple that passes at the reading, by its fields. */
  predicate Passes(d: Data, now: int) { d.pcount >= 0 && d.pass <= now < d.expire }

  /** The address is free for a tuple: no entry, or one that has run out and is no spamtrap. */
  predicate Free(m: Store, a: Bytes, now: int) {
    AddrKey(a) !in m || (m[AddrKey(a)].expire <= now && m[AddrKey(a)].pcount > -2)
  }

  /** What a scan does, by the fields of the entries. Spamtraps and domains, counted -2 and below, and
      what has not run out, stay as they are, but for the tuples that are re-keyed: those that pass,
      whose address is free, and before which no other passing tuple of the address sorts. */
  lemma EntriesByFields(m: Store, now: int, whiteExp: int, v6: Bytes -> bool, k: Bytes)
    requires WellFormed(m) && k in m
    ensures var s := Scan(m, now, whiteExp, v6).store;
      && (IsAddr(k) && (now < m[k].expire || m[k].pcount <= -2) ==> k in s && s[k] == m[k])
      && (!IsAddr(k) && m[k].expire <= now && m[k].pcount > -2 ==> k !in s)
      && (!IsAddr(k) && (now < m[k].expire || m[k].pcount <= -2) ==>
            (k !in s <==>
              && Passes(m[k], now) && Free(m, TupleAddr(k), now)
              && forall u :: u in m && IsTuple(u) && Passes(m[u], now) && Less(u, k) ==> TupleAddr(u) != TupleAddr(k)))
  {
    hide Scan, Less, AddrKey, TupleAddr;
    ScanStore(m, now, whiteExp, v6);
    if !IsAddr(k) {
      TuplesAreOld(m, k, now);
      assert forall u :: u in m && IsTuple(u) ==> (Passes(m[u], now) <==> Passable(m, u, now));
    } else {
      KindOfAddress(k);
    }
  }

  lemma KindOfAddress(k: Bytes)
    requires IsAddr(k)
    ensures !IsTuple(k)
  {
  }

  /** What a scan reports, by the fields of the entries. */
  lemma ListsByFields(m: Store, now: int, whiteExp: int, v6: Bytes -> bool, a: Bytes)
    requires WellFormed(m)
    ensures var p := Scan(m, now, whiteExp, v6); var k := AddrKey(a);
      && (a in p.res.traplist <==> k in m && m[k].pcount == -1 && now < m[k].expire)
      && (a in p.res.whitelist <==> !v6(a) && k in p.store && p.store[k].pcount >= 0 && p.store[k].pass <= now)
      && (a in p.res.whitelistV6 <==> v6(a) && k in p.store && p.store[k].pcount >= 0 && p.store[k].pass <= now)
  {
    hide Scan, AddrKey;
    AddrKeyDecodes(a);
    ScanLists(m, now, whiteExp, v6);
  }

  lemma {:induction false} AddressesMember(ks: seq<Bytes>, a: Bytes)
    requires forall k :: k in Elems(ks) ==> IsAddr(k)
    ensures a in Addresses(ks) <==> AddrKey(a) in Elems(ks)
  {
    if ks != [] {
      var n := |ks| - 1;
      assert ks == ks[..n] + [ks[n]];
      ElemsConcat(ks[..n], [ks[n]]);
      AddressesMember(ks[..n], a);
      assert ks[n] in Elems(ks);
      assert ks[n] == [ks[n][0]] + ks[n][1..];
      AddrKeyDecodes(a);
    }
  }

  /** The traplist is the trapped, unexpired addresses in key order. */
  lemma TrapOrder(m: Store, now: int, whiteExp: int, v6: Bytes -> bool)
    requires WellFormed(m)
    ensures Scan(m, now, whiteExp, v6).res.traplist == Addresses(SortedKeys(TrapEntries(m, now)))
  {
    var ks := SortedKeys(m.Keys);
    ScanIsMeaning(m, now, whiteExp, v6);
    KeepIsSortedKeys(ks, TrapEntries(m, now));
    assert Elems(ks) * TrapEntries(m, now) == TrapEntries(m, now);
  }

  /** The lists a scan returns: no address twice, none both white and trapped, and the
      whitelists are exactly the surviving due addresses of their family. */
  lemma ScanLists(m: Store, now: int, whiteExp: int, v6: Bytes -> bool)
    requires WellFormed(m)
    ensures var p := Scan(m, now, whiteExp, v6);
      && NoDuplicates(p.res.whitelist) && NoDuplicates(p.res.whitelistV6)
      && (forall a :: a in p.res.whitelist <==>
            !v6(a) && AddrKey(a) in p.store && Due(p.store[AddrKey(a)], now))
      && (forall a :: a in p.res.whitelistV6 <==>
            v6(a) && AddrKey(a) in p.store && Due(p.store[AddrKey(a)], now))
      && (forall a :: a in p.res.traplist <==> TrapEntry(m, AddrKey(a), now))
      && (forall a :: a in p.res.traplist ==> AddrKey(a) in p.store && p.store[AddrKey(a)].pcount == TRAPPED)
  {
    hide Expired, Due, Walk;
    var p := Scan(m, now, whiteExp, v6);
    var ks := SortedKeys(m.Keys);
    var w := Whites(m, ks, now);
    ScanIsMeaning(m, now, whiteExp, v6);
    WhitesDistinct(m, ks, now);
    OfFamilyMembers(w, v6, false);
    OfFamilyMembers(w, v6, true);
    forall a ensures a in w <==> AddrKey(a) in p.store && Due(p.store[AddrKey(a)], now) {
      WhiteExactly(m, now, whiteExp, v6, a);
    }
    TrapOrder(m, now, whiteExp, v6);
    forall a ensures a in p.res.traplist <==> TrapEntry(m, AddrKey(a), now) {
      AddressesMember(SortedKeys(TrapEntries(m, now)), a);
    }
    ScanStore(m, now, whiteExp, v6);
    forall a | TrapEntry(m, AddrKey(a), now) ensures Stays(m, AddrKey(a), now) {
      AddrKeyDecodes(a);
    }
  }

  // ----- scanning twice -----

  ghost predicate Settled(m: Store, now: int) {
    (forall k :: k in m ==> !Expired(m[k], now)) && (forall t :: t in m ==> !Promoted(m, t, now))
  }

  lemma SettledStays(m: Store, now: int, whiteExp: int, v6: Bytes -> bool)
    requires WellFormed(m) && Settled(m, now)
    ensures Scan(m, now, whiteExp, v6).store == m
  {
    hide Scan, Less, Due;
    var s := Scan(m, now, whiteExp, v6).store;
    ScanStore(m, now, whiteExp, v6);
    assert forall k :: !BecomesWhite(m, k, now);
    assert s.Keys == m.Keys;
  }

  /** After a scan no address with a passable tuple is vacant. */
  lemma NothingLeftToPromote(m: Store, now: int, whiteExp: int, v6: Bytes -> bool, t: Bytes)
    requires WellFormed(m) && whiteExp > 0
    ensures !Promoted(Scan(m, now, whiteExp, v6).store, t, now)
  {
    hide Scan, Due, DecodeKey;
    var s := Scan(m, now, whiteExp, v6).store;
    ScanStore(m, now, whiteExp, v6);
    if Passable(s, t, now) {
      var a := TupleAddr(t);
      AddrKeyDecodes(a);
      assert Stays(m, t, now) by { TuplesAreOld(m, t, now); }
      if Vacant(m, a, now) {
        var ks := SortedKeys(m.Keys);
        assert t in Elems(ks);
        var i :| 0 <= i < |ks| && ks[i] == t;
        var u := FirstPassable(m, ks, i, now);
        assert BecomesWhite(m, AddrKey(a), now);
      } else {
        AddressStays(m, a, now);
      }
      assert AddrKey(a) in s && !Expired(s[AddrKey(a)], now);
    }
  }

  lemma TuplesAreOld(m: Store, t: Bytes, now: int)
    requires IsTuple(t)
    ensures !BecomesWhite(m, t, now)
  {
    if BecomesWhite(m, t, now) {
      var u :| Promoted(m, u, now) && AddrKey(TupleAddr(u)) == t;
      AddrKeyDecodes(TupleAddr(u));
    }
  }

  lemma AddressStays(m: Store, a: Bytes, now: int)
    requires !Vacant(m, a, now)
    ensures Stays(m, AddrKey(a), now)
  {
    AddrKeyDecodes(a);
  }

  /** A second scan at the same reading leaves the store alone, exactly when the white
      expiry is positive or the first one had nothing to promote. */
  lemma SecondScanStore(m: Store, now: int, whiteExp: int, v6: Bytes -> bool)
    requires WellFormed(m)
    ensures var s := Scan(m, now, whiteExp, v6).store;
      && WellFormed(s)
      && (Scan(s, now, whiteExp, v6).store == s <==>
          whiteExp > 0 || forall t :: t in m ==> !Promoted(m, t, now))
  {
    hide Scan, Promoted, Expired;
    var s := Scan(m, now, whiteExp, v6).store;
    ScanStore(m, now, whiteExp, v6);
    ScanExpires(m, now, whiteExp, v6);
    if whiteExp > 0 {
      forall t | t in s ensures !Promoted(s, t, now) { NothingLeftToPromote(m, now, whiteExp, v6, t); }
      NoneExpired(s, now);
      SettledStays(s, now, whiteExp, v6);
    } else if forall t :: t in m ==> !Promoted(m, t, now) {
      NothingPromoted(m, now, whiteExp, v6);
      SettledStays(s, now, whiteExp, v6);
    } else {
      var k :| k in ExpiredKeys(s, now);
      ExpiredMeansChange(s, now, whiteExp, v6, k);
    }
  }

  lemma NoneExpired(s: Store, now: int)
    requires ExpiredKeys(s, now) == {}
    ensures forall k :: k in s ==> !Expired(s[k], now)
  {
    forall k | k in s ensures !Expired(s[k], now) {
      assert k !in ExpiredKeys(s, now);
    }
  }

  lemma NothingPromoted(m: Store, now: int, whiteExp: int, v6: Bytes -> bool)
    requires WellFormed(m) && forall t :: t in m ==> !Promoted(m, t, now)
    ensures Settled(Scan(m, now, whiteExp, v6).store, now)
  {
    hide Scan, Less, Due, AddrKey, TupleAddr;
    var s := Scan(m, now, whiteExp, v6).store;
    ScanStore(m, now, whiteExp, v6);
    assert forall k :: !BecomesWhite(m, k, now);
    forall t | t in s ensures !Promoted(s, t, now) {
      if Passable(s, t, now) {
        PassableNotVacant(m, now, t);
        AddressStays(m, TupleAddr(t), now);
      }
    }
  }

  /** Where nothing is promoted, no passable tuple belongs to a vacant address. */
  lemma PassableNotVacant(m: Store, now: int, t: Bytes)
    requires WellFormed(m) && Passable(m, t, now) && forall u :: u in m ==> !Promoted(m, u, now)
    ensures !Vacant(m, TupleAddr(t), now)
  {
    hide Less, AddrKey;
    if Vacant(m, TupleAddr(t), now) {
      var ks := SortedKeys(m.Keys);
      assert t in Elems(ks);
      var i :| 0 <= i < |ks| && ks[i] == t;
      var u := FirstPassable(m, ks, i, now);
    }
  }

  lemma ExpiredMeansChange(s: Store, now: int, whiteExp: int, v6: Bytes -> bool, k: Bytes)
    requires WellFormed(s) && k in ExpiredKeys(s, now)
    ensures Scan(s, now, whiteExp, v6).store != s
  {
    hide Scan, Less, Due;
    ScanStore(s, now, whiteExp, v6);
    if BecomesWhite(s, k, now) {
      var t :| Promoted(s, t, now) && AddrKey(TupleAddr(t)) == k;
      assert t in s && t !in Scan(s, now, whiteExp, v6).store;
    }
  }

  lemma {:induction false} SameElements(xs: seq<Bytes>, ys: seq<Bytes>)
    requires NoDuplicates(xs) && NoDuplicates(ys)
    requires forall a :: a in xs <==> a in ys
    ensures multiset(xs) == multiset(ys)
  {
    forall a ensures multiset(xs)[a] == multiset(ys)[a] {
      Occurrences(xs, a);
      Occurrences(ys, a);
    }
  }

  lemma {:induction false} Occurrences(xs: seq<Bytes>, a: Bytes)
    requires NoDuplicates(xs)
    ensures multiset(xs)[a] == if a in xs then 1 else 0
  {
    if xs != [] {
      var n := |xs| - 1;
      assert xs == xs[..n] + [xs[n]];
      Occurrences(xs[..n], a);
    }
  }

  /** A second scan at the same reading returns the same traplist and, up to order, the
      same whitelists. */
  lemma SecondScanLists(m: Store, now: int, whiteExp: int, v6: Bytes -> bool)
    requires WellFormed(m) && whiteExp > 0
    ensures var p := Scan(m, now, whiteExp, v6);
      && WellFormed(p.store)
      && var q := Scan(p.store, now, whiteExp, v6);
      && q.res.traplist == p.res.traplist
      && multiset(q.res.whitelist) == multiset(p.res.whitelist)
      && multiset(q.res.whitelistV6) == multiset(p.res.whitelistV6)
  {
    hide Scan, Due, Promoted, Expired, NoDuplicates;
    var p := Scan(m, now, whiteExp, v6);
    SecondScanStore(m, now, whiteExp, v6);
    var q := Scan(p.store, now, whiteExp, v6);
    ScanLists(m, now, whiteExp, v6);
    ScanLists(p.store, now, whiteExp, v6);
    SameElements(q.res.whitelist, p.res.whitelist);
    SameElements(q.res.whitelistV6, p.res.whitelistV6);
    SameTraps(m, now, whiteExp, v6);
    TrapOrder(m, now, whiteExp, v6);
    TrapOrder(p.store, now, whiteExp, v6);
  }

  lemma SameTraps(m: Store, now: int, whiteExp: int, v6: Bytes -> bool)
    requires WellFormed(m)
    ensures TrapEntries(Scan(m, now, whiteExp, v6).store, now) == TrapEntries(m, now)
  {
    hide Scan, Less, DecodeKey;
    var s := Scan(m, now, whiteExp, v6).store;
    ScanStore(m, now, whiteExp, v6);
    forall k ensures k in TrapEntries(s, now) <==> k in TrapEntries(m, now) {
      if k in m && TrapEntry(m, k, now) {
        assert Stays(m, k, now);
      }
    }
  }
}
