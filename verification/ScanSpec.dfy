/** The database scan as a walk over the sorted entries, one visit at a time with
    every change made at once, and what that walk adds up to. */
module ScanSpec {
  import opened Basics
  import opened ByteStrings
  import opened Keys

  /** The entries bucket: encoded key to (decoded) value. */
  type Store = map<Bytes, Data>

  /** What Put keeps true of the entries bucket: it holds address and tuple keys only. */
  predicate EntryKey(raw: Bytes) {
    DecodeKey(raw).Some? && (raw[0] == KEY_IP || raw[0] == KEY_TUPLE)
  }

  predicate WellFormed(m: Store) {
    forall k :: k in m ==> EntryKey(k)
  }

  predicate IsAddr(raw: Bytes) { raw != [] && raw[0] == KEY_IP }

  predicate IsTuple(raw: Bytes) { DecodeKey(raw).Some? && raw[0] == KEY_TUPLE }

  /** The address a tuple key would be re-keyed under. */
  function TupleAddr(raw: Bytes): Bytes
    requires IsTuple(raw)
  {
    DecodeKey(raw).value.tuple.ip
  }

  function AddrKey(a: Bytes): Bytes { EncodeKey(IPKey(a)) }

  lemma AddrKeyDecodes(a: Bytes)
    ensures IsAddr(AddrKey(a)) && EntryKey(AddrKey(a)) && AddrKey(a)[1..] == a
    ensures forall b :: AddrKey(a) == AddrKey(b) ==> a == b
  {
    EncodedDecodes(IPKey(a));
    forall b | AddrKey(a) == AddrKey(b) ensures a == b {
      assert AddrKey(b)[1..] == b;
    }
  }

  predicate Expired(d: Data, now: int) { d.expire <= now && d.pcount > SPAMTRAP }

  predicate Due(d: Data, now: int) { d.pcount >= 0 && d.pass <= now }

  datatype ScanResult = ScanResult(whitelist: seq<Bytes>, whitelistV6: seq<Bytes>, traplist: seq<Bytes>)

  datatype Progress = Progress(store: Store, seen: set<Bytes>, res: ScanResult)

  function Start(m: Store): Progress {
    Progress(m, {}, ScanResult([], [], []))
  }

  /** addWhite: append once, to the list of the address family (`v6` stands for
      CheckAddr(addr) == 6). */
  function AddWhite(p: Progress, a: Bytes, v6: Bytes -> bool): Progress {
    if a in p.seen then p
    else if v6(a) then
      p.(seen := p.seen + {a}, res := p.res.(whitelistV6 := p.res.whitelistV6 + [a]))
    else
      p.(seen := p.seen + {a}, res := p.res.(whitelist := p.res.whitelist + [a]))
  }

  /** One iteration: the entry under `raw` with the mutations made immediately. */
  function Visit(p: Progress, raw: Bytes, now: int, whiteExp: int, v6: Bytes -> bool): Progress
    requires EntryKey(raw)
  {
    if raw !in p.store then p
    else
      var d := p.store[raw];
      if Expired(d, now) then p.(store := p.store - {raw})
      else if d.pcount == TRAPPED && IsAddr(raw) then
        p.(res := p.res.(traplist := p.res.traplist + [raw[1..]]))
      else if Due(d, now) then
        if IsAddr(raw) then AddWhite(p, raw[1..], v6)
        else
          var a := TupleAddr(raw);
          if AddrKey(a) in p.store then p
          else AddWhite(p.(store := p.store[AddrKey(a) := d.(expire := now + whiteExp)] - {raw}), a, v6)
      else p
  }

  function Walk(m: Store, ks: seq<Bytes>, now: int, whiteExp: int, v6: Bytes -> bool): Progress
    requires forall k :: k in ks ==> EntryKey(k)
  {
    if ks == [] then Start(m)
    else Visit(Walk(m, ks[..|ks| - 1], now, whiteExp, v6), ks[|ks| - 1], now, whiteExp, v6)
  }

  ghost function Scan(m: Store, now: int, whiteExp: int, v6: Bytes -> bool): Progress
    requires WellFormed(m)
  {
    assert forall k :: k in SortedKeys(m.Keys) ==> k in Elems(SortedKeys(m.Keys));
    Walk(m, SortedKeys(m.Keys), now, whiteExp, v6)
  }

  // ----- what a scan means -----

  predicate Passable(m: Store, t: Bytes, now: int) {
    t in m && IsTuple(t) && !Expired(m[t], now) && Due(m[t], now)
  }

  predicate Vacant(m: Store, a: Bytes, now: int) {
    AddrKey(a) !in m || Expired(m[AddrKey(a)], now)
  }

  /** The tuple that a scan turns into a white address: passable, its address left
      with no entry, and the first such tuple of that address in key order. */
  ghost predicate Promoted(m: Store, t: Bytes, now: int) {
    && Passable(m, t, now)
    && Vacant(m, TupleAddr(t), now)
    && forall u :: u in m && Passable(m, u, now) && Less(u, t) ==> TupleAddr(u) != TupleAddr(t)
  }

  ghost predicate Stays(m: Store, k: Bytes, now: int) {
    k in m && !Expired(m[k], now) && !Promoted(m, k, now)
  }

  lemma PromotedOncePerAddress(m: Store, t: Bytes, u: Bytes, now: int)
    requires Promoted(m, t, now) && Promoted(m, u, now) && TupleAddr(t) == TupleAddr(u)
    ensures t == u
  {
    LessTotal(t, u);
  }

  ghost function PromotedIn(m: Store, visited: set<Bytes>, now: int): set<Bytes> {
    set t | t in visited && Promoted(m, t, now)
  }

  ghost predicate WhiteKey(m: Store, visited: set<Bytes>, now: int, k: Bytes) {
    exists t :: t in PromotedIn(m, visited, now) && AddrKey(TupleAddr(t)) == k
  }

  /** The tuple behind a new white entry. */
  ghost function Origin(m: Store, visited: set<Bytes>, now: int, k: Bytes): (t: Bytes)
    requires WhiteKey(m, visited, now, k)
    ensures t in visited && Promoted(m, t, now) && AddrKey(TupleAddr(t)) == k
    ensures forall u :: u in visited && Promoted(m, u, now) && AddrKey(TupleAddr(u)) == k ==> u == t
  {
    var t :| t in PromotedIn(m, visited, now) && AddrKey(TupleAddr(t)) == k;
    OriginUnique(m, visited, now, k, t);
    t
  }

  lemma OriginUnique(m: Store, visited: set<Bytes>, now: int, k: Bytes, t: Bytes)
    requires t in PromotedIn(m, visited, now) && AddrKey(TupleAddr(t)) == k
    ensures forall u :: u in visited && Promoted(m, u, now) && AddrKey(TupleAddr(u)) == k ==> u == t
  {
    forall u | u in visited && Promoted(m, u, now) && AddrKey(TupleAddr(u)) == k ensures u == t {
      AddrKeyDecodes(TupleAddr(u));
      PromotedOncePerAddress(m, t, u, now);
    }
  }

  /** The entries that are left once the keys in `visited` have been dealt with... */
  ghost function OldEntries(m: Store, visited: set<Bytes>, now: int): Store {
    map k | k in m && (k !in visited || Stays(m, k, now)) :: m[k]
  }

  /** ...and the white entries that have been made from promoted tuples. */
  ghost function NewEntries(m: Store, visited: set<Bytes>, now: int, whiteExp: int): Store {
    map k | k in NewKeys(m, visited, now) :: m[Origin(m, visited, now, k)].(expire := now + whiteExp)
  }

  ghost function NewKeys(m: Store, visited: set<Bytes>, now: int): (ks: set<Bytes>)
    ensures forall k :: k in ks <==> WhiteKey(m, visited, now, k)
  {
    KeysOf(PromotedIn(m, visited, now))
  }

  /** The address keys of some tuples. */
  ghost function KeysOf(ts: set<Bytes>): (ks: set<Bytes>)
    requires forall t :: t in ts ==> IsTuple(t)
    ensures forall k :: k in ks <==> exists t :: t in ts && AddrKey(TupleAddr(t)) == k
  {
    set t | t in ts :: AddrKey(TupleAddr(t))
  }

  ghost function StoreAfter(m: Store, visited: set<Bytes>, now: int, whiteExp: int): Store {
    OldEntries(m, visited, now) + NewEntries(m, visited, now, whiteExp)
  }

  /** What visiting k appends to the whitelists: the address of a live, due address
      entry, or of a promoted tuple. */
  ghost function WhiteOf(m: Store, k: Bytes, now: int): seq<Bytes> {
    if k in m && IsAddr(k) && !Expired(m[k], now) && Due(m[k], now) then [k[1..]]
    else if Promoted(m, k, now) then [TupleAddr(k)]
    else []
  }

  ghost function Whites(m: Store, ks: seq<Bytes>, now: int): seq<Bytes> {
    if ks == [] then [] else Whites(m, ks[..|ks| - 1], now) + WhiteOf(m, ks[|ks| - 1], now)
  }

  function OfFamily(xs: seq<Bytes>, v6: Bytes -> bool, fam: bool): seq<Bytes> {
    if xs == [] then []
    else OfFamily(xs[..|xs| - 1], v6, fam) + (if v6(xs[|xs| - 1]) == fam then [xs[|xs| - 1]] else [])
  }

  ghost predicate TrapEntry(m: Store, k: Bytes, now: int) {
    k in m && IsAddr(k) && !Expired(m[k], now) && m[k].pcount == TRAPPED
  }

  ghost function TrapEntries(m: Store, now: int): set<Bytes> {
    set k | k in m && TrapEntry(m, k, now)
  }

  /** The addresses of a sequence of address keys. */
  function Addresses(ks: seq<Bytes>): seq<Bytes> {
    if ks == [] then []
    else
      var last := ks[|ks| - 1];
      Addresses(ks[..|ks| - 1]) + [if last == [] then [] else last[1..]]
  }

  // ----- the walk computes exactly that -----

  /** A vacant address with a passable tuple has a promoted one at or before it. */
  lemma {:induction false} FirstPassable(m: Store, ks: seq<Bytes>, i: nat, now: int) returns (u: Bytes)
    requires StrictlySorted(ks) && Elems(ks) == m.Keys && i < |ks|
    requires Passable(m, ks[i], now) && Vacant(m, TupleAddr(ks[i]), now)
    ensures Promoted(m, u, now) && TupleAddr(u) == TupleAddr(ks[i]) && (u == ks[i] || Less(u, ks[i]))
  {
    if Promoted(m, ks[i], now) {
      u := ks[i];
    } else {
      var w :| w in m && Passable(m, w, now) && Less(w, ks[i]) && TupleAddr(w) == TupleAddr(ks[i]);
      var j := IndexBelow(ks, i, w);
      u := FirstPassable(m, ks, j, now);
      if u != w { LessTransitive(u, w, ks[i]); }
    }
  }

  lemma IndexBelow(ks: seq<Bytes>, i: nat, w: Bytes) returns (j: nat)
    requires StrictlySorted(ks) && i < |ks| && w in Elems(ks) && Less(w, ks[i])
    ensures j < i && ks[j] == w
  {
    j :| 0 <= j < |ks| && ks[j] == w;
    LessIrreflexive(w);
    if j > i { LessTransitive(w, ks[i], w); }
  }

  /** `t` is the next key of a walk that has visited exactly the keys below it. */
  ghost predicate Next(m: Store, visited: set<Bytes>, t: Bytes) {
    && WellFormed(m) && t in m && t !in visited && visited <= m.Keys
    && forall k :: k in m ==> (k in visited <==> Less(k, t))
  }

  lemma VacantExactly(m: Store, visited: set<Bytes>, t: Bytes, now: int, whiteExp: int)
    requires Next(m, visited, t) && Passable(m, t, now)
    ensures AddrKey(TupleAddr(t)) !in StoreAfter(m, visited, now, whiteExp) <==> Promoted(m, t, now)
  {
    var a := TupleAddr(t);
    var k := AddrKey(a);
    AddrKeyDecodes(a);
    AddressesFirst(k, t);
    if k in m {
      assert k in visited;
      assert Stays(m, k, now) <==> !Vacant(m, a, now);
    }
    if Vacant(m, a, now) && !Promoted(m, t, now) {
      var ks := SortedKeys(m.Keys);
      assert t in Elems(ks);
      var i :| 0 <= i < |ks| && ks[i] == t;
      var u := FirstPassable(m, ks, i, now);
      assert u in PromotedIn(m, visited, now);
    }
    if WhiteKey(m, visited, now, k) {
      var u := Origin(m, visited, now, k);
      assert TupleAddr(u) == a;
      assert Less(u, t);
      assert !Promoted(m, t, now);
    }
  }

  /** No new white entry can stand under a key that is still to come. */
  lemma UnvisitedIsOld(m: Store, visited: set<Bytes>, t: Bytes, now: int)
    requires Next(m, visited, t)
    ensures !WhiteKey(m, visited, now, t)
  {
    if WhiteKey(m, visited, now, t) {
      var u := Origin(m, visited, now, t);
      AddrKeyDecodes(TupleAddr(u));
      AddressesFirst(t, u);
    }
  }

  lemma OldStep(m: Store, visited: set<Bytes>, t: Bytes, now: int)
    requires t in m && t !in visited
    ensures OldEntries(m, visited + {t}, now) ==
            if Stays(m, t, now) then OldEntries(m, visited, now) else OldEntries(m, visited, now) - {t}
  {
  }

  lemma NewStepIdle(m: Store, visited: set<Bytes>, t: Bytes, now: int, whiteExp: int)
    requires !Promoted(m, t, now)
    ensures NewEntries(m, visited + {t}, now, whiteExp) == NewEntries(m, visited, now, whiteExp)
  {
    hide AddrKey, TupleAddr, Less, Vacant;
    assert PromotedIn(m, visited + {t}, now) == PromotedIn(m, visited, now);
    assert NewKeys(m, visited + {t}, now) == NewKeys(m, visited, now);
    forall k | k in NewKeys(m, visited, now)
      ensures Origin(m, visited + {t}, now, k) == Origin(m, visited, now, k)
    {
      assert Origin(m, visited, now, k) in visited + {t};
    }
  }

  lemma KeysOfInsert(ts: set<Bytes>, t: Bytes)
    requires IsTuple(t) && forall u :: u in ts ==> IsTuple(u)
    ensures KeysOf(ts + {t}) == KeysOf(ts) + {AddrKey(TupleAddr(t))}
  {
    hide AddrKey, TupleAddr, IsTuple;
    assert t in ts + {t};
    forall k | k in KeysOf(ts) ensures k in KeysOf(ts + {t}) {
      var u :| u in ts && AddrKey(TupleAddr(u)) == k;
      assert u in ts + {t};
    }
  }

  lemma PromotedInsert(m: Store, visited: set<Bytes>, t: Bytes, now: int)
    requires Promoted(m, t, now)
    ensures PromotedIn(m, visited + {t}, now) == PromotedIn(m, visited, now) + {t}
    ensures IsTuple(t)
  {
  }

  lemma NewKeysStep(m: Store, visited: set<Bytes>, t: Bytes, now: int)
    requires Promoted(m, t, now)
    ensures NewKeys(m, visited + {t}, now) == NewKeys(m, visited, now) + {AddrKey(TupleAddr(t))}
  {
    hide AddrKey, TupleAddr, PromotedIn, KeysOf;
    PromotedInsert(m, visited, t, now);
    PromotedAreTuples(m, visited, now);
    KeysOfInsert(PromotedIn(m, visited, now), t);
  }

  lemma PromotedAreTuples(m: Store, visited: set<Bytes>, now: int)
    ensures forall t :: t in PromotedIn(m, visited, now) ==> IsTuple(t)
  {
  }

  lemma NewStep(m: Store, visited: set<Bytes>, t: Bytes, now: int, whiteExp: int)
    requires Promoted(m, t, now)
    ensures NewEntries(m, visited + {t}, now, whiteExp) ==
            NewEntries(m, visited, now, whiteExp)[AddrKey(TupleAddr(t)) := m[t].(expire := now + whiteExp)]
  {
    hide AddrKey, TupleAddr, Less, Vacant, NewKeys;
    NewKeysStep(m, visited, t, now);
    assert Origin(m, visited + {t}, now, AddrKey(TupleAddr(t))) == t;
    forall x | x in NewKeys(m, visited, now) && x != AddrKey(TupleAddr(t))
      ensures Origin(m, visited + {t}, now, x) == Origin(m, visited, now, x)
    {
      assert Origin(m, visited, now, x) in visited + {t};
    }
  }

  lemma MapAlgebra(old_: Store, new_: Store, k: Bytes, d: Data, t: Bytes)
    requires t !in new_ && t != k
    ensures (old_ - {t}) + new_ == (old_ + new_) - {t}
    ensures (old_ - {t}) + new_[k := d] == (old_ + new_)[k := d] - {t}
  {
  }

  /** One visit takes the store from "visited" to "visited and t". */
  /** The entry a visit comes to is still the old one. */
  lemma CursorEntry(m: Store, visited: set<Bytes>, t: Bytes, now: int, whiteExp: int)
    requires Next(m, visited, t)
    ensures t !in NewEntries(m, visited, now, whiteExp)
    ensures var s := StoreAfter(m, visited, now, whiteExp); t in s && s[t] == m[t]
  {
    hide Promoted, Less;
    UnvisitedIsOld(m, visited, t, now);
  }

  /** What one more key does to the declared store. */
  lemma StoreStep(m: Store, visited: set<Bytes>, t: Bytes, now: int, whiteExp: int)
    requires Next(m, visited, t)
    ensures var s, s' := StoreAfter(m, visited, now, whiteExp), StoreAfter(m, visited + {t}, now, whiteExp);
      s' == if Stays(m, t, now) then s
            else if Promoted(m, t, now) then s[AddrKey(TupleAddr(t)) := m[t].(expire := now + whiteExp)] - {t}
            else s - {t}
  {
    hide Next, OldEntries, NewEntries, AddrKey, TupleAddr, Less, Vacant;
    CursorEntry(m, visited, t, now, whiteExp);
    CursorIsNew(m, visited, t);
    OldStep(m, visited, t, now);
    var old_, new_ := OldEntries(m, visited, now), NewEntries(m, visited, now, whiteExp);
    if Promoted(m, t, now) {
      AddrKeyDecodes(TupleAddr(t));
      NewStep(m, visited, t, now, whiteExp);
      MapAlgebra(old_, new_, AddrKey(TupleAddr(t)), m[t].(expire := now + whiteExp), t);
    } else {
      NewStepIdle(m, visited, t, now, whiteExp);
      MapAlgebra(old_, new_, t + [0], m[t], t);
    }
  }

  lemma CursorIsNew(m: Store, visited: set<Bytes>, t: Bytes)
    requires Next(m, visited, t)
    ensures t in m && t !in visited && EntryKey(t) && t != []
  {
  }

  lemma AddWhiteKeepsStore(p: Progress, a: Bytes, v6: Bytes -> bool)
    ensures AddWhite(p, a, v6).store == p.store
  {
  }

  lemma VisitStore(m: Store, visited: set<Bytes>, t: Bytes, p: Progress, now: int, whiteExp: int, v6: Bytes -> bool)
    requires Next(m, visited, t) && p.store == StoreAfter(m, visited, now, whiteExp)
    ensures t in p.store && p.store[t] == m[t]
    ensures Visit(p, t, now, whiteExp, v6).store == StoreAfter(m, visited + {t}, now, whiteExp)
  {
    hide Next, StoreAfter, AddWhite, AddrKey, TupleAddr, Less, Vacant, DecodeKey;
    CursorEntry(m, visited, t, now, whiteExp);
    CursorIsNew(m, visited, t);
    StoreStep(m, visited, t, now, whiteExp);
    if IsTuple(t) {
      var d := m[t].(expire := now + whiteExp);
      AddWhiteKeepsStore(p.(store := p.store[AddrKey(TupleAddr(t)) := d] - {t}), TupleAddr(t), v6);
      if Passable(m, t, now) { VacantExactly(m, visited, t, now, whiteExp); }
    } else {
      AddWhiteKeepsStore(p, t[1..], v6);
    }
  }

  lemma NextOfSorted(m: Store, ks: seq<Bytes>, i: nat)
    requires WellFormed(m) && StrictlySorted(ks) && Elems(ks) == m.Keys && i < |ks|
    ensures Next(m, Elems(ks[..i]), ks[i])
    ensures Elems(ks[..i + 1]) == Elems(ks[..i]) + {ks[i]}
  {
    assert ks[..i + 1] == ks[..i] + [ks[i]];
    ElemsConcat(ks[..i], [ks[i]]);
    assert ks[i] in Elems(ks);
    LessIrreflexive(ks[i]);
    forall k | k in m ensures k in Elems(ks[..i]) <==> Less(k, ks[i]) {
      assert k in Elems(ks);
      if Less(k, ks[i]) {
        var j := IndexBelow(ks, i, k);
        assert ks[..i][j] == k;
      }
    }
  }

  lemma {:induction false} WhitesMember(m: Store, ks: seq<Bytes>, now: int, a: Bytes) returns (k: Bytes)
    requires a in Whites(m, ks, now)
    ensures k in Elems(ks) && WhiteOf(m, k, now) == [a]
  {
    var n := |ks| - 1;
    if a in Whites(m, ks[..n], now) {
      k := WhitesMember(m, ks[..n], now, a);
      assert ks == ks[..n] + [ks[n]];
      ElemsConcat(ks[..n], [ks[n]]);
    } else {
      k := ks[n];
    }
  }

  /** No address reaches the whitelists twice: the `seen` map never has to refuse one. */
  lemma WhiteDistinct(m: Store, k: Bytes, l: Bytes, now: int)
    requires WhiteOf(m, k, now) != [] && WhiteOf(m, k, now) == WhiteOf(m, l, now)
    ensures k == l
  {
    var a := WhiteOf(m, k, now)[0];
    AddrKeyDecodes(a);
    assert IsAddr(k) ==> k == [k[0]] + k[1..];
    assert IsAddr(l) ==> l == [l[0]] + l[1..];
    if Promoted(m, k, now) && Promoted(m, l, now) {
      PromotedOncePerAddress(m, k, l, now);
    }
  }

  lemma OfFamilyAppend(xs: seq<Bytes>, a: Bytes, v6: Bytes -> bool, fam: bool)
    ensures OfFamily(xs + [a], v6, fam) == OfFamily(xs, v6, fam) + (if v6(a) == fam then [a] else [])
  {
    assert (xs + [a])[..|xs|] == xs;
  }

  /** The result lists, given the white addresses and the trap keys met so far. */
  ghost predicate Lists(seen: set<Bytes>, res: ScanResult, w: seq<Bytes>, traps: seq<Bytes>, v6: Bytes -> bool) {
    && seen == Elems(w)
    && res.whitelist == OfFamily(w, v6, false)
    && res.whitelistV6 == OfFamily(w, v6, true)
    && res.traplist == Addresses(traps)
  }

  lemma WhiteStep(p: Progress, w: seq<Bytes>, traps: seq<Bytes>, v6: Bytes -> bool, a: Bytes)
    requires Lists(p.seen, p.res, w, traps, v6) && a !in w
    ensures Lists(AddWhite(p, a, v6).seen, AddWhite(p, a, v6).res, w + [a], traps, v6)
  {
    OfFamilyAppend(w, a, v6, false);
    OfFamilyAppend(w, a, v6, true);
    ElemsConcat(w, [a]);
  }

  lemma TrapStep(p: Progress, w: seq<Bytes>, traps: seq<Bytes>, v6: Bytes -> bool, t: Bytes)
    requires Lists(p.seen, p.res, w, traps, v6) && t != []
    ensures Lists(p.seen, p.res.(traplist := p.res.traplist + [t[1..]]), w, traps + [t], v6)
  {
    assert (traps + [t])[..|traps|] == traps;
  }

  lemma NotSeen(m: Store, ks: seq<Bytes>, t: Bytes, now: int, a: Bytes)
    requires t !in Elems(ks) && WhiteOf(m, t, now) == [a]
    ensures a !in Whites(m, ks, now)
  {
    if a in Whites(m, ks, now) {
      var k := WhitesMember(m, ks, now, a);
      WhiteDistinct(m, k, t, now);
    }
  }

  ghost predicate ResultsAfter(m: Store, ks: seq<Bytes>, now: int, v6: Bytes -> bool, p: Progress) {
    Lists(p.seen, p.res, Whites(m, ks, now), Keep(ks, TrapEntries(m, now)), v6)
  }

  lemma VisitResults(m: Store, ks: seq<Bytes>, t: Bytes, p: Progress, now: int, whiteExp: int, v6: Bytes -> bool)
    requires Next(m, Elems(ks), t) && p.store == StoreAfter(m, Elems(ks), now, whiteExp)
    requires ResultsAfter(m, ks, now, v6, p) && t in p.store && p.store[t] == m[t]
    ensures ResultsAfter(m, ks + [t], now, v6, Visit(p, t, now, whiteExp, v6))
  {
    hide Lists, AddWhite, StoreAfter, Whites, Keep, Addresses, StrictlySorted;
    var w, traps := Whites(m, ks, now), Keep(ks, TrapEntries(m, now));
    var q := Visit(p, t, now, whiteExp, v6);
    KeysStep(m, ks, t, now);
    assert EntryKey(t);
    assert w + [] == w && traps + [] == traps;
    if t in TrapEntries(m, now) {
      TrapStep(p, w, traps, v6, t);
      assert Lists(q.seen, q.res, w, traps + [t], v6);
    } else if WhiteOf(m, t, now) != [] {
      var a := WhiteOf(m, t, now)[0];
      NotSeen(m, ks, t, now, a);
      if IsAddr(t) {
        assert q == AddWhite(p, a, v6);
        WhiteStep(p, w, traps, v6, a);
      } else {
        VacantExactly(m, Elems(ks), t, now, whiteExp);
        var p' := p.(store := p.store[AddrKey(a) := m[t].(expire := now + whiteExp)] - {t});
        assert q == AddWhite(p', a, v6);
        WhiteStep(p', w, traps, v6, a);
      }
      assert Lists(q.seen, q.res, w + [a], traps, v6);
    } else {
      if Passable(m, t, now) { VacantExactly(m, Elems(ks), t, now, whiteExp); }
      assert Lists(q.seen, q.res, w, traps, v6);
    }
  }

  lemma KeysStep(m: Store, ks: seq<Bytes>, t: Bytes, now: int)
    ensures Whites(m, ks + [t], now) == Whites(m, ks, now) + WhiteOf(m, t, now)
    ensures Keep(ks + [t], TrapEntries(m, now)) ==
            Keep(ks, TrapEntries(m, now)) + if t in TrapEntries(m, now) then [t] else []
  {
    assert (ks + [t])[..|ks|] == ks;
  }

  lemma MeaningStart(m: Store, now: int, whiteExp: int, v6: Bytes -> bool)
    ensures Meaning(m, [], now, whiteExp, v6, Start(m))
  {
    assert NewKeys(m, {}, now) == {};
    assert OldEntries(m, {}, now) == m;
  }

  ghost predicate Meaning(m: Store, ks: seq<Bytes>, now: int, whiteExp: int, v6: Bytes -> bool, p: Progress) {
    p.store == StoreAfter(m, Elems(ks), now, whiteExp) && ResultsAfter(m, ks, now, v6, p)
  }

  lemma WalkStep(m: Store, ks: seq<Bytes>, i: nat, now: int, whiteExp: int, v6: Bytes -> bool, p: Progress)
    requires WellFormed(m) && StrictlySorted(ks) && Elems(ks) == m.Keys && i < |ks|
    requires Meaning(m, ks[..i], now, whiteExp, v6, p)
    ensures EntryKey(ks[i])
    ensures Meaning(m, ks[..i + 1], now, whiteExp, v6, Visit(p, ks[i], now, whiteExp, v6))
  {
    hide ResultsAfter, StoreAfter, Visit, Elems, Less, EntryKey;
    NextOfSorted(m, ks, i);
    VisitStore(m, Elems(ks[..i]), ks[i], p, now, whiteExp, v6);
    VisitResults(m, ks[..i], ks[i], p, now, whiteExp, v6);
    assert ks[..i + 1] == ks[..i] + [ks[i]];
  }

  /** The walk over a prefix of the sorted keys has exactly the declared effect. */
  lemma {:induction false} WalkMeaning(m: Store, ks: seq<Bytes>, i: nat, now: int, whiteExp: int, v6: Bytes -> bool)
    requires WellFormed(m) && StrictlySorted(ks) && Elems(ks) == m.Keys && i <= |ks|
    requires forall k :: k in ks ==> EntryKey(k)
    ensures Meaning(m, ks[..i], now, whiteExp, v6, Walk(m, ks[..i], now, whiteExp, v6))
  {
    hide Meaning, Visit, WellFormed;
    if i == 0 {
      MeaningStart(m, now, whiteExp, v6);
      assert ks[..i] == [];
    } else {
      WalkMeaning(m, ks, i - 1, now, whiteExp, v6);
      WalkStep(m, ks, i - 1, now, whiteExp, v6, Walk(m, ks[..i - 1], now, whiteExp, v6));
      assert ks[..i][..i - 1] == ks[..i - 1];
      assert Walk(m, ks[..i], now, whiteExp, v6) ==
             Visit(Walk(m, ks[..i - 1], now, whiteExp, v6), ks[i - 1], now, whiteExp, v6);
    }
  }
}
