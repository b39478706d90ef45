/** The native scan of adapters/db/bolt: a cursor walk that reads the bucket as it was at
    the start, collects the deletions and writes it will make, and applies them at the end. */
module BoltStore {
  import opened Basics
  import opened ByteStrings
  import opened Keys
  import opened ScanSpec
  import M = MemoryStore

  /** A deferred write. */
  datatype KvPut = KvPut(key: Bytes, data: Data)

  function ApplyPuts(m: Store, puts: seq<KvPut>): Store {
    if puts == [] then m
    else ApplyPuts(m, puts[..|puts| - 1])[puts[|puts| - 1].key := puts[|puts| - 1].data]
  }

  function PutKeys(puts: seq<KvPut>): set<Bytes> {
    set p | p in puts :: p.key
  }

  lemma ApplyPutsSnoc(m: Store, puts: seq<KvPut>, p: KvPut)
    ensures ApplyPuts(m, puts + [p]) == ApplyPuts(m, puts)[p.key := p.data]
    ensures PutKeys(puts + [p]) == PutKeys(puts) + {p.key}
  {
    assert (puts + [p])[..|puts|] == puts;
    assert forall q :: q in puts + [p] <==> q in puts || q == p;
  }

  lemma {:induction false} ApplyPutsKeys(m: Store, puts: seq<KvPut>)
    ensures ApplyPuts(m, puts).Keys == m.Keys + PutKeys(puts)
    ensures forall k :: k in m && k !in PutKeys(puts) ==> ApplyPuts(m, puts)[k] == m[k]
  {
    if puts != [] {
      var n := |puts| - 1;
      ApplyPutsKeys(m, puts[..n]);
      ApplyPutsSnoc(m, puts[..n], puts[n]);
      assert puts == puts[..n] + [puts[n]];
    }
  }

  /** Deleting before or after the writes is the same for a key that is not written. */
  lemma {:induction false} DeleteEarlier(m: Store, puts: seq<KvPut>, k: Bytes)
    requires k !in PutKeys(puts)
    ensures ApplyPuts(m - {k}, puts) == ApplyPuts(m, puts) - {k}
  {
    if puts != [] {
      var n := |puts| - 1;
      ApplyPutsSnoc(m, puts[..n], puts[n]);
      ApplyPutsSnoc(m - {k}, puts[..n], puts[n]);
      assert puts == puts[..n] + [puts[n]];
      DeleteEarlier(m, puts[..n], k);
    }
  }

  /** How the deferred state stands for the store that immediate mutation would have
      reached, with `done` the keys visited so far. */
  ghost predicate Mirrors(m: Store, done: set<Bytes>, dels: seq<Bytes>, puts: seq<KvPut>,
                          deletedIP: set<Bytes>, addedIP: set<Bytes>, s: Store)
  {
    && s == ApplyPuts(m - Elems(dels), puts)
    && Elems(dels) <= done
    && (forall a :: a in deletedIP <==> AddrKey(a) in Elems(dels))
    && (forall a :: a in addedIP <==> AddrKey(a) in PutKeys(puts))
    && (forall k :: k in PutKeys(puts) ==> IsAddr(k))
    && (puts != [] ==> exists t :: t in done && IsTuple(t))
  }

  /** The entry under the cursor reads the same in the old bucket and in the mutated one. */
  lemma CursorReads(m: Store, done: set<Bytes>, dels: seq<Bytes>, puts: seq<KvPut>,
                    deletedIP: set<Bytes>, addedIP: set<Bytes>, s: Store, raw: Bytes)
    requires Mirrors(m, done, dels, puts, deletedIP, addedIP, s) && Next(m, done, raw)
    ensures raw !in PutKeys(puts) && raw in s && s[raw] == m[raw]
  {
    ApplyPutsKeys(m - Elems(dels), puts);
    if puts != [] {
      var t :| t in done && IsTuple(t);
      if raw in PutKeys(puts) { AddressesFirst(raw, t); }
    }
  }

  /** addrState answers as AddrState would on the mutated store. */
  lemma AddrStateMirrors(m: Store, done: set<Bytes>, dels: seq<Bytes>, puts: seq<KvPut>,
                         deletedIP: set<Bytes>, addedIP: set<Bytes>, s: Store, a: Bytes)
    requires Mirrors(m, done, dels, puts, deletedIP, addedIP, s)
    ensures AddrKey(a) in s <==> a in addedIP || (AddrKey(a) in m && a !in deletedIP)
  {
    ApplyPutsKeys(m - Elems(dels), puts);
  }

  lemma DeferDelete(m: Store, done: set<Bytes>, dels: seq<Bytes>, puts: seq<KvPut>,
                    deletedIP: set<Bytes>, addedIP: set<Bytes>, s: Store, raw: Bytes)
    requires Mirrors(m, done, dels, puts, deletedIP, addedIP, s) && Next(m, done, raw)
    ensures Mirrors(m, done + {raw}, dels + [raw], puts,
                    if IsAddr(raw) then deletedIP + {raw[1..]} else deletedIP, addedIP, s - {raw})
  {
    hide Next, AddrKey, Elems, DecodeKey, PutKeys;
    CursorReads(m, done, dels, puts, deletedIP, addedIP, s, raw);
    ElemsConcat(dels, [raw]);
    ElemsOne(raw);
    assert m - Elems(dels + [raw]) == m - Elems(dels) - {raw};
    DeleteEarlier(m - Elems(dels), puts, raw);
    forall a ensures AddrKey(a) == raw <==> IsAddr(raw) && a == raw[1..] { AddrKeyInverse(raw, a); }
    MirrorsMore(m, done, dels, puts, deletedIP, addedIP, s, raw);
  }

  lemma ElemsOne(raw: Bytes)
    ensures Elems([raw]) == {raw}
  {
  }

  lemma AddrKeyInverse(raw: Bytes, a: Bytes)
    ensures AddrKey(a) == raw <==> IsAddr(raw) && a == raw[1..]
  {
    if IsAddr(raw) { assert raw == [raw[0]] + raw[1..]; }
    AddrKeyDecodes(a);
  }

  lemma DeferPut(m: Store, done: set<Bytes>, dels: seq<Bytes>, puts: seq<KvPut>,
                 deletedIP: set<Bytes>, addedIP: set<Bytes>, s: Store, a: Bytes, d: Data)
    requires Mirrors(m, done, dels, puts, deletedIP, addedIP, s)
    requires exists t :: t in done && IsTuple(t)
    ensures Mirrors(m, done, dels, puts + [KvPut(AddrKey(a), d)], deletedIP, addedIP + {a}, s[AddrKey(a) := d])
  {
    hide AddrKey, Elems, ApplyPuts, PutKeys;
    ApplyPutsSnoc(m - Elems(dels), puts, KvPut(AddrKey(a), d));
    AddrKeyDecodes(a);
  }

  lemma MirrorsMore(m: Store, done: set<Bytes>, dels: seq<Bytes>, puts: seq<KvPut>,
                    deletedIP: set<Bytes>, addedIP: set<Bytes>, s: Store, raw: Bytes)
    requires Mirrors(m, done, dels, puts, deletedIP, addedIP, s)
    ensures Mirrors(m, done + {raw}, dels, puts, deletedIP, addedIP, s)
  {
    if puts != [] {
      var t :| t in done && IsTuple(t);
      assert t in done + {raw};
    }
  }

  class Bucket {
    var data: Store

    constructor ()
      ensures data == map[]
    {
      data := map[];
    }

    /** The native scan leaves the bucket and the three lists exactly as the walk with
        immediate mutation does. */
    method Scan(now: int, whiteExp: int, v6: Bytes -> bool) returns (res: ScanResult)
      requires WellFormed(data)
      modifies this
      ensures data == ScanSpec.Scan(old(data), now, whiteExp, v6).store
      ensures res == ScanSpec.Scan(old(data), now, whiteExp, v6).res
    {
      hide DecodeKey, EncodeKey, Walk, SortedKeys, AddWhite, Mirrors, Next, AddrKey, Less;
      ghost var m := data;
      res := ScanResult([], [], []);
      var seen: set<Bytes> := {};
      var dels: seq<Bytes>, puts: seq<KvPut> := [], [];
      var deletedIP: set<Bytes>, addedIP: set<Bytes> := {}, {};
      var keys := SortSet(data.Keys);
      M.SortedAreEntries(m);
      M.WalkNothing(m, keys, now, whiteExp, v6);
      ghost var p := Walk(m, keys[..0], now, whiteExp, v6);
      MirrorsStart(m, keys);
      var i := 0;
      while i < |keys|
        invariant 0 <= i <= |keys| && data == m
        invariant p == Walk(m, keys[..i], now, whiteExp, v6) && seen == p.seen && res == p.res
        invariant Mirrors(m, Elems(keys[..i]), dels, puts, deletedIP, addedIP, p.store)
      {
        ghost var done := Elems(keys[..i]);
        var raw := keys[i];
        NextOfSorted(m, keys, i);
        CursorIn(m, done, raw);
        CursorReads(m, done, dels, puts, deletedIP, addedIP, p.store, raw);
        var k, d := DecodeKey(raw).value, data[raw];
        M.WalkVisits(m, keys, i, now, whiteExp, v6);
        M.KindOf(raw, k);
        ghost var q := Visit(p, raw, now, whiteExp, v6);
        if d.expire <= now && d.pcount > SPAMTRAP {
          DeferDelete(m, done, dels, puts, deletedIP, addedIP, p.store, raw);
          dels := dels + [raw];
          if k.typ == KEY_IP {
            deletedIP := deletedIP + {k.str};
          }
        } else {
          MirrorsMore(m, done, dels, puts, deletedIP, addedIP, p.store, raw);
          if d.pcount == TRAPPED && k.typ == KEY_IP {
            res := res.(traplist := res.traplist + [k.str]);
          } else if d.pcount >= 0 && d.pass <= now {
            if k.typ == KEY_TUPLE {
              var a := k.tuple.ip;
              AddrStateMirrors(m, done, dels, puts, deletedIP, addedIP, p.store, a);
              var state := AddrState(addedIP, deletedIP, a);
              if state == 0 {
                var d' := d.(expire := now + whiteExp);
                DeferDelete(m, done, dels, puts, deletedIP, addedIP, p.store, raw);
                assert raw in done + {raw};
                DeferPut(m, done + {raw}, dels + [raw], puts, deletedIP, addedIP, p.store - {raw}, a, d');
                AddrKeyDecodes(a);
                SwapUpdate(p.store, AddrKey(a), d', raw);
                puts := puts + [KvPut(AddrKey(a), d')];
                addedIP := addedIP + {a};
                dels := dels + [raw];
                res, seen := M.AddToWhitelist(res, seen, a, v6);
              }
            } else if k.typ == KEY_IP {
              res, seen := M.AddToWhitelist(res, seen, k.str, v6);
            }
          }
        }
        p := q;
        i := i + 1;
      }
      assert keys[..|keys|] == keys;
      FlushDeletes(m, dels, puts, deletedIP, addedIP, p.store, Elems(keys[..i]));
      DeleteAll(dels);
      PutAll(puts);
    }

    /** addrState: what AddrState would answer on the mutated store. */
    method AddrState(addedIP: set<Bytes>, deletedIP: set<Bytes>, addr: Bytes) returns (state: int)
      ensures state == 0 <==> addr !in addedIP && (AddrKey(addr) !in data || addr in deletedIP)
    {
      if addr in addedIP { return 2; }
      if AddrKey(addr) !in data || addr in deletedIP { return 0; }
      return if data[AddrKey(addr)].pcount == TRAPPED then 1 else 2;
    }

    method DeleteAll(dels: seq<Bytes>)
      modifies this
      ensures data == old(data) - Elems(dels)
    {
      for i := 0 to |dels|
        invariant data == old(data) - Elems(dels[..i])
      {
        assert dels[..i + 1] == dels[..i] + [dels[i]];
        ElemsConcat(dels[..i], [dels[i]]);
        data := data - {dels[i]};
      }
      assert dels[..|dels|] == dels;
    }

    method PutAll(puts: seq<KvPut>)
      modifies this
      ensures data == ApplyPuts(old(data), puts)
    {
      for i := 0 to |puts|
        invariant data == ApplyPuts(old(data), puts[..i])
      {
        assert puts[..i + 1][..i] == puts[..i];
        data := data[puts[i].key := puts[i].data];
      }
      assert puts[..|puts|] == puts;
    }
  }

  lemma MirrorsStart(m: Store, keys: seq<Bytes>)
    ensures Mirrors(m, Elems(keys[..0]), [], [], {}, {}, m)
  {
    assert m - Elems([]) == m;
  }

  lemma CursorIn(m: Store, done: set<Bytes>, raw: Bytes)
    requires Next(m, done, raw)
    ensures raw in m && EntryKey(raw)
  {
  }

  lemma SwapUpdate(s: Store, k: Bytes, d: Data, raw: Bytes)
    requires IsAddr(k) && !IsAddr(raw)
    ensures s[k := d] - {raw} == (s - {raw})[k := d]
  {
  }

  lemma FlushDeletes(m: Store, dels: seq<Bytes>, puts: seq<KvPut>, deletedIP: set<Bytes>, addedIP: set<Bytes>,
                     s: Store, done: set<Bytes>)
    requires Mirrors(m, done, dels, puts, deletedIP, addedIP, s)
    ensures ApplyPuts(m - Elems(dels), puts) == s
  {
  }

  /** Both stores, given the same entries, end with the same entries and return the same
      three sequences. */
  method BothScans(tx: M.Tx, bk: Bucket, now: int, whiteExp: int, v6: Bytes -> bool)
    returns (memory: ScanResult, bolt: ScanResult)
    requires tx.Valid() && !tx.readOnly && bk.data == tx.data[Entries]
    modifies tx, bk
    ensures tx.Valid() && memory == bolt && bk.data == tx.data[Entries]
  {
    memory := M.KvScan(tx, now, whiteExp, v6);
    bolt := bk.Scan(now, whiteExp, v6);
  }
}
