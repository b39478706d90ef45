/** The in-process store of adapters/db/memory and the shared scan of adapters/db/kv
    that runs over it: bucket maps changed in place while a snapshot iterator walks. */
module MemoryStore {
  import opened Basics
  import opened ByteStrings
  import opened Keys
  import opened ScanSpec

  type Buckets = map<Bucket, map<Bytes, Data>>

  const PCOUNT_DOMAIN := -3
  const NO_DATA := Data(0, 0, 0, 0, 0)

  predicate KnownKind(k: Key) { KEY_IP <= k.typ <= KEY_DOMAIN_PART }

  ghost predicate DomainKeys(m: map<Bytes, Data>) {
    forall raw :: raw in m ==> raw != [] && BucketFor(raw[0]) == Domains
  }

  ghost predicate ValidBuckets(b: Buckets) {
    Entries in b && Spamtraps in b && Domains in b && WellFormed(b[Entries]) && DomainKeys(b[Domains])
  }

  function Lower(s: Bytes): Bytes {
    seq(|s|, i requires 0 <= i < |s| => if 65 <= s[i] <= 90 then s[i] + 32 else s[i])
  }

  /** A permitted domain is a suffix of the address, whatever the case. */
  predicate DomainMatches(domain: Bytes, addr: Bytes) {
    |domain| <= |addr| && Lower(addr)[|addr| - |domain|..] == Lower(domain)
  }

  /** The last bytes of the address are those of the domain, up to the case of letters. */
  lemma DomainMatchesExactly(domain: Bytes, addr: Bytes)
    ensures DomainMatches(domain, addr) <==>
      |domain| <= |addr| && forall i :: 0 <= i < |domain| ==> SameLetter(addr[|addr| - |domain| + i], domain[i])
  {
    if |domain| <= |addr| {
      var tail := Lower(addr)[|addr| - |domain|..];
      assert forall i :: 0 <= i < |domain| ==> tail[i] == Lower(addr)[|addr| - |domain| + i];
      if forall i :: 0 <= i < |domain| ==> SameLetter(addr[|addr| - |domain| + i], domain[i]) {
        assert tail == Lower(domain);
      } else {
        var i :| 0 <= i < |domain| && !SameLetter(addr[|addr| - |domain| + i], domain[i]);
        assert tail[i] != Lower(domain)[i];
      }
    }
  }

  /** Equal, or the capital and the small form of one letter. */
  predicate SameLetter(x: Byte, y: Byte) {
    x == y || (65 <= x <= 90 && y == x + 32) || (65 <= y <= 90 && x == y + 32)
  }

  /** Some stored domain matches the address. */
  ghost predicate Permitted(m: map<Bytes, Data>, addr: Bytes) {
    exists raw :: raw in m && DecodeKey(raw).Some? && DomainMatches(DecodeKey(raw).value.str, addr)
  }

  /** A transaction over a bucket set. */
  class Tx {
    var data: Buckets
    const readOnly: bool

    ghost predicate Valid()
      reads this
    {
      ValidBuckets(data)
    }

    constructor (data: Buckets, readOnly: bool)
      requires ValidBuckets(data)
      ensures Valid() && this.data == data && this.readOnly == readOnly
    {
      this.data := data;
      this.readOnly := readOnly;
    }

    /** False stands for ErrReadOnly. */
    method Put(k: Key, d: Data) returns (ok: bool)
      requires Valid() && KnownKind(k)
      modifies this
      ensures Valid() && ok == !readOnly
      ensures data == if ok then
                        var b := BucketFor(k.typ); old(data)[b := old(data)[b][EncodeKey(k) := d]]
                      else old(data)
    {
      if readOnly { return false; }
      EncodedDecodes(k);
      var b := BucketFor(k.typ);
      data := data[b := data[b][EncodeKey(k) := d]];
      return true;
    }

    /** A domain part is looked up as a suffix among the domains; every other key is looked up as
        it is. */
    method Get(k: Key) returns (d: Data, found: bool)
      requires Valid() && KnownKind(k)
      ensures k.typ != KEY_DOMAIN_PART ==> (found <==> EncodeKey(k) in data[BucketFor(k.typ)])
      ensures k.typ != KEY_DOMAIN_PART && found ==> d == data[BucketFor(k.typ)][EncodeKey(k)]
      ensures k.typ == KEY_DOMAIN_PART ==> (found <==> Permitted(data[Domains], k.str))
      ensures k.typ == KEY_DOMAIN_PART && found ==> d.pcount == PCOUNT_DOMAIN
    {
      if k.typ == KEY_DOMAIN_PART {
        found := MatchDomain(k.str);
        return if found then NO_DATA.(pcount := PCOUNT_DOMAIN) else NO_DATA, found;
      }
      var b := data[BucketFor(k.typ)];
      if EncodeKey(k) !in b { return NO_DATA, false; }
      return b[EncodeKey(k)], true;
    }

    /** The loop over the domains, in no particular order. */
    method MatchDomain(addr: Bytes) returns (found: bool)
      requires Valid()
      ensures found <==> Permitted(data[Domains], addr)
    {
      hide DomainMatches;
      var rest := data[Domains].Keys;
      while rest != {}
        invariant rest <= data[Domains].Keys
        invariant forall raw :: raw in data[Domains].Keys - rest && DecodeKey(raw).Some? ==>
          !DomainMatches(DecodeKey(raw).value.str, addr)
        decreases rest
      {
        var raw :| raw in rest;
        assert DecodeKey(raw).Some?;
        if DomainMatches(DecodeKey(raw).value.str, addr) { return true; }
        rest := rest - {raw};
      }
      return false;
    }

    /** `ok` is false for ErrReadOnly. */
    method Del(k: Key) returns (existed: bool, ok: bool)
      requires Valid() && KnownKind(k)
      modifies this
      ensures Valid() && ok == !readOnly
      ensures existed <==> ok && EncodeKey(k) in old(data)[BucketFor(k.typ)]
      ensures data == if ok then var b := BucketFor(k.typ); old(data)[b := old(data)[b] - {EncodeKey(k)}] else old(data)
    {
      if readOnly { return false, false; }
      var b := BucketFor(k.typ);
      existed := EncodeKey(k) in data[b];
      data := data[b := data[b] - {EncodeKey(k)}];
      ok := true;
    }

    /** AddrState: 0 not found, 1 greytrapped, 2 whitelisted. */
    method AddrState(ip: Bytes) returns (state: int)
      requires Valid()
      ensures state == 0 <==> AddrKey(ip) !in data[Entries]
      ensures state == 1 <==> AddrKey(ip) in data[Entries] && data[Entries][AddrKey(ip)].pcount == TRAPPED
      ensures 0 <= state <= 2
    {
      var d, found := Get(IPKey(ip));
      state := if !found then 0 else if d.pcount == TRAPPED then 1 else 2;
    }
  }

  /** A snapshot of the entry keys, walked while the bucket may change underneath. */
  class Iterator {
    const tx: Tx
    const keys: seq<Bytes>
    var pos: int
    var curr: Key
    var has: bool

    constructor (tx: Tx)
      requires tx.Valid()
      ensures this.tx == tx && pos == -1 && keys == SortedKeys(tx.data[Entries].Keys)
    {
      var ks := SortSet(tx.data[Entries].Keys);
      this.tx := tx;
      keys := ks;
      pos := -1;
      curr := IPKey([]);
      has := false;
    }

    ghost predicate Valid()
      reads this, tx
    {
      tx.Valid() && -1 <= pos <= |keys| && forall i :: 0 <= i < |keys| ==> EntryKey(keys[i])
    }

    /** The next key that is still in the bucket; keys deleted since the snapshot are
        passed over. */
    method Next() returns (k: Key, d: Data, ok: bool)
      requires Valid() && pos < |keys|
      modifies this
      ensures Valid() && old(pos) < pos && has == ok
      ensures forall i :: old(pos) < i < pos ==> keys[i] !in tx.data[Entries]
      ensures ok <==> pos < |keys|
      ensures ok ==> keys[pos] in tx.data[Entries] && d == tx.data[Entries][keys[pos]]
      ensures ok ==> curr == k && DecodeKey(keys[pos]) == Some(k)
    {
      hide DecodeKey, WellFormed;
      pos := pos + 1;
      while pos < |keys| && keys[pos] !in tx.data[Entries]
        invariant Valid() && old(pos) < pos
        invariant forall i :: old(pos) < i < pos ==> keys[i] !in tx.data[Entries]
        decreases |keys| - pos
      {
        pos := pos + 1;
      }
      if pos >= |keys| {
        has := false;
        return IPKey([]), NO_DATA, false;
      }
      curr := DecodeKey(keys[pos]).value;
      has := true;
      return curr, tx.data[Entries][keys[pos]], true;
    }

    method DeleteCurrent()
      requires Valid() && has && 0 <= pos < |keys| && DecodeKey(keys[pos]) == Some(curr) && !tx.readOnly
      modifies tx
      ensures Valid()
      ensures tx.data == old(tx.data)[Entries := old(tx.data)[Entries] - {keys[pos]}]
    {
      EncodeOfDecode(keys[pos]);
      var _, _ := tx.Del(curr);
    }
  }

  lemma {:induction false} WalkSkips(m: Store, ks: seq<Bytes>, i: nat, j: nat, now: int, whiteExp: int,
                                     v6: Bytes -> bool)
    requires i <= j <= |ks| && forall n :: 0 <= n < |ks| ==> EntryKey(ks[n])
    requires forall n :: i <= n < j ==> ks[n] !in Walk(m, ks[..i], now, whiteExp, v6).store
    ensures Walk(m, ks[..j], now, whiteExp, v6) == Walk(m, ks[..i], now, whiteExp, v6)
  {
    hide Walk, Visit, EntryKey;
    if i < j {
      WalkSkips(m, ks, i, j - 1, now, whiteExp, v6);
      WalkVisits(m, ks, j - 1, now, whiteExp, v6);
      VisitAbsent(Walk(m, ks[..j - 1], now, whiteExp, v6), ks[j - 1], now, whiteExp, v6);
    }
  }

  lemma VisitAbsent(p: Progress, raw: Bytes, now: int, whiteExp: int, v6: Bytes -> bool)
    requires EntryKey(raw) && raw !in p.store
    ensures Visit(p, raw, now, whiteExp, v6) == p
  {
  }

  lemma WalkVisits(m: Store, ks: seq<Bytes>, i: nat, now: int, whiteExp: int, v6: Bytes -> bool)
    requires i < |ks| && forall n :: 0 <= n < |ks| ==> EntryKey(ks[n])
    ensures Walk(m, ks[..i + 1], now, whiteExp, v6) ==
            Visit(Walk(m, ks[..i], now, whiteExp, v6), ks[i], now, whiteExp, v6)
  {
    assert ks[..i + 1][..i] == ks[..i];
  }

  /** One turn of the scan, for the entry the iterator stands on. */
  method ScanEntry(it: Iterator, k: Key, d: Data, res: ScanResult, seen: set<Bytes>, now: int, whiteExp: int,
                   v6: Bytes -> bool, ghost p: Progress) returns (res': ScanResult, seen': set<Bytes>)
    requires it.Valid() && it.has && 0 <= it.pos < |it.keys| && it.curr == k && !it.tx.readOnly
    requires DecodeKey(it.keys[it.pos]) == Some(k)
    requires p.store == it.tx.data[Entries] && p.seen == seen && p.res == res
    requires it.keys[it.pos] in p.store && p.store[it.keys[it.pos]] == d
    modifies it.tx
    ensures it.Valid()
    ensures var q := Visit(p, it.keys[it.pos], now, whiteExp, v6);
      it.tx.data == old(it.tx.data)[Entries := q.store] && seen' == q.seen && res' == q.res
  {
    hide DecodeKey, EncodeKey, AddWhite, DomainKeys, Permitted;
    res', seen' := res, seen;
    KindOf(it.keys[it.pos], k);
    if d.expire <= now && d.pcount > SPAMTRAP {
      it.DeleteCurrent();
    } else if d.pcount == TRAPPED && k.typ == KEY_IP {
      res' := res.(traplist := res.traplist + [k.str]);
    } else if d.pcount >= 0 && d.pass <= now {
      if k.typ == KEY_TUPLE {
        var state := it.tx.AddrState(k.tuple.ip);
        if state == 0 {
          var _ := it.tx.Put(IPKey(k.tuple.ip), d.(expire := now + whiteExp));
          it.DeleteCurrent();
          res', seen' := AddToWhitelist(res, seen, k.tuple.ip, v6);
        }
      } else if k.typ == KEY_IP {
        res', seen' := AddToWhitelist(res, seen, k.str, v6);
      }
    }
  }

  /** The shared scan: expiry, promotion and the result lists, one entry at a time with
      every change made while the iterator is live. */
  method KvScan(tx: Tx, now: int, whiteExp: int, v6: Bytes -> bool) returns (res: ScanResult)
    requires tx.Valid() && !tx.readOnly
    modifies tx
    ensures tx.Valid()
    ensures tx.data == old(tx.data)[Entries := ScanSpec.Scan(old(tx.data[Entries]), now, whiteExp, v6).store]
    ensures res == ScanSpec.Scan(old(tx.data[Entries]), now, whiteExp, v6).res
  {
    hide DecodeKey, Walk, Visit, SortedKeys, DomainKeys;
    ghost var m := tx.data[Entries];
    res := ScanResult([], [], []);
    var seen: set<Bytes> := {};
    var it := new Iterator(tx);
    ghost var ks := it.keys;
    SortedAreEntries(m);
    ghost var p := Walk(m, ks[..0], now, whiteExp, v6);
    WalkNothing(m, ks, now, whiteExp, v6);
    while true
      invariant fresh(it) && it.tx == tx && it.keys == ks && it.Valid() && it.pos < |ks|
      invariant p == Walk(m, ks[..it.pos + 1], now, whiteExp, v6)
      invariant tx.data == old(tx.data)[Entries := p.store] && seen == p.seen && res == p.res
      decreases |ks| - it.pos
    {
      ghost var from := it.pos + 1;
      var k, d, ok := it.Next();
      WalkSkips(m, ks, from, it.pos, now, whiteExp, v6);
      if !ok { break; }
      WalkVisits(m, ks, it.pos, now, whiteExp, v6);
      res, seen := ScanEntry(it, k, d, res, seen, now, whiteExp, v6, p);
      p := Visit(p, ks[it.pos], now, whiteExp, v6);
    }
    assert ks[..|ks|] == ks;
  }

  /** addWhite. */
  method AddToWhitelist(res: ScanResult, seen: set<Bytes>, addr: Bytes, v6: Bytes -> bool)
    returns (res': ScanResult, seen': set<Bytes>)
    ensures forall p: Progress :: p.seen == seen && p.res == res ==>
      AddWhite(p, addr, v6) == p.(seen := seen', res := res')
  {
    if addr in seen { return res, seen; }
    seen' := seen + {addr};
    if v6(addr) {
      res' := res.(whitelistV6 := res.whitelistV6 + [addr]);
    } else {
      res' := res.(whitelist := res.whitelist + [addr]);
    }
  }

  lemma SortedAreEntries(m: Store)
    requires WellFormed(m)
    ensures forall i :: 0 <= i < |SortedKeys(m.Keys)| ==> EntryKey(SortedKeys(m.Keys)[i])
  {
    var ks := SortedKeys(m.Keys);
    forall i | 0 <= i < |ks| ensures EntryKey(ks[i]) { assert ks[i] in Elems(ks); }
  }

  lemma WalkNothing(m: Store, ks: seq<Bytes>, now: int, whiteExp: int, v6: Bytes -> bool)
    ensures Walk(m, ks[..0], now, whiteExp, v6) == Start(m)
  {
  }

  lemma KindOf(raw: Bytes, k: Key)
    requires EntryKey(raw) && DecodeKey(raw) == Some(k)
    ensures k.typ == KEY_IP || k.typ == KEY_TUPLE
    ensures k.typ == KEY_IP <==> IsAddr(raw)
    ensures k.typ == KEY_IP ==> k.str == raw[1..]
    ensures k.typ == KEY_TUPLE ==> IsTuple(raw) && TupleAddr(raw) == k.tuple.ip
  {
  }

  /** The data shared by the stores of one name. An update works on a copy of the buckets
      and installs it only when the transaction function succeeds. */
  class Database {
    var data: Buckets

    constructor ()
      ensures ValidBuckets(data) && forall b :: b in data ==> data[b] == map[]
    {
      data := map[Entries := map[], Spamtraps := map[], Domains := map[]];
    }

    /** Update around a scan. None stands for an error: the context was cancelled, the store is
        open for reading only, or the transaction function itself fails after its work. */
    method UpdateScan(cancelled: bool, readOnly: bool, fails: bool, now: int, whiteExp: int, v6: Bytes -> bool)
      returns (r: Option<ScanResult>)
      requires ValidBuckets(data)
      modifies this
      ensures ValidBuckets(data)
      ensures cancelled || readOnly || fails ==> r == None && data == old(data)
      ensures !cancelled && !readOnly && !fails ==>
        var p := ScanSpec.Scan(old(data)[Entries], now, whiteExp, v6);
        r == Some(p.res) && data == old(data)[Entries := p.store]
    {
      if cancelled || readOnly { return None; }
      var work := new Tx(data, false);
      var res := KvScan(work, now, whiteExp, v6);
      if fails { return None; }
      data := work.data;
      return Some(res);
    }
  }
}
