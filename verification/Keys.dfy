/** Database keys and values: the domain types of internal/core and the encodings
    that adapters/db/kv gives them. */
module Keys {
  import opened Basics
  import opened ByteStrings
  import BigEndian

  datatype Tuple = Tuple(ip: Bytes, helo: Bytes, from: Bytes, to: Bytes)

  const KEY_IP: Byte := 1
  const KEY_MAIL: Byte := 2
  const KEY_TUPLE: Byte := 3
  const KEY_DOMAIN: Byte := 4
  const KEY_DOMAIN_PART: Byte := 5

  /** `str` is used by every kind but tuples, `tuple` by tuples only. */
  datatype Key = Key(typ: Byte, str: Bytes, tuple: Tuple)

  const NO_TUPLE := Tuple([], [], [], [])

  function IPKey(ip: Bytes): Key { Key(KEY_IP, ip, NO_TUPLE) }
  function MailKey(addr: Bytes): Key { Key(KEY_MAIL, addr, NO_TUPLE) }
  function DomainPartKey(addr: Bytes): Key { Key(KEY_DOMAIN_PART, addr, NO_TUPLE) }
  function TupleKey(t: Tuple): Key { Key(KEY_TUPLE, [], t) }

  datatype Bucket = Entries | Spamtraps | Domains

  function BucketFor(typ: Byte): Bucket {
    if typ == KEY_MAIL then Spamtraps
    else if typ == KEY_DOMAIN || typ == KEY_DOMAIN_PART then Domains
    else Entries
  }

  /** The fields with a zero byte between each two. */
  function Join(parts: seq<Bytes>): Bytes
    requires parts != []
  {
    if |parts| == 1 then parts[0] else parts[0] + [0] + Join(parts[1..])
  }

  function EncodeKey(k: Key): Bytes {
    if k.typ == KEY_TUPLE then
      [k.typ] + Join([k.tuple.ip, k.tuple.helo, k.tuple.from, k.tuple.to])
    else
      [k.typ] + k.str
  }

  /** The bytes of a key: its kind, then its text, or the four parts of its tuple in this order with
      a zero byte between them. */
  lemma KeyLayout(k: Key)
    ensures k.typ == 3 ==>
      EncodeKey(k) == [3] + (k.tuple.ip + [0] + (k.tuple.helo + [0] + (k.tuple.from + [0] + k.tuple.to)))
    ensures k.typ != 3 ==> EncodeKey(k) == [k.typ] + k.str
  {
    var t := k.tuple;
    JoinStep(t.ip, [t.helo, t.from, t.to]);
    JoinStep(t.helo, [t.from, t.to]);
    JoinStep(t.from, [t.to]);
    assert [t.ip] + [t.helo, t.from, t.to] == [t.ip, t.helo, t.from, t.to];
    assert [t.helo] + [t.from, t.to] == [t.helo, t.from, t.to] && [t.from] + [t.to] == [t.from, t.to];
  }

  lemma JoinStep(part: Bytes, parts: seq<Bytes>)
    requires parts != []
    ensures Join([part] + parts) == part + [0] + Join(parts)
  {
    assert ([part] + parts)[1..] == parts;
  }

  /** The position of the first zero byte, or the length when there is none. */
  function IndexZero(s: Bytes): (i: nat)
    ensures i <= |s|
    ensures forall j :: 0 <= j < i ==> s[j] != 0
    ensures i < |s| ==> s[i] == 0
  {
    if s == [] || s[0] == 0 then 0 else 1 + IndexZero(s[1..])
  }

  /** strings.SplitN(s, "\x00", n) for n >= 1. */
  function SplitN(s: Bytes, n: nat): (parts: seq<Bytes>)
    requires n >= 1
    ensures 1 <= |parts| <= n
    decreases n
  {
    var i := IndexZero(s);
    if n == 1 || i == |s| then [s] else [s[..i]] + SplitN(s[i + 1..], n - 1)
  }

  /** None for the empty key and for a tuple key with fewer than three separators. */
  function DecodeKey(b: Bytes): Option<Key> {
    if b == [] then None
    else if b[0] == KEY_TUPLE then
      var parts := SplitN(b[1..], 4);
      if |parts| != 4 then None
      else Some(TupleKey(Tuple(parts[0], parts[1], parts[2], parts[3])))
    else Some(Key(b[0], b[1..], NO_TUPLE))
  }

  lemma {:induction false} JoinSplit(s: Bytes, n: nat)
    requires n >= 1
    ensures Join(SplitN(s, n)) == s
    decreases n
  {
    hide IndexZero;
    var i := IndexZero(s);
    if n > 1 && i < |s| {
      JoinSplit(s[i + 1..], n - 1);
      assert SplitN(s, n)[1..] == SplitN(s[i + 1..], n - 1);
      assert s == s[..i] + [0] + s[i + 1..];
    }
  }

  predicate ZeroFree(s: Bytes) {
    forall i :: 0 <= i < |s| ==> s[i] != 0
  }

  lemma IndexFirst(a: Bytes, rest: Bytes)
    requires ZeroFree(a)
    ensures IndexZero(a + [0] + rest) == |a|
  {
    var s := a + [0] + rest;
    assert s[|a|] == 0;
    assert forall j :: 0 <= j < |a| ==> s[j] == a[j];
  }

  lemma SplitFirst(a: Bytes, rest: Bytes, n: nat)
    requires ZeroFree(a) && n > 1
    ensures SplitN(a + [0] + rest, n) == [a] + SplitN(rest, n - 1)
  {
    var s := a + [0] + rest;
    IndexFirst(a, rest);
    assert s[..|a|] == a && s[|a| + 1..] == rest;
  }

  lemma {:induction false} SplitJoin(parts: seq<Bytes>)
    requires parts != []
    requires forall j :: 0 <= j < |parts| - 1 ==> ZeroFree(parts[j])
    ensures SplitN(Join(parts), |parts|) == parts
  {
    if |parts| > 1 {
      SplitJoin(parts[1..]);
      SplitFirst(parts[0], Join(parts[1..]), |parts|);
    }
  }

  lemma {:induction false} SplitPieces(s: Bytes, n: nat)
    requires n >= 1
    ensures forall j :: 0 <= j < |SplitN(s, n)| - 1 ==> ZeroFree(SplitN(s, n)[j])
    decreases n
  {
    var i := IndexZero(s);
    if n > 1 && i < |s| {
      SplitPieces(s[i + 1..], n - 1);
    }
  }

  /** Re-encoding a decoded key gives back its bytes: deleting by the decoded key
      (memory) and by the raw key (bolt) hit the same entry. */
  lemma EncodeOfDecode(b: Bytes)
    requires DecodeKey(b).Some?
    ensures EncodeKey(DecodeKey(b).value) == b
  {
    hide SplitN, Join;
    assert b == [b[0]] + b[1..];
    if b[0] == KEY_TUPLE {
      var parts := SplitN(b[1..], 4);
      JoinSplit(b[1..], 4);
      assert parts == [parts[0], parts[1], parts[2], parts[3]];
    }
  }

  /** A key that is used as the source uses it: tuple fields only in tuple keys. */
  predicate Canonical(k: Key) {
    if k.typ == KEY_TUPLE then k.str == [] else k.tuple == NO_TUPLE
  }

  predicate Separable(t: Tuple) {
    ZeroFree(t.ip) && ZeroFree(t.helo) && ZeroFree(t.from)
  }

  /** Decoding inverts encoding on exactly the keys whose first three tuple fields
      hold no separator. */
  lemma DecodeOfEncode(k: Key)
    requires Canonical(k)
    ensures DecodeKey(EncodeKey(k)) == Some(k) <==> (k.typ == KEY_TUPLE ==> Separable(k.tuple))
  {
    var b := EncodeKey(k);
    if k.typ == KEY_TUPLE {
      var parts := [k.tuple.ip, k.tuple.helo, k.tuple.from, k.tuple.to];
      assert b[1..] == Join(parts);
      if Separable(k.tuple) {
        SplitJoin(parts);
      } else if DecodeKey(b) == Some(k) {
        SplitPieces(b[1..], 4);
      }
    } else {
      assert b[1..] == k.str;
    }
  }

  /** How many zero bytes there are. */
  function ZeroCount(s: Bytes): nat {
    if s == [] then 0 else (if s[0] == 0 then 1 else 0) + ZeroCount(s[1..])
  }

  /** A zero byte in the first part moves the parts: this tuple comes back as another one. */
  lemma ZeroByteMoves()
    ensures var t := Tuple([0], [], [], []); DecodeKey(EncodeKey(TupleKey(t))) != Some(TupleKey(t))
  {
    var t := Tuple([0], [], [], []);
    DecodeOfEncode(TupleKey(t));
    assert t.ip[0] == 0;
  }

  lemma {:induction false} ZeroCountConcat(a: Bytes, b: Bytes)
    ensures ZeroCount(a + b) == ZeroCount(a) + ZeroCount(b)
  {
    if a == [] {
      assert a + b == b;
    } else {
      assert (a + b)[1..] == a[1..] + b;
      ZeroCountConcat(a[1..], b);
    }
  }

  lemma {:induction false} ZerosAfterFirst(s: Bytes)
    ensures var i := IndexZero(s);
      ZeroCount(s) == if i == |s| then 0 else 1 + ZeroCount(s[i + 1..])
  {
    if s != [] && s[0] != 0 {
      ZerosAfterFirst(s[1..]);
      var i := IndexZero(s[1..]);
      if i < |s[1..]| { assert s[1..][i + 1..] == s[i + 2..]; }
    }
  }

  lemma {:induction false} SplitCount(s: Bytes, n: nat)
    requires n >= 1
    ensures |SplitN(s, n)| == if ZeroCount(s) + 1 < n then ZeroCount(s) + 1 else n
    decreases n
  {
    hide IndexZero, ZeroCount, SplitN;
    ZerosAfterFirst(s);
    SplitStep(s, n);
    var i := IndexZero(s);
    if i < |s| && n > 1 { SplitCount(s[i + 1..], n - 1); }
  }

  lemma SplitStep(s: Bytes, n: nat)
    requires n >= 1
    ensures var i := IndexZero(s);
      |SplitN(s, n)| == if n == 1 || i == |s| then 1 else 1 + |SplitN(s[i + 1..], n - 1)|
  {
  }

  lemma {:induction false} JoinZeros(parts: seq<Bytes>)
    requires parts != []
    ensures ZeroCount(Join(parts)) >= |parts| - 1
  {
    if |parts| > 1 {
      JoinZeros(parts[1..]);
      ZeroCountConcat(parts[0] + [0], Join(parts[1..]));
      ZeroCountConcat(parts[0], [0]);
      assert ZeroCount([0]) == 1 + ZeroCount([]);
    }
  }

  /** Whatever bytes the fields hold, an encoded key decodes to a key of its kind. */
  lemma EncodedDecodes(k: Key)
    ensures DecodeKey(EncodeKey(k)).Some? && DecodeKey(EncodeKey(k)).value.typ == k.typ
  {
    if k.typ == KEY_TUPLE {
      var parts := [k.tuple.ip, k.tuple.helo, k.tuple.from, k.tuple.to];
      assert EncodeKey(k)[1..] == Join(parts);
      JoinZeros(parts);
      SplitCount(Join(parts), 4);
    }
  }

  /** Every address key sorts before every tuple key. */
  lemma AddressesFirst(a: Bytes, b: Bytes)
    requires a != [] && b != [] && a[0] == KEY_IP && b[0] == KEY_TUPLE
    ensures Less(a, b) && !Less(b, a)
  {
  }

  // ----- values -----

  const TRAPPED := -1
  const SPAMTRAP := -2

  datatype Data = Data(first: int, pass: int, expire: int, bcount: int, pcount: int)

  const INT64_LIMIT := 0x8000_0000_0000_0000

  predicate IsInt64(x: int) { -INT64_LIMIT <= x < INT64_LIMIT }

  predicate FitsInt64(d: Data) {
    IsInt64(d.first) && IsInt64(d.pass) && IsInt64(d.expire) && IsInt64(d.bcount) && IsInt64(d.pcount)
  }

  /** Go's uint64(x) of an int64, and back. */
  function ToUint64(x: int): nat
    requires IsInt64(x)
  {
    if x < 0 then x + 2 * INT64_LIMIT else x
  }

  function FromUint64(u: nat): int {
    if u < INT64_LIMIT then u else u - 2 * INT64_LIMIT
  }

  function EncodeData(d: Data): (b: Bytes)
    requires FitsInt64(d)
    ensures |b| == 40
  {
    BigEndian.Put(ToUint64(d.first), 8) + BigEndian.Put(ToUint64(d.pass), 8) +
    BigEndian.Put(ToUint64(d.expire), 8) + BigEndian.Put(ToUint64(d.bcount), 8) +
    BigEndian.Put(ToUint64(d.pcount), 8)
  }

  function DecodeData(b: Bytes): Option<Data> {
    if |b| != 40 then None
    else Some(Data(FromUint64(BigEndian.Get(b[0..8])), FromUint64(BigEndian.Get(b[8..16])),
                   FromUint64(BigEndian.Get(b[16..24])), FromUint64(BigEndian.Get(b[24..32])),
                   FromUint64(BigEndian.Get(b[32..40]))))
  }

  function Field(d: Data, i: nat): int {
    if i == 0 then d.first else if i == 1 then d.pass else if i == 2 then d.expire
    else if i == 3 then d.bcount else d.pcount
  }

  /** The bytes of a value: first, pass, expire, block count and pass count, each as eight bytes of
      two's complement, most significant first. */
  lemma DataLayout(d: Data, i: nat, j: nat)
    requires FitsInt64(d) && i < 5 && j < 8
    ensures EncodeData(d)[8 * i + j] == Field(d, i) % (2 * INT64_LIMIT) / BigEndian.Pow256(7 - j) % 256
  {
    hide EncodeData, BigEndian.Put, BigEndian.Pow256, ToUint64, Field;
    FieldFits(d, i);
    WordAt(d, i);
    TwosComplement(Field(d, i));
    BigEndian.PutBytes(ToUint64(Field(d, i)), 8, j);
    assert EncodeData(d)[8 * i + j] == EncodeData(d)[8 * i..8 * i + 8][j];
  }

  lemma FieldFits(d: Data, i: nat)
    requires FitsInt64(d) && i < 5
    ensures IsInt64(Field(d, i))
  {
  }

  lemma WordAt(d: Data, i: nat)
    requires FitsInt64(d) && i < 5
    ensures IsInt64(Field(d, i)) && EncodeData(d)[8 * i..8 * i + 8] == BigEndian.Put(ToUint64(Field(d, i)), 8)
  {
    hide BigEndian.Put, ToUint64;
  }

  lemma TwosComplement(x: int)
    requires IsInt64(x)
    ensures ToUint64(x) == x % (2 * INT64_LIMIT)
  {
  }

  lemma WordRoundTrip(x: int)
    requires IsInt64(x)
    ensures FromUint64(BigEndian.Get(BigEndian.Put(ToUint64(x), 8))) == x
  {
    BigEndian.PowValues();
    BigEndian.GetPut(ToUint64(x), 8);
  }

  lemma BytesRoundTrip(b: Bytes)
    requires |b| == 8
    ensures IsInt64(FromUint64(BigEndian.Get(b)))
    ensures BigEndian.Put(ToUint64(FromUint64(BigEndian.Get(b))), 8) == b
  {
    BigEndian.PowValues();
    BigEndian.PutGet(b);
  }

  lemma DecodeOfEncodeData(d: Data)
    requires FitsInt64(d)
    ensures DecodeData(EncodeData(d)) == Some(d)
  {
    var b := EncodeData(d);
    WordRoundTrip(d.first);  WordRoundTrip(d.pass);  WordRoundTrip(d.expire);
    WordRoundTrip(d.bcount); WordRoundTrip(d.pcount);
    assert b[0..8] == BigEndian.Put(ToUint64(d.first), 8);
    assert b[8..16] == BigEndian.Put(ToUint64(d.pass), 8);
    assert b[16..24] == BigEndian.Put(ToUint64(d.expire), 8);
    assert b[24..32] == BigEndian.Put(ToUint64(d.bcount), 8);
    assert b[32..40] == BigEndian.Put(ToUint64(d.pcount), 8);
  }

  lemma EncodeOfDecodeData(b: Bytes)
    requires DecodeData(b).Some?
    ensures FitsInt64(DecodeData(b).value) && EncodeData(DecodeData(b).value) == b
  {
    hide BigEndian.Put, BigEndian.Get, ToUint64, FromUint64;
    BytesRoundTrip(b[0..8]);   BytesRoundTrip(b[8..16]); BytesRoundTrip(b[16..24]);
    BytesRoundTrip(b[24..32]); BytesRoundTrip(b[32..40]);
    assert b == b[0..8] + b[8..16] + b[16..24] + b[24..32] + b[32..40];
  }
}
