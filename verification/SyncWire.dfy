/** The spamd synchronisation packets of internal/sync, byte for byte, with the MAC as an
    arbitrary function of the packet. */
module SyncWire {
  import opened Basics
  import opened ByteStrings
  import BigEndian
  import Keys

  const VERSION: Byte := 2
  const AF_INET: Byte := 2
  const MAC_LEN := 20
  const HDR_LEN := 32
  const TLV_HDR_LEN := 4
  const GREY_HDR_LEN := 18
  const ADDR_LEN := 16
  const END_LEN := 4

  const TYPE_END := 0
  const TYPE_GREY := 1
  const TYPE_WHITE := 2
  const TYPE_TRAPPED := 3
  const TYPE_DEL_WHITE := 4
  const TYPE_DEL_TRAPPED := 5

  type Digest = b: Bytes | |b| == MAC_LEN witness seq(MAC_LEN, _ => 0)
  type Ip4 = b: Bytes | |b| == 4 witness seq(4, _ => 0)
  type Word16 = x: int | 0 <= x < 0x1_0000
  type Word32 = Basics.U32

  datatype Entry = Entry(typ: Word16, ip: Ip4, helo: Bytes, from: Bytes, to: Bytes, expire: Word32, delete: bool)

  datatype Packet = Packet(counter: Word32, entries: seq<Entry>)

  datatype Result = Ok(packet: Packet) | ErrTruncated

  function Zeros(n: nat): (b: Bytes)
    ensures |b| == n
  {
    seq(n, _ => 0)
  }

  function U16(n: nat): (b: Bytes)
    ensures |b| == 2
  {
    BigEndian.Put(n, 2)
  }

  function U32(n: nat): (b: Bytes)
    ensures |b| == 4
  {
    BigEndian.Put(n, 4)
  }

  function Get16(b: Bytes): Word16
    requires |b| == 2
  {
    BigEndian.PowValues();
    BigEndian.PutGet(b);
    BigEndian.Get(b)
  }

  function Get32(b: Bytes): Word32
    requires |b| == 4
  {
    BigEndian.PowValues();
    BigEndian.PutGet(b);
    BigEndian.Get(b)
  }

  /** The bytes up to the first zero byte. */
  function CStr(b: Bytes): Bytes { b[..Keys.IndexZero(b)] }

  function Align(n: nat): nat { (n + 15) / 16 * 16 }

  // ----- encoding -----

  /** The packet header with the MAC field and the padding zero. */
  function Header(counter: Word32, total: nat): (b: Bytes)
    ensures |b| == HDR_LEN
  {
    [VERSION, AF_INET] + U16(total) + U32(counter) + Zeros(24)
  }

  function EndTlv(): (b: Bytes)
    ensures |b| == END_LEN
  {
    U16(TYPE_END) + U16(END_LEN)
  }

  function GreyLength(helo: Bytes, from: Bytes, to: Bytes): nat {
    GREY_HDR_LEN + |from| + 1 + |to| + 1 + |helo| + 1
  }

  function GreyHeader(ip: Ip4, helo: Bytes, from: Bytes, to: Bytes, now: Word32): (b: Bytes)
    ensures |b| == GREY_HDR_LEN
  {
    U16(TYPE_GREY) + U16(Align(GreyLength(helo, from, to))) + U32(now) + ip +
    U16(|from| + 1) + U16(|to| + 1) + U16(|helo| + 1)
  }

  function GreyStrings(helo: Bytes, from: Bytes, to: Bytes): (b: Bytes)
    ensures |b| == |from| + |to| + |helo| + 3
  {
    from + [0] + (to + [0]) + (helo + [0])
  }

  lemma AlignBounds(n: nat)
    ensures n <= Align(n) < n + 16
  {
  }

  function GreyTlv(ip: Ip4, helo: Bytes, from: Bytes, to: Bytes, now: Word32): (b: Bytes)
    ensures |b| == Align(GreyLength(helo, from, to))
  {
    var n := GreyLength(helo, from, to);
    AlignBounds(n);
    GreyHeader(ip, helo, from, to, now) + GreyStrings(helo, from, to) + Zeros(Align(n) - n)
  }

  function AddrTlv(typ: Word16, ip: Ip4, now: Word32, expire: Word32): (b: Bytes)
    ensures |b| == ADDR_LEN
  {
    U16(typ) + U16(ADDR_LEN) + U32(now) + U32(expire) + ip
  }

  /** The MAC goes over the packet with a zero MAC field. */
  function Sign(mac: Bytes -> Digest, pkt: Bytes): Bytes
    requires |pkt| >= HDR_LEN
  {
    pkt[..8] + mac(pkt) + pkt[8 + MAC_LEN..]
  }

  function GreyTotal(helo: Bytes, from: Bytes, to: Bytes): nat {
    HDR_LEN + Align(GreyLength(helo, from, to)) + END_LEN
  }

  function GreyPacket(mac: Bytes -> Digest, counter: Word32, ip: Ip4, helo: Bytes, from: Bytes, to: Bytes,
                      now: Word32): Bytes
  {
    Sign(mac, Header(counter, GreyTotal(helo, from, to)) + (GreyTlv(ip, helo, from, to, now) + EndTlv()))
  }

  function AddrPacket(mac: Bytes -> Digest, counter: Word32, typ: Word16, ip: Ip4, now: Word32, expire: Word32): Bytes {
    Sign(mac, Header(counter, HDR_LEN + ADDR_LEN + END_LEN) + (AddrTlv(typ, ip, now, expire) + EndTlv()))
  }

  // ----- the bytes on the wire -----

  lemma Powers()
    ensures BigEndian.Pow256(0) == 1 && BigEndian.Pow256(1) == 256
    ensures BigEndian.Pow256(2) == 0x1_0000 && BigEndian.Pow256(3) == 0x100_0000
  {
    assert BigEndian.Pow256(2) == 256 * BigEndian.Pow256(1);
  }

  /** Words are most significant byte first, cut to their width. */
  lemma WordBytes(n: nat)
    ensures U16(n) == [n / 256 % 256, n % 256]
    ensures U32(n) == [n / 0x100_0000 % 256, n / 0x1_0000 % 256, n / 256 % 256, n % 256]
  {
    hide BigEndian.Put, BigEndian.Pow256;
    Powers();
    BigEndian.PutBytes(n, 2, 0);
    BigEndian.PutBytes(n, 2, 1);
    BigEndian.PutBytes(n, 4, 0);
    BigEndian.PutBytes(n, 4, 1);
    BigEndian.PutBytes(n, 4, 2);
    BigEndian.PutBytes(n, 4, 3);
  }

  lemma SignedBytes(mac: Bytes -> Digest, counter: Word32, total: nat, body: Bytes)
    ensures var u := Header(counter, total) + body; var p := Sign(mac, u);
      && p[..8] == [2, 2] + U16(total) + U32(counter) && p[8..28] == mac(u) && p[28..32] == [0, 0, 0, 0]
      && p[32..] == body && |p| == |u|
  {
    hide U16, U32;
    var h := [2, 2] + U16(total) + U32(counter);
    var u := h + Zeros(24) + body;
    assert Header(counter, total) + body == u && |h| == 8;
    var p := Sign(mac, u);
    assert u[..8] == h && u[28..] == Zeros(4) + body;
    assert p == h + mac(u) + (Zeros(4) + body);
    assert p[..8] == h && p[8..28] == mac(u) && p[28..32] == Zeros(4) && p[32..] == body;
    assert Zeros(4) == [0, 0, 0, 0];
  }

  /** The record of a tuple: kind, length, time and address, the lengths of the three strings, and the
      strings: sender, recipient, greeting, each with its zero byte. */
  lemma GreyRecord(ip: Ip4, helo: Bytes, from: Bytes, to: Bytes, now: Word32)
    ensures var t := GreyTlv(ip, helo, from, to, now); var f, r, h := |from| + 1, |to| + 1, |helo| + 1;
      && |t| >= 18 + f + r + h
      && t[..18] == U16(1) + U16(Align(18 + f + r + h)) + U32(now) + ip + U16(f) + U16(r) + U16(h)
      && t[18..18 + f] == from + [0] && t[18 + f..18 + f + r] == to + [0] && t[18 + f + r..18 + f + r + h] == helo + [0]
      && forall i :: 18 + f + r + h <= i < |t| ==> t[i] == 0
  {
    hide U16, U32, Align;
    var n := GreyLength(helo, from, to);
    AlignBounds(n);
    var t := GreyTlv(ip, helo, from, to, now);
    var f, r, h := from + [0], to + [0], helo + [0];
    assert t == GreyHeader(ip, helo, from, to, now) + (f + r + h) + Zeros(Align(n) - n);
    assert t[..18] == GreyHeader(ip, helo, from, to, now);
    assert t[18..18 + |f|] == f;
  }

  /** A packet begins with version and family, then its length and the counter; the digest is that of
      the packet with zeros in its place; four zero bytes fill the header; the record and an end follow. */
  lemma GreyLayout(mac: Bytes -> Digest, counter: Word32, ip: Ip4, helo: Bytes, from: Bytes, to: Bytes, now: Word32)
    ensures var body := GreyTlv(ip, helo, from, to, now) + EndTlv(); var total := GreyTotal(helo, from, to);
      var p := GreyPacket(mac, counter, ip, helo, from, to, now);
      && p[..8] == [2, 2] + U16(total) + U32(counter) && p[8..28] == mac(Header(counter, total) + body)
      && p[28..32] == [0, 0, 0, 0] && p[32..] == body && |p| == total
  {
    hide U16, U32, Sign, Header, EndTlv, Align, GreyTlv;
    SignedBytes(mac, counter, GreyTotal(helo, from, to), GreyTlv(ip, helo, from, to, now) + EndTlv());
  }

  /** The record of an address: kind, length, time, expiry and address. */
  lemma AddrLayout(mac: Bytes -> Digest, counter: Word32, typ: Word16, ip: Ip4, now: Word32, expire: Word32)
    ensures var body := U16(typ) + U16(16) + U32(now) + U32(expire) + ip + (U16(0) + U16(4));
      var p := AddrPacket(mac, counter, typ, ip, now, expire);
      && p[..8] == [2, 2] + U16(52) + U32(counter) && p[8..28] == mac(Header(counter, 52) + body)
      && p[28..32] == [0, 0, 0, 0] && p[32..] == body
  {
    hide U16, U32, Sign, Header;
    SignedBytes(mac, counter, 52, AddrTlv(typ, ip, now, expire) + EndTlv());
  }

  /** Copy into a buffer. */
  method PutAt(buf: array<Byte>, off: nat, b: Bytes)
    requires off + |b| <= buf.Length
    modifies buf
    ensures buf[..] == old(buf[..off]) + b + old(buf[off + |b|..])
  {
    for i := 0 to |b|
      invariant forall j :: 0 <= j < buf.Length ==>
        buf[j] == if off <= j < off + i then b[j - off] else old(buf[j])
    {
      buf[off + i] := b[i];
    }
  }

  /** A buffer that holds `done` and is zero behind it. */
  ghost predicate Written(buf: array<Byte>, done: Bytes)
    reads buf
  {
    |done| <= buf.Length && buf[..] == done + Zeros(buf.Length - |done|)
  }

  method Append(buf: array<Byte>, ghost done: Bytes, off: nat, b: Bytes)
    requires Written(buf, done) && off == |done| && off + |b| <= buf.Length
    modifies buf
    ensures Written(buf, done + b)
  {
    ghost var was := buf[..];
    PutAt(buf, off, b);
    assert was[..off] == done;
    assert was[off + |b|..] == Zeros(buf.Length - off - |b|);
  }

  lemma WrittenZeros(buf: array<Byte>, done: Bytes, n: nat)
    requires Written(buf, done) && |done| + n <= buf.Length
    ensures Written(buf, done + Zeros(n))
  {
    assert Zeros(buf.Length - |done|) == Zeros(n) + Zeros(buf.Length - |done| - n);
  }

  method PutHeader(buf: array<Byte>, counter: Word32, total: nat)
    requires buf.Length >= HDR_LEN && Written(buf, [])
    modifies buf
    ensures Written(buf, Header(counter, total))
  {
    Append(buf, [], 0, [VERSION, AF_INET]);
    assert [] + [VERSION, AF_INET] == [VERSION, AF_INET];
    Append(buf, [VERSION, AF_INET], 2, U16(total));
    Append(buf, [VERSION, AF_INET] + U16(total), 4, U32(counter));
    WrittenZeros(buf, [VERSION, AF_INET] + U16(total) + U32(counter), 24);
  }

  method SignBuffer(mac: Bytes -> Digest, buf: array<Byte>)
    requires buf.Length >= HDR_LEN
    modifies buf
    ensures buf[..] == Sign(mac, old(buf[..]))
  {
    PutAt(buf, 8, mac(buf[..]));
  }

  method EncodeGrey(mac: Bytes -> Digest, counter: Word32, ip: Ip4, helo: Bytes, from: Bytes, to: Bytes, now: Word32)
    returns (pkt: Bytes)
    ensures pkt == GreyPacket(mac, counter, ip, helo, from, to, now)
  {
    hide Header, EndTlv, GreyTlv, Written, Align, Sign;
    var sglen := GREY_HDR_LEN + |from + [0]| + |to + [0]| + |helo + [0]|;
    AlignBounds(sglen);
    var padlen := Align(sglen) - sglen;
    var total := HDR_LEN + sglen + padlen + END_LEN;
    var buf := new Byte[total](_ => 0);
    NothingWritten(buf);
    PutHeader(buf, counter, total);
    ghost var h, g := Header(counter, total), GreyTlv(ip, helo, from, to, now);
    PutGreyTlv(buf, h, HDR_LEN, sglen, padlen, ip, helo, from, to, now);
    Append(buf, h + g, HDR_LEN + sglen + padlen, EndTlv());
    AllWritten(buf, h + g + EndTlv());
    assert h + g + EndTlv() == h + (g + EndTlv());
    SignBuffer(mac, buf);
    return buf[..];
  }

  lemma NothingWritten(buf: array<Byte>)
    requires forall i :: 0 <= i < buf.Length ==> buf[i] == 0
    ensures Written(buf, [])
  {
  }

  lemma AllWritten(buf: array<Byte>, done: Bytes)
    requires Written(buf, done) && |done| == buf.Length
    ensures buf[..] == done
  {
  }

  /** The record of a tuple; its padding is what the buffer already holds. */
  method PutGreyTlv(buf: array<Byte>, ghost done: Bytes, off: nat, sglen: nat, padlen: nat,
                    ip: Ip4, helo: Bytes, from: Bytes, to: Bytes, now: Word32)
    requires Written(buf, done) && off == |done| && off + sglen + padlen <= buf.Length
    requires sglen == GreyLength(helo, from, to) && sglen + padlen == Align(sglen)
    modifies buf
    ensures Written(buf, done + GreyTlv(ip, helo, from, to, now))
  {
    hide Written, GreyHeader, GreyStrings, Align;
    PutGreyHeader(buf, done, off, sglen + padlen, ip, helo, from, to, now);
    ghost var g, t := GreyHeader(ip, helo, from, to, now), GreyStrings(helo, from, to);
    PutStrings(buf, done + g, off + GREY_HDR_LEN, from + [0], to + [0], helo + [0]);
    StringsAre(helo, from, to);
    WrittenZeros(buf, done + g + t, padlen);
    assert done + g + t + Zeros(padlen) == done + (g + t + Zeros(padlen));
  }

  lemma StringsAre(helo: Bytes, from: Bytes, to: Bytes)
    ensures GreyStrings(helo, from, to) == from + [0] + (to + [0]) + (helo + [0])
  {
  }

  method PutGreyHeader(buf: array<Byte>, ghost done: Bytes, off: nat, len: nat, ip: Ip4, helo: Bytes, from: Bytes,
                       to: Bytes, now: Word32)
    requires Written(buf, done) && off == |done| && off + GREY_HDR_LEN <= buf.Length
    requires len == Align(GreyLength(helo, from, to))
    modifies buf
    ensures Written(buf, done + GreyHeader(ip, helo, from, to, now))
  {
    hide U16, U32;
    ghost var d := done;
    Append(buf, d, off, U16(TYPE_GREY));
    d := d + U16(TYPE_GREY);
    Append(buf, d, off + 2, U16(len));
    d := d + U16(len);
    Append(buf, d, off + 4, U32(now));
    d := d + U32(now);
    Append(buf, d, off + 8, ip);
    d := d + ip;
    Append(buf, d, off + 12, U16(|from| + 1));
    d := d + U16(|from| + 1);
    Append(buf, d, off + 14, U16(|to| + 1));
    d := d + U16(|to| + 1);
    Append(buf, d, off + 16, U16(|helo| + 1));
    assert d + U16(|helo| + 1) == done + GreyHeader(ip, helo, from, to, now);
  }

  method PutStrings(buf: array<Byte>, ghost done: Bytes, off: nat, a: Bytes, b: Bytes, c: Bytes)
    requires Written(buf, done) && off == |done| && off + |a| + |b| + |c| <= buf.Length
    modifies buf
    ensures Written(buf, done + (a + b + c))
  {
    Append(buf, done, off, a);
    Append(buf, done + a, off + |a|, b);
    Append(buf, done + a + b, off + |a| + |b|, c);
    assert done + a + b + c == done + (a + b + c);
  }

  method EncodeAddr(mac: Bytes -> Digest, counter: Word32, typ: Word16, ip: Ip4, now: Word32, expire: Word32)
    returns (pkt: Bytes)
    ensures pkt == AddrPacket(mac, counter, typ, ip, now, expire)
  {
    hide Header, EndTlv, U16, U32;
    var total := HDR_LEN + ADDR_LEN + END_LEN;
    var buf := new Byte[total](_ => 0);
    assert Written(buf, []);
    PutHeader(buf, counter, total);
    ghost var h := Header(counter, total);
    Append(buf, h, 32, U16(typ));
    Append(buf, h + U16(typ), 34, U16(ADDR_LEN));
    Append(buf, h + U16(typ) + U16(ADDR_LEN), 36, U32(now));
    Append(buf, h + U16(typ) + U16(ADDR_LEN) + U32(now), 40, U32(expire));
    Append(buf, h + U16(typ) + U16(ADDR_LEN) + U32(now) + U32(expire), 44, ip);
    ghost var all := h + (AddrTlv(typ, ip, now, expire) + EndTlv());
    assert h + U16(typ) + U16(ADDR_LEN) + U32(now) + U32(expire) + ip == h + AddrTlv(typ, ip, now, expire);
    Append(buf, h + AddrTlv(typ, ip, now, expire), 48, EndTlv());
    assert h + AddrTlv(typ, ip, now, expire) + EndTlv() == all;
    assert buf[..] == all;
    SignBuffer(mac, buf);
    return buf[..];
  }

  // ----- decoding -----

  /** One record: how long it is and the entry it carries; an end record carries none. */
  datatype Tlv = Record(len: nat, entry: Entry) | End | Malformed

  function DecodeTlv(p: Bytes): (r: Tlv)
    ensures r.Record? ==> TLV_HDR_LEN <= r.len <= |p|
  {
    if |p| < TLV_HDR_LEN then Malformed
    else
      var typ, tl := Get16(p[0..2]), Get16(p[2..4]);
      if tl < TLV_HDR_LEN || |p| < tl then Malformed
      else if typ == TYPE_GREY then
        if tl < GREY_HDR_LEN then Malformed
        else
          var fromLen, toLen, heloLen := Get16(p[12..14]), Get16(p[14..16]), Get16(p[16..18]);
          if GREY_HDR_LEN + fromLen + toLen + heloLen > tl then Malformed
          else
            var s := p[GREY_HDR_LEN..];
            Record(tl, Entry(typ, p[8..12], CStr(s[fromLen + toLen..fromLen + toLen + heloLen]),
                             CStr(s[..fromLen]), CStr(s[fromLen..fromLen + toLen]), 0, false))
      else if typ == TYPE_WHITE || typ == TYPE_DEL_WHITE || typ == TYPE_TRAPPED || typ == TYPE_DEL_TRAPPED then
        if tl != ADDR_LEN then Malformed
        else Record(tl, Entry(typ, p[12..16], [], [], [], Get32(p[8..12]),
          typ == TYPE_DEL_WHITE || typ == TYPE_DEL_TRAPPED))
      else if typ == TYPE_END then End
      else Malformed
  }

  /** The records of a packet body. */
  function DecodeBody(counter: Word32, p: Bytes, entries: seq<Entry>): Result
    decreases |p|
  {
    if p == [] then Ok(Packet(counter, entries))
    else match DecodeTlv(p)
      case Malformed => ErrTruncated
      case End => Ok(Packet(counter, entries))
      case Record(len, entry) => DecodeBody(counter, p[len..], entries + [entry])
  }

  function ClearMac(pkt: Bytes): Bytes
    requires |pkt| >= HDR_LEN
  {
    pkt[..8] + Zeros(MAC_LEN) + pkt[8 + MAC_LEN..]
  }

  function DecodePacket(mac: Bytes -> Digest, pkt: Bytes): Result {
    if |pkt| < HDR_LEN || pkt[0] != VERSION || pkt[1] != AF_INET then ErrTruncated
    else
      var length := Get16(pkt[2..4]);
      if |pkt| < length || length < HDR_LEN then ErrTruncated
      else
        var buf := ClearMac(pkt[..length]);
        if pkt[8..8 + MAC_LEN] != mac(buf) then ErrTruncated
        else DecodeBody(Get32(pkt[4..8]), buf[HDR_LEN..], [])
  }

  function Value16(a: Byte, b: Byte): Word16 { 256 * (a as int) + b as int }

  function Value32(a: Byte, b: Byte, c: Byte, d: Byte): Word32 {
    0x100_0000 * (a as int) + 0x1_0000 * (b as int) + 256 * (c as int) + d as int
  }

  /** Nothing is taken from a packet unless its header is right, its length holds, and its digest is that
      of the packet with zeros in its place; then its records decide. */
  lemma SignedOnly(mac: Bytes -> Digest, pkt: Bytes)
    ensures DecodePacket(mac, pkt).Ok? ==>
      && |pkt| >= 32 && pkt[0] == 2 && pkt[1] == 2
      && var n := Value16(pkt[2], pkt[3]);
      && 32 <= n <= |pkt| && pkt[8..28] == mac(pkt[..8] + Zeros(20) + pkt[28..n])
      && DecodePacket(mac, pkt) ==
           DecodeBody(Value32(pkt[4], pkt[5], pkt[6], pkt[7]), pkt[32..n], [])
  {
    hide DecodeBody, BigEndian.Get;
    if |pkt| >= 32 {
      GetWords(pkt[2..4], pkt[4..8]);
      var n := Get16(pkt[2..4]);
      if 32 <= n <= |pkt| {
        ClearedBytes(pkt, n);
      }
    }
  }

  lemma GetWords(a: Bytes, b: Bytes)
    requires |a| == 2 && |b| == 4
    ensures Get16(a) == Value16(a[0], a[1])
    ensures Get32(b) == Value32(b[0], b[1], b[2], b[3])
  {
    assert a[..1][..0] == [] && b[..3][..2] == b[..2] && b[..2][..1] == b[..1] && b[..1][..0] == [];
    assert BigEndian.Get(a[..1]) == a[0] && BigEndian.Get(b[..1]) == b[0];
    assert BigEndian.Get(b[..2]) == Value16(b[0], b[1]);
    assert BigEndian.Get(b[..3]) == 256 * BigEndian.Get(b[..2]) + b[2];
  }

  lemma ClearedBytes(pkt: Bytes, n: nat)
    requires 32 <= n <= |pkt|
    ensures ClearMac(pkt[..n]) == pkt[..8] + Zeros(20) + pkt[28..n] && ClearMac(pkt[..n])[32..] == pkt[32..n]
  {
    var p := pkt[..n];
    assert p[..8] == pkt[..8] && p[28..] == pkt[28..n];
    var c := pkt[..8] + Zeros(20) + pkt[28..n];
    assert c[28..] == pkt[28..n] && c[32..] == pkt[28..n][4..] && pkt[28..n][4..] == pkt[32..n];
  }

  lemma SliceOfTake(s: Bytes, n: nat, i: nat, j: nat)
    requires i <= j <= n <= |s|
    ensures s[..n][i..j] == s[i..j]
  {
  }

  /** Decode: a loop over the rest of the packet. It ends, with every read in bounds, on every
      byte string. */
  method Decode(mac: Bytes -> Digest, pkt: Bytes) returns (r: Result)
    ensures r == DecodePacket(mac, pkt)
  {
    hide Get16, Get32, CStr;
    if |pkt| < HDR_LEN || pkt[0] != VERSION || pkt[1] != AF_INET { return ErrTruncated; }
    var length := Get16(pkt[2..4]);
    if |pkt| < length || length < HDR_LEN { return ErrTruncated; }
    var cut := pkt[..length];
    SliceOfTake(pkt, length, 4, 8);
    SliceOfTake(pkt, length, 8, 8 + MAC_LEN);
    var counter, entries := Get32(cut[4..8]), [];
    var buf := cut[..8] + Zeros(MAC_LEN) + cut[8 + MAC_LEN..];
    if cut[8..8 + MAC_LEN] != mac(buf) { return ErrTruncated; }
    var p := buf[HDR_LEN..];
    while |p| > 0
      invariant DecodePacket(mac, pkt) == DecodeBody(counter, p, entries)
    {
      if |p| < TLV_HDR_LEN { return ErrTruncated; }
      var typ, tl := Get16(p[0..2]), Get16(p[2..4]);
      if tl < TLV_HDR_LEN || |p| < tl { return ErrTruncated; }
      if typ == TYPE_GREY {
        if tl < GREY_HDR_LEN { return ErrTruncated; }
        var fromLen, toLen, heloLen := Get16(p[12..14]), Get16(p[14..16]), Get16(p[16..18]);
        if GREY_HDR_LEN + fromLen + toLen + heloLen > tl { return ErrTruncated; }
        var s := p[GREY_HDR_LEN..];
        entries := entries + [Entry(typ, p[8..12], CStr(s[fromLen + toLen..fromLen + toLen + heloLen]),
                                    CStr(s[..fromLen]), CStr(s[fromLen..fromLen + toLen]), 0, false)];
      } else if typ == TYPE_WHITE || typ == TYPE_DEL_WHITE || typ == TYPE_TRAPPED || typ == TYPE_DEL_TRAPPED {
        if tl != ADDR_LEN { return ErrTruncated; }
        entries := entries + [Entry(typ, p[12..16], [], [], [], Get32(p[8..12]),
                                    typ == TYPE_DEL_WHITE || typ == TYPE_DEL_TRAPPED)];
      } else if typ == TYPE_END {
        return Ok(Packet(counter, entries));
      } else {
        return ErrTruncated;
      }
      p := p[tl..];
    }
    return Ok(Packet(counter, entries));
  }

  // ----- round trips -----

  lemma Get16Of(n: Word16)
    ensures Get16(U16(n)) == n
  {
    BigEndian.PowValues();
    BigEndian.GetPut(n, 2);
  }

  lemma Get32Of(n: Word32)
    ensures Get32(U32(n)) == n
  {
    BigEndian.PowValues();
    BigEndian.GetPut(n, 4);
  }

  /** Decoding what was signed gets to the body, for any MAC. */
  lemma SignedDecodes(mac: Bytes -> Digest, counter: Word32, body: Bytes)
    requires HDR_LEN + |body| < 0x1_0000
    ensures DecodePacket(mac, Sign(mac, Header(counter, HDR_LEN + |body|) + body)) == DecodeBody(counter, body, [])
  {
    hide DecodeBody, U16, U32, Get16, Get32;
    var total := HDR_LEN + |body|;
    var plain := Header(counter, total) + body;
    var pkt := Sign(mac, plain);
    assert pkt[0] == plain[0] == VERSION && pkt[1] == plain[1] == AF_INET;
    assert pkt[2..4] == plain[2..4] == U16(total);
    assert pkt[4..8] == plain[4..8] == U32(counter);
    Get16Of(total);
    Get32Of(counter);
    assert pkt[..total] == pkt && |pkt| == total;
    assert plain[8..28] == Zeros(MAC_LEN);
    assert ClearMac(pkt) == plain;
    assert pkt[8..28] == mac(plain);
    assert plain[HDR_LEN..] == body;
  }

  lemma EndDecodes(counter: Word32, entries: seq<Entry>)
    ensures DecodeBody(counter, EndTlv(), entries) == Ok(Packet(counter, entries))
  {
    var p := EndTlv();
    assert p[0..2] == U16(TYPE_END) && p[2..4] == U16(END_LEN);
    Get16Of(TYPE_END);
    Get16Of(END_LEN);
  }

  lemma CStrOf(s: Bytes)
    ensures CStr(s + [0]) == s <==> Keys.ZeroFree(s)
  {
    var i := Keys.IndexZero(s + [0]);
    assert (s + [0])[|s|] == 0;
    assert forall j :: 0 <= j < |s| ==> (s + [0])[j] == s[j];
  }

  function GreyEntry(ip: Ip4, helo: Bytes, from: Bytes, to: Bytes): Entry {
    Entry(TYPE_GREY, ip, helo, from, to, 0, false)
  }

  lemma GreyFields(ip: Ip4, helo: Bytes, from: Bytes, to: Bytes, now: Word32, rest: Bytes)
    ensures var p := GreyHeader(ip, helo, from, to, now) + rest;
      && p[0..2] == U16(TYPE_GREY) && p[2..4] == U16(Align(GreyLength(helo, from, to)))
      && p[8..12] == ip && p[12..14] == U16(|from| + 1) && p[14..16] == U16(|to| + 1)
      && p[16..18] == U16(|helo| + 1) && p[18..] == rest
  {
    hide U16, U32, Align;
  }

  lemma StringFields(helo: Bytes, from: Bytes, to: Bytes, rest: Bytes)
    ensures var s := GreyStrings(helo, from, to) + rest;
      var f, t, h := |from| + 1, |to| + 1, |helo| + 1;
      s[..f] == from + [0] && s[f..f + t] == to + [0] && s[f + t..f + t + h] == helo + [0]
  {
  }

  lemma GreyTlvDecodes(ip: Ip4, helo: Bytes, from: Bytes, to: Bytes, now: Word32, rest: Bytes)
    requires Align(GreyLength(helo, from, to)) < 0x1_0000
    ensures DecodeTlv(GreyTlv(ip, helo, from, to, now) + rest) ==
            Record(Align(GreyLength(helo, from, to)),
                   Entry(TYPE_GREY, ip, CStr(helo + [0]), CStr(from + [0]), CStr(to + [0]), 0, false))
  {
    hide U16, U32, CStr, GreyStrings, GreyHeader, Get16, Get32, Align;
    var n := GreyLength(helo, from, to);
    var len := Align(n);
    AlignBounds(n);
    var strings := GreyStrings(helo, from, to);
    var tail := Zeros(len - n) + rest;
    var p := GreyTlv(ip, helo, from, to, now) + rest;
    assert p == GreyHeader(ip, helo, from, to, now) + (strings + tail);
    GreyFields(ip, helo, from, to, now, strings + tail);
    StringFields(helo, from, to, tail);
    Get16Of(TYPE_GREY);
    Get16Of(len);
    Get16Of(|from| + 1);
    Get16Of(|to| + 1);
    Get16Of(|helo| + 1);
  }

  /** A grey packet that fits its length field comes back as it was sent, for any MAC, exactly
      when its strings hold no zero byte. */
  lemma GreyRoundTrip(mac: Bytes -> Digest, counter: Word32, ip: Ip4, helo: Bytes, from: Bytes, to: Bytes, now: Word32)
    requires GreyTotal(helo, from, to) <= 0xffff
    ensures DecodePacket(mac, GreyPacket(mac, counter, ip, helo, from, to, now)) ==
            Ok(Packet(counter, [GreyEntry(ip, helo, from, to)])) <==>
            Keys.ZeroFree(helo) && Keys.ZeroFree(from) && Keys.ZeroFree(to)
  {
    hide DecodePacket, Sign, Header, GreyTlv, EndTlv, CStr, DecodeTlv, Align, Keys.ZeroFree;
    var tlv := GreyTlv(ip, helo, from, to, now);
    var body := tlv + EndTlv();
    SignedDecodes(mac, counter, body);
    GreyTlvDecodes(ip, helo, from, to, now, EndTlv());
    assert body[|tlv|..] == EndTlv();
    var e := Entry(TYPE_GREY, ip, CStr(helo + [0]), CStr(from + [0]), CStr(to + [0]), 0, false);
    assert DecodeBody(counter, body, []) == DecodeBody(counter, EndTlv(), [] + [e]);
    EndDecodes(counter, [] + [e]);
    CStrOf(helo);
    CStrOf(from);
    CStrOf(to);
    assert [] + [e] == [e];
    assert [e] == [GreyEntry(ip, helo, from, to)] <==> e == GreyEntry(ip, helo, from, to) by {
      if [e] == [GreyEntry(ip, helo, from, to)] { assert [e][0] == [GreyEntry(ip, helo, from, to)][0]; }
    }
  }

  lemma AddrTlvDecodes(typ: Word16, ip: Ip4, now: Word32, expire: Word32, rest: Bytes)
    requires TYPE_WHITE <= typ <= TYPE_DEL_TRAPPED
    ensures DecodeTlv(AddrTlv(typ, ip, now, expire) + rest) ==
            Record(ADDR_LEN, Entry(typ, ip, [], [], [], expire, typ == TYPE_DEL_WHITE || typ == TYPE_DEL_TRAPPED))
  {
    hide U16, U32, Get16, Get32;
    var p := AddrTlv(typ, ip, now, expire) + rest;
    assert p[0..2] == U16(typ) && p[2..4] == U16(ADDR_LEN) && p[8..12] == U32(expire) && p[12..16] == ip;
    Get16Of(typ);
    Get16Of(ADDR_LEN);
    Get32Of(expire);
  }

  /** White and trap packets always come back as they were sent. */
  lemma AddrRoundTrip(mac: Bytes -> Digest, counter: Word32, typ: Word16, ip: Ip4, now: Word32, expire: Word32)
    requires TYPE_WHITE <= typ <= TYPE_DEL_TRAPPED
    ensures DecodePacket(mac, AddrPacket(mac, counter, typ, ip, now, expire)) ==
            Ok(Packet(counter, [Entry(typ, ip, [], [], [], expire, typ == TYPE_DEL_WHITE || typ == TYPE_DEL_TRAPPED)]))
  {
    hide DecodePacket, Sign, Header, EndTlv, DecodeTlv;
    var tlv := AddrTlv(typ, ip, now, expire);
    var body := tlv + EndTlv();
    SignedDecodes(mac, counter, body);
    AddrTlvDecodes(typ, ip, now, expire, EndTlv());
    assert body[|tlv|..] == EndTlv();
    var e := Entry(typ, ip, [], [], [], expire, typ == TYPE_DEL_WHITE || typ == TYPE_DEL_TRAPPED);
    EndDecodes(counter, [] + [e]);
  }
}
