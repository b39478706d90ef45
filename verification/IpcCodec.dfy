/** The messages of internal/ipc: what each writer prints and what the decoder makes of it. */
module IpcCodec {
  import opened Basics
  import opened IpcText

  const MSG_GREY := 1
  const MSG_TRAP := 2
  const MSG_WHITE := 3
  const IPV4 := 4
  const MAX_PORT := 65535

  /** Sanitize: quotes and backslashes are dropped. */
  function Sanitize(v: string): string {
    if v == [] then []
    else if v[0] == '"' || v[0] == '\\' then Sanitize(v[1..])
    else [v[0]] + Sanitize(v[1..])
  }

  lemma {:induction false} SanitizePlain(v: string)
    ensures Plain(Sanitize(v)) && |Sanitize(v)| <= |v|
    ensures Sanitize(v) == v <==> Plain(v)
    ensures forall c :: c in Sanitize(v) ==> c in v
  {
    if v != [] {
      SanitizePlain(v[1..]);
      assert v == [v[0]] + v[1..];
      if Sanitize(v) == v && v[0] != '"' && v[0] != '\\' {
        assert Sanitize(v)[1..] == Sanitize(v[1..]);
      }
    }
  }

  // ----- what is sent -----

  /** The calls of WriteGrey, WriteGreyFromSync, WriteAddr, WriteReplace, WriteNAT and WriteDst. */
  datatype Outgoing =
    | SendGrey(dst: string, ip: string, helo: string, from: string, to: string)
    | SendGreyFromSync(ip: string, helo: string, from: string, to: string)
    | SendAddr(typ: nat, ip: string, source: string, expires: nat, del: bool)
    | SendReplace(set_: string, af: int, ips: seq<string>)
    | SendNat(src: string, srcPort: nat, proxy: string, proxyPort: nat)
    | SendDst(answer: string)

  function Int(name: string, n: int): Assign { Assign(name, true, IntV(n)) }
  function Str(name: string, s: string): Assign { Assign(name, true, StrV(s)) }
  function SafeStr(name: string, s: string): Assign { Str(name, Sanitize(s)) }
  function Tight(name: string, v: Value): Assign { Assign(name, false, v) }

  function SanitizeAll(xs: seq<string>): (r: seq<string>)
    ensures |r| == |xs| && forall i :: 0 <= i < |xs| ==> r[i] == Sanitize(xs[i])
  {
    seq(|xs|, i requires 0 <= i < |xs| => Sanitize(xs[i]))
  }

  /** The assignments of a frame, in the order they are written. */
  function Assigns(o: Outgoing): seq<Assign> {
    match o
    case SendGrey(dst, ip, helo, from, to) =>
      [Int("type", MSG_GREY), SafeStr("dst_ip", dst), SafeStr("ip", ip), SafeStr("helo", helo), SafeStr("from", from),
        SafeStr("to", to)]
    case SendGreyFromSync(ip, helo, from, to) =>
      [Int("type", MSG_GREY), Int("sync", 0), SafeStr("ip", ip), SafeStr("helo", helo), SafeStr("from", from),
        SafeStr("to", to)]
    case SendAddr(typ, ip, source, expires, del) =>
      [Int("type", typ), Int("sync", 0), SafeStr("ip", ip), SafeStr("source", source), Str("expires", Dec(expires)),
        Int("delete", if del then 1 else 0)]
    case SendReplace(set_, af, ips) =>
      [Tight("type", StrV("replace")), Tight("name", StrV(Sanitize(set_))), Tight("af", IntV(af)),
        Tight("ips", ListV(SanitizeAll(ips)))]
    case SendNat(src, srcPort, proxy, proxyPort) =>
      [Tight("type", StrV("nat")), Tight("src", StrV(Sanitize(src))), Tight("src_port", IntV(srcPort)),
       Tight("proxy", StrV(Sanitize(proxy))), Tight("proxy_port", IntV(proxyPort))]
    case SendDst(answer) => [Tight("dst", StrV(Sanitize(answer)))]
  }

  /** What the type checker and the callers grant: the three message numbers and 64-bit ints. */
  predicate Sendable(o: Outgoing) {
    match o
    case SendAddr(typ, _, _, _, _) => typ == MSG_TRAP || typ == MSG_WHITE
    case SendReplace(_, af, _) => 0 <= af <= MAX_INT
    case SendNat(_, srcPort, _, proxyPort) => srcPort <= MAX_PORT && proxyPort <= MAX_PORT
    case _ => true
  }

  // ----- what is received -----

  datatype Message =
    | GreyMessage(ip: string, helo: string, from: string, to: string, dstIP: string, sync: bool)
    | AddrMessage(typ: int, addr: string, source: string, expires: string, sync: bool, delete: bool)
    | BlacklistMessage(name: string, message: string, ips: seq<string>)
    | ReplaceRequest(set_: string, af: int, ips: seq<string>)
    | NatRequest(src: string, srcPort: nat, proxy: string, proxyPort: nat)
    | DstReply(answer: string)
    | StatsRequest
    | StatsReply(counters: map<string, int>, blacklists: seq<string>)
    | ScanStats(at: int, grey: int, white: int, trapped: int, spamtrap: int, domain: int)

  datatype Decoded = Ok(m: Message) | SyntaxError | Incomplete(field: string) | UnknownMessage

  /** A field as text; an integer reads as its digits, a list as nothing. */
  function StrField(f: Fields, name: string): Option<string> {
    if name !in f || f[name].ListV? then None
    else if f[name].IntV? then Some(Decimal(f[name].n))
    else Some(f[name].s)
  }

  function IntField(f: Fields, name: string): Option<int> {
    if name in f && f[name].IntV? then Some(f[name].n) else None
  }

  function ListField(f: Fields, name: string): Option<seq<string>> {
    if name !in f || f[name].IntV? then None
    else if f[name].ListV? then Some(f[name].items)
    else Some([f[name].s])
  }

  function OrElse<T>(o: Option<T>, d: T): T { if o.Some? then o.value else d }

  function Port(f: Fields, name: string): nat {
    var p := OrElse(IntField(f, name), 0);
    if 0 <= p <= MAX_PORT then p else 0
  }

  function ClassifyNumbered(f: Fields, n: int): Decoded {
    var sync := OrElse(IntField(f, "sync"), 1) != 0;
    var ip := StrField(f, "ip");
    if n == MSG_GREY then
      var helo, from, to := StrField(f, "helo"), StrField(f, "from"), StrField(f, "to");
      if ip.None? then Incomplete("ip") else if helo.None? then Incomplete("helo")
      else if from.None? then Incomplete("from") else if to.None? then Incomplete("to")
      else Ok(GreyMessage(ip.value, helo.value, from.value, to.value, OrElse(StrField(f, "dst_ip"), ""), sync))
    else if n == MSG_TRAP || n == MSG_WHITE then
      var source, expires := StrField(f, "source"), StrField(f, "expires");
      if ip.None? then Incomplete("ip") else if source.None? then Incomplete("source")
      else if expires.None? then Incomplete("expires")
      else Ok(AddrMessage(n, ip.value, source.value, expires.value, sync, OrElse(IntField(f, "delete"), 0) != 0))
    else UnknownMessage
  }

  function Count(f: Fields, name: string): int { OrElse(IntField(f, name), 0) }

  function ClassifyNamed(f: Fields, typ: string): Decoded {
    if typ == "stats" then Ok(StatsRequest)
    else if typ == "stats_reply" then
      var counters := map name | name in f && f[name].IntV? && name != "type" :: f[name].n;
      Ok(StatsReply(counters, OrElse(ListField(f, "blacklists"), [])))
    else if typ == "scan_stats" then
      Ok(ScanStats(Count(f, "at"), Count(f, "grey"), Count(f, "white"), Count(f, "trapped"), Count(f, "spamtrap"),
        Count(f, "domain")))
    else if typ == "replace" then
      Ok(ReplaceRequest(OrElse(StrField(f, "name"), ""), OrElse(IntField(f, "af"), IPV4),
        OrElse(ListField(f, "ips"), [])))
    else if typ == "nat" then
      Ok(NatRequest(OrElse(StrField(f, "src"), ""), Port(f, "src_port"), OrElse(StrField(f, "proxy"), ""),
        Port(f, "proxy_port")))
    else UnknownMessage
  }

  function Classify(f: Fields): Decoded {
    if IntField(f, "type").Some? then ClassifyNumbered(f, IntField(f, "type").value)
    else if StrField(f, "type").Some? then ClassifyNamed(f, StrField(f, "type").value)
    else if "ips" in f then
      var name, message, ips := StrField(f, "name"), StrField(f, "message"), ListField(f, "ips");
      if name.None? then Incomplete("name") else if message.None? then Incomplete("message")
      else if ips.None? then Incomplete("ips") else Ok(BlacklistMessage(name.value, message.value, ips.value))
    else if StrField(f, "dst").Some? then Ok(DstReply(StrField(f, "dst").value))
    else UnknownMessage
  }

  function Decode(body: string): Decoded {
    match ParseFields(body, map[])
    case None => SyntaxError
    case Some(f) => Classify(f)
  }

  /** What the receiver should get: the fields with quotes and backslashes gone. */
  function Expected(o: Outgoing): Message {
    match o
    case SendGrey(dst, ip, helo, from, to) =>
      GreyMessage(Sanitize(ip), Sanitize(helo), Sanitize(from), Sanitize(to), Sanitize(dst), true)
    case SendGreyFromSync(ip, helo, from, to) =>
      GreyMessage(Sanitize(ip), Sanitize(helo), Sanitize(from), Sanitize(to), "", false)
    case SendAddr(typ, ip, source, expires, del) =>
      AddrMessage(typ, Sanitize(ip), Sanitize(source), Dec(expires), false, del)
    case SendReplace(set_, af, ips) => ReplaceRequest(Sanitize(set_), af, SanitizeAll(ips))
    case SendNat(src, srcPort, proxy, proxyPort) => NatRequest(Sanitize(src), srcPort, Sanitize(proxy), proxyPort)
    case SendDst(answer) => DstReply(Sanitize(answer))
  }

  // ----- round trip -----

  lemma TableStep(a: Assign, xs: seq<Assign>, f: Fields)
    ensures Table([a] + xs, f) == Table(xs, f[a.name := a.value])
  {
    assert ([a] + xs)[1..] == xs;
  }

  lemma Table4(a: Assign, b: Assign, c: Assign, d: Assign, xs: seq<Assign>, f: Fields)
    ensures Table([a, b, c, d] + xs, f) ==
      Table(xs, f[a.name := a.value][b.name := b.value][c.name := c.value][d.name := d.value])
  {
    hide Table;
    var f1 := f[a.name := a.value];
    var f2 := f1[b.name := b.value];
    TableStep(a, [b, c, d] + xs, f);
    TableStep(b, [c, d] + xs, f1);
    TableStep(c, [d] + xs, f2);
    TableStep(d, xs, f2[c.name := c.value]);
    assert [a, b, c, d] + xs == [a] + ([b, c, d] + xs) && [b, c, d] + xs == [b] + ([c, d] + xs);
    assert [c, d] + xs == [c] + ([d] + xs);
  }

  lemma Table6(a: Assign, b: Assign, c: Assign, d: Assign, e: Assign, g: Assign)
    ensures Table([a, b, c, d, e, g], map[]) ==
      map[a.name := a.value][b.name := b.value][c.name := c.value]
         [d.name := d.value][e.name := e.value][g.name := g.value]
  {
    Table4(a, b, c, d, [e, g], map[]);
    assert [a, b, c, d, e, g] == [a, b, c, d] + [e, g];
    var m := map[a.name := a.value][b.name := b.value][c.name := c.value][d.name := d.value];
    TableStep(e, [g], m);
    TableStep(g, [], m[e.name := e.value]);
    assert [e, g] == [e] + [g] && [g] == [g] + [];
  }

  lemma GreyNames()
    ensures "ip" != "to" && "ip" != "type" && "ip" != "dst_ip" && "ip" != "helo" && "ip" != "from" && "ip" != "sync"
    ensures "helo" != "type" && "helo" != "from" && "helo" != "sync" && "helo" != "to" && "helo" != "dst_ip"
    ensures "from" != "type" && "from" != "sync" && "from" != "to" && "from" != "dst_ip"
    ensures "type" != "sync" && "type" != "to" && "type" != "dst_ip"
    ensures "sync" != "to" && "sync" != "dst_ip" && "to" != "dst_ip"
  {
    assert "ip"[0] != "to"[0] && "helo"[0] != "type"[0] && "helo"[0] != "from"[0] && "helo"[0] != "sync"[0];
    assert "from"[0] != "type"[0] && "from"[0] != "sync"[0] && "type"[0] != "sync"[0];
  }

  lemma AddrNames()
    ensures "ip" != "type" && "ip" != "sync" && "ip" != "source" && "ip" != "expires" && "ip" != "delete"
    ensures "type" != "sync" && "type" != "source" && "type" != "expires" && "type" != "delete"
    ensures "sync" != "source" && "sync" != "expires" && "sync" != "delete"
    ensures "source" != "expires" && "source" != "delete" && "expires" != "delete"
  {
    assert "type"[0] != "sync"[0] && "source"[0] != "delete"[0] && "sync"[0] != "delete"[0];
  }

  lemma PlainNames()
    ensures "type" != "name" && "type" != "af" && "type" != "ips" && "name" != "af" && "name" != "ips" && "af" != "ips"
    ensures "type" != "src" && "type" != "src_port" && "type" != "proxy" && "type" != "proxy_port"
    ensures "src" != "src_port" && "src" != "proxy" && "src" != "proxy_port" && "src_port" != "proxy"
    ensures "src_port" != "proxy_port" && "proxy" != "proxy_port" && "dst" != "type" && "dst" != "ips"
    ensures "replace" !in {"stats", "stats_reply", "scan_stats"}
    ensures "nat" !in {"stats", "stats_reply", "scan_stats", "replace"}
  {
    assert "type"[0] != "name"[0] && "dst"[0] != "ips"[0];
  }

  lemma GreyClassified(dst: string, ip: string, helo: string, from: string, to: string)
    ensures var f := map["type" := IntV(1)]["dst_ip" := StrV(dst)]["ip" := StrV(ip)]["helo" := StrV(helo)]
                           ["from" := StrV(from)]["to" := StrV(to)];
      Classify(f) == Ok(GreyMessage(ip, helo, from, to, dst, true))
  {
    GreyNames();
  }

  lemma SyncGreyClassified(ip: string, helo: string, from: string, to: string)
    ensures var f := map["type" := IntV(1)]["sync" := IntV(0)]["ip" := StrV(ip)]["helo" := StrV(helo)]
                           ["from" := StrV(from)]["to" := StrV(to)];
      Classify(f) == Ok(GreyMessage(ip, helo, from, to, "", false))
  {
    GreyNames();
  }

  lemma AddrClassified(typ: int, ip: string, source: string, expires: string, del: int)
    requires typ == MSG_TRAP || typ == MSG_WHITE
    ensures var f := map["type" := IntV(typ)]["sync" := IntV(0)]["ip" := StrV(ip)]["source" := StrV(source)]
                           ["expires" := StrV(expires)]["delete" := IntV(del)];
      Classify(f) == Ok(AddrMessage(typ, ip, source, expires, false, del != 0))
  {
    AddrNames();
  }

  lemma TightClassified(set_: string, af: int, ips: seq<string>, src: string, srcPort: nat, proxy: string,
                        proxyPort: nat)
    requires srcPort <= MAX_PORT && proxyPort <= MAX_PORT
    ensures var f := map["type" := StrV("replace")]["name" := StrV(set_)]["af" := IntV(af)]["ips" := ListV(ips)];
      Classify(f) == Ok(ReplaceRequest(set_, af, ips))
    ensures var f := map["type" := StrV("nat")]["src" := StrV(src)]["src_port" := IntV(srcPort)]
                           ["proxy" := StrV(proxy)]["proxy_port" := IntV(proxyPort)];
      Classify(f) == Ok(NatRequest(src, srcPort, proxy, proxyPort))
    ensures Classify(map["dst" := StrV(src)]) == Ok(DstReply(src))
  {
    PlainNames();
  }

  /** The table of a frame's assignments is classified as the message that was sent. */
  lemma TableDecodes(o: Outgoing)
    requires Sendable(o)
    ensures Classify(Table(Assigns(o), map[])) == Ok(Expected(o))
  {
    hide Classify, Sanitize, Dec;
    var xs := Assigns(o);
    match o
    case SendGrey(dst, ip, helo, from, to) =>
      hide Table;
      Table6(xs[0], xs[1], xs[2], xs[3], xs[4], xs[5]);
      GreyClassified(Sanitize(dst), Sanitize(ip), Sanitize(helo), Sanitize(from), Sanitize(to));
    case SendGreyFromSync(ip, helo, from, to) =>
      hide Table;
      Table6(xs[0], xs[1], xs[2], xs[3], xs[4], xs[5]);
      SyncGreyClassified(Sanitize(ip), Sanitize(helo), Sanitize(from), Sanitize(to));
    case SendAddr(typ, ip, source, expires, del) =>
      hide Table;
      Table6(xs[0], xs[1], xs[2], xs[3], xs[4], xs[5]);
      AddrClassified(typ, Sanitize(ip), Sanitize(source), Dec(expires), if del then 1 else 0);
    case SendReplace(set_, af, ips) =>
      Table4(xs[0], xs[1], xs[2], xs[3], [], map[]);
      assert xs == [xs[0], xs[1], xs[2], xs[3]] + [];
      TightClassified(Sanitize(set_), af, SanitizeAll(ips), "", 0, "", 0);
    case SendNat(src, srcPort, proxy, proxyPort) =>
      Table4(xs[0], xs[1], xs[2], xs[3], [xs[4]], map[]);
      assert xs == [xs[0], xs[1], xs[2], xs[3]] + [xs[4]] && [xs[4]][1..] == [];
      TightClassified("", 0, [], Sanitize(src), srcPort, Sanitize(proxy), proxyPort);
    case SendDst(answer) =>
      assert xs[1..] == [];
      TightClassified("", 0, [], Sanitize(answer), 0, "", 0);
  }

  lemma DecPlain(n: nat)
    ensures Plain(Dec(n))
  {
    forall i | 0 <= i < |Dec(n)| ensures Dec(n)[i] != '"' && Dec(n)[i] != '\\' {
      assert IsDigit(Dec(n)[i]);
    }
  }

  lemma NamesOfAssigns(o: Outgoing)
    ensures forall i :: 0 <= i < |Assigns(o)| ==> NameText(Assigns(o)[i].name)
  {
    hide Sanitize, Dec, SanitizeAll, NameText;
    FieldNames();
  }

  lemma FieldNames()
    ensures NameText("type") && NameText("dst_ip") && NameText("ip") && NameText("helo")
    ensures NameText("from") && NameText("to")
    ensures NameText("sync") && NameText("source") && NameText("expires") && NameText("delete") && NameText("name")
    ensures NameText("af") && NameText("ips") && NameText("src") && NameText("src_port") && NameText("proxy")
    ensures NameText("proxy_port") && NameText("dst")
  {
  }

  lemma ValuesOfAssigns(o: Outgoing)
    requires Sendable(o)
    ensures forall i :: 0 <= i < |Assigns(o)| ==> PlainValue(Assigns(o)[i].value)
  {
    hide Sanitize, Dec, Plain;
    forall v: string ensures Plain(Sanitize(v)) { SanitizePlain(v); }
    PlainNamesAreText();
    if o.SendAddr? { DecPlain(o.expires); }
  }

  lemma PlainNamesAreText()
    ensures Plain("replace") && Plain("nat")
  {
  }

  lemma AssignsPrintable(o: Outgoing)
    requires Sendable(o)
    ensures forall i :: 0 <= i < |Assigns(o)| ==> Printable(Assigns(o)[i])
  {
    hide Assigns, NameText, PlainValue;
    NamesOfAssigns(o);
    ValuesOfAssigns(o);
  }

  /** Every frame the daemon's processes send each other is received as the message sent, its
      text without quotes and backslashes. */
  lemma RoundTrip(o: Outgoing)
    requires Sendable(o)
    ensures Decode(BodyText(Assigns(o))) == Ok(Expected(o))
  {
    hide ParseFields, BodyText, Table, Classify, Assigns, Printable;
    AssignsPrintable(o);
    ParsePrinted(Assigns(o), map[]);
    TableDecodes(o);
  }
}
