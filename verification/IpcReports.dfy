/** The frames that carry blacklists and statistics, and what the classification of a table asks
    for. */
module IpcReports {
  import opened Basics
  import opened IpcText
  import opened IpcCodec
  import opened IpcFrame

  // ----- what a table must hold -----

  /** The first of the names without a text in the table. */
  function FirstMissing(f: Fields, names: seq<string>): Option<string> {
    if names == [] then None
    else if names[0] !in f || f[names[0]].ListV? then Some(names[0])
    else FirstMissing(f, names[1..])
  }

  lemma MissingStep(f: Fields, name: string, names: seq<string>)
    ensures FirstMissing(f, [name] + names) == if StrField(f, name).None? then Some(name) else FirstMissing(f, names)
  {
    assert ([name] + names)[1..] == names;
  }

  /** A table with an integer type is a message if and only if the type is one of the three and its
      fields are there; otherwise the first missing one is named. */
  lemma NumberedExactly(f: Fields, n: int)
    requires IntField(f, "type") == Some(n)
    ensures n == 1 ==> var missing := FirstMissing(f, ["ip", "helo", "from", "to"]);
      if missing.Some? then Classify(f) == Incomplete(missing.value) else Classify(f).Ok? && Classify(f).m.GreyMessage?
    ensures n == 2 || n == 3 ==> var missing := FirstMissing(f, ["ip", "source", "expires"]);
      if missing.Some? then Classify(f) == Incomplete(missing.value) else Classify(f).Ok? && Classify(f).m.AddrMessage?
    ensures n < 1 || n > 3 ==> Classify(f) == UnknownMessage
  {
    hide StrField, FirstMissing;
    MissingStep(f, "ip", ["helo", "from", "to"]);
    MissingStep(f, "helo", ["from", "to"]);
    MissingStep(f, "from", ["to"]);
    MissingStep(f, "to", []);
    MissingStep(f, "ip", ["source", "expires"]);
    MissingStep(f, "source", ["expires"]);
    MissingStep(f, "expires", []);
    NoneMissing(f);
    assert ["ip"] + ["helo", "from", "to"] == ["ip", "helo", "from", "to"];
    assert ["helo"] + ["from", "to"] == ["helo", "from", "to"] && ["from"] + ["to"] == ["from", "to"];
    assert ["to"] + [] == ["to"] && ["expires"] + [] == ["expires"];
    assert ["ip"] + ["source", "expires"] == ["ip", "source", "expires"];
    assert ["source"] + ["expires"] == ["source", "expires"];
  }

  lemma NoneMissing(f: Fields)
    ensures FirstMissing(f, []) == None
  {
  }

  // ----- blacklists -----

  /** An address without a prefix length gets that of a single address. */
  function WithLength(addr: string, v4: bool): string {
    if '/' in addr then addr else addr + if v4 then "/32" else "/128"
  }

  /** The frame WriteBlacklist prints: the message is not sanitised, so its escapes are for the
      receiver. */
  function BlacklistBody(name: string, message: string, ips: seq<string>): string {
    "name" + "=\"" + name + "\"\n" + ("message" + "=\"" + message + "\"\n" + ("ips" + "=[" + Join(ips) + "]\n"))
  }

  /** What the receiver makes of escaped text: a backslash goes and keeps what follows; an open quote
      or a backslash at the end is an error. */
  function Unescape(s: string): Option<string> {
    if s == [] then Some([])
    else if s[0] == '"' || s == ['\\'] then None
    else
      var n := if s[0] == '\\' then 1 else 0;
      match Unescape(s[n + 1..])
      case None => None
      case Some(t) => Some([s[n]] + t)
  }

  lemma {:induction false} QuotedUnescapes(s: string, rest: string, built: string)
    requires Unescape(s).Some?
    ensures Quoted(s + "\"" + rest, built) == Some(Parsed(built + Unescape(s).value, rest))
    decreases |s|
  {
    var t := s + "\"" + rest;
    if s == [] {
      assert t == "\"" + rest && t[1..] == rest && built + [] == built;
    } else {
      var n := if s[0] == '\\' then 1 else 0;
      assert t[0] == s[0] && t[n] == s[n] && t[n + 1..] == s[n + 1..] + "\"" + rest;
      QuotedUnescapes(s[n + 1..], rest, built + [s[n]]);
      assert built + [s[n]] + Unescape(s[n + 1..]).value == built + Unescape(s).value;
    }
  }

  lemma {:induction false} PlainUnescapes(s: string)
    requires Plain(s)
    ensures Unescape(s) == Some(s)
  {
    if s != [] {
      PlainUnescapes(s[1..]);
      assert s == [s[0]] + s[1..];
    }
  }

  lemma RawValue(raw: string, rest: string)
    requires Unescape(raw).Some?
    ensures ValueOf("\"" + (raw + "\"" + rest)) == Some(Parsed(StrV(Unescape(raw).value), rest))
  {
    hide Quoted;
    var s := "\"" + (raw + "\"" + rest);
    assert s[0] == '"' && s[1..] == raw + "\"" + rest;
    QuotedUnescapes(raw, rest, []);
    assert [] + Unescape(raw).value == Unescape(raw).value;
  }

  lemma RawAssignment(name: string, raw: string, rest: string, f: Fields)
    requires NameText(name) && Unescape(raw).Some?
    ensures ParseFields(name + "=\"" + raw + "\"\n" + rest, f) ==
            ParseFields(rest, f[name := StrV(Unescape(raw).value)])
  {
    hide ParseFields, Assignment, ValueOf, SkipSpace, Unescape;
    var v := "\"" + (raw + "\"" + ("\n" + rest));
    RawValue(raw, "\n" + rest);
    SignSkips(false, v);
    AssignmentOf(name, Sign(false) + v, StrV(Unescape(raw).value), "\n" + rest);
    var text := name + "=\"" + raw + "\"\n";
    RawPieces(name, raw, rest);
    ParseStep(text, rest, name, StrV(Unescape(raw).value), f);
  }

  lemma RawPieces(name: string, raw: string, rest: string)
    requires name != []
    ensures var text := name + "=\"" + raw + "\"\n";
      text[0] == name[0] && text + rest == name + (Sign(false) + ("\"" + (raw + "\"" + ("\n" + rest))))
  {
  }

  lemma ListAssignment(name: string, items: seq<string>, f: Fields)
    requires NameText(name) && forall i :: 0 <= i < |items| ==> Plain(items[i])
    ensures ParseFields(name + "=[" + Join(items) + "]\n", f) == Some(f[name := ListV(items)])
  {
    hide ParseFields, Join, Table, NameText, Plain;
    var a := Tight(name, ListV(items));
    assert name + "=[" + Join(items) + "]\n" == AssignText(a) by { TightText(name, items); }
    OneAssignment(a, f);
    ParsePrinted([a], f);
  }

  lemma TightText(name: string, items: seq<string>)
    ensures name + "=[" + Join(items) + "]\n" == AssignText(Tight(name, ListV(items)))
  {
    hide Join;
  }

  lemma OneAssignment(a: Assign, f: Fields)
    ensures BodyText([a]) == AssignText(a) && Table([a], f) == f[a.name := a.value]
  {
    assert [a][1..] == [] && AssignText(a) + [] == AssignText(a);
  }

  /** A blacklist arrives with its name, its addresses, and its message with the escapes resolved. */
  lemma BlacklistRoundTrip(name: string, message: string, ips: seq<string>)
    requires Plain(name) && Unescape(message).Some? && forall i :: 0 <= i < |ips| ==> Plain(ips[i])
    ensures Decode(BlacklistBody(name, message, ips)) == Ok(BlacklistMessage(name, Unescape(message).value, ips))
  {
    hide ParseFields, Classify, Unescape, Join, Plain;
    PlainUnescapes(name);
    BlacklistNames();
    var last := "ips" + "=[" + Join(ips) + "]\n";
    var middle := "message" + "=\"" + message + "\"\n" + last;
    RawAssignment("name", name, middle, map[]);
    RawAssignment("message", message, last, map["name" := StrV(name)]);
    ListAssignment("ips", ips, map["name" := StrV(name)]["message" := StrV(Unescape(message).value)]);
    BlacklistClassified(name, Unescape(message).value, ips);
  }

  lemma BlacklistNames()
    ensures NameText("name") && NameText("message") && NameText("ips")
  {
  }

  lemma BlacklistClassified(name: string, message: string, ips: seq<string>)
    ensures Classify(map["name" := StrV(name)]["message" := StrV(message)]["ips" := ListV(ips)]) ==
            Ok(BlacklistMessage(name, message, ips))
  {
    assert "name"[0] != "type"[0] && "message" != "name" && "ips" != "name" && "ips" != "message" && "type" != "ips";
  }

  /** WriteBlacklist: nothing for an empty list. */
  method WriteBlacklist(name: string, message: string, ips: seq<string>, v4: string -> bool) returns (text: string)
    ensures ips == [] ==> text == []
    ensures ips != [] ==>
      var items := seq(|ips|, i requires 0 <= i < |ips| => WithLength(ips[i], v4(ips[i])));
      text == BlacklistBody(name, message, items) + "%%\n"
  {
    if ips == [] { return []; }
    ghost var all := seq(|ips|, i requires 0 <= i < |ips| => WithLength(ips[i], v4(ips[i])));
    var list := PrefixItems(ips, v4);
    var last := "ips" + "=[" + list + "]\n";
    text := "name" + "=\"" + name + "\"\n" + ("message" + "=\"" + message + "\"\n" + last) + "%%\n";
  }

  method PrefixItems(ips: seq<string>, v4: string -> bool) returns (list: string)
    ensures list == Join(seq(|ips|, i requires 0 <= i < |ips| => WithLength(ips[i], v4(ips[i]))))
  {
    ghost var all := seq(|ips|, i requires 0 <= i < |ips| => WithLength(ips[i], v4(ips[i])));
    list := [];
    for i := 0 to |ips|
      invariant list == Join(all[..i])
    {
      var item := WithLength(ips[i], v4(ips[i]));
      JoinSnoc(all[..i], item);
      assert all[..i + 1] == all[..i] + [item];
      if i > 0 { list := list + ","; }
      list := list + ("\"" + item + "\"");
    }
    assert all[..|ips|] == all;
  }

  // ----- statistics -----

  function ScanStatsAssigns(at: nat, grey: nat, white: nat, trapped: nat, spamtrap: nat, domain: nat): seq<Assign> {
    [Str("type", "scan_stats"), Int("at", at), Int("grey", grey), Int("white", white), Int("trapped", trapped),
      Int("spamtrap", spamtrap), Int("domain", domain)]
  }

  /** The counts of a scan arrive each under its own name. */
  lemma ScanStatsRoundTrip(at: nat, grey: nat, white: nat, trapped: nat, spamtrap: nat, domain: nat)
    requires at <= MAX_INT && grey <= MAX_INT && white <= MAX_INT && trapped <= MAX_INT
    requires spamtrap <= MAX_INT && domain <= MAX_INT
    ensures Decode(BodyText(ScanStatsAssigns(at, grey, white, trapped, spamtrap, domain))) ==
            Ok(ScanStats(at, grey, white, trapped, spamtrap, domain))
  {
    hide ParseFields, BodyText, Table, Classify;
    var xs := ScanStatsAssigns(at, grey, white, trapped, spamtrap, domain);
    StatsNames();
    ParsePrinted(xs, map[]);
    Table4(xs[0], xs[1], xs[2], xs[3], xs[4..], map[]);
    assert xs == [xs[0], xs[1], xs[2], xs[3]] + xs[4..] && xs[4..] == [xs[4], xs[5], xs[6]];
    Table3(xs[4], xs[5], xs[6], map[xs[0].name := xs[0].value][xs[1].name := xs[1].value][xs[2].name := xs[2].value]
                                   [xs[3].name := xs[3].value]);
    ScanStatsClassified(at, grey, white, trapped, spamtrap, domain);
  }

  lemma Table3(a: Assign, b: Assign, c: Assign, f: Fields)
    ensures Table([a, b, c], f) == f[a.name := a.value][b.name := b.value][c.name := c.value]
  {
    hide Table;
    TableStep(a, [b, c], f);
    TableStep(b, [c], f[a.name := a.value]);
    TableStep(c, [], f[a.name := a.value][b.name := b.value]);
    TableNone(f[a.name := a.value][b.name := b.value][c.name := c.value]);
    assert [a] + [b, c] == [a, b, c] && [b] + [c] == [b, c] && [c] + [] == [c];
  }

  lemma TableNone(f: Fields)
    ensures Table([], f) == f
  {
  }

  lemma StatsNames()
    ensures NameText("type") && NameText("at") && NameText("grey") && NameText("white") && NameText("trapped")
    ensures NameText("spamtrap") && NameText("domain") && NameText("blacklists") && Plain("scan_stats")
    ensures Plain("stats_reply") && Plain("stats")
  {
  }

  lemma ScanStatsClassified(at: nat, grey: nat, white: nat, trapped: nat, spamtrap: nat, domain: nat)
    ensures Classify(map["type" := StrV("scan_stats")]["at" := IntV(at)]["grey" := IntV(grey)]["white" := IntV(white)]
                        ["trapped" := IntV(trapped)]["spamtrap" := IntV(spamtrap)]["domain" := IntV(domain)]) ==
            Ok(ScanStats(at, grey, white, trapped, spamtrap, domain))
  {
    assert "type"[0] != "grey"[0] && "grey" != "white" && "trapped" != "spamtrap" && "scan_stats" != "stats";
    assert "scan_stats" != "stats_reply" && "type" != "at" && "type" != "white" && "type" != "trapped";
  }

  function StatsRequestAssigns(): seq<Assign> { [Str("type", "stats")] }

  lemma StatsRequestRoundTrip()
    ensures Decode(BodyText(StatsRequestAssigns())) == Ok(StatsRequest)
  {
    hide ParseFields, BodyText, Table;
    StatsNames();
    ParsePrinted(StatsRequestAssigns(), map[]);
    OneAssignment(Str("type", "stats"), map[]);
  }

  // ----- counters by name -----

  datatype Counter = Counter(name: string, n: nat)

  function Ints(cs: seq<Counter>): seq<Assign> {
    if cs == [] then [] else [Int(cs[0].name, cs[0].n)] + Ints(cs[1..])
  }

  function Counters(cs: seq<Counter>, m: map<string, int>): map<string, int> {
    if cs == [] then m else Counters(cs[1..], m[cs[0].name := cs[0].n])
  }

  function CountersIn(f: Fields): map<string, int> {
    map name | name in f && f[name].IntV? && name != "type" :: f[name].n
  }

  predicate Countable(c: Counter) {
    NameText(c.name) && c.name != "type" && c.name != "blacklists" && c.n <= MAX_INT
  }

  lemma {:induction false} TableOfInts(cs: seq<Counter>, rest: seq<Assign>, f: Fields) returns (g: Fields)
    requires forall i :: 0 <= i < |cs| ==> Countable(cs[i])
    ensures Table(Ints(cs) + rest, f) == Table(rest, g) && CountersIn(g) == Counters(cs, CountersIn(f))
    ensures ("blacklists" in g <==> "blacklists" in f) && ("type" in f ==> "type" in g && g["type"] == f["type"])
    decreases |cs|
  {
    hide NameText;
    if cs == [] {
      assert Ints(cs) + rest == rest;
      g := f;
    } else {
      var a := Int(cs[0].name, cs[0].n);
      assert Ints(cs) + rest == [a] + (Ints(cs[1..]) + rest);
      TableStep(a, Ints(cs[1..]) + rest, f);
      var f' := f[a.name := a.value];
      assert CountersIn(f') == CountersIn(f)[cs[0].name := cs[0].n];
      g := TableOfInts(cs[1..], rest, f');
    }
  }

  function StatsReplyAssigns(cs: seq<Counter>, blacklists: seq<string>): seq<Assign> {
    var lists := if blacklists == [] then [] else [Tight("blacklists", ListV(blacklists))];
    [Str("type", "stats_reply")] + (Ints(cs) + lists)
  }

  lemma {:induction false} IntsPrintable(cs: seq<Counter>)
    requires forall i :: 0 <= i < |cs| ==> Countable(cs[i])
    ensures forall i :: 0 <= i < |Ints(cs)| ==> Printable(Ints(cs)[i])
  {
    hide NameText;
    if cs != [] { IntsPrintable(cs[1..]); }
  }

  /** All counters arrive under their names, a later one of a name winning, and the blacklists with
      them. */
  lemma StatsReplyRoundTrip(cs: seq<Counter>, blacklists: seq<string>)
    requires forall i :: 0 <= i < |cs| ==> Countable(cs[i])
    requires forall i :: 0 <= i < |blacklists| ==> Plain(blacklists[i])
    ensures Decode(BodyText(StatsReplyAssigns(cs, blacklists))) == Ok(StatsReply(Counters(cs, map[]), blacklists))
  {
    hide ParseFields, BodyText, Table, Classify, Counters, CountersIn, Countable, Printable, Plain, Ints;
    StatsReplyPrintable(cs, blacklists);
    ParsePrinted(StatsReplyAssigns(cs, blacklists), map[]);
    var rest := if blacklists == [] then [] else [Tight("blacklists", ListV(blacklists))];
    TableStep(Str("type", "stats_reply"), Ints(cs) + rest, map[]);
    var f: Fields := map["type" := StrV("stats_reply")];
    OnlyType(f);
    var g := TableOfInts(cs, rest, f);
    if blacklists == [] {
      TableNone(g);
    } else {
      OneAssignment(rest[0], g);
    }
    StatsReplyClassified(g, blacklists);
  }

  lemma OnlyType(f: Fields)
    requires f.Keys == {"type"}
    ensures CountersIn(f) == map[] && "blacklists" !in f
  {
    assert "blacklists" != "type";
  }

  lemma StatsReplyPrintable(cs: seq<Counter>, blacklists: seq<string>)
    requires forall i :: 0 <= i < |cs| ==> Countable(cs[i])
    requires forall i :: 0 <= i < |blacklists| ==> Plain(blacklists[i])
    ensures var xs := StatsReplyAssigns(cs, blacklists); forall i :: 0 <= i < |xs| ==> Printable(xs[i])
  {
    hide NameText, Plain, Countable, Ints;
    StatsNames();
    IntsPrintable(cs);
  }

  lemma StatsReplyClassified(g: Fields, blacklists: seq<string>)
    requires "type" in g && g["type"] == StrV("stats_reply") && "blacklists" !in g
    ensures blacklists == [] ==> Classify(g) == Ok(StatsReply(CountersIn(g), []))
    ensures Classify(g["blacklists" := ListV(blacklists)]) == Ok(StatsReply(CountersIn(g), blacklists))
  {
    assert "blacklists" != "type" && "stats_reply" != "stats";
    var h := g["blacklists" := ListV(blacklists)];
    assert CountersIn(h) == CountersIn(g);
  }
}
