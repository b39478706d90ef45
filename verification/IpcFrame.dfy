/** Framing: a message is its assignments followed by a line holding only the terminator. The
    reader cuts a stream back into messages. */
module IpcFrame {
  import opened TextLines
  import opened IpcText
  import opened IpcCodec

  const TERMINATOR: string := "%%"

  // ----- reading -----

  function TrimEnd(s: string): string {
    if s != [] && (s[|s| - 1] == '\r' || s[|s| - 1] == '\n') then TrimEnd(s[..|s| - 1]) else s
  }

  predicate IsTerminator(line: string) { TrimEnd(line) == TERMINATOR }

  /** A line ends a frame if and only if it is two percent signs and then nothing but carriage returns
      and newlines. */
  lemma TerminatorExactly(line: string)
    ensures IsTerminator(line) <==>
      |line| >= 2 && line[..2] == "%%" && forall i :: 2 <= i < |line| ==> line[i] == '\r' || line[i] == '\n'
  {
    TrimIs(line);
    if |line| >= 2 && line[..2] == "%%" && forall i :: 2 <= i < |line| ==> line[i] == '\r' || line[i] == '\n' {
      TrimTail(line, 2);
      assert "%%"[1] == '%';
    }
  }

  /** Trimming takes off carriage returns and newlines at the end only. */
  lemma {:induction false} TrimIs(s: string)
    ensures var t := TrimEnd(s);
      && |t| <= |s| && t == s[..|t|] && (t != [] ==> t[|t| - 1] != '\r' && t[|t| - 1] != '\n')
      && forall i :: |t| <= i < |s| ==> s[i] == '\r' || s[i] == '\n'
  {
    if s != [] && (s[|s| - 1] == '\r' || s[|s| - 1] == '\n') {
      TrimIs(s[..|s| - 1]);
    }
  }

  lemma {:induction false} TrimTail(s: string, n: nat)
    requires 0 < n <= |s| && s[n - 1] != '\r' && s[n - 1] != '\n'
    requires forall i :: n <= i < |s| ==> s[i] == '\r' || s[i] == '\n'
    ensures TrimEnd(s) == s[..n]
    decreases |s|
  {
    if n < |s| {
      TrimTail(s[..|s| - 1], n);
      assert s[..|s| - 1][..n] == s[..n];
    } else {
      assert s[..n] == s;
    }
  }

  datatype Read = Frame(body: string, rest: string) | Eof | TooLarge(rest: string)

  /** NextRaw on the unread text, `body` being what the frame holds so far. */
  function ReadFrame(s: string, body: string, max: nat): (r: Read)
    ensures s != [] && (r.Frame? || r.TooLarge?) ==> |r.rest| < |s|
    ensures s == [] && body == [] <==> r.Eof?
    decreases |s|
  {
    if s == [] then if body == [] then Eof else Frame(body, [])
    else
      var n := LineLength(s);
      if IsTerminator(s[..n]) then Frame(body, s[n..])
      else if |body| + n > max then TooLarge(s[n..])
      else ReadFrame(s[n..], body + s[..n], max)
  }

  /** The outcomes of the successive frames, and whether the end of the stream was reached. */
  datatype Received = Received(frames: seq<Decoded>, eof: bool)

  /** Next called until there is no further frame to decode. */
  function ReadAll(s: string, max: nat): Received
    decreases |s|
  {
    match ReadFrame(s, [], max)
    case Eof => Received([], true)
    case TooLarge(_) => Received([], false)
    case Frame(body, rest) =>
      var r := ReadAll(rest, max);
      r.(frames := [Decode(body)] + r.frames)
  }

  class Reader {
    var unread: string
    var maxFrame: nat

    /** bufio's ReadString('\n') at the end of which the stream may be exhausted. */
    method ReadLine() returns (line: string, eof: bool)
      modifies this`unread
      ensures line == old(unread)[..LineLength(old(unread))]
      ensures unread == old(unread)[LineLength(old(unread))..]
      ensures eof ==> unread == []
      ensures !eof ==> line != []
    {
      var n := 0;
      while n < |unread| && unread[n] != '\n'
        invariant n <= |unread| && LineLength(unread) == n + LineLength(unread[n..])
      {
        assert unread[n..][1..] == unread[n + 1..];
        n := n + 1;
      }
      eof := n == |unread|;
      if !eof {
        n := n + 1;
      }
      line := unread[..n];
      unread := unread[n..];
    }

    method NextRaw() returns (r: Read)
      modifies this`unread
      ensures r == ReadFrame(old(unread), [], maxFrame)
      ensures (r.Frame? || r.TooLarge?) ==> unread == r.rest
    {
      hide IsTerminator, LineLength;
      var sb := [];
      while true
        invariant ReadFrame(unread, sb, maxFrame) == ReadFrame(old(unread), [], maxFrame)
        decreases |unread|
      {
        ghost var before := unread;
        var line, eof := ReadLine();
        if |line| > 0 {
          if IsTerminator(line) {
            return Frame(sb, unread);
          }
          if |sb| + |line| > maxFrame {
            return TooLarge(unread);
          }
          sb := sb + line;
        }
        if eof {
          assert before == [] ==> line == [];
          return if |sb| == 0 then Eof else Frame(sb, []);
        }
      }
    }
  }

  // ----- exactly which bodies come back -----

  predicate Ended(body: string) { body == [] || body[|body| - 1] == '\n' }

  /** No line of the body reads as the terminator. */
  predicate CleanBody(body: string)
    decreases |body|
  {
    body == [] || (!IsTerminator(body[..LineLength(body)]) && CleanBody(body[LineLength(body)..]))
  }

  lemma {:induction false} LineLengthPrefix(line: string, rest: string)
    requires line != [] && line[|line| - 1] == '\n'
    ensures LineLength(line + rest) == LineLength(line)
    ensures (line + rest)[..LineLength(line)] == line[..LineLength(line)]
    ensures (line + rest)[LineLength(line)..] == line[LineLength(line)..] + rest
    decreases |line|
  {
    if line[0] != '\n' {
      assert (line + rest)[1..] == line[1..] + rest;
      LineLengthPrefix(line[1..], rest);
    }
  }

  lemma {:induction false} LineLengthEnds(body: string)
    requires Ended(body) && body != []
    ensures Ended(body[LineLength(body)..])
    decreases |body|
  {
    if body[0] != '\n' {
      LineLengthEnds(body[1..]);
      assert body[1..][LineLength(body[1..])..] == body[LineLength(body)..];
    }
  }

  lemma TerminatorStops(rest: string, acc: string, max: nat)
    ensures ReadFrame("%%\n" + rest, acc, max) == Frame(acc, rest)
  {
    var s := "%%\n" + rest;
    assert s[1..] == "%\n" + rest && s[1..][1..] == "\n" + rest;
    assert LineLength("\n" + rest) == 1 && LineLength("%\n" + rest) == 2;
    assert LineLength(s) == 3 && s[..3] == "%%\n" && s[3..] == rest;
    assert "%%\n"[..2] == "%%";
    assert TrimEnd("%%\n") == TrimEnd("%%") == "%%";
  }

  /** The reader at the first of some whole lines. */
  lemma ReadFirstLine(body: string, tail: string, acc: string, max: nat)
    requires Ended(body) && body != []
    ensures var n := LineLength(body);
      ReadFrame(body + tail, acc, max) ==
        if IsTerminator(body[..n]) then Frame(acc, body[n..] + tail)
        else if |acc| + n > max then TooLarge(body[n..] + tail)
        else ReadFrame(body[n..] + tail, acc + body[..n], max)
  {
    hide IsTerminator, LineLength;
    LineLengthPrefix(body, tail);
  }

  /** Behind a body of whole lines the reader stops at the terminator, or earlier: the body comes
      back if and only if none of its lines reads as the terminator and it fits the limit. */
  lemma {:induction false} FrameExactly(body: string, acc: string, rest: string, max: nat)
    requires Ended(body) && |acc| <= max
    ensures var r := ReadFrame(body + ("%%\n" + rest), acc, max);
      && (r == Frame(acc + body, rest) <==> CleanBody(body) && |acc| + |body| <= max)
      && (r.Frame? ==> |r.body| <= |acc| + |body|)
    decreases |body|
  {
    hide IsTerminator, ReadFrame, LineLength;
    if body == [] {
      assert body + ("%%\n" + rest) == "%%\n" + rest && acc + body == acc;
      TerminatorStops(rest, acc, max);
    } else {
      var n := LineLength(body);
      ReadFirstLine(body, "%%\n" + rest, acc, max);
      LineLengthEnds(body);
      if !IsTerminator(body[..n]) && |acc| + n <= max {
        FrameExactly(body[n..], acc + body[..n], rest, max);
        assert acc + body[..n] + body[n..] == acc + body;
      }
    }
  }

  /** A stream that ends without a terminator still gives what it holds as a last frame, if it fits. */
  lemma {:induction false} UnterminatedRead(body: string, acc: string, max: nat)
    requires Ended(body) && CleanBody(body) && |acc| + |body| <= max && acc + body != []
    ensures ReadFrame(body, acc, max) == Frame(acc + body, [])
    decreases |body|
  {
    hide IsTerminator, LineLength;
    if body == [] {
      assert acc + body == acc;
    } else {
      var n := LineLength(body);
      LineLengthEnds(body);
      UnterminatedRead(body[n..], acc + body[..n], max);
      assert acc + body[..n] + body[n..] == acc + body;
    }
  }

  // ----- messages without newlines -----

  predicate OneLineValue(v: Value) {
    match v
    case IntV(_) => true
    case StrV(s) => OneLine(s)
    case ListV(items) => forall i :: 0 <= i < |items| ==> OneLine(items[i])
  }

  /** No field of the message holds a newline. */
  predicate OneLineMessage(o: Outgoing) {
    match o
    case SendGrey(dst, ip, helo, from, to) =>
      OneLine(dst) && OneLine(ip) && OneLine(helo) && OneLine(from) && OneLine(to)
    case SendGreyFromSync(ip, helo, from, to) => OneLine(ip) && OneLine(helo) && OneLine(from) && OneLine(to)
    case SendAddr(_, ip, source, _, _) => OneLine(ip) && OneLine(source)
    case SendReplace(set_, _, ips) => OneLine(set_) && forall i :: 0 <= i < |ips| ==> OneLine(ips[i])
    case SendNat(src, _, proxy, _) => OneLine(src) && OneLine(proxy)
    case SendDst(answer) => OneLine(answer)
  }

  lemma DecOneLine(n: nat)
    ensures OneLine(Dec(n))
  {
    forall i | 0 <= i < |Dec(n)| ensures Dec(n)[i] != '\n' {
      assert IsDigit(Dec(n)[i]);
    }
  }

  lemma SanitizeOneLine(v: string)
    requires OneLine(v)
    ensures OneLine(Sanitize(v))
  {
    SanitizePlain(v);
    forall i | 0 <= i < |Sanitize(v)| ensures Sanitize(v)[i] != '\n' {
      assert Sanitize(v)[i] in v;
    }
  }

  lemma AssignsOneLine(o: Outgoing)
    requires OneLineMessage(o)
    ensures forall i :: 0 <= i < |Assigns(o)| ==> OneLineValue(Assigns(o)[i].value)
  {
    hide Sanitize, Dec, OneLine;
    forall v: string | OneLine(v) ensures OneLine(Sanitize(v)) { SanitizeOneLine(v); }
    assert OneLine("replace") && OneLine("nat") by { ConstantsOneLine(); }
    if o.SendAddr? { DecOneLine(o.expires); }
  }

  lemma ConstantsOneLine()
    ensures OneLine("replace") && OneLine("nat")
  {
  }

  lemma {:induction false} JoinOneLine(items: seq<string>)
    requires forall i :: 0 <= i < |items| ==> OneLine(items[i])
    ensures OneLine(Join(items))
  {
    if |items| > 1 {
      JoinOneLine(items[1..]);
    }
  }

  lemma ValueOneLine(v: Value)
    requires OneLineValue(v)
    ensures OneLine(ValueText(v))
  {
    match v
    case IntV(n) => DecOneLine(if n < 0 then -n else n);
    case StrV(s) =>
    case ListV(items) => JoinOneLine(items);
  }

  lemma {:induction false} TrimStarts(s: string)
    ensures TrimEnd(s) != [] ==> s != [] && TrimEnd(s)[0] == s[0]
  {
    if s != [] {
      TrimStarts(s[..|s| - 1]);
    }
  }

  lemma AssignClean(a: Assign, rest: string)
    requires Printable(a) && OneLineValue(a.value)
    ensures CleanBody(AssignText(a) + rest) <==> CleanBody(rest)
  {
    hide ValueText, Printable;
    assert NameText(a.name) by { NameOfPrintable(a); }
    ValueOneLine(a.value);
    var line := a.name + (if a.spaced then " = " else "=") + ValueText(a.value);
    assert OneLine(line);
    var t := AssignText(a) + rest;
    assert t == line + "\n" + rest;
    LineOf(line, rest);
    assert t[..|line| + 1] == line + "\n" && t[|line| + 1..] == rest;
    TrimStarts(line + "\n");
    assert (line + "\n")[0] == a.name[0];
  }

  lemma NameOfPrintable(a: Assign)
    requires Printable(a)
    ensures NameText(a.name)
  {
  }

  lemma {:induction false} BodyClean(xs: seq<Assign>)
    requires forall i :: 0 <= i < |xs| ==> Printable(xs[i]) && OneLineValue(xs[i].value)
    ensures CleanBody(BodyText(xs)) && Ended(BodyText(xs))
    decreases |xs|
  {
    hide Printable, OneLineValue, CleanBody, AssignText;
    if xs == [] {
      EmptyClean();
    } else {
      BodyClean(xs[1..]);
      AssignClean(xs[0], BodyText(xs[1..]));
      AssignEnds(xs[0], BodyText(xs[1..]));
    }
  }

  lemma EmptyClean()
    ensures CleanBody([])
  {
  }

  lemma AssignEnds(a: Assign, rest: string)
    requires Ended(rest)
    ensures Ended(AssignText(a) + rest)
  {
  }

  // ----- a stream of messages -----

  function Body(o: Outgoing): string { BodyText(Assigns(o)) }

  function FrameText(o: Outgoing): string { Body(o) + "%%\n" }

  function Stream(os: seq<Outgoing>): string {
    if os == [] then [] else FrameText(os[0]) + Stream(os[1..])
  }

  predicate Fit(os: seq<Outgoing>, max: nat) {
    forall i :: 0 <= i < |os| ==> Sendable(os[i]) && OneLineMessage(os[i]) && |Body(os[i])| <= max
  }

  lemma FrameRead(o: Outgoing, rest: string, max: nat)
    requires Sendable(o) && OneLineMessage(o) && |Body(o)| <= max
    ensures ReadFrame(FrameText(o) + rest, [], max) == Frame(Body(o), rest)
  {
    hide Assigns, BodyText, ReadFrame, CleanBody, OneLineMessage, OneLineValue, Printable, Sendable;
    AssignsPrintable(o);
    AssignsOneLine(o);
    BodyClean(Assigns(o));
    FrameExactly(Body(o), [], rest, max);
    assert FrameText(o) + rest == Body(o) + ("%%\n" + rest) && [] + Body(o) == Body(o);
  }

  /** Whatever messages are written to a pipe one after the other, the reader at its other end
      gets exactly these messages, in this order, and then the end of the stream. */
  lemma {:induction false} StreamRoundTrip(os: seq<Outgoing>, max: nat)
    requires Fit(os, max)
    ensures ReadAll(Stream(os), max) == Received(seq(|os|, i requires 0 <= i < |os| => Ok(Expected(os[i]))), true)
    decreases |os|
  {
    hide ReadFrame, Decode, Body, OneLineMessage, Expected, Sendable;
    if os == [] {
      NothingToRead(max);
    } else {
      var o, rest := os[0], Stream(os[1..]);
      assert Stream(os) == FrameText(o) + rest;
      FrameRead(o, rest, max);
      assert Decode(Body(o)) == Ok(Expected(o)) by { BodyRoundTrip(o); }
      StreamRoundTrip(os[1..], max);
      assert Stream(os) != [];
    }
  }

  lemma NothingToRead(max: nat)
    ensures ReadFrame([], [], max) == Eof
  {
  }

  lemma BodyRoundTrip(o: Outgoing)
    requires Sendable(o)
    ensures Decode(Body(o)) == Ok(Expected(o))
  {
    RoundTrip(o);
  }

  // ----- sizes -----

  lemma StrSize(name: string, v: string)
    ensures |AssignText(SafeStr(name, v))| <= |name| + |v| + 6
  {
    SanitizePlain(v);
  }

  /** A grey frame is little longer than its fields. */
  lemma GreyBodySize(dst: string, ip: string, helo: string, from: string, to: string)
    ensures |Body(SendGrey(dst, ip, helo, from, to))| <= |dst| + |ip| + |helo| + |from| + |to| + 57
  {
    hide Sanitize, AssignText, BodyText;
    var xs := Assigns(SendGrey(dst, ip, helo, from, to));
    StrSize("dst_ip", dst);
    StrSize("ip", ip);
    StrSize("helo", helo);
    StrSize("from", from);
    StrSize("to", to);
    TypeSize();
    assert xs == [xs[0], xs[1], xs[2], xs[3]] + [xs[4]] + [xs[5]];
    BodyOfFour(xs[0], xs[1], xs[2], xs[3]);
    BodySnoc([xs[0], xs[1], xs[2], xs[3]], xs[4]);
    BodySnoc([xs[0], xs[1], xs[2], xs[3]] + [xs[4]], xs[5]);
  }

  lemma TypeSize()
    ensures |AssignText(IpcCodec.Int("type", MSG_GREY))| == 9
  {
    assert Dec(MSG_GREY) == ['1'];
  }

  // ----- writing -----

  /** What Sanitize computes by dropping the two characters one by one. */
  method SanitizeText(v: string) returns (r: string)
    ensures r == Sanitize(v)
  {
    r := [];
    for i := 0 to |v|
      invariant r + Sanitize(v[i..]) == Sanitize(v)
    {
      assert v[i..][1..] == v[i + 1..];
      if v[i] != '"' && v[i] != '\\' {
        assert r + Sanitize(v[i..]) == r + [v[i]] + Sanitize(v[i + 1..]);
        r := r + [v[i]];
      }
    }
    assert v[|v|..] == [];
  }

  /** The message builder: every call appends one assignment. */
  class Builder {
    var b: string
    ghost var assigns: seq<Assign>

    ghost predicate Valid()
      reads this
    {
      b == BodyText(assigns)
    }

    constructor ()
      ensures Valid() && assigns == []
    {
      b, assigns := [], [];
    }

    method Int(name: string, v: int)
      requires Valid()
      modifies this
      ensures Valid() && assigns == old(assigns) + [IpcCodec.Int(name, v)]
    {
      BodySnoc(assigns, IpcCodec.Int(name, v));
      b := b + (name + " = " + Decimal(v) + "\n");
      assigns := assigns + [IpcCodec.Int(name, v)];
    }

    method Str(name: string, v: string)
      requires Valid()
      modifies this
      ensures Valid() && assigns == old(assigns) + [IpcCodec.Str(name, v)]
    {
      BodySnoc(assigns, IpcCodec.Str(name, v));
      b := b + (name + " = " + ("\"" + v + "\"") + "\n");
      assigns := assigns + [IpcCodec.Str(name, v)];
    }

    method SafeStr(name: string, v: string)
      requires Valid()
      modifies this
      ensures Valid() && assigns == old(assigns) + [IpcCodec.SafeStr(name, v)]
    {
      var clean := SanitizeText(v);
      Str(name, clean);
    }

    method Bytes() returns (r: string)
      requires Valid()
      ensures r == BodyText(assigns) + "%%\n"
    {
      r := b + TERMINATOR + "\n";
      assert TERMINATOR + "\n" == "%%\n";
      assert r == b + (TERMINATOR + "\n");
    }
  }

  lemma {:induction false} BodySnoc(xs: seq<Assign>, a: Assign)
    ensures BodyText(xs + [a]) == BodyText(xs) + AssignText(a)
  {
    if xs == [] {
      assert [a][1..] == [] && xs + [a] == [a];
      assert BodyText([a]) == AssignText(a) + [];
    } else {
      assert (xs + [a])[0] == xs[0] && (xs + [a])[1..] == xs[1..] + [a];
      BodySnoc(xs[1..], a);
      assert AssignText(xs[0]) + (BodyText(xs[1..]) + AssignText(a)) == BodyText(xs) + AssignText(a);
    }
  }

  method WriteGrey(dst: string, ip: string, helo: string, from: string, to: string) returns (text: string)
    ensures text == FrameText(SendGrey(dst, ip, helo, from, to))
  {
    hide BodyText, Sanitize;
    var m := new Builder();
    m.Int("type", MSG_GREY);
    m.SafeStr("dst_ip", dst);
    m.SafeStr("ip", ip);
    m.SafeStr("helo", helo);
    m.SafeStr("from", from);
    m.SafeStr("to", to);
    assert m.assigns == Assigns(SendGrey(dst, ip, helo, from, to));
    text := m.Bytes();
  }

  method WriteGreyFromSync(ip: string, helo: string, from: string, to: string) returns (text: string)
    ensures text == FrameText(SendGreyFromSync(ip, helo, from, to))
  {
    hide BodyText, Sanitize;
    var m := new Builder();
    m.Int("type", MSG_GREY);
    m.Int("sync", 0);
    m.SafeStr("ip", ip);
    m.SafeStr("helo", helo);
    m.SafeStr("from", from);
    m.SafeStr("to", to);
    assert m.assigns == Assigns(SendGreyFromSync(ip, helo, from, to));
    text := m.Bytes();
  }

  method WriteAddr(typ: nat, ip: string, source: string, expires: nat, del: bool) returns (text: string)
    ensures text == FrameText(SendAddr(typ, ip, source, expires, del))
  {
    hide BodyText, Sanitize, Dec;
    var d := 0;
    if del {
      d := 1;
    }
    var m := new Builder();
    m.Int("type", typ);
    m.Int("sync", 0);
    m.SafeStr("ip", ip);
    m.SafeStr("source", source);
    m.Str("expires", Dec(expires));
    m.Int("delete", d);
    assert m.assigns == Assigns(SendAddr(typ, ip, source, expires, del));
    text := m.Bytes();
  }

  /** The list loop of WriteReplace. */
  method WriteItems(ips: seq<string>) returns (text: string)
    ensures text == Join(SanitizeAll(ips))
  {
    hide Sanitize;
    text := [];
    ghost var all := SanitizeAll(ips);
    for i := 0 to |ips|
      invariant text == Join(all[..i])
    {
      var clean := SanitizeText(ips[i]);
      JoinSnoc(all[..i], clean);
      assert all[..i + 1] == all[..i] + [clean];
      if i > 0 {
        text := text + ",";
      }
      text := text + ("\"" + clean + "\"");
    }
    assert all[..|ips|] == all;
  }

  lemma {:induction false} JoinSnoc(items: seq<string>, x: string)
    ensures Join(items + [x]) == (if items == [] then [] else Join(items) + ",") + ("\"" + x + "\"")
  {
    if items == [] {
      assert items + [x] == [x];
    } else {
      assert (items + [x])[0] == items[0] && (items + [x])[1..] == items[1..] + [x];
      JoinSnoc(items[1..], x);
      if |items| == 1 {
        assert items[1..] == [];
      } else {
        assert Join(items) == "\"" + items[0] + "\"," + Join(items[1..]);
      }
    }
  }

  method WriteReplace(set_: string, af: int, ips: seq<string>) returns (text: string)
    ensures text == FrameText(SendReplace(set_, af, ips))
  {
    hide Sanitize, Join, Dec, BodyText;
    var name := SanitizeText(set_);
    var items := WriteItems(ips);
    var a, b, c := Tight("type", StrV("replace")), Tight("name", StrV(name)), Tight("af", IntV(af));
    var list := "ips=" + ("[" + items + "]") + "\n";
    text := AssignText(a) + AssignText(b) + AssignText(c) + list + "%%\n";
    BodyOfFour(a, b, c, Tight("ips", ListV(SanitizeAll(ips))));
  }

  method WriteNat(src: string, srcPort: nat, proxy: string, proxyPort: nat) returns (text: string)
    ensures text == FrameText(SendNat(src, srcPort, proxy, proxyPort))
  {
    hide Sanitize, Dec, BodyText;
    var s := SanitizeText(src);
    var p := SanitizeText(proxy);
    var a, b, c := Tight("type", StrV("nat")), Tight("src", StrV(s)), Tight("src_port", IntV(srcPort));
    var d, e := Tight("proxy", StrV(p)), Tight("proxy_port", IntV(proxyPort));
    text := AssignText(a) + AssignText(b) + AssignText(c) + AssignText(d) + AssignText(e) + "%%\n";
    BodyOfFour(a, b, c, d);
    BodySnoc([a, b, c, d], e);
    assert [a, b, c, d] + [e] == Assigns(SendNat(src, srcPort, proxy, proxyPort));
  }

  method WriteDst(dst: string) returns (text: string)
    ensures text == FrameText(SendDst(dst))
  {
    hide Sanitize;
    var clean := SanitizeText(dst);
    text := AssignText(Tight("dst", StrV(clean))) + "%%\n";
    BodySnoc([], Tight("dst", StrV(clean)));
    assert [] + [Tight("dst", StrV(clean))] == Assigns(SendDst(dst));
  }

  lemma BodyOfFour(a: Assign, b: Assign, c: Assign, d: Assign)
    ensures BodyText([a, b, c, d]) == AssignText(a) + AssignText(b) + AssignText(c) + AssignText(d)
  {
    hide AssignText;
    BodySnoc([], a);
    BodySnoc([a], b);
    BodySnoc([a, b], c);
    BodySnoc([a, b, c], d);
    assert [] + [a] == [a] && [a] + [b] == [a, b] && [a, b] + [c] == [a, b, c] && [a, b, c] + [d] == [a, b, c, d];
  }
}
