/** Rejection messages: the escapes of a blacklist's message and the multi-line reply of section
    4.2.1 of RFC 5321 made of the messages of all lists that matched. */
module SmtpReply {
  import opened TextLines

  // ----- escapes -----

  datatype Saved = Nothing | Escape(c: char)

  predicate IsEscape(c: char) { c == '\\' || c == '%' }

  /** What one character adds to the text and which escape is then open. */
  function Expand1(c: char, saved: Saved, addr: string): (string, Saved) {
    if IsEscape(c) then if saved == Nothing then ([], Escape(c)) else ([saved.c], Nothing)
    else if saved == Escape('\\') && c == 'n' then ("\n", Nothing)
    else if saved == Escape('%') && c == 'A' then (addr, Nothing)
    else if saved != Nothing then ([saved.c, c], Nothing)
    else ([c], Nothing)
  }

  function Expand(format: string, saved: Saved, addr: string): string {
    if format == [] then []
    else
      var (text, next) := Expand1(format[0], saved, addr);
      text + Expand(format[1..], next, addr)
  }

  method ExpandMessage(format: string, addr: string) returns (text: string)
    ensures text == Expand(format, Nothing, addr)
  {
    hide Expand;
    text := [];
    var saved := Nothing;
    assert format[0..] == format && text + Expand(format, saved, addr) == Expand(format, saved, addr);
    for i := 0 to |format|
      invariant text + Expand(format[i..], saved, addr) == Expand(format, Nothing, addr)
    {
      var c := format[i];
      ExpandNext(format, i, saved, addr, text);
      if IsEscape(c) {
        if saved == Nothing {
          saved := Escape(c);
        } else {
          text := text + [saved.c];
          saved := Nothing;
        }
      } else if saved == Escape('\\') && c == 'n' {
        text := text + "\n";
        saved := Nothing;
      } else if saved == Escape('%') && c == 'A' {
        text := text + addr;
        saved := Nothing;
      } else {
        text := text + (if saved != Nothing then [saved.c, c] else [c]);
        saved := Nothing;
      }
    }
    assert format[|format|..] == [];
    ExpandNothing(saved, addr);
    assert text + [] == text;
  }

  lemma ExpandNext(format: string, i: nat, saved: Saved, addr: string, text: string)
    requires i < |format|
    ensures var (more, next) := Expand1(format[i], saved, addr);
      text + Expand(format[i..], saved, addr) == (text + more) + Expand(format[i + 1..], next, addr)
  {
    assert format[i..][0] == format[i] && format[i..][1..] == format[i + 1..];
  }

  lemma ExpandNothing(saved: Saved, addr: string)
    ensures Expand([], saved, addr) == []
  {
  }

  function Quote1(c: char): string {
    if IsEscape(c) then [c, c] else if c == '\n' then ['\\', 'n'] else [c]
  }

  /** Every text as a message that expands to it: newlines and escape characters written out. */
  function Quote(s: string): string {
    if s == [] then [] else Quote1(s[0]) + Quote(s[1..])
  }

  lemma ExpandPair(a: char, b: char, tail: string, addr: string)
    requires IsEscape(a)
    ensures var (text, next) := Expand1(b, Escape(a), addr);
      Expand([a, b] + tail, Nothing, addr) == text + Expand(tail, next, addr)
  {
    var f := [a, b] + tail;
    assert f[1..] == [b] + tail && f[1..][1..] == tail;
    assert Expand(f, Nothing, addr) == [] + Expand(f[1..], Escape(a), addr);
  }

  lemma ExpandOne(c: char, tail: string, addr: string)
    requires !IsEscape(c)
    ensures Expand([c] + tail, Nothing, addr) == [c] + Expand(tail, Nothing, addr)
  {
    assert ([c] + tail)[1..] == tail;
  }

  lemma ExpandQuote1(c: char, tail: string, addr: string)
    ensures Expand(Quote1(c) + tail, Nothing, addr) == [c] + Expand(tail, Nothing, addr)
  {
    hide Expand;
    if IsEscape(c) {
      ExpandPair(c, c, tail, addr);
    } else if c == '\n' {
      ExpandPair('\\', 'n', tail, addr);
    } else {
      ExpandOne(c, tail, addr);
    }
  }

  /** Every text can be written as a message, whatever the address, and before any other message
      text. */
  lemma {:induction false} ExpandQuoted(s: string, rest: string, addr: string)
    ensures Expand(Quote(s) + rest, Nothing, addr) == s + Expand(rest, Nothing, addr)
    decreases |s|
  {
    hide Expand, Quote1;
    var told := Expand(rest, Nothing, addr);
    if s == [] {
      assert Quote(s) + rest == rest && s + told == told;
    } else {
      ExpandQuoted(s[1..], rest, addr);
      assert Quote(s) + rest == Quote1(s[0]) + (Quote(s[1..]) + rest);
      ExpandQuote1(s[0], Quote(s[1..]) + rest, addr);
      assert s + told == [s[0]] + (s[1..] + told);
    }
  }

  // ----- what the comment promises -----

  /** What one character adds by the documented rules: a doubled escape character gives it once,
      an escaped n and A have their meanings, and any other escaped character, the other escape
      character included, is emitted with its escape. */
  function Documented1(c: char, saved: Saved, addr: string): (string, Saved) {
    if saved == Nothing then if IsEscape(c) then ([], Escape(c)) else ([c], Nothing)
    else if c == saved.c then ([c], Nothing)
    else if saved.c == '\\' && c == 'n' then ("\n", Nothing)
    else if saved.c == '%' && c == 'A' then (addr, Nothing)
    else ([saved.c, c], Nothing)
  }

  /** A trailing lone escape character is dropped. */
  function Documented(format: string, saved: Saved, addr: string): string {
    if format == [] then []
    else
      var (text, next) := Documented1(format[0], saved, addr);
      text + Documented(format[1..], next, addr)
  }

  /** Somewhere an open escape character is followed by the other one. */
  predicate Mixed(format: string, saved: Saved) {
    format != [] &&
    if saved == Nothing then Mixed(format[1..], if IsEscape(format[0]) then Escape(format[0]) else Nothing)
    else (IsEscape(format[0]) && format[0] != saved.c) || Mixed(format[1..], Nothing)
  }

  lemma {:induction false} MixedIsShorter(format: string, saved: Saved, addr: string)
    requires saved == Nothing || IsEscape(saved.c)
    ensures |Expand(format, saved, addr)| <= |Documented(format, saved, addr)|
    ensures Mixed(format, saved) ==> |Expand(format, saved, addr)| < |Documented(format, saved, addr)|
    ensures !Mixed(format, saved) ==> Expand(format, saved, addr) == Documented(format, saved, addr)
    decreases |format|
  {
    if format != [] {
      var c := format[0];
      assert Expand1(c, saved, addr).1 == Documented1(c, saved, addr).1;
      MixedIsShorter(format[1..], Expand1(c, saved, addr).1, addr);
    }
  }

  /** A message expands as documented if and only if no escape character in it escapes the other
      one. */
  lemma DocumentedExactly(format: string, addr: string)
    ensures Expand(format, Nothing, addr) == Documented(format, Nothing, addr) <==> !Mixed(format, Nothing)
  {
    MixedIsShorter(format, Nothing, addr);
  }

  /** A backslash before a percent sign, and the other way round: only the first comes out. */
  lemma MixedPairLosesOne(addr: string)
    ensures Expand(['\\', '%'], Nothing, addr) == ['\\'] && Documented(['\\', '%'], Nothing, addr) == ['\\', '%']
    ensures Expand(['%', '\\'], Nothing, addr) == ['%'] && Documented(['%', '\\'], Nothing, addr) == ['%', '\\']
  {
    forall a, b | (a == '\\' && b == '%') || (a == '%' && b == '\\')
      ensures Expand([a, b], Nothing, addr) == [a] && Documented([a, b], Nothing, addr) == [a, b]
    {
      ExpandPair(a, b, [], addr);
      assert [a, b] + [] == [a, b] && [a, b][1..] == [b] && [b][1..] == [];
      assert Documented([b], Escape(a), addr) == [a, b] + [];
    }
  }

  // ----- the multi-line reply -----

  /** A missing last newline is supplied. */
  function EndLine(text: string): (r: string)
    ensures r != [] && r[|r| - 1] == '\n'
  {
    if text == [] || text[|text| - 1] != '\n' then text + "\n" else text
  }

  /** The lines of one message: split at newlines, the empty piece behind the last one dropped. */
  function MessageLines(message: string, addr: string): (r: seq<string>)
    ensures forall i :: 0 <= i < |r| ==> OneLine(r[i])
  {
    var parts := SplitLines(EndLine(Expand(message, Nothing, addr)));
    parts[..|parts| - 1]
  }

  /** They are the text, and there is at least one. */
  lemma LinesAreTheText(message: string, addr: string)
    ensures Unlines(MessageLines(message, addr)) == EndLine(Expand(message, Nothing, addr))
    ensures MessageLines(message, addr) != []
  {
    SplitUnlines(EndLine(Expand(message, Nothing, addr)));
  }

  function AllLines(messages: seq<string>, addr: string): (r: seq<string>)
    ensures forall i :: 0 <= i < |r| ==> OneLine(r[i])
  {
    if messages == [] then [] else MessageLines(messages[0], addr) + AllLines(messages[1..], addr)
  }

  function RenderLine(code: string, last: bool, line: string): string {
    code + [if last then ' ' else '-'] + line + "\n"
  }

  function Render(lines: seq<string>, code: string): string {
    if lines == [] then [] else RenderLine(code, |lines| == 1, lines[0]) + Render(lines[1..], code)
  }

  /** A client's reading of a reply: lines that begin with the code, up to and including the first in
      which a space follows it. */
  function ReadReply(s: string, code: string): seq<string>
    decreases |s|
  {
    var n := LineLength(s);
    if n <= |code| + 1 || s[n - 1] != '\n' || s[..|code|] != code then []
    else if s[|code|] == ' ' then [s[|code| + 1..n - 1]]
    else if s[|code|] == '-' then [s[|code| + 1..n - 1]] + ReadReply(s[n..], code)
    else []
  }

  lemma ReadFirst(code: string, sep: char, line: string, rest: string)
    requires OneLine(code + [sep] + line) && (sep == ' ' || sep == '-')
    ensures ReadReply(code + [sep] + line + "\n" + rest, code) ==
            [line] + if sep == ' ' then [] else ReadReply(rest, code)
  {
    hide LineLength;
    var head := code + [sep] + line;
    var s := head + "\n" + rest;
    LineOf(head, rest);
    RenderPieces(code, sep, line, rest);
  }

  lemma RenderPieces(code: string, sep: char, line: string, rest: string)
    ensures var s := code + [sep] + line + "\n" + rest; var n := |code| + 1 + |line| + 1;
      && s[..|code|] == code && s[|code|] == sep && s[|code| + 1..n - 1] == line && s[n - 1] == '\n'
      && s[n..] == rest
  {
  }

  lemma RenderStep(code: string, last: bool, line: string, rest: string)
    requires OneLine(code) && OneLine(line)
    ensures var s := RenderLine(code, last, line) + rest;
      ReadReply(s, code) == [line] + if last then [] else ReadReply(rest, code)
  {
    hide ReadReply;
    ReadFirst(code, if last then ' ' else '-', line, rest);
  }

  /** Whatever follows, a client reads back exactly the lines of the reply. */
  lemma {:induction false} ReplyRoundTrip(lines: seq<string>, code: string, rest: string)
    requires lines != [] && OneLine(code) && forall i :: 0 <= i < |lines| ==> OneLine(lines[i])
    ensures ReadReply(Render(lines, code) + rest, code) == lines
    decreases |lines|
  {
    hide ReadReply, RenderLine;
    var tail := Render(lines[1..], code) + rest;
    assert Render(lines, code) + rest == RenderLine(code, |lines| == 1, lines[0]) + tail;
    RenderStep(code, |lines| == 1, lines[0], tail);
    assert lines == [lines[0]] + lines[1..];
    if |lines| > 1 {
      ReplyRoundTrip(lines[1..], code, rest);
    }
  }

  /** The lines of several messages are those of each, one message after the other. */
  lemma {:induction false} AllLinesInOrder(a: seq<string>, b: seq<string>, addr: string)
    ensures AllLines(a + b, addr) == AllLines(a, addr) + AllLines(b, addr)
    ensures forall m :: AllLines([m], addr) == MessageLines(m, addr)
    decreases |a|
  {
    hide MessageLines;
    if a == [] {
      assert a + b == b;
    } else {
      assert (a + b)[1..] == a[1..] + b;
      AllLinesInOrder(a[1..], b, addr);
    }
    forall m ensures AllLines([m], addr) == MessageLines(m, addr) {
      assert [m][1..] == [] && MessageLines(m, addr) + [] == MessageLines(m, addr);
    }
  }

  /** Every list that matched is heard: each message gives at least one line. */
  lemma {:induction false} EveryListSpeaks(messages: seq<string>, addr: string)
    ensures |AllLines(messages, addr)| >= |messages|
  {
    if messages != [] {
      LinesAreTheText(messages[0], addr);
      EveryListSpeaks(messages[1..], addr);
    }
  }

  method FormatReply(messages: seq<string>, code: string, addr: string) returns (reply: string)
    ensures reply == Render(AllLines(messages, addr), code)
  {
    hide Expand, MessageLines, Render, RenderLine, OneLine;
    var lines := [];
    for k := 0 to |messages|
      invariant lines + AllLines(messages[k..], addr) == AllLines(messages, addr)
    {
      assert messages[k..][0] == messages[k] && messages[k..][1..] == messages[k + 1..];
      var text := ExpandMessage(messages[k], addr);
      var parts := SplitLines(EndLine(text));
      parts := parts[..|parts| - 1];
      assert parts == MessageLines(messages[k], addr) by { MessageLinesAre(messages[k], addr); }
      ghost var after := AllLines(messages[k + 1..], addr);
      assert AllLines(messages[k..], addr) == parts + after;
      assert lines + (parts + after) == (lines + parts) + after;
      lines := lines + parts;
    }
    assert messages[|messages|..] == [] && lines + [] == lines;
    reply := [];
    for i := 0 to |lines|
      invariant reply + Render(lines[i..], code) == Render(lines, code)
    {
      RenderNext(lines, i, code);
      ghost var line, after := RenderLine(code, i == |lines| - 1, lines[i]), Render(lines[i + 1..], code);
      assert reply + (line + after) == (reply + line) + after;
      reply := reply + RenderLine(code, i == |lines| - 1, lines[i]);
    }
    assert lines[|lines|..] == [] && reply + [] == reply;
    RenderNone(code);
  }

  lemma MessageLinesAre(message: string, addr: string)
    ensures var parts := SplitLines(EndLine(Expand(message, Nothing, addr)));
      MessageLines(message, addr) == parts[..|parts| - 1]
  {
  }

  lemma RenderNext(lines: seq<string>, i: nat, code: string)
    requires i < |lines|
    ensures Render(lines[i..], code) == RenderLine(code, i == |lines| - 1, lines[i]) + Render(lines[i + 1..], code)
  {
    assert lines[i..][0] == lines[i] && lines[i..][1..] == lines[i + 1..];
  }

  lemma RenderNone(code: string)
    ensures Render([], code) == []
  {
  }
}
