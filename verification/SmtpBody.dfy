/** When the message text after DATA comes to its end: what the loop over the lines of each read
    computes, and how long any conversation can stay in the text. */
module SmtpBody {
  import opened SmtpText
  import opened SmtpDialogue
  import opened TextLines

  predicate HasDot(lines: seq<string>) {
    exists i :: 0 <= i < |lines| && TrimCR(lines[i]) == "."
  }

  /** The index of the first empty line, which ends the headers. */
  function HeaderEnd(lines: seq<string>): (h: nat)
    ensures h <= |lines| && (h < |lines| ==> TrimCR(lines[h]) == "")
    ensures forall i :: 0 <= i < h ==> TrimCR(lines[i]) != ""
  {
    if lines == [] || TrimCR(lines[0]) == "" then 0 else 1 + HeaderEnd(lines[1..])
  }

  /** How many of the lines belong to the body proper. */
  function BodyLines(lines: seq<string>, inBody: bool): nat {
    if inBody then |lines| else if HeaderEnd(lines) == |lines| then 0 else |lines| - HeaderEnd(lines) - 1
  }

  lemma HasDotStep(lines: seq<string>)
    requires lines != []
    ensures HasDot(lines) <==> TrimCR(lines[0]) == "." || HasDot(lines[1..])
  {
    if i :| 0 <= i < |lines| && TrimCR(lines[i]) == "." {
      if i > 0 { assert TrimCR(lines[1..][i - 1]) == "."; }
    }
    if i :| 0 <= i < |lines[1..]| && TrimCR(lines[1..][i]) == "." { assert TrimCR(lines[i + 1]) == "."; }
  }

  /** One read of message text ends the message if and only if it holds a line with a single dot
      or brings the body to ten lines; otherwise it moves past the headers if their end is in it
      and counts exactly the lines behind them. */
  lemma {:induction false} BodyEnds(lines: seq<string>, b: Body)
    requires !b.done && b.lines < MAX_BODY_LINES
    ensures var c := ScanBody(lines, b);
      && (c.done <==> HasDot(lines) || b.lines + BodyLines(lines, b.inBody) >= MAX_BODY_LINES)
      && (!c.done ==> c.lines == b.lines + BodyLines(lines, b.inBody))
      && (!c.done ==> (c.inBody <==> b.inBody || HeaderEnd(lines) < |lines|))
      && c.lines <= MAX_BODY_LINES
    decreases |lines|
  {
    hide TrimCR, HasDot;
    if lines == [] {
      NoDot();
    } else {
      HasDotStep(lines);
      DotIsNotEmpty(lines[0]);
      var line := TrimCR(lines[0]);
      if line != "." && !(b.inBody && b.lines + 1 >= MAX_BODY_LINES) {
        var c := if b.inBody then b.(lines := b.lines + 1) else b;
        BodyEnds(lines[1..], if !c.inBody && line == "" then c.(inBody := true) else c);
      }
    }
  }

  lemma NoDot()
    ensures !HasDot([])
  {
  }

  lemma DotIsNotEmpty(line: string)
    ensures !(TrimCR(line) == "." && TrimCR(line) == "")
  {
  }

  /** How the text is cut into reads does not matter. */
  lemma {:induction false} BodyChunks(xs: seq<string>, ys: seq<string>, b: Body)
    ensures ScanBody(xs + ys, b) == ScanBody(ys, ScanBody(xs, b))
    decreases |xs|
  {
    hide TrimCR;
    if xs == [] {
      assert xs + ys == ys;
    } else if !b.done {
      assert (xs + ys)[0] == xs[0] && (xs + ys)[1..] == xs[1..] + ys;
      var line := TrimCR(xs[0]);
      if line != "." && !(b.inBody && b.lines + 1 >= MAX_BODY_LINES) {
        var c := if b.inBody then b.(lines := b.lines + 1) else b;
        BodyChunks(xs[1..], ys, if !c.inBody && line == "" then c.(inBody := true) else c);
      }
    }
  }

  // ----- in every run -----

  predicate BodyOpen(d: Dialogue) {
    d.closed || d.state == CLOSE || d.body.lines < MAX_BODY_LINES
  }

  lemma OtherStatesKeepBody(cfg: Config, d: Dialogue, p: Proxy)
    requires d.state != MESSAGE
    ensures Next(cfg, d, p).body == d.body
  {
    hide Match, GetHelo, GetAddr, Normalize, OnMessage;
  }

  lemma TextRead(cfg: Config, d: Dialogue, p: Proxy)
    requires !d.closed && d.state == MESSAGE && d.body.lines < MAX_BODY_LINES && !d.r && !d.w
    ensures var e := Next(cfg, d, p); var lines := SplitLines(d.inBuf);
      if Match(d.inBuf, "QUIT") || HasDot(lines) || d.body.lines + BodyLines(lines, d.body.inBody) >= MAX_BODY_LINES
      then e.state == CLOSE && e.w && !e.closed
      else && e.state == MESSAGE && e.r && !e.w && !e.closed
           && e.body.lines == d.body.lines + BodyLines(lines, d.body.inBody)
           && (e.body.inBody <==> d.body.inBody || HeaderEnd(lines) < |lines|)
  {
    hide Match, ScanBody, SplitLines, HasDot, BodyLines, HeaderEnd;
    BodyEnds(SplitLines(d.inBuf), d.body.(done := false));
  }

  lemma {:induction false} RunBodyOpen(cfg: Config, black: bool, es: seq<Event>)
    ensures BodyOpen(Run(cfg, black, es).d)
  {
    hide Next, Match, ScanBody, SplitLines, HasDot, BodyLines, HeaderEnd;
    if es == [] {
      OtherStatesKeepBody(cfg, Unopened(cfg, black), Proxy(false, false));
    } else {
      var w := Run(cfg, black, es[..|es| - 1]);
      RunBodyOpen(cfg, black, es[..|es| - 1]);
      RunSound(cfg, black, es[..|es| - 1]);
      StepBodyOpen(cfg, w, es[|es| - 1]);
    }
  }

  lemma StepBodyOpen(cfg: Config, w: World, e: Event)
    requires Sound(cfg, w) && BodyOpen(w.d)
    ensures BodyOpen(Step(cfg, w, e).d)
  {
    hide Next, Match, ScanBody, SplitLines, HasDot, BodyLines, HeaderEnd, Tallied;
    match e
    case Broken =>
    case Written =>
      if !w.d.closed && w.d.w {
        OtherStatesKeepBody(cfg, w.d.(w := false), Proxy(false, false));
        if w.d.state == CLOSE { WrittenStays(cfg, w); }
      }
    case Line(text, p) =>
      if !w.d.closed && !w.d.w && w.d.r {
        var d := w.d.(r := false, inBuf := text);
        if d.state == MESSAGE { TextRead(cfg, d, p); } else { OtherStatesKeepBody(cfg, d, p); }
      }
  }

  lemma WrittenStays(cfg: Config, w: World)
    requires Sound(cfg, w) && !w.d.closed && w.d.w && w.d.state == CLOSE
    ensures Step(cfg, w, Written).d.closed
  {
    WrittenSound(cfg, w);
  }

  /** In every run the message text ends exactly with a read that says QUIT, holds the dot or
      brings the body to ten lines; after any other read the connection goes on reading it. */
  lemma MessageEndsExactly(cfg: Config, black: bool, es: seq<Event>, text: string, p: Proxy)
    requires var w := Run(cfg, black, es); !w.d.closed && w.d.state == MESSAGE
    ensures var w := Run(cfg, black, es); var d := Step(cfg, w, Line(text, p)).d; var lines := SplitLines(text);
      if Match(text, "QUIT") || HasDot(lines) || w.d.body.lines + BodyLines(lines, w.d.body.inBody) >= MAX_BODY_LINES
      then d.state == CLOSE && d.w && !d.closed
      else && d.state == MESSAGE && d.r && !d.w && !d.closed
           && d.body.lines == w.d.body.lines + BodyLines(lines, w.d.body.inBody)
           && (d.body.inBody <==> w.d.body.inBody || HeaderEnd(lines) < |lines|)
  {
    hide Run, Next, Match, SplitLines, HasDot, BodyLines, HeaderEnd, Tallied;
    var w := Run(cfg, black, es);
    RunSound(cfg, black, es);
    RunBodyOpen(cfg, black, es);
    TextRead(cfg, w.d.(r := false, inBuf := text), p);
  }

  /** Once past the headers, a conversation stays in the text for at most ten more reads, whatever
      they hold. */
  lemma {:induction false} BodyIsShort(cfg: Config, black: bool, es: seq<Event>, fs: seq<Event>)
    requires var w := Run(cfg, black, es); !w.d.closed && w.d.state == MESSAGE && w.d.body.inBody
    requires forall i :: 0 <= i < |fs| ==> fs[i].Line?
    ensures var w := Run(cfg, black, es); var v := Run(cfg, black, es + fs);
      && !v.d.closed
      && (v.d.state == MESSAGE ==> v.d.body.inBody && w.d.body.lines + |fs| <= v.d.body.lines < MAX_BODY_LINES)
      && (v.d.state != MESSAGE ==> v.d.state == CLOSE && v.d.w)
    decreases |fs|
  {
    hide Step, Match, SplitLines, HasDot, HeaderEnd;
    if fs == [] {
      assert es + fs == es;
      RunBodyOpen(cfg, black, es);
    } else {
      var n := |fs| - 1;
      var before := es + fs[..n];
      BodyIsShort(cfg, black, es, fs[..n]);
      assert es + fs == before + [fs[n]];
      assert (es + fs)[..|es + fs| - 1] == before && (es + fs)[|es + fs| - 1] == fs[n];
      var u := Run(cfg, black, before);
      if u.d.state == MESSAGE {
        MessageEndsExactly(cfg, black, before, fs[n].text, fs[n].p);
        RunBodyOpen(cfg, black, es + fs);
      } else {
        PendingWriteFirst(cfg, u, fs[n]);
      }
    }
  }

  lemma PendingWriteFirst(cfg: Config, w: World, e: Event)
    requires e.Line? && w.d.w
    ensures Step(cfg, w, e) == w
  {
  }
}
