/** The SMTP state machine of internal/smtp: integer states, commands that fall through to the
    next case, and the rule that a rejected command returns to the last state. */
module SmtpDialogue {
  import opened SmtpText
  import opened TextLines

  const PROXY_IN := -3
  const PROXY_OUT := -2
  const BANNER_IN := -1
  const BANNER_OUT := 0
  const HELO_IN := 1
  const HELO_OUT := 2
  const MAIL_IN := 3
  const MAIL_OUT := 4
  const RCPT_IN := 5
  const RCPT_OUT := 6
  const DATA_IN := 50
  const DATA_OUT := 60
  const MESSAGE := 70
  const REPLY := 98
  const CLOSE := 99

  const MAX_BAD_CMD := 20
  const MAX_BODY_LINES := 10

  datatype Config = Config(proxy: bool, greylist: bool, greyOut: bool)

  /** A queued reply. Final is the rejection built by BuildReply. */
  datatype Reply =
    | Nothing | Banner220 | Hello250 | Ok250 | Syntax501(helo: bool) | Start354 | Unrecognized500 | Bye221
    | Final(black: bool)

  datatype Envelope = Envelope(helo: string, mail: string, rcpt: string)

  /** The arguments collected so far, and what went to the greylister. */
  datatype Args = Args(helo: string, mail: string, rcpt: string, sent: seq<Envelope>)

  /** How far the message body has been followed. */
  datatype Body = Body(done: bool, inBody: bool, lines: nat)

  /** The fields of a connection that the dialogue works on. */
  datatype Dialogue = Dialogue(
    state: int, last: int, inBuf: string, out: Reply, r: bool, w: bool, closed: bool, black: bool,
    badCmd: nat, body: Body, args: Args)

  /** The verdict on the PROXY header, and whether the real client is blacklisted. */
  datatype Proxy = Proxy(ok: bool, black: bool)

  // ----- one transition, case by case -----

  function Queue(d: Dialogue, reply: Reply, next: int): Dialogue {
    d.(out := reply, w := true, last := d.state, state := next)
  }

  function Await(d: Dialogue, next: int): Dialogue {
    d.(r := true, last := d.state, state := next)
  }

  function Reject(d: Dialogue): Dialogue { Queue(d, Final(d.black), CLOSE) }

  function OnHelo(cfg: Config, d: Dialogue): Dialogue {
    if Match(d.inBuf, "HELO") || Match(d.inBuf, "EHLO") then
      var e := d.(args := d.args.(helo := GetHelo(d.inBuf)));
      if e.args.helo == "" then Queue(e, Syntax501(Match(d.inBuf, "HELO")), BANNER_OUT)
      else Queue(e, Hello250, HELO_OUT)
    else OnMail(cfg, d)
  }

  function OnMail(cfg: Config, d: Dialogue): Dialogue {
    if Match(d.inBuf, "MAIL") then Queue(d.(args := d.args.(mail := Normalize(GetAddr(d.inBuf), []))), Ok250, MAIL_OUT)
    else OnRcpt(cfg, d)
  }

  function Noted(a: Args): Args { a.(sent := a.sent + [Envelope(a.helo, a.mail, a.rcpt)]) }

  function OnRcpt(cfg: Config, d: Dialogue): Dialogue {
    if Match(d.inBuf, "RCPT") then
      var a := d.args.(rcpt := Normalize(GetAddr(d.inBuf), []));
      var send := a.mail != "" && a.rcpt != "" && cfg.greylist && !d.black && cfg.greyOut;
      Queue(d.(args := if send then Noted(a) else a), Ok250, RCPT_OUT)
    else OnData(cfg, d)
  }

  function OnData(cfg: Config, d: Dialogue): Dialogue {
    if Match(d.inBuf, "DATA") then
      if cfg.greylist && !d.black then Reject(d.(state := REPLY)) else d.(out := Start354, w := true, state := DATA_OUT)
    else if Match(d.inBuf, "NOOP") then d.(out := Ok250, w := true, state := d.last)
    else if d.badCmd + 1 > MAX_BAD_CMD then Reject(d.(badCmd := d.badCmd + 1, state := REPLY))
    else d.(out := Unrecognized500, w := true, badCmd := d.badCmd + 1, state := d.last)
  }

  /** The body lines up to the one that ends the message, if any. */
  function ScanBody(lines: seq<string>, b: Body): Body
    decreases |lines|
  {
    if lines == [] || b.done then b
    else
      var line := TrimCR(lines[0]);
      if line == "." then b.(done := true)
      else if b.inBody && b.lines + 1 >= MAX_BODY_LINES then b.(lines := b.lines + 1, done := true)
      else
        var c := if b.inBody then b.(lines := b.lines + 1) else b;
        ScanBody(lines[1..], if !c.inBody && line == "" then c.(inBody := true) else c)
  }

  function OnMessage(d: Dialogue): Dialogue {
    var e := d.(body := ScanBody(SplitLines(d.inBuf), d.body.(done := false)));
    if e.body.done then Reject(e.(state := REPLY)) else e.(r := true)
  }

  /** What the cases make of a connection from the case st on. */
  function Case(cfg: Config, d: Dialogue, p: Proxy, st: int): Dialogue {
    if st == PROXY_IN then Await(d, PROXY_OUT)
    else if st == PROXY_OUT then
      if p.ok then Queue(d.(black := p.black), Banner220, BANNER_OUT) else Reject(d)
    else if st == BANNER_IN then Queue(d, Banner220, BANNER_OUT)
    else if st == BANNER_OUT then Await(d, HELO_IN)
    else if st == HELO_IN then OnHelo(cfg, d)
    else if st == HELO_OUT then Await(d, MAIL_IN)
    else if st == MAIL_IN then OnMail(cfg, d)
    else if st == MAIL_OUT || st == RCPT_OUT then Await(d, RCPT_IN)
    else if st == RCPT_IN then OnRcpt(cfg, d)
    else if st == DATA_IN then OnData(cfg, d)
    else if st == DATA_OUT then Await(d, MESSAGE)
    else if st == MESSAGE then OnMessage(d)
    else if st == REPLY then Reject(d)
    else d.(closed := true)
  }

  function Next(cfg: Config, d: Dialogue, p: Proxy): Dialogue {
    if d.closed then d
    else if Match(d.inBuf, "QUIT") && d.state < CLOSE then Queue(d, Bye221, CLOSE)
    else if Match(d.inBuf, "RSET") && HELO_OUT < d.state < DATA_IN then Queue(d, Ok250, HELO_OUT)
    else Case(cfg, d, p, d.state)
  }

  // ----- the program -----

  function SetOut(d: Dialogue, reply: Reply): Dialogue { d.(out := reply, w := true) }

  function Become(d: Dialogue, next: int): Dialogue { d.(last := d.state, state := next) }

  function SetRead(d: Dialogue, next: int): Dialogue { Become(d, next).(r := true) }

  /** A connection; NextState runs as the source does, with one variable `st` that the cases
      hand on to each other. */
  class Conn {
    var d: Dialogue
    const cfg: Config

    constructor (cfg: Config, black: bool)
      ensures this.cfg == cfg && d == Opened(cfg, black)
      ensures !d.closed && d.black == black && d.args.sent == []
      ensures cfg.proxy ==> d.state == PROXY_OUT && d.r && !d.w
      ensures !cfg.proxy ==> d.state == BANNER_OUT && d.w && !d.r && d.out == Banner220
    {
      this.cfg := cfg;
      d := Unopened(cfg, black);
      new;
      NextState(Proxy(false, false));
    }

    method NextState(p: Proxy)
      modifies this
      ensures d == Next(cfg, old(d), p)
    {
      hide Match, Case;
      if d.closed { return; }
      if Match(d.inBuf, "QUIT") && d.state < CLOSE {
        d := SetOut(d, Bye221);
        d := Become(d, CLOSE);
        return;
      }
      if Match(d.inBuf, "RSET") && HELO_OUT < d.state < DATA_IN {
        d := SetOut(d, Ok250);
        d := Become(d, HELO_OUT);
        return;
      }
      var st, more := d.state, true;
      while more
        invariant if more then Case(cfg, d, p, st) == Next(cfg, old(d), p) else d == Next(cfg, old(d), p)
        decreases more, REPLY + 1 - st
      {
        if st == HELO_IN || st == MAIL_IN || st == RCPT_IN {
          st, more := Command(st, p);
        } else if st == DATA_IN {
          st, more := Data(p);
        } else {
          st, more := Other(st, p);
        }
      }
    }

    /** HELO, MAIL and RCPT: handled here, or handed on to the next case. */
    method Command(st: int, p: Proxy) returns (next: int, more: bool)
      requires st == HELO_IN || st == MAIL_IN || st == RCPT_IN
      modifies this
      ensures if more then d == old(d) && st < next <= DATA_IN && Case(cfg, d, p, next) == Case(cfg, old(d), p, st)
              else d == Case(cfg, old(d), p, st)
    {
      hide Match, Normalize, GetAddr, GetHelo, OnData;
      if st == HELO_IN {
        if !(Match(d.inBuf, "HELO") || Match(d.inBuf, "EHLO")) { return MAIL_IN, true; }
        var after := HELO_OUT;
        d := d.(args := d.args.(helo := GetHelo(d.inBuf)));
        if d.args.helo == "" {
          after := BANNER_OUT;
          d := SetOut(d, Syntax501(Match(d.inBuf, "HELO")));
        } else {
          d := SetOut(d, Hello250);
        }
        d := Become(d, after);
      } else if st == MAIL_IN {
        if !Match(d.inBuf, "MAIL") { return RCPT_IN, true; }
        var mail := NormalizeEmail(GetAddr(d.inBuf));
        d := d.(args := d.args.(mail := mail));
        d := SetOut(d, Ok250);
        d := Become(d, MAIL_OUT);
      } else {
        if !Match(d.inBuf, "RCPT") { return DATA_IN, true; }
        var rcpt := NormalizeEmail(GetAddr(d.inBuf));
        d := d.(args := d.args.(rcpt := rcpt));
        d := SetOut(d, Ok250);
        d := Become(d, RCPT_OUT);
        if d.args.mail != "" && d.args.rcpt != "" && cfg.greylist && !d.black && cfg.greyOut {
          d := d.(args := Noted(d.args));
        }
      }
      return st, false;
    }

    /** DATA, NOOP and everything else. */
    method Data(p: Proxy) returns (next: int, more: bool)
      modifies this
      ensures if more then next == REPLY && Case(cfg, d, p, next) == Case(cfg, old(d), p, DATA_IN)
              else d == Case(cfg, old(d), p, DATA_IN)
    {
      hide Match, OnHelo, OnMail, OnRcpt, OnMessage;
      if Match(d.inBuf, "DATA") {
        d := SetOut(d, Start354);
        d := d.(state := DATA_OUT);
        if cfg.greylist && !d.black {
          d := Become(d, REPLY);
          return REPLY, true;
        }
        return DATA_OUT, false;
      }
      if Match(d.inBuf, "NOOP") {
        d := SetOut(d, Ok250);
      } else {
        d := SetOut(d, Unrecognized500);
        d := d.(badCmd := d.badCmd + 1);
        if d.badCmd > MAX_BAD_CMD {
          d := Become(d, REPLY);
          return REPLY, true;
        }
      }
      d := d.(state := d.last);
      return d.last, false;
    }

    method Other(st: int, p: Proxy) returns (next: int, more: bool)
      requires st != HELO_IN && st != MAIL_IN && st != RCPT_IN && st != DATA_IN
      modifies this
      ensures if more then st < next <= REPLY && Case(cfg, d, p, next) == Case(cfg, old(d), p, st)
              else d == Case(cfg, old(d), p, st)
    {
      hide ScanBody, SplitLines, OnHelo, OnMail, OnRcpt, OnData;
      next, more := st, false;
      if st == PROXY_IN {
        d := SetRead(d, PROXY_OUT);
      } else if st == PROXY_OUT {
        if p.ok { d := d.(black := p.black); }
        next, more := if p.ok then BANNER_IN else REPLY, true;
      } else if st == BANNER_IN {
        d := SetOut(d, Banner220);
        d := Become(d, BANNER_OUT);
      } else if st == BANNER_OUT {
        d := SetRead(d, HELO_IN);
      } else if st == HELO_OUT {
        d := SetRead(d, MAIL_IN);
      } else if st == MAIL_OUT || st == RCPT_OUT {
        d := SetRead(d, RCPT_IN);
      } else if st == DATA_OUT {
        d := SetRead(d, MESSAGE);
      } else if st == MESSAGE {
        var done := ReadBody();
        if done {
          d := Become(d, REPLY);
          next, more := REPLY, true;
        } else {
          d := d.(r := true);
        }
      } else if st == REPLY {
        d := SetOut(d, Final(d.black));
        d := Become(d, CLOSE);
      } else {
        d := d.(closed := true);
      }
    }

    /** The loop over the lines of a chunk of message body. */
    method ReadBody() returns (done: bool)
      modifies this
      ensures d == old(d).(body := ScanBody(SplitLines(old(d).inBuf), old(d).body.(done := false)))
      ensures done == d.body.done
    {
      var b := FollowBody(SplitLines(d.inBuf), d.body.(done := false));
      d := d.(body := b);
      return b.done;
    }
  }

  method FollowBody(lines: seq<string>, from: Body) returns (b: Body)
    ensures b == ScanBody(lines, from)
  {
    hide TrimCR;
    b := from;
    for i := 0 to |lines|
      invariant ScanBody(lines[i..], b) == ScanBody(lines, from)
    {
      if b.done { return; }
      assert lines[i..][0] == lines[i] && lines[i..][1..] == lines[i + 1..];
      var line := TrimCR(lines[i]);
      if line == "." { return b.(done := true); }
      if b.inBody {
        b := b.(lines := b.lines + 1);
        if b.lines >= MAX_BODY_LINES { return b.(done := true); }
      }
      if !b.inBody && line == "" { b := b.(inBody := true); }
    }
  }

  /** A connection before its first transition. */
  function Unopened(cfg: Config, black: bool): Dialogue {
    Dialogue(if cfg.proxy then PROXY_IN else BANNER_IN, 0, "", Nothing, false, false, false, black,
             0, Body(false, false, 0), Args("", "", "", []))
  }

  /** A connection as NewConn leaves it. */
  function Opened(cfg: Config, black: bool): Dialogue {
    Next(cfg, Unopened(cfg, black), Proxy(false, false))
  }

  // ----- whole conversations -----

  datatype Event =
    | Written                       // the queued reply is out
    | Line(text: string, p: Proxy)  // a line, a chunk of body or a PROXY header arrived
    | Broken                        // a read or write failed

  /** A connection with its history: lines read outside the message body, replies queued, how
      many of those answered the body, were 500s, and were final rejections. */
  datatype World = World(d: Dialogue, lines: nat, queued: nat, bodyReplies: nat, fives: nat, finals: nat)

  function One(b: bool): nat { if b then 1 else 0 }

  /** Serve: a pending write goes before a pending read. An event that is not pending is not
      taken. */
  function Step(cfg: Config, w: World, e: Event): World {
    if w.d.closed then w
    else match e
      case Broken => w.(d := w.d.(closed := true))
      case Written => if w.d.w then Advanced(w, Next(cfg, w.d.(w := false), Proxy(false, false)), false) else w
      case Line(text, p) =>
        if w.d.w || !w.d.r then w else Advanced(w, Next(cfg, w.d.(r := false, inBuf := text), p), true)
  }

  function Advanced(w: World, d: Dialogue, read: bool): World {
    var body := read && w.d.state == MESSAGE;
    World(d, w.lines + One(read && !body), w.queued + One(d.w), w.bodyReplies + One(body && d.w),
          w.fives + One(d.w && d.out == Unrecognized500), w.finals + One(d.w && d.out.Final?))
  }

  function Begin(cfg: Config, black: bool): World {
    var d := Opened(cfg, black);
    World(d, 0, One(d.w), 0, 0, 0)
  }

  function Run(cfg: Config, black: bool, es: seq<Event>): World {
    if es == [] then Begin(cfg, black) else Step(cfg, Run(cfg, black, es[..|es| - 1]), es[|es| - 1])
  }

  predicate ReadState(st: int) {
    st == PROXY_OUT || st == HELO_IN || st == MAIL_IN || st == RCPT_IN || st == MESSAGE
  }

  predicate WriteState(st: int) {
    st == BANNER_OUT || st == HELO_OUT || st == MAIL_OUT || st == RCPT_OUT || st == DATA_OUT || st == CLOSE
  }

  /** The reply state that leads back to a read state. */
  predicate LeadsTo(last: int, st: int) {
    || (st == HELO_IN && last == BANNER_OUT)
    || (st == MAIL_IN && last == HELO_OUT)
    || (st == RCPT_IN && (last == MAIL_OUT || last == RCPT_OUT))
  }

  /** An open connection between two events: exactly one of read and write is pending and the
      state says which. */
  predicate Settled(d: Dialogue) {
    && (ReadState(d.state) || WriteState(d.state))
    && d.r == ReadState(d.state) && d.w == WriteState(d.state)
    && (d.state == HELO_IN || d.state == MAIL_IN || d.state == RCPT_IN ==> LeadsTo(d.last, d.state))
    && (d.w && d.state < CLOSE ==> !Match(d.inBuf, "QUIT"))
    && (d.state == MAIL_OUT || d.state == RCPT_OUT ==> !Match(d.inBuf, "RSET"))
  }

  predicate Tallied(cfg: Config, w: World) {
    && w.queued == One(!cfg.proxy) + w.lines + w.bodyReplies
    && w.fives <= MAX_BAD_CMD && w.finals <= 1 && w.bodyReplies <= 1
    && (!w.d.closed && w.d.state != CLOSE ==> w.fives == w.d.badCmd && w.finals == 0 && w.bodyReplies == 0)
  }

  predicate Sound(cfg: Config, w: World) {
    (!w.d.closed ==> Settled(w.d)) && Tallied(cfg, w)
  }

  lemma NotBoth(line: string)
    ensures !(Match(line, "QUIT") && Match(line, "DATA"))
    ensures !(Match(line, "RSET") && Match(line, "MAIL"))
    ensures !(Match(line, "RSET") && Match(line, "RCPT"))
  {
    assert Upper("QUIT"[0]) != Upper("DATA"[0]);
    assert Upper("RSET"[1]) != Upper("MAIL"[1]);
    assert Upper("RSET"[1]) != Upper("RCPT"[1]);
  }

  lemma BeginSound(cfg: Config, black: bool)
    ensures Sound(cfg, Begin(cfg, black))
  {
    assert |""| < |"QUIT"| && |""| < |"RSET"|;
  }

  /** A finished write either starts the read its state stands for, or closes. */
  lemma WrittenSound(cfg: Config, w: World)
    requires Sound(cfg, w) && !w.d.closed && w.d.w
    ensures var w' := Step(cfg, w, Written);
      && Sound(cfg, w') && w'.queued == w.queued
      && (if w.d.state == CLOSE then w'.d.closed else !w'.d.closed && w'.d.r && LeadsBack(w.d.state, w'.d.state))
  {
    hide Match, OnHelo, OnMail, OnRcpt, OnData, OnMessage;
  }

  /** Where the dialogue reads next after each reply state. */
  predicate LeadsBack(st: int, next: int) {
    next == if st == BANNER_OUT then HELO_IN else if st == HELO_OUT then MAIL_IN
            else if st == DATA_OUT then MESSAGE else RCPT_IN
  }

  /** A line leaves the connection open; outside the body it gets exactly one reply. */
  lemma LineSound(cfg: Config, w: World, text: string, p: Proxy)
    requires Sound(cfg, w) && !w.d.closed && w.d.r
    ensures var w' := Step(cfg, w, Line(text, p));
      && Sound(cfg, w') && !w'.d.closed
      && (w.d.state != MESSAGE ==> w'.d.w && w'.d.out != Nothing && w'.queued == w.queued + 1)
  {
    hide Match, Normalize, GetAddr, GetHelo, ScanBody, SplitLines, OnHelo, OnMail, OnRcpt, OnData;
    var d := w.d.(r := false, inBuf := text);
    if Match(text, "QUIT") || d.state == PROXY_OUT {
    } else if d.state == MESSAGE {
    } else {
      CommandAnswers(cfg, d, p);
    }
  }

  /** A command line has been answered: a reply state, a reply queued, the tallies in order. */
  predicate Answered(d: Dialogue, e: Dialogue) {
    && Settled(e) && e.w && !e.closed && e.out != Nothing
    && (e.out == Unrecognized500 ==> e.badCmd == d.badCmd + 1 <= MAX_BAD_CMD && e.state == d.last)
    && (e.out.Final? ==> e.state == CLOSE)
    && (e.out != Unrecognized500 && e.state != CLOSE ==> e.badCmd == d.badCmd)
  }

  /** A command line that the checks for QUIT and RSET let through. */
  predicate AtCommand(d: Dialogue) {
    && LeadsTo(d.last, d.state) && !d.r && !d.w && !d.closed && d.badCmd <= MAX_BAD_CMD
    && !Match(d.inBuf, "QUIT") && (d.state != HELO_IN ==> !Match(d.inBuf, "RSET"))
  }

  lemma DataAnswers(cfg: Config, d: Dialogue)
    requires AtCommand(d)
    ensures Answered(d, OnData(cfg, d))
  {
    hide Match;
  }

  lemma RcptAnswers(cfg: Config, d: Dialogue)
    requires AtCommand(d)
    ensures Answered(d, OnRcpt(cfg, d))
  {
    hide Match, Normalize, GetAddr, OnData;
    NotBoth(d.inBuf);
    DataAnswers(cfg, d);
  }

  lemma MailAnswers(cfg: Config, d: Dialogue)
    requires AtCommand(d)
    ensures Answered(d, OnMail(cfg, d))
  {
    hide Match, Normalize, GetAddr, OnRcpt;
    NotBoth(d.inBuf);
    RcptAnswers(cfg, d);
  }

  /** Every command line ends in a reply state, with a reply queued. */
  lemma CommandAnswers(cfg: Config, d: Dialogue, p: Proxy)
    requires LeadsTo(d.last, d.state) && !d.r && !d.w && !d.closed && d.badCmd <= MAX_BAD_CMD
    requires !Match(d.inBuf, "QUIT")
    ensures Answered(d, Next(cfg, d, p))
  {
    hide Match, GetHelo, OnMail, OnRcpt, OnData, OnMessage;
    if AtCommand(d) {
      MailAnswers(cfg, d);
      RcptAnswers(cfg, d);
    }
  }

  lemma StepSound(cfg: Config, w: World, e: Event)
    requires Sound(cfg, w)
    ensures Sound(cfg, Step(cfg, w, e))
  {
    if !w.d.closed {
      match e
      case Broken =>
      case Written => if w.d.w { WrittenSound(cfg, w); }
      case Line(text, p) => if !w.d.w && w.d.r { LineSound(cfg, w, text, p); }
    }
  }

  /** In every conversation, an open connection has exactly one of read and write pending, fixed
      by its state; each line outside the body gets exactly one reply besides the banner; at most
      20 are 500s and at most one is a final rejection. */
  lemma {:induction false} RunSound(cfg: Config, black: bool, es: seq<Event>)
    ensures Sound(cfg, Run(cfg, black, es))
  {
    hide Step, Sound, Begin;
    if es == [] {
      BeginSound(cfg, black);
    } else {
      RunSound(cfg, black, es[..|es| - 1]);
      StepSound(cfg, Run(cfg, black, es[..|es| - 1]), es[|es| - 1]);
    }
  }

  /** A connection is closed only by a failure or after its last reply: the "illegal state" and
      "stuck" branches are never taken. */
  lemma NeverStuck(cfg: Config, black: bool, es: seq<Event>, e: Event)
    ensures var w := Run(cfg, black, es);
      && (!w.d.closed ==> w.d.r != w.d.w)
      && (!w.d.closed && Step(cfg, w, e).d.closed ==> e.Broken? || (e.Written? && w.d.state == CLOSE && w.d.w))
  {
    hide Match, Next;
    var w := Run(cfg, black, es);
    RunSound(cfg, black, es);
    if !w.d.closed {
      match e
      case Broken =>
      case Written => if w.d.w { WrittenSound(cfg, w); }
      case Line(text, p) => if !w.d.w && w.d.r { LineSound(cfg, w, text, p); }
    }
  }

  /** A rejected command returns to the read state it came from. */
  lemma RejectedReturns(cfg: Config, black: bool, es: seq<Event>, text: string, p: Proxy)
    requires var w := Run(cfg, black, es);
      !w.d.closed && w.d.r && Step(cfg, w, Line(text, p)).fives > w.fives
    ensures var w := Run(cfg, black, es);
      var w' := Step(cfg, Step(cfg, w, Line(text, p)), Written);
      !w'.d.closed && w'.d.r && w'.d.state == w.d.state && w.d.state != MESSAGE
  {
    hide Match, Run, Step, Sound;
    RunSound(cfg, black, es);
    var w := Run(cfg, black, es);
    LineSound(cfg, w, text, p);
    FiveReturns(cfg, w, text, p);
    WrittenSound(cfg, Step(cfg, w, Line(text, p)));
  }

  lemma FiveReturns(cfg: Config, w: World, text: string, p: Proxy)
    requires Sound(cfg, w) && !w.d.closed && w.d.r && Step(cfg, w, Line(text, p)).fives > w.fives
    ensures w.d.state != MESSAGE && Step(cfg, w, Line(text, p)).d.state == w.d.last && LeadsTo(w.d.last, w.d.state)
  {
    hide Match, Normalize, GetAddr, GetHelo, ScanBody, SplitLines, OnHelo, OnMail, OnRcpt, OnData;
    var d := w.d.(r := false, inBuf := text);
    if !Match(text, "QUIT") && d.state != PROXY_OUT && d.state != MESSAGE { CommandAnswers(cfg, d, p); }
  }

  // ----- what reaches the greylister -----

  predicate SpaceFree(s: string) {
    forall i :: 0 <= i < |s| ==> !IsSpace(s[i])
  }

  /** An envelope whose three fields are single tokens, with a sender and a recipient. */
  predicate CleanEnvelope(e: Envelope) {
    SpaceFree(e.helo) && SpaceFree(e.mail) && SpaceFree(e.rcpt) && e.mail != "" && e.rcpt != ""
  }

  predicate Clean(a: Args) {
    && SpaceFree(a.helo) && SpaceFree(a.mail) && SpaceFree(a.rcpt)
    && forall i :: 0 <= i < |a.sent| ==> CleanEnvelope(a.sent[i])
  }

  lemma ArgumentsSpaceFree(line: string)
    ensures SpaceFree(Normalize(GetAddr(line), [])) && SpaceFree(GetHelo(line))
  {
    NormalizeSafe(GetAddr(line), []);
  }

  lemma RcptClean(cfg: Config, d: Dialogue)
    requires Clean(d.args)
    ensures Clean(OnRcpt(cfg, d).args)
  {
    hide Match, GetAddr, Normalize, SpaceFree;
    ArgumentsSpaceFree(d.inBuf);
  }

  lemma MailClean(cfg: Config, d: Dialogue)
    requires Clean(d.args)
    ensures Clean(OnMail(cfg, d).args)
  {
    hide Match, GetAddr, Normalize, SpaceFree, OnRcpt;
    ArgumentsSpaceFree(d.inBuf);
    RcptClean(cfg, d);
  }

  lemma NextClean(cfg: Config, d: Dialogue, p: Proxy)
    requires Clean(d.args)
    ensures Clean(Next(cfg, d, p).args)
  {
    hide Match, GetHelo, SpaceFree, ScanBody, SplitLines, OnMail, OnRcpt;
    ArgumentsSpaceFree(d.inBuf);
    RcptClean(cfg, d);
    MailClean(cfg, d);
  }

  /** Whatever a client sends, every envelope passed to the greylister is made of tokens without
      white space. */
  lemma {:induction false} EnvelopesAreTokens(cfg: Config, black: bool, es: seq<Event>)
    ensures Clean(Run(cfg, black, es).d.args)
  {
    hide Next, Clean;
    if es == [] {
      OpenedClean(cfg, black);
    } else {
      EnvelopesAreTokens(cfg, black, es[..|es| - 1]);
      var w := Run(cfg, black, es[..|es| - 1]);
      match es[|es| - 1]
      case Broken =>
      case Written => NextClean(cfg, w.d.(w := false), Proxy(false, false));
      case Line(text, p) => NextClean(cfg, w.d.(r := false, inBuf := text), p);
    }
  }

  lemma OpenedClean(cfg: Config, black: bool)
    ensures Clean(Opened(cfg, black).args)
  {
  }

  // ----- sizes -----

  predicate ShortEnvelope(e: Envelope, limit: nat) {
    |e.helo| <= limit && |e.mail| < MAX_MAIL && |e.rcpt| < MAX_MAIL
  }

  predicate Short(a: Args, limit: nat) {
    && |a.helo| <= limit && |a.mail| < MAX_MAIL && |a.rcpt| < MAX_MAIL
    && forall i :: 0 <= i < |a.sent| ==> ShortEnvelope(a.sent[i], limit)
  }

  lemma RcptShort(cfg: Config, d: Dialogue, limit: nat)
    requires Short(d.args, limit)
    ensures Short(OnRcpt(cfg, d).args, limit) && OnRcpt(cfg, d).inBuf == d.inBuf
  {
    hide Match, GetAddr, Normalize, OnData;
    NormalizeSafe(GetAddr(d.inBuf), []);
    TextKeepsArgs(cfg, d);
  }

  lemma MailShort(cfg: Config, d: Dialogue, limit: nat)
    requires Short(d.args, limit)
    ensures Short(OnMail(cfg, d).args, limit) && OnMail(cfg, d).inBuf == d.inBuf
  {
    hide Match, GetAddr, Normalize, OnRcpt;
    NormalizeSafe(GetAddr(d.inBuf), []);
    RcptShort(cfg, d, limit);
  }

  lemma HeloShort(cfg: Config, d: Dialogue, limit: nat)
    requires Short(d.args, limit) && |d.inBuf| <= limit
    ensures Short(OnHelo(cfg, d).args, limit) && OnHelo(cfg, d).inBuf == d.inBuf
  {
    hide Match, GetHelo, OnMail;
    MailShort(cfg, d, limit);
  }

  lemma NextShort(cfg: Config, d: Dialogue, p: Proxy, limit: nat)
    requires Short(d.args, limit) && |d.inBuf| <= limit
    ensures Short(Next(cfg, d, p).args, limit) && Next(cfg, d, p).inBuf == d.inBuf
  {
    hide Match, OnHelo, OnMail, OnRcpt, OnData, OnMessage, Short;
    HeloShort(cfg, d, limit);
    MailShort(cfg, d, limit);
    RcptShort(cfg, d, limit);
    TextKeepsArgs(cfg, d);
  }

  lemma TextKeepsArgs(cfg: Config, d: Dialogue)
    ensures OnData(cfg, d).args == OnMessage(d).args == d.args && OnData(cfg, d).inBuf == OnMessage(d).inBuf == d.inBuf
  {
    hide Match, ScanBody, SplitLines;
  }

  /** With a limit on what one read may hold, no envelope has a field beyond that limit or the one
      for addresses. */
  lemma {:induction false} EnvelopesAreShort(cfg: Config, black: bool, es: seq<Event>, limit: nat)
    requires forall i :: 0 <= i < |es| && es[i].Line? ==> |es[i].text| <= limit
    ensures var d := Run(cfg, black, es).d; Short(d.args, limit) && |d.inBuf| <= limit
  {
    hide Next, Short;
    if es == [] {
      UnopenedShort(cfg, black, limit);
      NextShort(cfg, Unopened(cfg, black), Proxy(false, false), limit);
    } else {
      EnvelopesAreShort(cfg, black, es[..|es| - 1], limit);
      var w := Run(cfg, black, es[..|es| - 1]);
      match es[|es| - 1]
      case Broken =>
      case Written => NextShort(cfg, w.d.(w := false), Proxy(false, false), limit);
      case Line(text, p) => NextShort(cfg, w.d.(r := false, inBuf := text), p, limit);
    }
  }

  lemma UnopenedShort(cfg: Config, black: bool, limit: nat)
    ensures Short(Unopened(cfg, black).args, limit)
  {
  }
}
