/** What a client's commands do, as a table instead of cases that fall through to each other, and
    which envelopes a whole conversation makes of them. */
module SmtpCommands {
  import opened SmtpText
  import opened SmtpDialogue

  datatype Verb = Quit | Rset | Helo | Mail | Rcpt | Data | Noop | Unknown

  /** The command a line begins with; no line begins with two. */
  function VerbOf(line: string): Verb {
    if Match(line, "NOOP") then Noop
    else if Match(line, "DATA") then Data
    else if Match(line, "RCPT") then Rcpt
    else if Match(line, "MAIL") then Mail
    else if Match(line, "HELO") || Match(line, "EHLO") then Helo
    else if Match(line, "RSET") then Rset
    else if Match(line, "QUIT") then Quit
    else Unknown
  }

  predicate CommandState(st: int) { st == HELO_IN || st == MAIL_IN || st == RCPT_IN }

  /** Which commands each state takes: a greeting only first, a sender not after a sender, and a reset
      only after the greeting. */
  function Heeded(st: int, v: Verb): Verb {
    match v
    case Rset => if st == HELO_IN then Unknown else Rset
    case Helo => if st == HELO_IN then Helo else Unknown
    case Mail => if st == RCPT_IN then Unknown else Mail
    case _ => v
  }

  /** The reply, and the state the connection is then in. */
  function Answer(cfg: Config, d: Dialogue, v: Verb): (Reply, int) {
    match v
    case Quit => (Bye221, CLOSE)
    case Rset => (Ok250, HELO_OUT)
    case Helo =>
      if GetHelo(d.inBuf) == "" then (Syntax501(Match(d.inBuf, "HELO")), BANNER_OUT) else (Hello250, HELO_OUT)
    case Mail => (Ok250, MAIL_OUT)
    case Rcpt => (Ok250, RCPT_OUT)
    case Data => if cfg.greylist && !d.black then (Final(false), CLOSE) else (Start354, DATA_OUT)
    case Noop => (Ok250, d.last)
    case Unknown => if d.badCmd < MAX_BAD_CMD then (Unrecognized500, d.last) else (Final(d.black), CLOSE)
  }

  function AddressOf(line: string): string { Normalize(GetAddr(line), []) }

  /** A recipient is passed on, with the greeting and sender of before, when greylisting is on, the
      client is not blacklisted and neither address is empty. */
  predicate Forwarded(cfg: Config, mail: string, rcpt: string, black: bool) {
    cfg.greylist && cfg.greyOut && !black && mail != "" && rcpt != ""
  }

  function ArgsAfter(cfg: Config, d: Dialogue, v: Verb): Args {
    match v
    case Helo => d.args.(helo := GetHelo(d.inBuf))
    case Mail => d.args.(mail := AddressOf(d.inBuf))
    case Rcpt =>
      var rcpt := AddressOf(d.inBuf);
      var envelope := Envelope(d.args.helo, d.args.mail, rcpt);
      Args(d.args.helo, d.args.mail, rcpt,
           if Forwarded(cfg, d.args.mail, rcpt, d.black) then d.args.sent + [envelope] else d.args.sent)
    case _ => d.args
  }

  lemma OneVerb(line: string)
    ensures !(Match(line, "QUIT") && VerbOf(line) != Quit) && !(Match(line, "RSET") && VerbOf(line) != Rset)
    ensures (Match(line, "HELO") || Match(line, "EHLO")) ==> VerbOf(line) == Helo
    ensures Match(line, "MAIL") ==> VerbOf(line) == Mail
    ensures Match(line, "RCPT") ==> VerbOf(line) == Rcpt
    ensures Match(line, "DATA") ==> VerbOf(line) == Data
    ensures Match(line, "NOOP") ==> VerbOf(line) == Noop
  {
    Apart(line, "QUIT", "RSET", 0);
    Apart(line, "QUIT", "HELO", 0);
    Apart(line, "QUIT", "EHLO", 0);
    Apart(line, "QUIT", "MAIL", 0);
    Apart(line, "QUIT", "RCPT", 0);
    Apart(line, "QUIT", "DATA", 0);
    Apart(line, "QUIT", "NOOP", 0);
    Apart(line, "RSET", "HELO", 0);
    Apart(line, "RSET", "EHLO", 0);
    Apart(line, "RSET", "MAIL", 0);
    Apart(line, "RSET", "RCPT", 1);
    Apart(line, "RSET", "DATA", 0);
    Apart(line, "RSET", "NOOP", 0);
    Apart2(line);
  }

  lemma Apart(line: string, a: string, b: string, i: nat)
    requires i < |a| && i < |b| && Upper(a[i]) != Upper(b[i])
    ensures !(Match(line, a) && Match(line, b))
  {
  }

  lemma Apart2(line: string)
    ensures forall a, b :: a in {"HELO", "EHLO"} && b in {"MAIL", "RCPT", "DATA", "NOOP"} ==>
      !(Match(line, a) && Match(line, b))
    ensures !(Match(line, "MAIL") && Match(line, "RCPT")) && !(Match(line, "MAIL") && Match(line, "DATA"))
    ensures !(Match(line, "MAIL") && Match(line, "NOOP")) && !(Match(line, "RCPT") && Match(line, "DATA"))
    ensures !(Match(line, "RCPT") && Match(line, "NOOP")) && !(Match(line, "DATA") && Match(line, "NOOP"))
  {
    forall a, b | a in {"HELO", "EHLO"} && b in {"MAIL", "RCPT", "DATA", "NOOP"}
      ensures !(Match(line, a) && Match(line, b))
    {
      assert |a| == 4 && |b| == 4 && Upper(a[0]) != Upper(b[0]);
      Apart(line, a, b, 0);
    }
    Apart(line, "MAIL", "RCPT", 0);
    Apart(line, "MAIL", "DATA", 0);
    Apart(line, "MAIL", "NOOP", 0);
    Apart(line, "RCPT", "DATA", 0);
    Apart(line, "RCPT", "NOOP", 0);
    Apart(line, "DATA", "NOOP", 0);
  }

  /** One reply, the next state, the arguments, the count of bad commands, and nothing else. */
  predicate Answered(cfg: Config, d: Dialogue, v: Verb, e: Dialogue) {
    && e.out == Answer(cfg, d, v).0 && e.state == Answer(cfg, d, v).1 && e.w && !e.r && !e.closed
    && e.args == ArgsAfter(cfg, d, v) && e.badCmd == d.badCmd + (if v == Unknown then 1 else 0)
    && e.black == d.black && e.body == d.body
  }

  function DataVerb(line: string): Verb {
    if Match(line, "DATA") then Data else if Match(line, "NOOP") then Noop else Unknown
  }

  lemma DataCase(cfg: Config, d: Dialogue)
    requires !d.closed && !d.r && !d.w
    ensures Answered(cfg, d, DataVerb(d.inBuf), OnData(cfg, d))
  {
    hide Match;
  }

  lemma RcptCase(cfg: Config, d: Dialogue)
    requires !d.closed && !d.r && !d.w
    ensures Answered(cfg, d, if Match(d.inBuf, "RCPT") then Rcpt else DataVerb(d.inBuf), OnRcpt(cfg, d))
  {
    hide Match, OnData, DataVerb, GetAddr, Normalize;
    DataCase(cfg, d);
  }

  lemma MailCase(cfg: Config, d: Dialogue)
    requires !d.closed && !d.r && !d.w
    ensures Answered(cfg, d, if Match(d.inBuf, "MAIL") then Mail else if Match(d.inBuf, "RCPT") then Rcpt
                             else DataVerb(d.inBuf), OnMail(cfg, d))
  {
    hide Match, OnRcpt, DataVerb, GetAddr, Normalize;
    RcptCase(cfg, d);
  }

  lemma HeloCase(cfg: Config, d: Dialogue)
    requires !d.closed && !d.r && !d.w
    ensures Match(d.inBuf, "HELO") || Match(d.inBuf, "EHLO") ==> Answered(cfg, d, Helo, OnHelo(cfg, d))
    ensures !(Match(d.inBuf, "HELO") || Match(d.inBuf, "EHLO")) ==> OnHelo(cfg, d) == OnMail(cfg, d)
  {
    hide Match, OnMail, GetHelo;
  }

  /** A line read where commands are expected does what the table says. */
  lemma CommandAnswered(cfg: Config, d: Dialogue, p: Proxy)
    requires CommandState(d.state) && !d.closed && !d.r && !d.w
    ensures Answered(cfg, d, Heeded(d.state, VerbOf(d.inBuf)), Next(cfg, d, p))
  {
    hide Match, VerbOf, OnHelo, OnMail, OnRcpt, OnData, OnMessage;
    var line := d.inBuf;
    OneVerb(line);
    NoVerb(line);
    if Match(line, "QUIT") || (Match(line, "RSET") && d.state != HELO_IN) {
      LeavesArgs(cfg, d, if Match(line, "QUIT") then Quit else Rset);
    } else {
      hide Answered;
      HeloCase(cfg, d);
      MailCase(cfg, d);
      RcptCase(cfg, d);
    }
  }

  /** The answer to a PROXY header: the banner, with the real client's standing, or a rejection. */
  lemma ProxyAnswered(cfg: Config, d: Dialogue, p: Proxy)
    requires d.state == PROXY_OUT && !d.closed && !d.r && !d.w && !Match(d.inBuf, "QUIT")
    ensures var e := Next(cfg, d, p);
      && e.w && !e.r && !e.closed && e.args == d.args
      && (p.ok ==> e.out == Banner220 && e.state == BANNER_OUT && e.black == p.black)
      && (!p.ok ==> e.out == Final(d.black) && e.state == CLOSE && e.black == d.black)
  {
    hide Match;
  }

  lemma LeavesArgs(cfg: Config, d: Dialogue, v: Verb)
    requires v == Quit || v == Rset
    ensures ArgsAfter(cfg, d, v) == d.args
  {
  }

  lemma NoVerb(line: string)
    ensures VerbOf(line) == Quit ==> Match(line, "QUIT")
    ensures VerbOf(line) == Rset ==> Match(line, "RSET")
    ensures VerbOf(line) == Helo ==> Match(line, "HELO") || Match(line, "EHLO")
    ensures VerbOf(line) == Mail ==> Match(line, "MAIL")
    ensures VerbOf(line) == Rcpt ==> Match(line, "RCPT")
    ensures VerbOf(line) == Data ==> Match(line, "DATA")
    ensures VerbOf(line) == Noop ==> Match(line, "NOOP")
  {
    hide Match;
  }

  // ----- whole conversations -----

  /** What the client has said that was taken: greetings, senders and recipients, the last with whether
      the client was blacklisted at the time. */
  datatype Said = SaidHelo(helo: string) | SaidMail(mail: string) | SaidRcpt(rcpt: string, black: bool)

  function Heard(w: World, e: Event): seq<Said> {
    if e.Line? && !w.d.closed && w.d.r && !w.d.w && CommandState(w.d.state) then
      match Heeded(w.d.state, VerbOf(e.text))
      case Helo => [SaidHelo(GetHelo(e.text))]
      case Mail => [SaidMail(AddressOf(e.text))]
      case Rcpt => [SaidRcpt(AddressOf(e.text), w.d.black)]
      case _ => []
    else []
  }

  function Transcript(cfg: Config, black: bool, es: seq<Event>): seq<Said> {
    if es == [] then []
    else
      var n := |es| - 1;
      Transcript(cfg, black, es[..n]) + Heard(Run(cfg, black, es[..n]), es[n])
  }

  function LastHelo(said: seq<Said>): string {
    if said == [] then "" else var n := |said| - 1; if said[n].SaidHelo? then said[n].helo else LastHelo(said[..n])
  }

  function LastMail(said: seq<Said>): string {
    if said == [] then "" else var n := |said| - 1; if said[n].SaidMail? then said[n].mail else LastMail(said[..n])
  }

  function LastRcpt(said: seq<Said>): string {
    if said == [] then "" else var n := |said| - 1; if said[n].SaidRcpt? then said[n].rcpt else LastRcpt(said[..n])
  }

  /** One envelope for each recipient that is passed on, with the greeting and the sender last said
      before it. */
  function EnvelopesOf(cfg: Config, said: seq<Said>): seq<Envelope> {
    if said == [] then []
    else
      var n := |said| - 1;
      var before, mail := EnvelopesOf(cfg, said[..n]), LastMail(said[..n]);
      if said[n].SaidRcpt? && Forwarded(cfg, mail, said[n].rcpt, said[n].black) then
        before + [Envelope(LastHelo(said[..n]), mail, said[n].rcpt)]
      else before
  }

  function ArgsOf(cfg: Config, said: seq<Said>): Args {
    Args(LastHelo(said), LastMail(said), LastRcpt(said), EnvelopesOf(cfg, said))
  }

  lemma SayMore(cfg: Config, said: seq<Said>, x: Said)
    ensures var a := ArgsOf(cfg, said);
      ArgsOf(cfg, said + [x]) == match x
        case SaidHelo(helo) => a.(helo := helo)
        case SaidMail(mail) => a.(mail := mail)
        case SaidRcpt(rcpt, black) =>
          Args(a.helo, a.mail, rcpt,
               if Forwarded(cfg, a.mail, rcpt, black) then a.sent + [Envelope(a.helo, a.mail, rcpt)] else a.sent)
  {
    assert (said + [x])[..|said|] == said;
  }

  /** Outside the command states the arguments stay. */
  lemma OthersKeepArgs(cfg: Config, d: Dialogue, p: Proxy)
    requires !CommandState(d.state) && d.state != DATA_IN
    ensures Next(cfg, d, p).args == d.args
  {
    hide Match, OnHelo, OnMail, OnRcpt, OnData, ScanBody;
  }

  lemma HeardArgs(cfg: Config, w: World, e: Event, said: seq<Said>)
    requires w.d.args == ArgsOf(cfg, said) && e.Line? && !w.d.closed && w.d.r && !w.d.w && CommandState(w.d.state)
    ensures ArgsAfter(cfg, w.d.(r := false, inBuf := e.text), Heeded(w.d.state, VerbOf(e.text))) ==
            ArgsOf(cfg, said + Heard(w, e))
  {
    hide VerbOf, GetHelo, AddressOf, ArgsOf;
    var heard := Heard(w, e);
    if heard == [] {
      assert said + heard == said;
    } else {
      assert said + heard == said + [heard[0]];
      SayMore(cfg, said, heard[0]);
      ArgsOfFields(cfg, said);
    }
  }

  lemma ArgsOfFields(cfg: Config, said: seq<Said>)
    ensures ArgsOf(cfg, said) == Args(LastHelo(said), LastMail(said), LastRcpt(said), EnvelopesOf(cfg, said))
  {
  }

  lemma StepArgs(cfg: Config, w: World, e: Event, said: seq<Said>)
    requires Sound(cfg, w) && w.d.args == ArgsOf(cfg, said)
    ensures Step(cfg, w, e).d.args == ArgsOf(cfg, said + Heard(w, e))
  {
    hide Next, VerbOf, ArgsOf, ArgsAfter, Match;
    assert Heard(w, e) == [] ==> said + Heard(w, e) == said;
    if !w.d.closed && e.Written? && w.d.w {
      OthersKeepArgs(cfg, w.d.(w := false), Proxy(false, false));
    } else if !w.d.closed && e.Line? && w.d.r && !w.d.w {
      var d := w.d.(r := false, inBuf := e.text);
      if CommandState(w.d.state) {
        CommandAnswered(cfg, d, e.p);
        HeardArgs(cfg, w, e, said);
      } else {
        OthersKeepArgs(cfg, d, e.p);
      }
    }
  }

  /** In every conversation, the envelopes passed to the greylister are exactly those that the commands
      taken so far make: one for each recipient given by a client that is greylisted and has named a
      sender, with the last greeting and the last sender before it, in order. */
  lemma {:induction false} EnvelopesExactly(cfg: Config, black: bool, es: seq<Event>)
    ensures Run(cfg, black, es).d.args == ArgsOf(cfg, Transcript(cfg, black, es))
  {
    hide Step, Heard, ArgsOf;
    if es == [] {
      NothingSaid(cfg, black);
    } else {
      var n := |es| - 1;
      EnvelopesExactly(cfg, black, es[..n]);
      RunSound(cfg, black, es[..n]);
      StepArgs(cfg, Run(cfg, black, es[..n]), es[n], Transcript(cfg, black, es[..n]));
    }
  }

  lemma NothingSaid(cfg: Config, black: bool)
    ensures Begin(cfg, black).d.args == ArgsOf(cfg, [])
  {
    hide Match;
    OthersKeepArgs(cfg, Unopened(cfg, black), Proxy(false, false));
  }
}
