/** From the lines of SMTP clients to the greylister: the envelopes of all connections, framed, sent
    down the one pipe they share, and received. */
module IpcClient {
  import opened TextLines
  import opened IpcCodec
  import opened IpcFrame
  import Text = SmtpText
  import Smtp = SmtpDialogue

  /** The largest read and the frame limit of a reader, as the settings and the reader have them. */
  const MAX_LINE := 65536
  const MAX_FRAME := 0x400_0000
  const MAX_ADDRESS := 1024

  /** A connection: its events, its address, and the destination looked up for each envelope. */
  datatype Client = Client(cfg: Smtp.Config, black: bool, es: seq<Smtp.Event>, dsts: seq<string>, ip: string)

  function Envelopes(c: Client): seq<Smtp.Envelope> { Smtp.Run(c.cfg, c.black, c.es).d.args.sent }

  /** Reads are within the limit, and address texts are single lines of some length. */
  predicate Within(c: Client) {
    && |c.dsts| == |Envelopes(c)|
    && (forall i :: 0 <= i < |c.es| && c.es[i].Line? ==> |c.es[i].text| <= MAX_LINE)
    && OneLine(c.ip) && |c.ip| <= MAX_ADDRESS
    && (forall i :: 0 <= i < |c.dsts| ==> OneLine(c.dsts[i]) && |c.dsts[i]| <= MAX_ADDRESS)
  }

  /** One WriteGrey for each envelope. */
  function Sent(c: Client): seq<Outgoing>
    requires Within(c)
  {
    var sent := Envelopes(c);
    seq(|sent|, i requires 0 <= i < |sent| => SendGrey(c.dsts[i], c.ip, sent[i].helo, sent[i].mail, sent[i].rcpt))
  }

  /** The tuples of the envelopes, quotes and backslashes dropped. */
  function Arrived(dst: string, ip: string, e: Smtp.Envelope): Decoded {
    Ok(GreyMessage(Sanitize(ip), Sanitize(e.helo), Sanitize(e.mail), Sanitize(e.rcpt), Sanitize(dst), true))
  }

  function AllArrived(c: Client): seq<Decoded>
    requires Within(c)
  {
    var sent := Envelopes(c);
    seq(|sent|, i requires 0 <= i < |sent| => Arrived(c.dsts[i], c.ip, sent[i]))
  }

  lemma TokenOneLine(s: string)
    requires Smtp.SpaceFree(s)
    ensures OneLine(s)
  {
    forall i | 0 <= i < |s| ensures s[i] != '\n' {
      assert !Text.IsSpace(s[i]);
    }
  }

  /** Whatever lines a client sends, the frames of its envelopes fit and have no newline inside. */
  lemma ClientFits(c: Client, i: nat)
    requires Within(c) && i < |Sent(c)|
    ensures var o := Sent(c)[i]; Sendable(o) && OneLineMessage(o) && |Body(o)| <= MAX_FRAME
  {
    hide Smtp.Run, Body, Sanitize, OneLine, Smtp.SpaceFree;
    Smtp.EnvelopesAreTokens(c.cfg, c.black, c.es);
    Smtp.EnvelopesAreShort(c.cfg, c.black, c.es, MAX_LINE);
    var e := Envelopes(c)[i];
    assert Smtp.CleanEnvelope(e) && Smtp.ShortEnvelope(e, MAX_LINE);
    TokenOneLine(e.helo);
    TokenOneLine(e.mail);
    TokenOneLine(e.rcpt);
    GreyBodySize(c.dsts[i], c.ip, e.helo, e.mail, e.rcpt);
  }

  function Decodings(os: seq<Outgoing>): seq<Decoded> {
    seq(|os|, i requires 0 <= i < |os| => Ok(Expected(os[i])))
  }

  lemma SentArrives(c: Client)
    requires Within(c)
    ensures Decodings(Sent(c)) == AllArrived(c)
  {
    hide Smtp.Run, Sanitize, Within;
  }

  // ----- one pipe for all -----

  /** The items that came from lane c, in order. */
  function Lane<T>(xs: seq<T>, lanes: seq<nat>, c: nat): seq<T>
    requires |xs| == |lanes|
  {
    if xs == [] then []
    else
      var n := |xs| - 1;
      Lane(xs[..n], lanes[..n], c) + if lanes[n] == c then [xs[n]] else []
  }

  lemma {:induction false} LaneHolds<T>(xs: seq<T>, lanes: seq<nat>, j: nat)
    requires |xs| == |lanes| && j < |xs|
    ensures xs[j] in Lane(xs, lanes, lanes[j])
    decreases |xs|
  {
    var n := |xs| - 1;
    if j < n { LaneHolds(xs[..n], lanes[..n], j); }
  }

  lemma {:induction false} LaneDecodings(os: seq<Outgoing>, lanes: seq<nat>, c: nat)
    requires |os| == |lanes|
    ensures Lane(Decodings(os), lanes, c) == Decodings(Lane(os, lanes, c))
    decreases |os|
  {
    hide Expected;
    if os != [] {
      var n := |os| - 1;
      LaneDecodings(os[..n], lanes[..n], c);
      assert Decodings(os)[..n] == Decodings(os[..n]);
      var front := Lane(os[..n], lanes[..n], c);
      assert Decodings(front + [os[n]]) == Decodings(front) + [Ok(Expected(os[n]))];
    }
  }

  /** The frames written are those of the clients, in any interleaving. */
  ghost predicate Interleaves(clients: seq<Client>, os: seq<Outgoing>, lanes: seq<nat>) {
    && |os| == |lanes| && (forall c :: c in clients ==> Within(c))
    && (forall j :: 0 <= j < |lanes| ==> lanes[j] < |clients|)
    && (forall c :: 0 <= c < |clients| ==> clients[c] in clients && Lane(os, lanes, c) == Sent(clients[c]))
  }

  lemma InterleavedFits(clients: seq<Client>, os: seq<Outgoing>, lanes: seq<nat>, j: nat)
    requires Interleaves(clients, os, lanes) && j < |os|
    ensures Sendable(os[j]) && OneLineMessage(os[j]) && |Body(os[j])| <= MAX_FRAME
  {
    hide Within, Sent, Body, Sendable, OneLineMessage;
    LaneHolds(os, lanes, j);
    var c := clients[lanes[j]];
    var i :| 0 <= i < |Sent(c)| && Sent(c)[i] == os[j];
    ClientFits(c, i);
  }

  /** Whatever lines any number of clients send, and however their frames interleave on the pipe, the
      greylister reads one message for each frame and then the end, and the messages of each
      connection are exactly its envelopes, in order: no client's text adds, drops, splits, joins or
      moves a message of its own or of another. */
  lemma EnvelopesArrive(clients: seq<Client>, os: seq<Outgoing>, lanes: seq<nat>)
    requires Interleaves(clients, os, lanes)
    ensures ReadAll(Stream(os), MAX_FRAME) == Received(Decodings(os), true)
    ensures forall c :: 0 <= c < |clients| ==>
      clients[c] in clients && Lane(Decodings(os), lanes, c) == AllArrived(clients[c])
  {
    hide Within, Sent, Body, Stream, ReadAll, Expected, Sendable, OneLineMessage, AllArrived, Lane;
    forall j | 0 <= j < |os| ensures Sendable(os[j]) && OneLineMessage(os[j]) && |Body(os[j])| <= MAX_FRAME {
      InterleavedFits(clients, os, lanes, j);
    }
    StreamRoundTrip(os, MAX_FRAME);
    assert Decodings(os) == seq(|os|, i requires 0 <= i < |os| => Ok(Expected(os[i])));
    forall c | 0 <= c < |clients|
      ensures clients[c] in clients && Lane(Decodings(os), lanes, c) == AllArrived(clients[c])
    {
      LaneDecodings(os, lanes, c);
      SentArrives(clients[c]);
    }
  }
}
