/** Writing replies in internal/smtp: line ends, and a writer that may stutter one byte at a
    time or finish at once, changing its mind between any two calls. */
module SmtpWriter {
  /** Every newline without a carriage return before it gets one. */
  function Crlf(s: string): string {
    if s == [] then []
    else
      var n := |s| - 1;
      Crlf(s[..n]) + if s[n] == '\n' && (n == 0 || s[n - 1] != '\r') then ['\r', '\n'] else [s[n]]
  }

  method MakeCrlf(s: string) returns (out: string)
    ensures out == Crlf(s)
  {
    out := [];
    for i := 0 to |s|
      invariant out == Crlf(s[..i])
    {
      assert s[..i + 1][..i] == s[..i];
      if s[i] == '\n' && (i == 0 || s[i - 1] != '\r') {
        out := out + ['\r'];
      }
      out := out + [s[i]];
    }
    assert s[..|s|] == s;
  }

  /** Every line ends in CRLF. */
  predicate Normal(s: string) {
    forall i :: 0 <= i < |s| && s[i] == '\n' ==> i > 0 && s[i - 1] == '\r'
  }

  lemma {:induction false} CrlfLast(s: string)
    requires s != []
    ensures Crlf(s) != [] && Crlf(s)[|Crlf(s)| - 1] == s[|s| - 1]
  {
  }

  lemma {:induction false} CrlfIsNormal(s: string)
    ensures Normal(Crlf(s))
  {
    if s != [] {
      var n := |s| - 1;
      CrlfIsNormal(s[..n]);
      if n > 0 { CrlfLast(s[..n]); }
    }
  }

  /** What is normal already is left alone, and nothing else is. */
  lemma {:induction false} CrlfFixedExactly(s: string)
    ensures Crlf(s) == s <==> Normal(s)
  {
    CrlfIsNormal(s);
    if Normal(s) { NormalIsFixed(s); }
  }

  lemma {:induction false} NormalIsFixed(s: string)
    requires Normal(s)
    ensures Crlf(s) == s
  {
    if s != [] {
      NormalIsFixed(s[..|s| - 1]);
      assert s == s[..|s| - 1] + [s[|s| - 1]];
    }
  }

  /** The text without the carriage returns that stand before newlines. */
  function Lines(s: string): string {
    if s == [] then []
    else if s[0] == '\r' && |s| > 1 && s[1] == '\n' then Lines(s[1..])
    else [s[0]] + Lines(s[1..])
  }

  lemma LinesOne(c: char)
    ensures Lines([c]) == [c]
  {
    assert [c][1..] == [];
  }

  lemma {:induction false} LinesSnoc(s: string, c: char)
    ensures Lines(s + [c]) ==
            if c == '\n' && s != [] && s[|s| - 1] == '\r' then Lines(s[..|s| - 1]) + [c] else Lines(s) + [c]
  {
    LinesOne(c);
    if |s| == 0 {
      assert s + [c] == [c];
    } else if |s| == 1 {
      assert (s + [c])[1..] == [c] && s[..0] == [] && s == [s[0]];
      LinesOne(s[0]);
    } else {
      if |s| == 2 { LinesOne(s[0]); }
      LinesSnoc(s[1..], c);
      assert (s + [c])[1..] == s[1..] + [c];
      assert s[1..][..|s| - 2] == s[..|s| - 1][1..];
    }
  }

  /** Only line ends change: both texts have the same lines. */
  lemma {:induction false} CrlfKeepsLines(s: string)
    ensures Lines(Crlf(s)) == Lines(s)
  {
    if s != [] {
      var n := |s| - 1;
      var front, c := s[..n], s[n];
      CrlfKeepsLines(front);
      LinesSnoc(front, c);
      assert s == front + [c];
      if c == '\n' && (n == 0 || s[n - 1] != '\r') {
        LinesSnoc(Crlf(front), '\r');
        LinesSnoc(Crlf(front) + ['\r'], '\n');
        assert Crlf(s) == Crlf(front) + ['\r'] + ['\n'];
        assert (Crlf(front) + ['\r'])[..|Crlf(front)|] == Crlf(front);
      } else {
        LinesSnoc(Crlf(front), c);
        if c == '\n' {
          CrlfFrontCR(front);
          CrlfKeepsLines(front[..n - 1]);
        } else if n > 0 {
          CrlfLast(front);
        }
      }
    }
  }

  lemma CrlfFrontCR(s: string)
    requires s != [] && s[|s| - 1] == '\r'
    ensures Crlf(s) == Crlf(s[..|s| - 1]) + ['\r']
    ensures Crlf(s)[..|Crlf(s)| - 1] == Crlf(s[..|s| - 1])
  {
  }

  /** The carriage return that HandleWrite puts before a bare newline. */
  function Extra(out: string, pos: nat, seenCR: bool): string {
    if pos < |out| && out[pos] == '\n' && !seenCR then ['\r'] else []
  }

  /** The output side of a connection. `wire` is everything written to the client. */
  class Writer {
    var out: string
    var outPos: nat
    var seenCR: bool
    var w: bool
    var closed: bool
    ghost var before: string
    ghost var wire: string

    /** The bytes on the wire are what was there before plus the part of the reply counted as
        written; while a reply is under way, seenCR is about the byte before. */
    ghost predicate Valid()
      reads this
    {
      && outPos <= |out| && Normal(out) && (closed || wire == before + out[..outPos])
      && (!closed && outPos < |out| ==> seenCR == (outPos > 0 && out[outPos - 1] == '\r'))
    }

    constructor ()
      ensures Valid() && !closed && !w && wire == ""
    {
      out, outPos, seenCR, w, closed, before, wire := "", 0, false, false, false, "", "";
    }

    method SetOut(s: string)
      requires Valid() && !closed
      modifies this
      ensures Valid() && !closed && w && wire == before == old(wire) && out == Crlf(s) && outPos == 0
    {
      CrlfIsNormal(s);
      var o := MakeCrlf(s);
      out, outPos, seenCR, w := o, 0, false, true;
      before := wire;
    }

    /** HandleWrite: one byte when stuttering, else the rest of the reply; a newline without a
        carriage return before it gets one. `fail` is a write that went wrong. */
    method HandleWrite(stutter: bool, fail: bool)
      requires w && !closed && outPos <= |out|
      modifies this
      ensures out == old(out) && before == old(before) && outPos <= |out|
      ensures closed <==> fail && old(outPos) < |out|
      ensures !closed ==> (if stutter && old(outPos) < |out| then outPos == old(outPos) + 1 else outPos == |out|)
      ensures !closed ==> w == (outPos < |out|)
      ensures !closed && old(outPos) < |out| ==> seenCR == (out[old(outPos)] == '\r')
      ensures !closed ==> wire == old(wire) + Extra(out, old(outPos), old(seenCR)) + out[old(outPos)..outPos]
    {
      if outPos < |out| {
        ghost var from := outPos;
        if out[outPos] == '\n' && !seenCR {
          if fail {
            closed := true;
            return;
          }
          wire := wire + ['\r'];
        }
        seenCR := out[outPos] == '\r';
        var toWrite := |out| - outPos;
        if stutter { toWrite := 1; }
        if fail {
          closed := true;
          return;
        }
        wire := wire + out[outPos..outPos + toWrite];
        outPos := outPos + toWrite;
      }
      if outPos == |out| { w := false; }
    }

    /** However the writer stutters, the client gets exactly the reply with CRLF line ends. */
    method WriteReply(s: string, stutters: nat -> bool)
      requires Valid() && !closed
      modifies this
      ensures Valid() && !closed && !w && wire == old(wire) + Crlf(s)
    {
      SetOut(s);
      var calls := 0;
      while w
        invariant Valid() && !closed && before == old(wire) && out == Crlf(s)
        invariant !w ==> outPos == |out|
        decreases w, |out| - outPos
      {
        ghost var from := outPos;
        HandleWrite(stutters(calls), false);
        assert out[..from] + out[from..outPos] == out[..outPos];
        calls := calls + 1;
      }
      assert out[..outPos] == out;
    }
  }
}
