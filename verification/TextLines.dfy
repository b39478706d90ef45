/** Lines of text, as the frame reader, the message text and the replies cut them. */
module TextLines {
  /** Text without a newline. */
  predicate OneLine(s: string) { forall i :: 0 <= i < |s| ==> s[i] != '\n' }

  /** The length of the first line, its newline included; the last line may lack one. */
  function LineLength(s: string): (n: nat)
    ensures n <= |s| && (s != [] ==> n > 0)
  {
    if s == [] then 0 else if s[0] == '\n' then 1 else 1 + LineLength(s[1..])
  }

  lemma {:induction false} LineOf(s: string, rest: string)
    requires OneLine(s)
    ensures LineLength(s + "\n" + rest) == |s| + 1
    decreases |s|
  {
    var t := s + "\n" + rest;
    if s == [] {
      assert t == "\n" + rest && t[0] == '\n';
    } else {
      assert t[0] == s[0] && t[1..] == s[1..] + "\n" + rest;
      LineOf(s[1..], rest);
    }
  }

  /** strings.Split(s, "\n"). */
  function SplitLines(s: string): (r: seq<string>)
    ensures r != [] && forall i :: 0 <= i < |r| ==> OneLine(r[i])
  {
    if s == [] then [[]]
    else if s[0] == '\n' then [[]] + SplitLines(s[1..])
    else var r := SplitLines(s[1..]); [[s[0]] + r[0]] + r[1..]
  }

  /** Each line with its newline. */
  function Unlines(lines: seq<string>): string {
    if lines == [] then [] else lines[0] + "\n" + Unlines(lines[1..])
  }

  /** Text that ends in a newline is the lines in front of the last, empty piece. */
  lemma {:induction false} SplitUnlines(s: string)
    requires s != [] && s[|s| - 1] == '\n'
    ensures var r := SplitLines(s); |r| >= 2 && Unlines(r[..|r| - 1]) == s
  {
    var r := SplitLines(s);
    if |s| == 1 {
      assert s == "\n" && s[1..] == [] && r == [[], []] && r[..1] == [[]] && r[..1][1..] == [];
    } else {
      SplitUnlines(s[1..]);
      var q := SplitLines(s[1..]);
      var front := r[..|r| - 1];
      if s[0] == '\n' {
        assert front[1..] == q[..|q| - 1];
      } else {
        assert front[1..] == q[..|q| - 1][1..] && front[0] == [s[0]] + q[0];
        assert Unlines(q[..|q| - 1]) == q[0] + "\n" + Unlines(front[1..]);
      }
      assert s == [s[0]] + s[1..];
    }
  }
}
