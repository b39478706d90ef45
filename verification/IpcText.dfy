/** The frame text of internal/ipc: how assignments are printed and how they are scanned. Text
    is a sequence of characters. */
module IpcText {
  import opened Basics

  datatype Value = IntV(n: int) | StrV(s: string) | ListV(items: seq<string>)

  type Fields = map<string, Value>

  const MAX_INT := 0x7fff_ffff_ffff_ffff

  // ----- scanning -----

  predicate IsBlank(c: char) {
    c == ' ' || c == '\t' || c == '\r' || c == '\n' || c == ';' || c == ','
  }

  function SkipComment(s: string): (r: string)
    ensures |r| <= |s| && (r != [] ==> r[0] == '\n')
  {
    if s == [] || s[0] == '\n' then s else SkipComment(s[1..])
  }

  /** Blanks, separators and comments. */
  function SkipSpace(s: string): (r: string)
    ensures |r| <= |s|
    decreases |s|
  {
    if s == [] then s
    else if IsBlank(s[0]) then SkipSpace(s[1..])
    else if s[0] == '#' then SkipSpace(SkipComment(s[1..]))
    else s
  }

  predicate IsNameChar(c: char) {
    c == '_' || 'a' <= c <= 'z' || 'A' <= c <= 'Z' || '0' <= c <= '9'
  }

  function NameLength(s: string): (n: nat)
    ensures n <= |s|
  {
    if s == [] || !IsNameChar(s[0]) then 0 else 1 + NameLength(s[1..])
  }

  predicate IsDigit(c: char) { '0' <= c <= '9' }

  function DigitsLength(s: string): (n: nat)
    ensures n <= |s| && forall i :: 0 <= i < n ==> IsDigit(s[i])
  {
    if s == [] || !IsDigit(s[0]) then 0 else 1 + DigitsLength(s[1..])
  }

  /** The value of a run of digits. */
  function Atoi(s: string): nat
    requires forall i :: 0 <= i < |s| ==> IsDigit(s[i])
  {
    if s == [] then 0 else assert IsDigit(s[|s| - 1]); Atoi(s[..|s| - 1]) * 10 + (s[|s| - 1] as int - '0' as int)
  }

  /** A parsed piece and the text behind it. */
  datatype Parsed<+T> = Parsed(value: T, rest: string)

  function Number(s: string): (r: Option<Parsed<nat>>)
    ensures r.Some? ==> |r.value.rest| < |s|
  {
    var n := DigitsLength(s);
    if n == 0 || Atoi(s[..n]) > MAX_INT then None else Some(Parsed(Atoi(s[..n]), s[n..]))
  }

  /** The inside of a quoted string, after the opening quote; a backslash keeps the next
      character. */
  function Quoted(s: string, built: string): (r: Option<Parsed<string>>)
    ensures r.Some? ==> |r.value.rest| < |s|
    decreases |s|
  {
    if s == [] then None
    else if s[0] == '\\' then if |s| == 1 then None else Quoted(s[2..], built + [s[1]])
    else if s[0] == '"' then Some(Parsed(built, s[1..]))
    else Quoted(s[1..], built + [s[0]])
  }

  /** The inside of a list, after the opening bracket. */
  function List(s: string, built: seq<string>): (r: Option<Parsed<seq<string>>>)
    ensures r.Some? ==> |r.value.rest| < |s|
    decreases |s|
  {
    var t := SkipSpace(s);
    if t == [] then None
    else if t[0] == ']' then Some(Parsed(built, t[1..]))
    else if t[0] == '"' then
      match Quoted(t[1..], [])
      case None => None
      case Some(p) => List(p.rest, built + [p.value])
    else
      match Number(t)
      case None => None
      case Some(p) => List(p.rest, built + [Dec(p.value)])
  }

  function ValueOf(s: string): (r: Option<Parsed<Value>>)
    ensures r.Some? ==> |r.value.rest| < |s|
  {
    if s == [] then None
    else if s[0] == '"' then
      match Quoted(s[1..], [])
      case None => None
      case Some(p) => Some(Parsed(StrV(p.value), p.rest))
    else if s[0] == '[' then
      match List(s[1..], [])
      case None => None
      case Some(p) => Some(Parsed(ListV(p.value), p.rest))
    else
      match Number(s)
      case None => None
      case Some(p) => Some(Parsed(IntV(p.value), p.rest))
  }

  function ToLower(s: string): string {
    seq(|s|, i requires 0 <= i < |s| => LowerChar(s[i]))
  }

  /** One assignment, or None for a syntax error. */
  function Assignment(t: string): (r: Option<Parsed<(string, Value)>>)
    ensures r.Some? ==> |r.value.rest| < |t|
  {
    var n := NameLength(t);
    var u := SkipSpace(t[n..]);
    if n == 0 || u == [] || u[0] != '=' then None
    else
      match ValueOf(SkipSpace(u[1..]))
      case None => None
      case Some(p) => Some(Parsed((ToLower(t[..n]), p.value), p.rest))
  }

  /** parseFields: the assignment table; a later assignment of a name wins. */
  function ParseFields(s: string, f: Fields): Option<Fields>
    decreases |s|
  {
    var t := SkipSpace(s);
    if t == [] then Some(f)
    else
      match Assignment(t)
      case None => None
      case Some(p) => ParseFields(p.rest, f[p.value.0 := p.value.1])
  }

  // ----- printing -----

  function Dec(n: nat): (s: string)
    ensures s != [] && forall i :: 0 <= i < |s| ==> IsDigit(s[i])
  {
    if n < 10 then [('0' as int + n) as char] else Dec(n / 10) + Dec(n % 10)
  }

  /** A decimal integer; the frame grammar has no minus sign, so a negative one is not read back. */
  function Decimal(n: int): string { if n < 0 then "-" + Dec(-n) else Dec(n) }

  function Join(items: seq<string>): string {
    if items == [] then []
    else if |items| == 1 then "\"" + items[0] + "\""
    else "\"" + items[0] + "\"," + Join(items[1..])
  }

  function ValueText(v: Value): string {
    match v
    case IntV(n) => Decimal(n)
    case StrV(s) => "\"" + s + "\""
    case ListV(items) => "[" + Join(items) + "]"
  }

  /** `spaced` is the style of the Builder; the hand-written frames have no spaces. */
  datatype Assign = Assign(name: string, spaced: bool, value: Value)

  function Sign(spaced: bool): string { if spaced then " = " else "=" }

  function AssignText(a: Assign): string {
    a.name + Sign(a.spaced) + ValueText(a.value) + "\n"
  }

  function BodyText(xs: seq<Assign>): string {
    if xs == [] then [] else AssignText(xs[0]) + BodyText(xs[1..])
  }

  function Table(xs: seq<Assign>, f: Fields): Fields {
    if xs == [] then f else Table(xs[1..], f[xs[0].name := xs[0].value])
  }

  // ----- scanning what was printed -----

  /** Text that a quoted string carries unchanged. */
  predicate Plain(s: string) {
    forall i :: 0 <= i < |s| ==> s[i] != '"' && s[i] != '\\'
  }

  predicate PlainValue(v: Value) {
    match v
    case IntV(n) => 0 <= n <= MAX_INT
    case StrV(s) => Plain(s)
    case ListV(items) => forall i :: 0 <= i < |items| ==> Plain(items[i])
  }

  predicate NameText(s: string) {
    s != [] && forall i :: 0 <= i < |s| ==> IsNameChar(s[i]) && LowerChar(s[i]) == s[i]
  }

  predicate Printable(a: Assign) { NameText(a.name) && PlainValue(a.value) }

  lemma {:induction false} QuotedPlain(s: string, rest: string, built: string)
    requires Plain(s)
    ensures Quoted(s + "\"" + rest, built) == Some(Parsed(built + s, rest))
    decreases |s|
  {
    var t := s + "\"" + rest;
    if s == [] {
      assert t == ['"'] + rest && t[1..] == rest;
      assert built + s == built;
    } else {
      assert t[0] == s[0] && t[1..] == s[1..] + "\"" + rest;
      QuotedPlain(s[1..], rest, built + [s[0]]);
      assert built + [s[0]] + s[1..] == built + s;
    }
  }

  /** A piece of a gap: one blank or separator, or a comment with its newline. */
  datatype Piece = Blank(c: char) | Comment(text: string)

  predicate GapPiece(p: Piece) {
    match p
    case Blank(c) => c == ' ' || c == '\t' || c == '\r' || c == '\n' || c == ';' || c == ','
    case Comment(text) => forall i :: 0 <= i < |text| ==> text[i] != '\n'
  }

  function PieceText(p: Piece): string {
    match p
    case Blank(c) => [c]
    case Comment(text) => "#" + text + "\n"
  }

  function GapText(gap: seq<Piece>): string {
    if gap == [] then [] else PieceText(gap[0]) + GapText(gap[1..])
  }

  /** And nothing else is skipped: space ends where neither a blank nor a comment stands. */
  lemma {:induction false} SkipStops(s: string)
    ensures var t := SkipSpace(s); t == s[|s| - |t|..] && (t != [] ==> t[0] !in " \t\r\n;,#")
    decreases |s|
  {
    hide SkipComment;
    if s != [] {
      if IsBlank(s[0]) {
        SkipStops(s[1..]);
      } else if s[0] == '#' {
        CommentTail(s[1..]);
        SkipStops(SkipComment(s[1..]));
      } else {
        assert s[0] !in " \t\r\n;,#";
      }
    }
  }

  lemma {:induction false} CommentTail(s: string)
    ensures var t := SkipComment(s); t == s[|s| - |t|..]
  {
    if s != [] && s[0] != '\n' { CommentTail(s[1..]); }
  }

  lemma {:induction false} CommentSkips(text: string, rest: string)
    requires forall i :: 0 <= i < |text| ==> text[i] != '\n'
    ensures SkipComment(text + ("\n" + rest)) == "\n" + rest
    decreases |text|
  {
    if text == [] {
      assert text + ("\n" + rest) == "\n" + rest;
    } else {
      assert (text + ("\n" + rest))[1..] == text[1..] + ("\n" + rest);
      CommentSkips(text[1..], rest);
    }
  }

  lemma PieceSkips(p: Piece, tail: string)
    requires GapPiece(p)
    ensures SkipSpace(PieceText(p) + tail) == SkipSpace(tail)
  {
    match p
    case Blank(c) =>
      assert ([c] + tail)[1..] == tail;
    case Comment(text) =>
      var t := "#" + (text + ("\n" + tail));
      assert PieceText(p) + tail == t && t[1..] == text + ("\n" + tail);
      CommentSkips(text, tail);
      assert ("\n" + tail)[1..] == tail;
  }

  /** Blanks, separators and comments, in any number and order, do not matter where space is skipped. */
  lemma {:induction false} GapSkips(gap: seq<Piece>, s: string)
    requires forall i :: 0 <= i < |gap| ==> GapPiece(gap[i])
    ensures SkipSpace(GapText(gap) + s) == SkipSpace(s)
    decreases |gap|
  {
    hide SkipSpace, PieceText, GapPiece;
    if gap == [] {
      assert GapText(gap) + s == s;
    } else {
      GapSkips(gap[1..], s);
      PieceSkips(gap[0], GapText(gap[1..]) + s);
      assert GapText(gap) + s == PieceText(gap[0]) + (GapText(gap[1..]) + s);
    }
  }

  lemma {:induction false} DigitsOf(s: string, rest: string)
    requires forall i :: 0 <= i < |s| ==> IsDigit(s[i])
    requires rest != [] && !IsDigit(rest[0])
    ensures DigitsLength(s + rest) == |s|
    decreases |s|
  {
    if s == [] {
      assert s + rest == rest;
    } else {
      assert (s + rest)[1..] == s[1..] + rest;
      DigitsOf(s[1..], rest);
    }
  }

  lemma AtoiSnoc(s: string, c: char)
    requires IsDigit(c) && forall i :: 0 <= i < |s| ==> IsDigit(s[i])
    ensures Atoi(s + [c]) == Atoi(s) * 10 + (c as int - '0' as int)
  {
    assert (s + [c])[..|s|] == s;
  }

  lemma {:induction false} AtoiDec(n: nat)
    ensures Atoi(Dec(n)) == n
  {
    if n < 10 {
      assert Dec(n) == [] + [('0' as int + n) as char];
      AtoiSnoc([], ('0' as int + n) as char);
    } else {
      AtoiDec(n / 10);
      assert Dec(n % 10) == [('0' as int + n % 10) as char];
      AtoiSnoc(Dec(n / 10), ('0' as int + n % 10) as char);
    }
  }

  lemma NumberDec(n: nat, rest: string)
    requires n <= MAX_INT && rest != [] && !IsDigit(rest[0])
    ensures Number(Dec(n) + rest) == Some(Parsed(n, rest))
  {
    DigitsOf(Dec(n), rest);
    AtoiDec(n);
    assert (Dec(n) + rest)[..|Dec(n)|] == Dec(n) && (Dec(n) + rest)[|Dec(n)|..] == rest;
  }

  lemma ListStep(item: string, tail: string, built: seq<string>)
    requires Plain(item)
    ensures List("\"" + (item + "\"" + tail), built) == List(tail, built + [item])
  {
    hide Quoted;
    var s := "\"" + (item + "\"" + tail);
    assert s[0] == '"' && s[1..] == item + "\"" + tail;
    QuotedPlain(item, tail, []);
    assert [] + item == item;
  }

  /** A printed list from its second item on: what stands behind an item's closing quote. */
  function JoinTail(items: seq<string>): string {
    if items == [] then [] else "," + Join(items)
  }

  lemma JoinStep(items: seq<string>)
    requires items != []
    ensures Join(items) == "\"" + (items[0] + "\"" + JoinTail(items[1..]))
  {
  }

  lemma Regroup(a: string, b: string, c: string, d: string, e: string)
    ensures (a + (b + c + d)) + e == a + (b + c + (d + e))
  {
  }

  lemma ListEnds(rest: string, built: seq<string>)
    ensures List(Join([]) + ("]" + rest), built) == Some(Parsed(built + [], rest))
  {
    assert Join([]) + ("]" + rest) == "]" + rest && ("]" + rest)[1..] == rest && built + [] == built;
  }

  /** One item read: the list goes on with the items behind it. */
  lemma ListItem(items: seq<string>, end: string, built: seq<string>)
    requires items != [] && Plain(items[0])
    ensures List(Join(items) + end, built) == List(Join(items[1..]) + end, built + [items[0]])
  {
    hide List, Join, JoinTail, Plain;
    JoinStep(items);
    Regroup("\"", items[0], "\"", JoinTail(items[1..]), end);
    ListStep(items[0], JoinTail(items[1..]) + end, built);
    TailSkips(items[1..], end, built + [items[0]]);
  }

  lemma {:induction false} ListJoin(items: seq<string>, rest: string, built: seq<string>)
    requires forall i :: 0 <= i < |items| ==> Plain(items[i])
    ensures List(Join(items) + ("]" + rest), built) == Some(Parsed(built + items, rest))
    decreases |items|
  {
    hide List, Join, Plain;
    if items == [] {
      ListEnds(rest, built);
    } else {
      ListItem(items, "]" + rest, built);
      ListJoin(items[1..], rest, built + [items[0]]);
      assert built + [items[0]] + items[1..] == built + items;
    }
  }

  lemma TailSkips(items: seq<string>, end: string, built: seq<string>)
    ensures List(JoinTail(items) + end, built) == List(Join(items) + end, built)
  {
    hide List;
    if items == [] {
      assert Join(items) == [];
    } else {
      assert JoinTail(items) + end == "," + (Join(items) + end);
      CommaSkips(Join(items) + end, built);
    }
  }

  lemma CommaSkips(s: string, built: seq<string>)
    ensures List("," + s, built) == List(s, built)
  {
    assert ("," + s)[1..] == s;
  }

  lemma StringRoundTrip(t: string, after: string)
    requires Plain(t)
    ensures ValueOf("\"" + (t + "\"" + after)) == Some(Parsed(StrV(t), after))
  {
    hide Quoted;
    var s := "\"" + (t + "\"" + after);
    assert s[0] == '"' && s[1..] == t + "\"" + after;
    QuotedPlain(t, after, []);
    assert [] + t == t;
  }

  lemma ListRoundTrip(items: seq<string>, after: string)
    requires forall i :: 0 <= i < |items| ==> Plain(items[i])
    ensures ValueOf("[" + (Join(items) + ("]" + after))) == Some(Parsed(ListV(items), after))
  {
    hide List, Join;
    var s := "[" + (Join(items) + ("]" + after));
    assert s[0] == '[' && s[1..] == Join(items) + ("]" + after);
    ListJoin(items, after, []);
    assert [] + items == items;
  }

  lemma NumberRoundTrip(n: nat, after: string)
    requires n <= MAX_INT && after != [] && !IsDigit(after[0])
    ensures ValueOf(Dec(n) + after) == Some(Parsed(IntV(n), after))
    ensures IsDigit(Dec(n)[0])
  {
    hide Number, Dec;
    NumberDec(n, after);
    assert (Dec(n) + after)[0] == Dec(n)[0];
  }

  lemma ValueRoundTrip(v: Value, after: string)
    requires PlainValue(v) && after != [] && !IsDigit(after[0])
    ensures ValueText(v) != [] && !IsBlank(ValueText(v)[0]) && ValueText(v)[0] != '#'
    ensures ValueOf(ValueText(v) + after) == Some(Parsed(v, after))
  {
    hide ValueOf, Join, Dec;
    match v
    case IntV(n) =>
      NumberRoundTrip(n, after);
    case StrV(t) =>
      StringRoundTrip(t, after);
      assert ValueText(v) + after == "\"" + (t + "\"" + after);
    case ListV(items) =>
      ListRoundTrip(items, after);
      assert ValueText(v) + after == "[" + (Join(items) + ("]" + after));
  }

  lemma {:induction false} NameOf(s: string, rest: string)
    requires forall i :: 0 <= i < |s| ==> IsNameChar(s[i])
    requires rest != [] && !IsNameChar(rest[0])
    ensures NameLength(s + rest) == |s|
    decreases |s|
  {
    if s == [] {
      assert s + rest == rest;
    } else {
      assert (s + rest)[1..] == s[1..] + rest;
      NameOf(s[1..], rest);
    }
  }

  lemma SkipNothing(s: string)
    requires s != [] && !IsBlank(s[0]) && s[0] != '#'
    ensures SkipSpace(s) == s && SkipSpace(" " + s) == s
  {
    assert (" " + s)[1..] == s;
  }

  /** Behind the name stands the equals sign, in either style, and then the value. */
  lemma SignSkips(spaced: bool, v: string)
    requires v != [] && !IsBlank(v[0]) && v[0] != '#'
    ensures var u := SkipSpace(Sign(spaced) + v); u != [] && u[0] == '=' && SkipSpace(u[1..]) == v
  {
    hide SkipSpace;
    SkipNothing(v);
    SkipNothing("=" + v);
    SkipNothing("= " + v);
    if spaced {
      assert Sign(spaced) + v == " " + ("= " + v) && ("= " + v)[1..] == " " + v;
    } else {
      assert ("=" + v)[1..] == v;
    }
  }

  lemma AssignmentOf(name: string, after: string, v: Value, rest: string)
    requires NameText(name) && after != [] && !IsNameChar(after[0])
    requires var u := SkipSpace(after);
      u != [] && u[0] == '=' && ValueOf(SkipSpace(u[1..])) == Some(Parsed(v, rest))
    ensures Assignment(name + after) == Some(Parsed((name, v), rest))
  {
    hide NameLength, ValueOf, SkipSpace;
    NameOf(name, after);
    assert (name + after)[..|name|] == name && (name + after)[|name|..] == after;
    assert ToLower(name) == name;
  }

  lemma AssignPieces(name: string, sign: string, v: string, rest: string)
    ensures name + sign + v + "\n" + rest == name + (sign + (v + ("\n" + rest)))
  {
  }

  lemma AssignRoundTrip(a: Assign, rest: string)
    requires Printable(a)
    ensures Assignment(AssignText(a) + rest) == Some(Parsed((a.name, a.value), "\n" + rest))
  {
    hide Assignment, ValueOf, SkipSpace, ValueText, NameText, PlainValue;
    var v := ValueText(a.value) + ("\n" + rest);
    AssignPieces(a.name, Sign(a.spaced), ValueText(a.value), rest);
    ValueRoundTrip(a.value, "\n" + rest);
    SignSkips(a.spaced, v);
    AssignmentOf(a.name, Sign(a.spaced) + v, a.value, "\n" + rest);
  }

  /** One assignment read: the table goes on with the text behind it. */
  lemma ParseStep(text: string, rest: string, name: string, v: Value, f: Fields)
    requires text != [] && IsNameChar(text[0])
    requires Assignment(text + rest) == Some(Parsed((name, v), "\n" + rest))
    ensures ParseFields(text + rest, f) == ParseFields(rest, f[name := v])
  {
    hide Assignment;
    assert (text + rest)[0] == text[0];
    NameStarts(text + rest);
    NewlineSkips(rest, f[name := v]);
  }

  /** Parsing printed assignments gives back the table of their values. */
  lemma {:induction false} ParsePrinted(xs: seq<Assign>, f: Fields)
    requires forall i :: 0 <= i < |xs| ==> Printable(xs[i])
    ensures ParseFields(BodyText(xs), f) == Some(Table(xs, f))
    decreases |xs|
  {
    if xs != [] {
      hide ParseFields, Assignment, ValueText;
      var a, rest := xs[0], BodyText(xs[1..]);
      AssignRoundTrip(a, rest);
      assert AssignText(a)[0] == a.name[0];
      ParseStep(AssignText(a), rest, a.name, a.value, f);
      ParsePrinted(xs[1..], f[a.name := a.value]);
    }
  }

  lemma NameStarts(t: string)
    requires t != [] && IsNameChar(t[0])
    ensures SkipSpace(t) == t
  {
  }

  lemma NewlineSkips(s: string, f: Fields)
    ensures ParseFields("\n" + s, f) == ParseFields(s, f)
  {
    assert ("\n" + s)[1..] == s;
  }
}
