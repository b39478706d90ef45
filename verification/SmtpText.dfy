/** The pure parts of the SMTP dialogue (internal/smtp and internal/core): matching commands and
    cutting the arguments out of a command line. Text is a sequence of characters; only ASCII
    letters and spaces are special. */
module SmtpText {
  import opened Basics

  function Upper(c: char): char {
    if 'a' <= c <= 'z' then c - 32 as char else c
  }

  /** Whether the input starts with the command, whatever the case. */
  predicate Match(line: string, cmd: string) {
    |line| >= |cmd| && forall i :: 0 <= i < |cmd| ==> Upper(line[i]) == Upper(cmd[i])
  }

  /** Each letter of the command stands there, as a capital or as the small letter 32 places on. */
  lemma MatchExactly(line: string, cmd: string)
    requires forall i :: 0 <= i < |cmd| ==> 'A' <= cmd[i] <= 'Z'
    ensures Match(line, cmd) <==>
      |line| >= |cmd| && forall i :: 0 <= i < |cmd| ==> line[i] == cmd[i] || line[i] as int == cmd[i] as int + 32
  {
    if |line| >= |cmd| {
      forall i | 0 <= i < |cmd|
        ensures Upper(line[i]) == Upper(cmd[i]) <==> line[i] == cmd[i] || line[i] as int == cmd[i] as int + 32
      {
      }
    }
  }

  predicate IsSpace(c: char) {
    c == ' ' || c == '\t' || c == '\n' || c == '\r' || c == '\U{000b}' || c == '\U{000c}'
  }

  /** The six blanks of ASCII. */
  lemma SpaceCodes(c: char)
    ensures IsSpace(c) <==> c as int == 32 || 9 <= c as int <= 13
  {
  }

  function SkipSpaces(s: string): (t: string)
    ensures |t| <= |s|
  {
    if s != [] && IsSpace(s[0]) then SkipSpaces(s[1..]) else s
  }

  function Token(s: string): (t: string)
    ensures |t| <= |s|
    ensures forall i :: 0 <= i < |t| ==> !IsSpace(t[i])
  {
    if s == [] || IsSpace(s[0]) then [] else [s[0]] + Token(s[1..])
  }

  /** The first field of strings.Fields, or the empty string. */
  function FirstField(s: string): (t: string)
    ensures |t| <= |s|
    ensures forall i :: 0 <= i < |t| ==> !IsSpace(t[i])
  {
    Token(SkipSpaces(s))
  }

  function GetHelo(line: string): (t: string)
    ensures |t| <= |line|
    ensures forall i :: 0 <= i < |t| ==> !IsSpace(t[i])
  {
    if |line| < 4 then "" else FirstField(line[4..])
  }

  function IndexColon(s: string): (i: nat)
    ensures i <= |s|
  {
    if s == [] || s[0] == ':' then 0 else 1 + IndexColon(s[1..])
  }

  function GetAddr(line: string): (t: string)
    ensures forall i :: 0 <= i < |t| ==> !IsSpace(t[i])
  {
    var i := IndexColon(line);
    if i == |line| then "" else FirstField(line[i + 1..])
  }

  predicate Blank(s: string) { forall i :: 0 <= i < |s| ==> IsSpace(s[i]) }

  predicate Word(s: string) { forall i :: 0 <= i < |s| ==> !IsSpace(s[i]) }

  /** Some blanks, a word, and text that a blank sets off from it; without a word there is no more. */
  predicate Field(blank: string, word: string, rest: string) {
    Blank(blank) && Word(word) && (rest != [] ==> word != [] && IsSpace(rest[0]))
  }

  lemma {:induction false} SkipBlank(blank: string, s: string)
    requires Blank(blank) && (s != [] ==> !IsSpace(s[0]))
    ensures SkipSpaces(blank + s) == s
    decreases |blank|
  {
    if blank == [] {
      assert blank + s == s;
    } else {
      assert (blank + s)[1..] == blank[1..] + s;
      SkipBlank(blank[1..], s);
    }
  }

  lemma {:induction false} TokenIs(word: string, rest: string)
    requires Word(word) && (rest != [] ==> IsSpace(rest[0]))
    ensures Token(word + rest) == word
    decreases |word|
  {
    if word == [] {
      assert word + rest == rest;
    } else {
      assert (word + rest)[1..] == word[1..] + rest;
      TokenIs(word[1..], rest);
    }
  }

  lemma FirstFieldIs(blank: string, word: string, rest: string)
    requires Field(blank, word, rest)
    ensures FirstField(blank + (word + rest)) == word
  {
    SkipBlank(blank, word + rest);
    TokenIs(word, rest);
  }

  /** The greeting is the first word behind the four letters of the command. */
  lemma GetHeloIs(verb: string, blank: string, word: string, rest: string)
    requires |verb| == 4 && Field(blank, word, rest)
    ensures GetHelo(verb + (blank + (word + rest))) == word
  {
    assert (verb + (blank + (word + rest)))[4..] == blank + (word + rest);
    FirstFieldIs(blank, word, rest);
  }

  /** An address is the first word behind the first colon; without a colon there is none. */
  lemma GetAddrIs(before: string, blank: string, word: string, rest: string)
    requires ':' !in before && Field(blank, word, rest)
    ensures GetAddr(before + (":" + (blank + (word + rest)))) == word
    ensures GetAddr(before) == ""
  {
    var tail := blank + (word + rest);
    ColonAt(before, ":" + tail);
    ColonAt(before, "");
    assert before + "" == before;
    assert (before + (":" + tail))[|before| + 1..] == tail;
    FirstFieldIs(blank, word, rest);
  }

  lemma {:induction false} ColonAt(before: string, s: string)
    requires ':' !in before && (s != [] ==> s[0] == ':')
    ensures IndexColon(before + s) == |before|
    decreases |before|
  {
    if before == [] {
      assert before + s == s;
    } else {
      assert (before + s)[1..] == before[1..] + s && before[0] != ':';
      ColonAt(before[1..], s);
    }
  }

  /** Every text is of that form. */
  lemma {:induction false} FieldPieces(s: string) returns (blank: string, word: string, rest: string)
    ensures s == blank + (word + rest) && Field(blank, word, rest)
    decreases |s|
  {
    if s == [] {
      blank, word, rest := [], [], [];
    } else if IsSpace(s[0]) {
      var b, w, r := FieldPieces(s[1..]);
      blank, word, rest := [s[0]] + b, w, r;
    } else {
      word := Token(s);
      TokenPrefix(s);
      blank, rest := [], s[|word|..];
    }
  }

  lemma {:induction false} TokenPrefix(s: string)
    ensures var n := |Token(s)|; Token(s) == s[..n] && (n < |s| ==> IsSpace(s[n]))
  {
    if s != [] && !IsSpace(s[0]) { TokenPrefix(s[1..]); }
  }

  const MAX_MAIL := 1024

  predicate Stripped(c: char) { c == '\\' || c == '"' || c == '<' || c == '>' }

  /** The loop of NormalizeEmail from what is built so far. */
  function Normalize(addr: string, built: string): string
    decreases |addr|
  {
    if addr == [] || |built| >= MAX_MAIL - 1 then built
    else Normalize(addr[1..], if Stripped(addr[0]) then built else built + [LowerChar(addr[0])])
  }

  /** The text without backslashes, quotes and angle brackets. */
  function Kept(s: string): string {
    if s == [] then [] else (if s[0] in "\\\"<>" then [] else [s[0]]) + Kept(s[1..])
  }

  function Lowered(s: string): (r: string)
    ensures |r| == |s|
    ensures forall i :: 0 <= i < |s| ==> r[i] as int == s[i] as int + if 'A' <= s[i] <= 'Z' then 32 else 0
  {
    seq(|s|, i requires 0 <= i < |s| => LowerChar(s[i]))
  }

  function Cut(s: string, room: nat): string { if |s| <= room then s else s[..room] }

  /** Normalising keeps, in order and as small letters, the first 1023 characters that are not
      backslashes, quotes or angle brackets. */
  lemma {:induction false} NormalizeExactly(addr: string, built: string)
    requires |built| < MAX_MAIL
    ensures Normalize(addr, built) == built + Lowered(Cut(Kept(addr), MAX_MAIL - 1 - |built|))
    decreases |addr|
  {
    hide Lowered, Cut, LowerChar;
    var room := MAX_MAIL - 1 - |built|;
    if addr == [] || room == 0 {
      NothingKept(Kept(addr), room);
      assert built + [] == built;
    } else if Stripped(addr[0]) {
      assert Kept(addr) == Kept(addr[1..]);
      NormalizeExactly(addr[1..], built);
    } else {
      var c := LowerChar(addr[0]);
      NormalizeExactly(addr[1..], built + [c]);
      LoweredStep(addr[0], Kept(addr[1..]), room);
      Regroup(built, c, Lowered(Cut(Kept(addr[1..]), room - 1)));
    }
  }

  lemma NothingKept(k: string, room: nat)
    requires k == [] || room == 0
    ensures Lowered(Cut(k, room)) == []
  {
  }

  lemma Regroup(built: string, c: char, rest: string)
    ensures built + [c] + rest == built + ([c] + rest)
  {
  }

  lemma LoweredStep(c: char, k: string, room: nat)
    requires room > 0
    ensures Lowered(Cut([c] + k, room)) == [LowerChar(c)] + Lowered(Cut(k, room - 1))
  {
  }

  /** NormalizeEmail: brackets, quotes and backslashes go, letters become lower case. */
  method NormalizeEmail(addr: string) returns (r: string)
    ensures r == Normalize(addr, [])
  {
    r := [];
    var i := 0;
    while i < |addr| && |r| < MAX_MAIL - 1
      invariant 0 <= i <= |addr|
      invariant Normalize(addr, []) == Normalize(addr[i..], r)
      decreases |addr| - i
    {
      assert addr[i..][1..] == addr[i + 1..];
      if !Stripped(addr[i]) { r := r + [LowerChar(addr[i])]; }
      i := i + 1;
    }
  }

  /** A normalised address: short, without the characters that the pipe format gives meaning
      to, in lower case, and without spaces when the argument had none. */
  lemma {:induction false} NormalizeSafe(addr: string, built: string)
    requires |built| < MAX_MAIL
    requires forall i :: 0 <= i < |built| ==> !Stripped(built[i]) && LowerChar(built[i]) == built[i]
    ensures var r := Normalize(addr, built);
      && |r| < MAX_MAIL
      && (forall i :: 0 <= i < |r| ==> !Stripped(r[i]) && LowerChar(r[i]) == r[i])
      && ((forall i :: 0 <= i < |addr| ==> !IsSpace(addr[i])) && (forall i :: 0 <= i < |built| ==> !IsSpace(built[i]))
          ==> forall i :: 0 <= i < |r| ==> !IsSpace(r[i]))
    decreases |addr|
  {
    if addr != [] && |built| < MAX_MAIL - 1 {
      NormalizeSafe(addr[1..], if Stripped(addr[0]) then built else built + [LowerChar(addr[0])]);
    }
  }

  /** Normalising twice is normalising once. */
  lemma {:induction false} NormalizeFixed(addr: string, built: string)
    requires |built| + |addr| < MAX_MAIL
    requires forall i :: 0 <= i < |addr| ==> !Stripped(addr[i]) && LowerChar(addr[i]) == addr[i]
    ensures Normalize(addr, built) == built + addr
    decreases |addr|
  {
    if addr != [] {
      NormalizeFixed(addr[1..], built + [addr[0]]);
      assert built + [addr[0]] + addr[1..] == built + addr;
    }
  }

  lemma NormalizeTwice(addr: string)
    ensures Normalize(Normalize(addr, []), []) == Normalize(addr, [])
  {
    NormalizeSafe(addr, []);
    NormalizeFixed(Normalize(addr, []), []);
  }

  function TrimCR(s: string): string {
    if s != [] && s[|s| - 1] == '\r' then s[..|s| - 1] else s
  }
}
