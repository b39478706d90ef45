/** The scanner of internal/ipc/codec.go, working along a text by position, proved to compute
    the functions of IpcText on the text still unread. */
module IpcScanner {
  import opened Basics
  import opened IpcText
  import IpcCodec

  class Scanner {
    const src: string
    var pos: nat

    constructor (body: string)
      ensures src == body && pos == 0
    {
      src := body;
      pos := 0;
    }

    ghost predicate Valid()
      reads this
    {
      pos <= |src|
    }

    ghost function Unread(): string
      requires Valid()
      reads this
    {
      src[pos..]
    }

    predicate Eof()
      reads this
    {
      pos >= |src|
    }

    method SkipSpaces()
      requires Valid()
      modifies this
      ensures Valid() && pos >= old(pos)
      ensures Unread() == SkipSpace(old(Unread()))
    {
      ghost var start := Unread();
      while pos < |src|
        invariant Valid() && pos >= old(pos)
        invariant SkipSpace(Unread()) == SkipSpace(start)
        decreases |src| - pos
      {
        assert Unread()[0] == src[pos] && Unread()[1..] == src[pos + 1..];
        if IsBlank(src[pos]) {
          pos := pos + 1;
        } else if src[pos] == '#' {
          SkipLine();
        } else {
          return;
        }
      }
    }

    /** The comment loop, entered at a hash sign and left at the end of the line. */
    method SkipLine()
      requires Valid() && pos < |src| && src[pos] == '#'
      modifies this
      ensures Valid() && pos > old(pos)
      ensures Unread() == SkipComment(old(Unread())[1..])
      ensures SkipSpace(Unread()) == SkipSpace(old(Unread()))
    {
      ghost var start := Unread();
      assert start[0] == '#' && start[1..] == src[pos + 1..];
      pos := pos + 1;
      while pos < |src| && src[pos] != '\n'
        invariant Valid() && pos > old(pos)
        invariant SkipComment(Unread()) == SkipComment(start[1..])
        decreases |src| - pos
      {
        assert Unread()[0] == src[pos] && Unread()[1..] == src[pos + 1..];
        pos := pos + 1;
      }
    }

    method Consume(c: char) returns (ok: bool)
      requires Valid()
      modifies this
      ensures Valid()
      ensures ok == (old(Unread()) != [] && old(Unread())[0] == c)
      ensures Unread() == if ok then old(Unread())[1..] else old(Unread())
    {
      ok := pos < |src| && src[pos] == c;
      if ok {
        assert Unread()[1..] == src[pos + 1..];
        pos := pos + 1;
      }
    }

    /** The longest run of name characters; an empty one is an error. */
    method Name() returns (name: string)
      requires Valid()
      modifies this
      ensures Valid()
      ensures var n := NameLength(old(Unread())); name == old(Unread())[..n] && Unread() == old(Unread())[n..]
    {
      ghost var start := Unread();
      var first := pos;
      while pos < |src| && IsNameChar(src[pos])
        invariant Valid() && first <= pos
        invariant NameLength(start) == pos - first + NameLength(Unread())
        decreases |src| - pos
      {
        assert Unread()[0] == src[pos] && Unread()[1..] == src[pos + 1..];
        pos := pos + 1;
      }
      name := src[first..pos];
    }

    /** The longest run of digits. */
    method Digits() returns (digits: string)
      requires Valid()
      modifies this
      ensures Valid() && pos == old(pos) + DigitsLength(old(Unread()))
      ensures digits == old(Unread())[..DigitsLength(old(Unread()))]
    {
      ghost var start := Unread();
      var first := pos;
      while pos < |src| && IsDigit(src[pos])
        invariant Valid() && first <= pos
        invariant DigitsLength(start) == pos - first + DigitsLength(Unread())
        decreases |src| - pos
      {
        assert Unread()[0] == src[pos] && Unread()[1..] == src[pos + 1..];
        pos := pos + 1;
      }
      digits := src[first..pos];
    }

    /** A run of digits in the range of an int; otherwise the position is put back. */
    method ReadNumber() returns (n: Option<nat>)
      requires Valid()
      modifies this
      ensures Valid()
      ensures n.Some? <==> Number(old(Unread())).Some?
      ensures n.Some? ==> Number(old(Unread())) == Some(Parsed(n.value, Unread()))
      ensures n.None? ==> pos == old(pos)
    {
      hide DigitsLength, Atoi;
      var first := pos;
      var digits := Digits();
      if digits == [] {
        return None;
      }
      var v := Atoi(digits);
      if v > MAX_INT {
        pos := first;
        return None;
      }
      n := Some(v);
    }

    /** A quoted string, entered at its opening quote. */
    method ReadQuoted() returns (s: Option<string>)
      requires Valid() && pos < |src|
      modifies this
      ensures Valid() && pos > old(pos)
      ensures s.Some? <==> Quoted(old(Unread())[1..], []).Some?
      ensures s.Some? ==> Quoted(old(Unread())[1..], []) == Some(Parsed(s.value, Unread()))
    {
      assert Unread()[1..] == src[pos + 1..];
      pos := pos + 1;
      ghost var want := Quoted(Unread(), []);
      var sb := [];
      while pos < |src|
        invariant Valid() && pos > old(pos)
        invariant Quoted(Unread(), sb) == want
        decreases |src| - pos
      {
        var c := src[pos];
        assert Unread()[0] == c && Unread()[1..] == src[pos + 1..];
        pos := pos + 1;
        if c == '\\' {
          if pos >= |src| {
            return None;
          }
          assert src[pos - 1..][1] == src[pos] && src[pos - 1..][2..] == src[pos + 1..];
          sb := sb + [src[pos]];
          pos := pos + 1;
        } else if c == '"' {
          return Some(sb);
        } else {
          sb := sb + [c];
        }
      }
      s := None;
    }

    /** The items of a list, entered behind its opening bracket. */
    method ReadList() returns (items: Option<seq<string>>)
      requires Valid()
      modifies this
      ensures Valid() && pos >= old(pos)
      ensures items.Some? <==> List(old(Unread()), []).Some?
      ensures items.Some? ==> List(old(Unread()), []) == Some(Parsed(items.value, Unread()))
    {
      hide SkipSpace, Quoted, Number;
      ghost var want := List(Unread(), []);
      var list := [];
      while true
        invariant Valid() && pos >= old(pos)
        invariant List(Unread(), list) == want
        decreases |src| - pos
      {
        SkipSpaces();
        var closed := Consume(']');
        if closed {
          return Some(list);
        }
        if Eof() {
          return None;
        }
        if src[pos] == '"' {
          var s := ReadQuoted();
          if s.None? {
            return None;
          }
          list := list + [s.value];
        } else {
          var n := ReadNumber();
          if n.None? {
            return None;
          }
          list := list + [Dec(n.value)];
        }
      }
    }

    method ReadValue() returns (v: Option<Value>)
      requires Valid()
      modifies this
      ensures Valid()
      ensures v.Some? <==> ValueOf(old(Unread())).Some?
      ensures v.Some? ==> ValueOf(old(Unread())) == Some(Parsed(v.value, Unread()))
    {
      hide Quoted, Number, List;
      if Eof() {
        return None;
      }
      if src[pos] == '"' {
        var s := ReadQuoted();
        v := if s.Some? then Some(StrV(s.value)) else None;
      } else if src[pos] == '[' {
        assert Unread()[1..] == src[pos + 1..];
        pos := pos + 1;
        var items := ReadList();
        v := if items.Some? then Some(ListV(items.value)) else None;
      } else {
        var n := ReadNumber();
        v := if n.Some? then Some(IntV(n.value)) else None;
      }
    }

    /** One turn of the loop of parseFields, behind the leading space. */
    method ReadAssignment() returns (a: Option<(string, Value)>)
      requires Valid()
      modifies this
      ensures Valid()
      ensures a.Some? <==> Assignment(old(Unread())).Some?
      ensures a.Some? ==> Assignment(old(Unread())) == Some(Parsed(a.value, Unread()))
    {
      hide SkipSpace, NameLength, ValueOf;
      var name := Name();
      if name == [] {
        return None;
      }
      SkipSpaces();
      var ok := Consume('=');
      if !ok {
        return None;
      }
      SkipSpaces();
      var v := ReadValue();
      a := if v.Some? then Some((ToLower(name), v.value)) else None;
    }
  }

  method Parse(body: string) returns (r: Option<Fields>)
    ensures r == ParseFields(body, map[])
  {
    hide SkipSpace, Assignment;
    var sc := new Scanner(body);
    var f: Fields := map[];
    assert sc.src[0..] == body;
    while true
      invariant sc.Valid() && fresh(sc)
      invariant ParseFields(sc.Unread(), f) == ParseFields(body, map[])
      decreases |sc.src| - sc.pos
    {
      ghost var before := |sc.Unread()|;
      sc.SkipSpaces();
      if sc.Eof() {
        return Some(f);
      }
      var a := sc.ReadAssignment();
      if a.None? {
        return None;
      }
      f := f[a.value.0 := a.value.1];
      assert |sc.Unread()| < before;
    }
  }

  method Decode(body: string) returns (m: IpcCodec.Decoded)
    ensures m == IpcCodec.Decode(body)
  {
    var f := Parse(body);
    if f.None? {
      return IpcCodec.SyntaxError;
    }
    m := IpcCodec.Classify(f.value);
  }
}
