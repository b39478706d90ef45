/** The seccomp filter generator of internal/sandbox: lists of system call numbers compiled to
    classic BPF jump programs, and an interpreter that says what the programs do. */
module Seccomp {
  import opened Basics

  type Word = U32

  const ARCH_OFFSET: Word := 4
  const NR_OFFSET: Word := 0
  const KILL: Word := 0x8000_0000
  const ALLOW: Word := 0x7fff_0000
  const EPERM: Word := 0x0005_0001
  const BLOCK := 200
  const MAX_DENIED := 250

  /** The instructions the generator emits: an absolute load, a comparison with two 8-bit
      forward offsets, an unconditional jump and a return. */
  datatype Insn = Load(offset: Word) | JumpEq(k: Word, jt: Byte, jf: Byte) | Jump(k: Word) | Ret(k: Word)

  /** The call being judged. */
  datatype Call = Call(nr: Word, arch: Word)

  datatype Outcome = Returned(k: Word) | Fault

  /** Classic BPF: offsets count from the next instruction; leaving the program is a fault. */
  function Run(prog: seq<Insn>, pc: nat, acc: Word, c: Call): Outcome
    decreases |prog| - pc
  {
    if pc >= |prog| then Fault
    else match prog[pc]
      case Load(offset) =>
        if offset == NR_OFFSET then Run(prog, pc + 1, c.nr, c)
        else if offset == ARCH_OFFSET then Run(prog, pc + 1, c.arch, c)
        else Fault
      case JumpEq(k, jt, jf) => Run(prog, pc + 1 + if acc == k then jt else jf, acc, c)
      case Jump(k) => Run(prog, pc + 1 + k, acc, c)
      case Ret(k) => Returned(k)
  }

  function Judge(prog: seq<Insn>, c: Call): Outcome { Run(prog, 0, 0, c) }

  /** Go's uint8(n). */
  function ToByte(n: int): Byte { n % 256 }

  lemma ByteKept(n: int)
    requires 0 <= n < 256
    ensures ToByte(n) == n
  {
  }

  function Header(arch: Word): seq<Insn> {
    [Load(ARCH_OFFSET), JumpEq(arch, 1, 0), Ret(KILL), Load(NR_OFFSET)]
  }

  /** A foreign architecture is killed; otherwise the body starts with the call number. */
  lemma HeaderMeaning(arch: Word, body: seq<Insn>, c: Call)
    ensures Judge(Header(arch) + body, c) ==
            if c.arch == arch then Run(Header(arch) + body, 4, c.nr, c) else Returned(KILL)
  {
    var prog := Header(arch) + body;
    assert prog[0] == Load(ARCH_OFFSET) && prog[1] == JumpEq(arch, 1, 0);
    assert prog[2] == Ret(KILL) && prog[3] == Load(NR_OFFSET);
    assert Run(prog, 0, 0, c) == Run(prog, 1, c.arch, c);
    if c.arch == arch {
      assert Run(prog, 1, c.arch, c) == Run(prog, 3, c.arch, c);
    } else {
      assert Run(prog, 1, c.arch, c) == Run(prog, 2, c.arch, c);
    }
  }

  // ----- the deny list -----

  function DenyJumps(denied: seq<Word>, n: nat): seq<Insn>
    requires n <= |denied|
  {
    seq(n, i requires 0 <= i < n => JumpEq(denied[i], ToByte(|denied| - i), 0))
  }

  function DenyProgram(arch: Word, denied: seq<Word>): seq<Insn> {
    Header(arch) + (DenyJumps(denied, |denied|) + [Ret(ALLOW), Ret(EPERM)])
  }

  lemma {:induction false} DenyBody(arch: Word, denied: seq<Word>, i: nat, c: Call)
    requires i <= |denied| <= MAX_DENIED
    ensures Run(DenyProgram(arch, denied), 4 + i, c.nr, c) ==
            Returned(if c.nr in denied[i..] then EPERM else ALLOW)
    decreases |denied| - i
  {
    var prog, n := DenyProgram(arch, denied), |denied|;
    assert prog[4 + n] == Ret(ALLOW) && prog[5 + n] == Ret(EPERM);
    if i < n {
      ByteKept(n - i);
      assert prog[4 + i] == DenyJumps(denied, n)[i];
      if c.nr == denied[i] {
        assert Run(prog, 4 + i, c.nr, c) == Run(prog, 5 + n, c.nr, c);
        assert c.nr in denied[i..];
      } else {
        DenyBody(arch, denied, i + 1, c);
        assert denied[i..] == [denied[i]] + denied[i + 1..];
      }
    }
  }

  /** What a filter must do: kill foreign architectures, and decide by the list. */
  ghost predicate Filters(prog: seq<Insn>, arch: Word, listed: seq<Word>, yes: Word, no: Word) {
    forall c :: Judge(prog, c) == Returned(if c.arch != arch then KILL else if c.nr in listed then yes else no)
  }

  lemma DenyMeaning(arch: Word, denied: seq<Word>)
    requires |denied| <= MAX_DENIED
    ensures Filters(DenyProgram(arch, denied), arch, denied, EPERM, ALLOW)
  {
    hide Judge;
    forall c ensures Judge(DenyProgram(arch, denied), c) ==
      Returned(if c.arch != arch then KILL else if c.nr in denied then EPERM else ALLOW)
    {
      HeaderMeaning(arch, DenyJumps(denied, |denied|) + [Ret(ALLOW), Ret(EPERM)], c);
      DenyBody(arch, denied, 0, c);
      assert denied[0..] == denied;
    }
  }

  /** seccomp, non-strict: the program, or an error when the list does not fit the 8-bit
      jumps. Listed calls fail with EPERM and no others do. */
  method Deny(arch: Word, denied: seq<Word>) returns (r: Option<seq<Insn>>)
    ensures r.Some? <==> |denied| <= MAX_DENIED
    ensures r.Some? ==> Filters(r.value, arch, denied, EPERM, ALLOW)
  {
    var prog := [Load(ARCH_OFFSET), JumpEq(arch, 1, 0), Ret(KILL), Load(NR_OFFSET)];
    for i := 0 to |denied|
      invariant prog == Header(arch) + DenyJumps(denied, i)
    {
      var remaining := |denied| - i - 1;
      prog := prog + [JumpEq(denied[i], ToByte(remaining + 1), 0)];
    }
    prog := prog + [Ret(ALLOW), Ret(EPERM)];
    if |denied| > MAX_DENIED { return None; }
    assert prog == DenyProgram(arch, denied);
    DenyMeaning(arch, denied);
    return Some(prog);
  }

  // ----- the allow list -----

  function Min(a: int, b: int): int { if a < b then a else b }

  function BlockJumps(part: seq<Word>, n: nat): seq<Insn>
    requires n <= |part|
  {
    seq(n, i requires 0 <= i < n => JumpEq(part[i], ToByte(|part| - i), 0))
  }

  function OneBlock(part: seq<Word>): seq<Insn> {
    BlockJumps(part, |part|) + [Jump(1), Ret(ALLOW)]
  }

  function Blocks(rest: seq<Word>): seq<Insn> {
    if rest == [] then []
    else
      var e := Min(BLOCK, |rest|);
      OneBlock(rest[..e]) + Blocks(rest[e..])
  }

  /** A block returns ALLOW for its own numbers and otherwise falls to what follows it. */
  lemma {:induction false} BlockMeaning(prog: seq<Insn>, pc: nat, part: seq<Word>, i: nat, c: Call)
    requires i <= |part| <= BLOCK && pc + |part| + 2 <= |prog|
    requires prog[pc..pc + |part| + 2] == OneBlock(part)
    ensures Run(prog, pc + i, c.nr, c) ==
            if c.nr in part[i..] then Returned(ALLOW) else Run(prog, pc + |part| + 2, c.nr, c)
    decreases |part| - i
  {
    var n := |part|;
    assert prog[pc + n] == OneBlock(part)[n] == Jump(1);
    assert prog[pc + n + 1] == OneBlock(part)[n + 1] == Ret(ALLOW);
    if i < n {
      ByteKept(n - i);
      assert prog[pc + i] == OneBlock(part)[i] == BlockJumps(part, n)[i];
      if c.nr == part[i] {
        assert Run(prog, pc + i, c.nr, c) == Run(prog, pc + n + 1, c.nr, c);
        assert c.nr in part[i..];
      } else {
        BlockMeaning(prog, pc, part, i + 1, c);
        assert part[i..] == [part[i]] + part[i + 1..];
      }
    }
  }

  lemma RefusalMeaning(prog: seq<Insn>, pc: nat, c: Call)
    requires pc <= |prog| && prog[pc..] == Blocks([]) + [Ret(EPERM)]
    ensures Run(prog, pc, c.nr, c) == Returned(EPERM)
  {
    assert prog[pc] == prog[pc..][0] == Ret(EPERM);
  }

  lemma {:induction false} BlocksMeaning(prog: seq<Insn>, pc: nat, rest: seq<Word>, c: Call)
    requires pc <= |prog| && prog[pc..] == Blocks(rest) + [Ret(EPERM)]
    ensures Run(prog, pc, c.nr, c) == Returned(if c.nr in rest then ALLOW else EPERM)
    decreases |rest|
  {
    hide Run;
    if rest == [] {
      RefusalMeaning(prog, pc, c);
    } else {
      var e := Min(BLOCK, |rest|);
      var part := rest[..e];
      var blk := OneBlock(part);
      assert prog[pc..] == blk + (Blocks(rest[e..]) + [Ret(EPERM)]);
      assert prog[pc..pc + e + 2] == prog[pc..][..e + 2] == blk;
      BlockMeaning(prog, pc, part, 0, c);
      assert prog[pc + e + 2..] == prog[pc..][e + 2..] == Blocks(rest[e..]) + [Ret(EPERM)];
      BlocksMeaning(prog, pc + e + 2, rest[e..], c);
      assert part[0..] == part && rest == part + rest[e..];
    }
  }

  function AllowProgram(arch: Word, allowed: seq<Word>): seq<Insn> {
    Header(arch) + (Blocks(allowed) + [Ret(EPERM)])
  }

  lemma AllowMeaning(arch: Word, allowed: seq<Word>)
    ensures Filters(AllowProgram(arch, allowed), arch, allowed, ALLOW, EPERM)
  {
    hide Judge;
    var prog := AllowProgram(arch, allowed);
    forall c ensures Judge(prog, c) ==
      Returned(if c.arch != arch then KILL else if c.nr in allowed then ALLOW else EPERM)
    {
      HeaderMeaning(arch, Blocks(allowed) + [Ret(EPERM)], c);
      assert prog[4..] == Blocks(allowed) + [Ret(EPERM)];
      BlocksMeaning(prog, 4, allowed, c);
    }
  }

  lemma {:induction false} BlocksSplit(a: seq<Word>, b: seq<Word>)
    requires |a| % BLOCK == 0
    ensures Blocks(a + b) == Blocks(a) + Blocks(b)
    decreases |a|
  {
    hide OneBlock, Blocks;
    if a == [] {
      BlocksNone();
      assert a + b == b && [] + Blocks(b) == Blocks(b);
    } else {
      var first := OneBlock(a[..BLOCK]);
      assert (a + b)[..BLOCK] == a[..BLOCK] && (a + b)[BLOCK..] == a[BLOCK..] + b;
      BlocksFirst(a + b);
      BlocksFirst(a);
      BlocksSplit(a[BLOCK..], b);
      assert first + (Blocks(a[BLOCK..]) + Blocks(b)) == (first + Blocks(a[BLOCK..])) + Blocks(b);
    }
  }

  /** seccompAllow: for a list of any length, listed calls are allowed and all others fail
      with EPERM. */
  method Allow(arch: Word, allowed: seq<Word>) returns (prog: seq<Insn>)
    ensures Filters(prog, arch, allowed, ALLOW, EPERM)
  {
    hide Filters, Blocks;
    prog := [Load(ARCH_OFFSET), JumpEq(arch, 1, 0), Ret(KILL), Load(NR_OFFSET)];
    BlocksNone();
    var start := 0;
    while start < |allowed|
      invariant 0 <= start && (start < |allowed| ==> start % BLOCK == 0)
      invariant prog == Header(arch) + Blocks(allowed[..Min(start, |allowed|)])
    {
      var end := Min(start + BLOCK, |allowed|);
      ghost var before, part := prog, allowed[start..end];
      for i := start to end
        invariant prog == before + BlockJumps(part, i - start)
      {
        prog := prog + [JumpEq(allowed[i], ToByte(end - i), 0)];
      }
      prog := prog + [Jump(1)];
      prog := prog + [Ret(ALLOW)];
      assert prog == before + OneBlock(part);
      BlocksOne(part);
      BlocksSplit(allowed[..start], part);
      assert allowed[..start] + part == allowed[..end];
      start := start + BLOCK;
    }
    assert allowed[..|allowed|] == allowed;
    prog := prog + [Ret(EPERM)];
    assert prog == AllowProgram(arch, allowed);
    AllowMeaning(arch, allowed);
  }

  lemma BlocksFirst(a: seq<Word>)
    requires |a| >= BLOCK
    ensures Blocks(a) == OneBlock(a[..BLOCK]) + Blocks(a[BLOCK..])
  {
  }

  lemma BlocksNone()
    ensures Blocks([]) == []
  {
  }

  lemma BlocksOne(part: seq<Word>)
    requires 0 < |part| <= BLOCK
    ensures Blocks(part) == OneBlock(part)
  {
    assert part[..|part|] == part && part[|part|..] == [];
  }
}
