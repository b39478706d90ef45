/** Fixed-width big-endian integers (encoding/binary's BigEndian). */
module BigEndian {
  import opened Arithmetic
  import opened Basics
  import opened ByteStrings

  function Pow256(n: nat): (p: nat)
    ensures p > 0
  {
    if n == 0 then 1 else 256 * Pow256(n - 1)
  }

  /** The low `width` bytes of n, most significant first (a truncating Go conversion
      followed by PutUint16, PutUint32 or PutUint64). */
  function Put(n: nat, width: nat): (b: Bytes)
    ensures |b| == width
  {
    if width == 0 then [] else Put(n / 256, width - 1) + [n % 256]
  }

  function Get(b: Bytes): nat {
    if b == [] then 0 else Get(b[..|b| - 1]) * 256 + b[|b| - 1]
  }

  /** Most significant byte first: the byte at i holds the digit of 256 to the power of the number of
      bytes behind it. */
  lemma {:induction false} PutBytes(n: nat, width: nat, i: nat)
    requires i < width
    ensures Put(n, width)[i] == n / Pow256(width - 1 - i) % 256
  {
    if i < width - 1 {
      PutBytes(n / 256, width - 1, i);
      var p := Pow256(width - 2 - i);
      assert Pow256(width - 1 - i) == 256 * p;
      DivDiv(n, 256, p);
    } else {
      assert Pow256(0) == 1;
    }
  }

  lemma {:induction false} GetPut(n: nat, width: nat)
    requires n < Pow256(width)
    ensures Get(Put(n, width)) == n
  {
    if width > 0 {
      GetPut(n / 256, width - 1);
      assert Put(n, width)[..width - 1] == Put(n / 256, width - 1);
    }
  }

  lemma {:induction false} PutGet(b: Bytes)
    ensures Get(b) < Pow256(|b|)
    ensures Put(Get(b), |b|) == b
  {
    if b != [] {
      var front, last := b[..|b| - 1], b[|b| - 1];
      PutGet(front);
      assert Get(b) / 256 == Get(front) && Get(b) % 256 == last;
      assert b == front + [last];
    }
  }

  lemma PowValues()
    ensures Pow256(2) == 0x1_0000
    ensures Pow256(4) == 0x1_0000_0000
    ensures Pow256(8) == 0x1_0000_0000_0000_0000
  {
    assert Pow256(1) == 256;
    assert Pow256(2) == 0x1_0000;
    assert Pow256(3) == 0x100_0000;
    assert Pow256(4) == 0x1_0000_0000;
    assert Pow256(5) == 0x100_0000_0000;
    assert Pow256(6) == 0x1_0000_0000_0000;
    assert Pow256(7) == 0x100_0000_0000_0000;
  }
}
