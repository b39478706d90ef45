/** Byte strings in the order Go's sort.Strings and a bbolt cursor use, and the
    sorted sequence of a finite set of them. */
module ByteStrings {
  import opened Basics

  type Bytes = seq<Byte>

  /** Byte-wise lexicographic order. */
  predicate Less(a: Bytes, b: Bytes)
    decreases a
  {
    b != [] && (a == [] || a[0] < b[0] || (a[0] == b[0] && Less(a[1..], b[1..])))
  }

  /** One string comes before another if and only if, behind what they share, it has ended or its
      next byte is smaller. */
  lemma {:induction false} LessExactly(a: Bytes, b: Bytes)
    ensures Less(a, b) <==>
      exists i: nat :: i <= |a| && i < |b| && a[..i] == b[..i] && (i == |a| || a[i] < b[i])
    decreases a
  {
    if Less(a, b) {
      if a == [] || a[0] < b[0] {
        assert a[..0] == b[..0];
      } else {
        LessExactly(a[1..], b[1..]);
        var i: nat :| i <= |a[1..]| && i < |b[1..]| && a[1..][..i] == b[1..][..i] &&
                      (i == |a[1..]| || a[1..][i] < b[1..][i]);
        assert a[..i + 1] == [a[0]] + a[1..][..i] && b[..i + 1] == [b[0]] + b[1..][..i];
      }
    }
    if i: nat :| i <= |a| && i < |b| && a[..i] == b[..i] && (i == |a| || a[i] < b[i]) {
      if i > 0 {
        assert a[0] == a[..i][0] && b[0] == b[..i][0];
        assert a[1..][..i - 1] == a[..i][1..] && b[1..][..i - 1] == b[..i][1..];
        LessExactly(a[1..], b[1..]);
      }
    }
  }

  lemma {:induction false} LessIrreflexive(a: Bytes)
    ensures !Less(a, a)
    decreases a
  {
    if a != [] { LessIrreflexive(a[1..]); }
  }

  lemma {:induction false} LessTransitive(a: Bytes, b: Bytes, c: Bytes)
    requires Less(a, b) && Less(b, c)
    ensures Less(a, c)
    decreases a
  {
    if a != [] && a[0] == b[0] == c[0] {
      LessTransitive(a[1..], b[1..], c[1..]);
    }
  }

  lemma {:induction false} LessTotal(a: Bytes, b: Bytes)
    ensures a == b || Less(a, b) || Less(b, a)
    decreases a
  {
    if a != [] && b != [] && a[0] == b[0] {
      LessTotal(a[1..], b[1..]);
      assert a == [a[0]] + a[1..] && b == [b[0]] + b[1..];
    }
  }

  ghost predicate StrictlySorted(ks: seq<Bytes>) {
    forall i, j :: 0 <= i < j < |ks| ==> Less(ks[i], ks[j])
  }

  function Elems(ks: seq<Bytes>): set<Bytes> {
    set k | k in ks
  }

  lemma ElemsConcat(a: seq<Bytes>, b: seq<Bytes>)
    ensures Elems(a + b) == Elems(a) + Elems(b)
  {
  }

  /** Insertion into a sorted sequence. */
  function Insert(ks: seq<Bytes>, k: Bytes): (r: seq<Bytes>)
    ensures Elems(r) == Elems(ks) + {k}
  {
    if ks == [] then [k]
    else if Less(ks[0], k) then
      ElemsConcat([ks[0]], Insert(ks[1..], k));
      ElemsConcat([ks[0]], ks[1..]);
      assert ks == [ks[0]] + ks[1..];
      [ks[0]] + Insert(ks[1..], k)
    else
      ElemsConcat([k], ks);
      [k] + ks
  }

  lemma {:induction false} InsertSorted(ks: seq<Bytes>, k: Bytes)
    requires StrictlySorted(ks) && k !in ks
    ensures StrictlySorted(Insert(ks, k))
  {
    var r := Insert(ks, k);
    if ks == [] {
    } else if Less(ks[0], k) {
      InsertSorted(ks[1..], k);
      var rest := Insert(ks[1..], k);
      forall j | 0 < j < |r| ensures Less(r[0], r[j]) {
        assert r[j] == rest[j - 1];
        assert rest[j - 1] in Elems(rest);
        if rest[j - 1] != k {
          var p :| 0 <= p < |ks[1..]| && ks[1..][p] == rest[j - 1];
          assert ks[p + 1] == r[j];
        }
      }
      forall i, j | 0 <= i < j < |r| ensures Less(r[i], r[j]) {
        if i > 0 {
          assert r[i] == rest[i - 1] && r[j] == rest[j - 1];
        }
      }
    } else {
      LessTotal(ks[0], k);
      forall i, j | 0 <= i < j < |r| ensures Less(r[i], r[j]) {
        if i == 0 {
          if j > 1 { LessTransitive(k, ks[0], ks[j - 1]); }
        } else {
          assert r[i] == ks[i - 1] && r[j] == ks[j - 1];
        }
      }
    }
  }

  /** The one strictly ascending sequence that holds exactly the given keys. */
  ghost function SortedKeys(s: set<Bytes>): (ks: seq<Bytes>)
    ensures StrictlySorted(ks) && Elems(ks) == s
  {
    if s == {} then []
    else
      var k :| k in s;
      InsertSorted(SortedKeys(s - {k}), k);
      Insert(SortedKeys(s - {k}), k)
  }

  lemma {:induction false} SortedUnique(a: seq<Bytes>, b: seq<Bytes>)
    requires StrictlySorted(a) && StrictlySorted(b) && Elems(a) == Elems(b)
    ensures a == b
  {
    assert a != [] ==> a[0] in Elems(a);
    assert b != [] ==> b[0] in Elems(b);
    if a != [] && b != [] {
      SortedHead(a, b);
      SortedTail(a);
      SortedTail(b);
      SortedUnique(a[1..], b[1..]);
      assert a == [a[0]] + a[1..] && b == [b[0]] + b[1..];
    }
  }

  lemma SortedHead(a: seq<Bytes>, b: seq<Bytes>)
    requires StrictlySorted(a) && StrictlySorted(b) && Elems(a) == Elems(b)
    requires a != [] && b != []
    ensures a[0] == b[0]
  {
    assert a[0] in Elems(b) && b[0] in Elems(a);
    var i :| 0 <= i < |b| && b[i] == a[0];
    var j :| 0 <= j < |a| && a[j] == b[0];
    if i > 0 && j > 0 {
      LessTransitive(a[0], b[0], a[0]);
      LessIrreflexive(a[0]);
    }
  }

  lemma SortedTail(a: seq<Bytes>)
    requires StrictlySorted(a) && a != []
    ensures StrictlySorted(a[1..]) && Elems(a[1..]) == Elems(a) - {a[0]}
  {
    LessIrreflexive(a[0]);
    forall k ensures k in Elems(a[1..]) <==> k in Elems(a) - {a[0]} {
      if k in Elems(a) - {a[0]} {
        var i :| 0 <= i < |a| && a[i] == k;
        assert a[1..][i - 1] == k;
      }
      if k in Elems(a[1..]) {
        var i :| 0 <= i < |a[1..]| && a[1..][i] == k;
        assert a[i + 1] == k;
      }
    }
  }

  /** sort.Strings over the keys of a map, or a cursor walk over a bucket: the
      order in which the keys come out of the set does not matter. */
  method SortSet(s: set<Bytes>) returns (ks: seq<Bytes>)
    ensures ks == SortedKeys(s)
  {
    ks := [];
    var rest := s;
    while rest != {}
      invariant rest <= s
      invariant StrictlySorted(ks) && Elems(ks) == s - rest
      decreases rest
    {
      var k :| k in rest;
      assert k !in Elems(ks);
      InsertSorted(ks, k);
      ks := Insert(ks, k);
      rest := rest - {k};
    }
    SortedUnique(ks, SortedKeys(s));
  }

  /** The elements of a sequence that belong to a set, in order. */
  function Keep(ks: seq<Bytes>, s: set<Bytes>): (r: seq<Bytes>)
    ensures Elems(r) == Elems(ks) * s
  {
    if ks == [] then []
    else
      var front, last := ks[..|ks| - 1], ks[|ks| - 1];
      ElemsConcat(front, [last]);
      ElemsConcat(Keep(front, s), [last]);
      assert ks == front + [last];
      if last in s then Keep(front, s) + [last] else Keep(front, s)
  }

  /** Keeping part of a sorted sequence gives the sorted sequence of that part. */
  lemma KeepIsSortedKeys(ks: seq<Bytes>, s: set<Bytes>)
    requires StrictlySorted(ks)
    ensures Keep(ks, s) == SortedKeys(Elems(ks) * s)
  {
    KeepSorted(ks, s);
    SortedUnique(Keep(ks, s), SortedKeys(Elems(ks) * s));
  }

  lemma {:induction false} KeepSorted(ks: seq<Bytes>, s: set<Bytes>)
    requires StrictlySorted(ks)
    ensures StrictlySorted(Keep(ks, s))
  {
    if ks != [] {
      var front, last := ks[..|ks| - 1], ks[|ks| - 1];
      KeepSorted(front, s);
      forall k | k in Elems(front) ensures Less(k, last) {
        var p :| 0 <= p < |front| && front[p] == k;
        assert ks[p] == k;
      }
      AppendSorted(Keep(front, s), last);
    }
  }

  lemma AppendSorted(ks: seq<Bytes>, last: Bytes)
    requires StrictlySorted(ks)
    requires forall k :: k in Elems(ks) ==> Less(k, last)
    ensures StrictlySorted(ks + [last])
  {
    var r := ks + [last];
    forall i, j | 0 <= i < j < |r| ensures Less(r[i], r[j]) {
      assert r[i] == ks[i] && ks[i] in Elems(ks);
    }
  }
}
