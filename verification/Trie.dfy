/** The radix trie of internal/blacklist: heap nodes linked by the bits of a prefix, one root
    per address family. An address is its bits, most significant first; its length (32 or
    128) is its family. */
module Trie {
  type Bits = seq<bool>

  /** A masked prefix: the family and the bits that count. */
  datatype Prefix = Prefix(fam: int, path: Bits)

  function Extend(p: Prefix, bit: bool): Prefix { Prefix(p.fam, p.path + [bit]) }

  function Parent(p: Prefix): Prefix
    requires p.path != []
  {
    Prefix(p.fam, p.path[..|p.path| - 1])
  }

  lemma ExtendInjective(p: Prefix, b: bool)
    ensures Extend(p, b).path != [] && Parent(Extend(p, b)) == p
    ensures forall q, c :: Extend(q, c) == Extend(p, b) ==> q == p && c == b
    ensures forall f :: Prefix(f, []) != Extend(p, b)
  {
    assert (p.path + [b])[..|p.path|] == p.path;
    forall q, c | Extend(q, c) == Extend(p, b) ensures q == p && c == b {
      assert (q.path + [c])[..|q.path|] == q.path;
      assert (q.path + [c])[|q.path|] == c && (p.path + [b])[|p.path|] == b;
    }
  }

  class Node {
    var zero: Node?
    var one: Node?
    var terminal: bool

    constructor ()
      ensures zero == null && one == null && !terminal
    {
      zero, one, terminal := null, null, false;
    }

    function Kid(bit: bool): Node?
      reads this
    {
      if bit then one else zero
    }
  }

  /** The node of every path that has one. */
  type Nodes = map<Prefix, Node>

  ghost function Lookup(nodes: Nodes, p: Prefix): Node? {
    if p in nodes then nodes[p] else null
  }

  /** Paths are closed under parents and have their own nodes. */
  ghost predicate Tree(nodes: Nodes) {
    && (forall p {:trigger Parent(p)} :: p in nodes && p.path != [] ==> Parent(p) in nodes)
    && (forall p, q {:trigger nodes[p], nodes[q]} :: p in nodes && q in nodes && nodes[p] == nodes[q] ==> p == q)
  }

  /** A node points to the nodes of the two longer paths. */
  ghost predicate LinkedAt(nodes: Nodes, p: Prefix)
    requires p in nodes
    reads nodes.Values
  {
    nodes[p].zero == Lookup(nodes, Extend(p, false)) && nodes[p].one == Lookup(nodes, Extend(p, true))
  }

  ghost predicate Linked(nodes: Nodes)
    reads nodes.Values
  {
    forall p {:trigger LinkedAt(nodes, p)} :: p in nodes ==> LinkedAt(nodes, p)
  }

  ghost function Terminals(nodes: Nodes): set<Prefix>
    reads nodes.Values
  {
    set p | p in nodes && nodes[p].terminal
  }

  lemma NoOrphan(nodes: Nodes, p: Prefix, b: bool)
    requires Tree(nodes) && p !in nodes
    ensures Extend(p, b) !in nodes
  {
    ExtendInjective(p, b);
    var q := Extend(p, b);
    var up := Parent(q);
  }

  lemma KidIs(nodes: Nodes, p: Prefix, bit: bool)
    requires Linked(nodes) && p in nodes
    ensures nodes[p].Kid(bit) == Lookup(nodes, Extend(p, bit))
  {
    assert LinkedAt(nodes, p);
  }

  class Trie {
    var roots: map<int, Node>
    var count: int
    ghost var nodes: Nodes

    ghost predicate Shape()
      reads this, nodes.Values
    {
      && (forall f :: f in roots <==> Prefix(f, []) in nodes)
      && (forall f :: f in roots ==> roots[f] == nodes[Prefix(f, [])])
      && Tree(nodes) && Linked(nodes)
    }

    /** The prefixes that were inserted. */
    ghost function Prefixes(): set<Prefix>
      reads this, nodes.Values
    {
      Terminals(nodes)
    }

    ghost predicate Valid()
      reads this, nodes.Values
    {
      Shape() && count == |Prefixes()|
    }

    constructor ()
      ensures Valid() && fresh(nodes.Values) && Prefixes() == {}
    {
      roots, count, nodes := map[], 0, map[];
    }

    method AddRoot(fam: int) returns (n: Node)
      requires Shape() && fam !in roots
      modifies this
      ensures Shape() && fresh(n) && count == old(count)
      ensures nodes == old(nodes)[Prefix(fam, []) := n] && Prefixes() == old(Prefixes())
    {
      ghost var q := Prefix(fam, []);
      n := new Node();
      NoOrphan(nodes, q, false);
      NoOrphan(nodes, q, true);
      ExtendInjective(q, false);
      ExtendInjective(q, true);
      roots := roots[fam := n];
      nodes := nodes[q := n];
      forall x | x in nodes ensures LinkedAt(nodes, x) {
        if x != q {
          assert old(LinkedAt(nodes, x));
          ExtendInjective(x, false);
          ExtendInjective(x, true);
        }
      }
      assert Terminals(nodes) == old(Terminals(nodes));
    }

    /** A new node below the node of p. */
    method AddKid(n: Node, ghost p: Prefix, bit: bool) returns (kid: Node)
      requires Shape() && p in nodes && nodes[p] == n && Extend(p, bit) !in nodes
      modifies this`nodes, n
      ensures Shape() && fresh(kid)
      ensures nodes == old(nodes)[Extend(p, bit) := kid] && Prefixes() == old(Prefixes())
    {
      ghost var q := Extend(p, bit);
      ExtendInjective(p, bit);
      NoOrphan(nodes, q, false);
      NoOrphan(nodes, q, true);
      ExtendInjective(q, false);
      ExtendInjective(q, true);
      kid := new Node();
      if bit { n.one := kid; } else { n.zero := kid; }
      nodes := nodes[q := kid];
      forall x | x in nodes ensures LinkedAt(nodes, x) {
        if x != q { assert old(LinkedAt(nodes, x)); }
      }
      assert Terminals(nodes) == old(Terminals(nodes));
    }

    /** The child for one more bit, made if it is missing. */
    method GoDown(n: Node, ghost p: Prefix, bit: bool) returns (kid: Node)
      requires Shape() && p in nodes && nodes[p] == n
      modifies this`nodes, n
      ensures Shape() && Extend(p, bit) in nodes && nodes[Extend(p, bit)] == kid
      ensures fresh(nodes.Values - old(nodes.Values)) && Prefixes() == old(Prefixes())
    {
      hide Tree, Linked, Extend, Parent, Terminals;
      KidIs(nodes, p, bit);
      if n.Kid(bit) == null {
        var added := AddKid(n, p, bit);
        KidIs(nodes, p, bit);
      }
      kid := n.Kid(bit);
    }

    method Mark(n: Node, ghost p: Prefix)
      requires Valid() && p in nodes && nodes[p] == n && !n.terminal
      modifies this`count, n`terminal
      ensures Valid() && Prefixes() == old(Prefixes()) + {p}
    {
      n.terminal := true;
      count := count + 1;
      forall x | x in nodes ensures LinkedAt(nodes, x) { assert old(LinkedAt(nodes, x)); }
      assert Terminals(nodes) == old(Terminals(nodes)) + {p};
    }

    /** The root of a family, made if it is missing. */
    method Root(fam: int) returns (n: Node)
      requires Shape()
      modifies this
      ensures Shape() && Prefix(fam, []) in nodes && nodes[Prefix(fam, [])] == n && count == old(count)
      ensures fresh(nodes.Values - old(nodes.Values)) && Prefixes() == old(Prefixes())
    {
      hide Tree, Linked, Terminals;
      if fam in roots {
        return roots[fam];
      }
      n := AddRoot(fam);
    }

    /** The node of the first bits of an address, with all nodes above it. */
    method Reach(root: Node, addr: Bits, bits: nat) returns (n: Node)
      requires Shape() && bits <= |addr| && Prefix(|addr|, []) in nodes && nodes[Prefix(|addr|, [])] == root
      modifies this`nodes, nodes.Values
      ensures Shape() && Prefix(|addr|, addr[..bits]) in nodes && nodes[Prefix(|addr|, addr[..bits])] == n
      ensures fresh(nodes.Values - old(nodes.Values)) && Prefixes() == old(Prefixes())
    {
      hide Shape, Prefixes, Extend;
      n := root;
      assert addr[..0] == [];
      var i := 0;
      while i < bits
        invariant i <= bits && Shape() && Prefix(|addr|, addr[..i]) in nodes && nodes[Prefix(|addr|, addr[..i])] == n
        invariant fresh(nodes.Values - old(nodes.Values)) && Prefixes() == old(Prefixes())
      {
        Descend(addr, i);
        n := GoDown(n, Prefix(|addr|, addr[..i]), addr[i]);
        i := i + 1;
      }
    }

    /** Insert: true exactly when the masked prefix is new; it is on the list afterwards and
        nothing else changes. */
    method Insert(addr: Bits, bits: nat) returns (isNew: bool)
      requires Valid() && bits <= |addr|
      modifies this, nodes.Values
      ensures Valid() && fresh(nodes.Values - old(nodes.Values))
      ensures isNew <==> Prefix(|addr|, addr[..bits]) !in old(Prefixes())
      ensures Prefixes() == old(Prefixes()) + {Prefix(|addr|, addr[..bits])}
    {
      hide Shape;
      var root := Root(|addr|);
      var n := Reach(root, addr, bits);
      if n.terminal { return false; }
      Mark(n, Prefix(|addr|, addr[..bits]));
      return true;
    }

    /** Contains: some inserted prefix of the family covers the address. */
    method Contains(a: Bits) returns (found: bool)
      requires Valid()
      ensures found <==> exists j :: 0 <= j <= |a| && Prefix(|a|, a[..j]) in Prefixes()
    {
      hide Tree, Linked, Extend, Parent;
      assert a[..0] == [];
      if |a| !in roots {
        forall j | 0 <= j <= |a| ensures Prefix(|a|, a[..j]) !in nodes { NoPath(nodes, a, 0, j); }
        return false;
      }
      var n := roots[|a|];
      for i := 0 to |a|
        invariant Prefix(|a|, a[..i]) in nodes && nodes[Prefix(|a|, a[..i])] == n
        invariant forall j :: 0 <= j < i ==> Prefix(|a|, a[..j]) !in Prefixes()
      {
        if n.terminal {
          assert Prefix(|a|, a[..i]) in Prefixes();
          return true;
        }
        Descend(a, i);
        KidIs(nodes, Prefix(|a|, a[..i]), a[i]);
        if n.Kid(a[i]) == null {
          forall j | i < j <= |a| ensures Prefix(|a|, a[..j]) !in nodes { NoPath(nodes, a, i + 1, j); }
          return false;
        }
        n := n.Kid(a[i]);
      }
      assert a[..|a|] == a;
      return n.terminal;
    }

    /** Len: the number of distinct prefixes. */
    method Len() returns (n: int)
      requires Valid()
      ensures n == |Prefixes()|
    {
      return count;
    }
  }

  lemma Descend(a: Bits, i: nat)
    requires i < |a|
    ensures Prefix(|a|, a[..i + 1]) == Extend(Prefix(|a|, a[..i]), a[i])
  {
    assert a[..i + 1] == a[..i] + [a[i]];
  }

  /** Below a missing node nothing is stored. */
  lemma {:induction false} NoPath(nodes: Nodes, a: Bits, i: nat, j: nat)
    requires Tree(nodes) && i <= j <= |a| && Prefix(|a|, a[..i]) !in nodes
    ensures Prefix(|a|, a[..j]) !in nodes
    decreases j - i
  {
    if i < j {
      NoOrphan(nodes, Prefix(|a|, a[..i]), a[i]);
      Descend(a, i);
      NoPath(nodes, a, i + 1, j);
    }
  }
}
