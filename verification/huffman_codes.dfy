/**
  The code table (`buildCodeTable` in `huffman/codec.cpp`): the bit string of
  each symbol is its root-to-leaf path, `false` for a left step and `true` for
  a right step; a tree that is a single leaf gives its symbol the code `[false]`.
*/
module HuffmanCodes {
  import opened Results
  import opened Bytes
  import opened HuffmanTree

  /** One bit string per byte value; empty for a symbol with no leaf. */
  type CodeTable = t: seq<seq<bool>> | |t| == 256 witness EmptyTable()

  const NoBits: seq<bool> := []

  /** The table before any leaf is visited: every entry empty. */
  function EmptyTable(): (t: seq<seq<bool>>)
    ensures |t| == 256 && forall s :: 0 <= s < 256 ==> t[s] == []
  {
    seq(256, _ => NoBits)
  }

  /**
    `buildCodeTable(node, prefix, table)`: a leaf records the prefix, or appends
    `false` to its entry when the prefix is empty; a node visits its left child
    with `prefix + [false]`, then its right child with `prefix + [true]`.
  */
  function BuildCodeTable(t: Tree, prefix: seq<bool>, table: CodeTable): (r: CodeTable)
    ensures forall s: byte :: s !in LeafSymbols(t) ==> r[s] == table[s]
  {
    match t
    case Leaf(_, s) => table[s := if |prefix| == 0 then table[s] + [false] else prefix]
    case Node(_, l, rt) => BuildCodeTable(rt, prefix + [true], BuildCodeTable(l, prefix + [false], table))
  }

  /** The table the encoder builds for `root`, starting from empty entries. */
  function CodeTableOf(root: Tree): CodeTable {
    BuildCodeTable(root, NoBits, EmptyTable())
  }

  /** Independent reference: the steps from `t` to the (first) leaf holding `s`. */
  function Path(t: Tree, s: byte): (p: seq<bool>)
    requires s in LeafSymbols(t)
    ensures |p| <= Height(t)
    ensures t.Node? ==> |p| > 0
  {
    match t
    case Leaf(_, _) => []
    case Node(_, l, r) => if s in LeafSymbols(l) then [false] + Path(l, s) else [true] + Path(r, s)
  }

  /** The subtree reached by following `p` from `t`, or `None` when a step leaves a leaf. */
  function Descend(t: Tree, p: seq<bool>): Option<Tree> {
    if |p| == 0 then Some(t)
    else if t.Leaf? then None
    else Descend(if p[0] then t.right else t.left, p[1..])
  }

  /** Splitting a duplicate-free sequence gives two duplicate-free, disjoint halves. */
  lemma DistinctSplit(a: seq<byte>, b: seq<byte>)
    requires Distinct(a + b)
    ensures Distinct(a) && Distinct(b)
    ensures forall x :: x in a ==> x !in b
  {
    forall i, j | 0 <= i < j < |a|
      ensures a[i] != a[j]
    {
      assert a[i] == (a + b)[i] && a[j] == (a + b)[j];
    }
    forall i, j | 0 <= i < j < |b|
      ensures b[i] != b[j]
    {
      assert b[i] == (a + b)[|a| + i] && b[j] == (a + b)[|a| + j];
    }
    forall x | x in a
      ensures x !in b
    {
      var i :| 0 <= i < |a| && a[i] == x;
      assert (a + b)[i] == x;
      assert forall j :: 0 <= j < |b| ==> b[j] == (a + b)[|a| + j];
    }
  }

  /**
    With duplicate-free leaves, each leaf symbol's entry becomes the prefix
    followed by its path, and every other entry is left unchanged.
  */
  lemma {:induction false} BuildCodeTableSpec(t: Tree, prefix: seq<bool>, table: CodeTable)
    requires Distinct(LeafSymbols(t))
    requires |prefix| > 0 || t.Node?
    ensures forall s: byte :: s in LeafSymbols(t) ==> BuildCodeTable(t, prefix, table)[s] == prefix + Path(t, s)
  {
    if t.Node? {
      var l, r := t.left, t.right;
      DistinctSplit(LeafSymbols(l), LeafSymbols(r));
      var mid := BuildCodeTable(l, prefix + [false], table);
      BuildCodeTableSpec(l, prefix + [false], table);
      BuildCodeTableSpec(r, prefix + [true], mid);
      forall s: byte | s in LeafSymbols(t)
        ensures BuildCodeTable(t, prefix, table)[s] == prefix + Path(t, s)
      {
        if s in LeafSymbols(l) {
          assert prefix + [false] + Path(l, s) == prefix + Path(t, s);
        } else {
          assert prefix + [true] + Path(r, s) == prefix + Path(t, s);
        }
      }
    }
  }

  /**
    The encoder's table: empty entries for absent symbols, `[false]` for the
    only symbol of a one-leaf tree, and otherwise the nonempty root-to-leaf path.
  */
  lemma CodeTableOfSpec(root: Tree)
    requires Distinct(LeafSymbols(root))
    ensures forall s: byte :: s !in LeafSymbols(root) ==> CodeTableOf(root)[s] == []
    ensures root.Leaf? ==> CodeTableOf(root)[root.symbol] == [false]
    ensures root.Node? ==> forall s: byte :: s in LeafSymbols(root) ==> CodeTableOf(root)[s] == Path(root, s)
  {
    var e := EmptyTable();
    if root.Leaf? {
      assert CodeTableOf(root) == e[root.symbol := e[root.symbol] + [false]];
    } else {
      BuildCodeTableSpec(root, NoBits, e);
      forall s: byte | s in LeafSymbols(root)
        ensures CodeTableOf(root)[s] == Path(root, s)
      {
        assert NoBits + Path(root, s) == Path(root, s);
      }
    }
  }

  /** In a tree with internal nodes, a symbol's code is its path. */
  lemma NodeCode(root: Tree, s: byte)
    requires root.Node? && Distinct(LeafSymbols(root)) && s in LeafSymbols(root)
    ensures CodeTableOf(root)[s] == Path(root, s)
  {
    CodeTableOfSpec(root);
  }

  lemma {:induction false} DescendAppend(t: Tree, a: seq<bool>, b: seq<bool>)
    requires Descend(t, a).Some?
    ensures Descend(t, a + b) == Descend(Descend(t, a).value, b)
  {
    if |a| > 0 {
      assert (a + b)[1..] == a[1..] + b;
      DescendAppend(if a[0] then t.right else t.left, a[1..], b);
    } else {
      assert a + b == b;
    }
  }

  /**
    Following a symbol's path ends at its leaf, and passes only through
    internal nodes on the way.
  */
  lemma {:induction false} PathReachesLeaf(t: Tree, s: byte)
    requires s in LeafSymbols(t)
    ensures Descend(t, Path(t, s)).Some?
    ensures Descend(t, Path(t, s)).value == Leaf(Descend(t, Path(t, s)).value.freq, s)
    ensures forall k :: 0 <= k < |Path(t, s)| ==> Descend(t, Path(t, s)[..k]).Some? && Descend(t, Path(t, s)[..k]).value.Node?
  {
    if t.Node? {
      var p := Path(t, s);
      var child := if s in LeafSymbols(t.left) then t.left else t.right;
      PathReachesLeaf(child, s);
      assert p[1..] == Path(child, s);
      forall k | 0 <= k < |p|
        ensures Descend(t, p[..k]).Some? && Descend(t, p[..k]).value.Node?
      {
        if k > 0 {
          assert p[..k][1..] == Path(child, s)[..k - 1];
        }
      }
    }
  }

  /**
    The code is prefix-free: no symbol's path is a prefix of another symbol's,
    and distinct symbols have distinct paths.
  */
  lemma PrefixFree(t: Tree, a: byte, b: byte)
    requires a in LeafSymbols(t) && b in LeafSymbols(t) && a != b
    ensures !(Path(t, a) <= Path(t, b))
  {
    PathReachesLeaf(t, a);
    PathReachesLeaf(t, b);
  }

  /** Every code is at most 255 bits: a path is no longer than the height, and there are at most 256 leaves. */
  lemma PathLength(t: Tree, s: byte)
    requires s in LeafSymbols(t)
    ensures |Path(t, s)| < |LeafSymbols(t)|
  {
    HeightBound(t);
  }
}
