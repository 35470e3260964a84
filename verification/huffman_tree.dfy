/**
  Construction of the frequency tree (`buildTree` in `huffman/codec.cpp`).

  The source's `std::priority_queue` is modelled as a sequence kept sorted in
  pop order. A newly pushed node is placed after every node that pops no later
  than it; this fixes the one order the heap leaves open, between two internal
  nodes of equal frequency (both carry symbol −1).
*/
module HuffmanTree {
  import opened Results
  import opened Bytes
  import opened HuffmanTypes

  /** A leaf for one byte value, or an internal node (symbol −1) owning both children. */
  datatype Tree = Leaf(freq: nat, symbol: byte) | Node(freq: nat, left: Tree, right: Tree)

  /** The symbol the comparator sees: the byte of a leaf, −1 for an internal node. */
  function SymbolKey(t: Tree): int {
    if t.Leaf? then t.symbol else -1
  }

  /** `NodePtrComparator(lhs, rhs)`: true when `rhs` pops strictly before `lhs`. */
  predicate Compare(lhs: Tree, rhs: Tree) {
    if lhs.freq == rhs.freq then SymbolKey(lhs) > SymbolKey(rhs) else lhs.freq > rhs.freq
  }

  /** `a` pops no later than `b`: the negation of `Compare(a, b)`, as a lexicographic key order. */
  predicate NoLater(a: Tree, b: Tree) {
    a.freq < b.freq || (a.freq == b.freq && SymbolKey(a) <= SymbolKey(b))
  }

  /** Pop order: no element pops strictly before one in front of it. */
  predicate Sorted(q: seq<Tree>) {
    forall i, j :: 0 <= i < j < |q| ==> NoLater(q[i], q[j])
  }

  /** `queue.push(t)`: `t` goes in front of the first node it pops strictly before. */
  function Insert(q: seq<Tree>, t: Tree): (r: seq<Tree>)
    ensures |r| == |q| + 1
    ensures multiset(r) == multiset(q) + multiset{t}
  {
    if |q| == 0 then [t]
    else if Compare(q[0], t) then [t] + q
    else
      assert q == [q[0]] + q[1..];
      [q[0]] + Insert(q[1..], t)
  }

  /** Pushing keeps the queue in pop order. */
  lemma {:induction false} InsertSorted(q: seq<Tree>, t: Tree)
    requires Sorted(q)
    ensures Sorted(Insert(q, t))
  {
    var r := Insert(q, t);
    if |q| > 0 && Compare(q[0], t) {
      assert NoLater(t, q[0]);
      forall i, j | 0 <= i < j < |r|
        ensures NoLater(r[i], r[j])
      {
        if i > 0 {
          assert r[i] == q[i - 1] && r[j] == q[j - 1];
        } else {
          assert r[j] == q[j - 1];
        }
      }
    } else if |q| > 0 {
      var x := Insert(q[1..], t);
      InsertSorted(q[1..], t);
      assert r == [q[0]] + x;
      forall i, j | 0 <= i < j < |r|
        ensures NoLater(r[i], r[j])
      {
        if i > 0 {
          assert r[i] == x[i - 1] && r[j] == x[j - 1];
        } else {
          assert r[j] == x[j - 1];
          assert x[j - 1] in multiset(q[1..]) + multiset{t};
          if x[j - 1] != t {
            assert x[j - 1] in q[1..];
          }
        }
      }
    }
  }

  // ---------------------------------------------------------------------------
  // Leaves, sums and well-formedness

  function LeafSymbols(t: Tree): (r: seq<byte>)
    ensures |r| > 0
  {
    match t
    case Leaf(_, s) => [s]
    case Node(_, l, r) => LeafSymbols(l) + LeafSymbols(r)
  }

  /** The leaf symbols of every tree of a queue, front to back. */
  function QueueLeaves(q: seq<Tree>): seq<byte> {
    if |q| == 0 then [] else LeafSymbols(q[0]) + QueueLeaves(q[1..])
  }

  function QueueSum(q: seq<Tree>): nat {
    if |q| == 0 then 0 else q[0].freq + QueueSum(q[1..])
  }

  /** Every internal node's frequency is the sum of its children's; leaves carry `freqs[symbol]`, never 0. */
  predicate WellFormed(t: Tree, freqs: FrequencyTable) {
    match t
    case Leaf(f, s) => f == freqs[s] && f > 0
    case Node(f, l, r) => f == l.freq + r.freq && WellFormed(l, freqs) && WellFormed(r, freqs)
  }

  function Height(t: Tree): nat {
    match t
    case Leaf(_, _) => 0
    case Node(_, l, r) => 1 + (if Height(l) < Height(r) then Height(r) else Height(l))
  }

  /** A tree with `n` leaves is at most `n - 1` levels deep. */
  lemma {:induction false} HeightBound(t: Tree)
    ensures Height(t) < |LeafSymbols(t)|
  {
    if t.Node? {
      HeightBound(t.left);
      HeightBound(t.right);
    }
  }

  function Sum(f: seq<u32>): nat {
    if |f| == 0 then 0 else Sum(f[..|f| - 1]) + f[|f| - 1]
  }

  /** The symbols `< s` whose frequency is nonzero, ascending. */
  function NonzeroSymbols(freqs: FrequencyTable, s: nat): (r: seq<byte>)
    requires s <= 256
    ensures forall x: byte :: x in r <==> x < s && freqs[x] != 0
    ensures |r| <= s
  {
    if s == 0 then []
    else
      var p := NonzeroSymbols(freqs, s - 1);
      p + (if freqs[s - 1] != 0 then [s - 1] else [])
  }

  /** The nonzero symbols are listed in increasing order, so each appears once. */
  lemma {:induction false} NonzeroSymbolsIncreasing(freqs: FrequencyTable, s: nat)
    requires s <= 256
    ensures forall i, j :: 0 <= i < j < |NonzeroSymbols(freqs, s)| ==> NonzeroSymbols(freqs, s)[i] < NonzeroSymbols(freqs, s)[j]
  {
    if s > 0 {
      var p := NonzeroSymbols(freqs, s - 1);
      NonzeroSymbolsIncreasing(freqs, s - 1);
      assert forall i :: 0 <= i < |p| ==> p[i] in p;
    }
  }

  lemma InsertLeaves(q: seq<Tree>, t: Tree)
    ensures multiset(QueueLeaves(Insert(q, t))) == multiset(QueueLeaves(q)) + multiset(LeafSymbols(t))
  {
    if |q| > 0 && !Compare(q[0], t) {
      InsertLeaves(q[1..], t);
      assert Insert(q, t)[1..] == Insert(q[1..], t);
    } else if |q| > 0 {
      assert Insert(q, t)[1..] == q;
    }
  }

  lemma InsertSum(q: seq<Tree>, t: Tree)
    ensures QueueSum(Insert(q, t)) == QueueSum(q) + t.freq
  {
    if |q| > 0 && !Compare(q[0], t) {
      InsertSum(q[1..], t);
      assert Insert(q, t)[1..] == Insert(q[1..], t);
    } else if |q| > 0 {
      assert Insert(q, t)[1..] == q;
    }
  }

  // ---------------------------------------------------------------------------
  // buildTree

  /** The leaves `buildTree` pushes for symbols `0 .. s-1`, in pop order. */
  function InitialQueue(freqs: FrequencyTable, s: nat): (q: seq<Tree>)
    requires s <= 256
    ensures |q| <= s
  {
    if s == 0 then []
    else
      var q := InitialQueue(freqs, s - 1);
      if freqs[s - 1] == 0 then q
      else Insert(q, Leaf(freqs[s - 1], s - 1))
  }

  /** The pushes keep the queue in pop order. */
  lemma {:induction false} InitialQueueSorted(freqs: FrequencyTable, s: nat)
    requires s <= 256
    ensures Sorted(InitialQueue(freqs, s))
  {
    if s > 0 {
      InitialQueueSorted(freqs, s - 1);
      if freqs[s - 1] != 0 {
        InsertSorted(InitialQueue(freqs, s - 1), Leaf(freqs[s - 1], s - 1));
      }
    }
  }

  lemma {:induction false} InitialQueueLeaves(freqs: FrequencyTable, s: nat)
    requires s <= 256
    ensures multiset(QueueLeaves(InitialQueue(freqs, s))) == multiset(NonzeroSymbols(freqs, s))
  {
    if s > 0 {
      var q, p := InitialQueue(freqs, s - 1), NonzeroSymbols(freqs, s - 1);
      InitialQueueLeaves(freqs, s - 1);
      if freqs[s - 1] != 0 {
        var t := Leaf(freqs[s - 1], s - 1);
        InsertLeaves(q, t);
        assert multiset(NonzeroSymbols(freqs, s)) == multiset(p) + multiset(LeafSymbols(t));
      } else {
        assert NonzeroSymbols(freqs, s) == p;
      }
    }
  }

  /** The queue's total frequency is the table's sum. */
  lemma {:induction false} InitialQueueSum(freqs: FrequencyTable, s: nat)
    requires s <= 256
    ensures QueueSum(InitialQueue(freqs, s)) == Sum(freqs[..s])
  {
    if s > 0 {
      InitialQueueSum(freqs, s - 1);
      assert freqs[..s][..s - 1] == freqs[..s - 1];
      if freqs[s - 1] != 0 {
        InsertSum(InitialQueue(freqs, s - 1), Leaf(freqs[s - 1], s - 1));
      }
    }
  }

  /** Every pushed leaf carries its symbol's nonzero frequency. */
  lemma {:induction false} InitialQueueWellFormed(freqs: FrequencyTable, s: nat)
    requires s <= 256
    ensures forall t :: t in InitialQueue(freqs, s) ==> WellFormed(t, freqs)
  {
    if s > 0 {
      InitialQueueWellFormed(freqs, s - 1);
      var q := InitialQueue(freqs, s - 1);
      if freqs[s - 1] != 0 {
        var leaf := Leaf(freqs[s - 1], s - 1);
        assert WellFormed(leaf, freqs);
        forall t | t in Insert(q, leaf)
          ensures WellFormed(t, freqs)
        {
          assert t in multiset(q) + multiset{leaf};
        }
      }
    }
  }

  /** The merge loop: pop the two smallest, push their parent, until one node is left. */
  function Merge(q: seq<Tree>): (root: Tree)
    requires |q| > 0
    decreases |q|
  {
    if |q| == 1 then q[0]
    else
      var left, right := q[0], q[1];
      Merge(Insert(q[2..], Node(left.freq + right.freq, left, right)))
  }

  /**
    On a queue in pop order the merge loop pops the two smallest nodes, and
    the queue it continues with is again in pop order.
  */
  lemma PopTwoSmallest(q: seq<Tree>)
    requires |q| >= 2 && Sorted(q)
    ensures forall k :: 1 <= k < |q| ==> NoLater(q[0], q[k])
    ensures forall k :: 2 <= k < |q| ==> NoLater(q[1], q[k])
    ensures Sorted(Insert(q[2..], Node(q[0].freq + q[1].freq, q[0], q[1])))
  {
    InsertSorted(q[2..], Node(q[0].freq + q[1].freq, q[0], q[1]));
  }

  /** Unfolds the queue measures past the two nodes the merge loop pops. */
  lemma QueueFront(q: seq<Tree>)
    requires |q| >= 2
    ensures QueueLeaves(q) == LeafSymbols(q[0]) + LeafSymbols(q[1]) + QueueLeaves(q[2..])
  {
    assert q[1..][1..] == q[2..];
  }

  lemma QueueFrontSum(q: seq<Tree>)
    requires |q| >= 2
    ensures QueueSum(q) == q[0].freq + q[1].freq + QueueSum(q[2..])
  {
    assert q[1..][1..] == q[2..];
  }

  /** The queue after one merge step. */
  function MergeStep(q: seq<Tree>): seq<Tree>
    requires |q| >= 2
  {
    Insert(q[2..], Node(q[0].freq + q[1].freq, q[0], q[1]))
  }

  /** One merge step keeps the queue's leaves. */
  lemma MergeStepLeaves(q: seq<Tree>)
    requires |q| >= 2
    ensures multiset(QueueLeaves(MergeStep(q))) == multiset(QueueLeaves(q))
  {
    InsertLeaves(q[2..], Node(q[0].freq + q[1].freq, q[0], q[1]));
    QueueFront(q);
  }

  /** One merge step keeps the queue's total frequency. */
  lemma MergeStepSum(q: seq<Tree>)
    requires |q| >= 2
    ensures QueueSum(MergeStep(q)) == QueueSum(q)
  {
    QueueFrontSum(q);
    InsertSum(q[2..], Node(q[0].freq + q[1].freq, q[0], q[1]));
  }

  /** Merging keeps every leaf. */
  lemma {:induction false} MergeLeaves(q: seq<Tree>)
    requires |q| > 0
    ensures multiset(LeafSymbols(Merge(q))) == multiset(QueueLeaves(q))
    decreases |q|
  {
    if |q| == 1 {
      assert QueueLeaves(q) == LeafSymbols(q[0]) + QueueLeaves([]);
    } else {
      assert Merge(q) == Merge(MergeStep(q));
      MergeStepLeaves(q);
      MergeLeaves(MergeStep(q));
    }
  }

  /** The root's frequency is the queue's total. */
  lemma {:induction false} MergeSum(q: seq<Tree>)
    requires |q| > 0
    ensures Merge(q).freq == QueueSum(q)
    decreases |q|
  {
    if |q| > 1 {
      assert Merge(q) == Merge(MergeStep(q));
      MergeStepSum(q);
      MergeSum(MergeStep(q));
    }
  }

  /** Inserting a well-formed tree into a queue of well-formed trees keeps them all well-formed. */
  lemma InsertWellFormed(q: seq<Tree>, t: Tree, freqs: FrequencyTable)
    requires forall u :: u in q ==> WellFormed(u, freqs)
    requires WellFormed(t, freqs)
    ensures forall u :: u in Insert(q, t) ==> WellFormed(u, freqs)
  {
    forall u | u in Insert(q, t)
      ensures WellFormed(u, freqs)
    {
      assert u in multiset(q) + multiset{t};
    }
  }

  /** Merging well-formed trees yields a well-formed tree. */
  lemma {:induction false} MergeWellFormed(q: seq<Tree>, freqs: FrequencyTable)
    requires |q| > 0
    requires forall t :: t in q ==> WellFormed(t, freqs)
    ensures WellFormed(Merge(q), freqs)
    decreases |q|
  {
    if |q| > 1 {
      var parent := Node(q[0].freq + q[1].freq, q[0], q[1]);
      assert WellFormed(parent, freqs);
      assert forall u :: u in q[2..] ==> u in q;
      InsertWellFormed(q[2..], parent, freqs);
      MergeWellFormed(MergeStep(q), freqs);
    }
  }

  // ---------------------------------------------------------------------------
  // The whole builder

  predicate Distinct(s: seq<byte>) {
    forall i, j :: 0 <= i < j < |s| ==> s[i] != s[j]
  }

  lemma {:induction false} DistinctCounts(b: seq<byte>)
    requires Distinct(b)
    ensures forall x :: multiset(b)[x] <= 1
  {
    if |b| > 0 {
      var init := b[..|b| - 1];
      assert b == init + [b[|b| - 1]];
      DistinctCounts(init);
      assert b[|b| - 1] !in init;
    }
  }

  lemma DuplicateCount(a: seq<byte>, i: nat, j: nat)
    requires i < j < |a| && a[i] == a[j]
    ensures multiset(a)[a[i]] >= 2
  {
    assert a == a[..i] + [a[i]] + a[i + 1..j] + [a[j]] + a[j + 1..];
  }

  /** A sequence with the same elements as a duplicate-free one is duplicate-free. */
  lemma DistinctByMultiset(a: seq<byte>, b: seq<byte>)
    requires multiset(a) == multiset(b) && Distinct(b)
    ensures Distinct(a)
  {
    DistinctCounts(b);
    forall i, j | 0 <= i < j < |a|
      ensures a[i] != a[j]
    {
      if a[i] == a[j] {
        DuplicateCount(a, i, j);
        assert false;
      }
    }
  }

  lemma {:induction false} InitialQueueLength(freqs: FrequencyTable, s: nat)
    requires s <= 256
    ensures |InitialQueue(freqs, s)| == |NonzeroSymbols(freqs, s)|
  {
    if s > 0 {
      InitialQueueLength(freqs, s - 1);
    }
  }

  lemma EmptyQueue(freqs: FrequencyTable)
    ensures |InitialQueue(freqs, 256)| == 0 <==> forall x: byte :: freqs[x] == 0
  {
    InitialQueueLength(freqs, 256);
    if |InitialQueue(freqs, 256)| != 0 {
      var nz := NonzeroSymbols(freqs, 256);
      assert freqs[nz[0]] != 0;
    } else {
      assert NonzeroSymbols(freqs, 256) == [];
    }
  }

  lemma RootLeaves(freqs: FrequencyTable)
    requires |InitialQueue(freqs, 256)| > 0
    ensures multiset(LeafSymbols(Merge(InitialQueue(freqs, 256)))) == multiset(NonzeroSymbols(freqs, 256))
    ensures Distinct(LeafSymbols(Merge(InitialQueue(freqs, 256))))
    ensures forall x: byte :: x in LeafSymbols(Merge(InitialQueue(freqs, 256))) <==> freqs[x] != 0
    ensures Merge(InitialQueue(freqs, 256)).Leaf? <==> |NonzeroSymbols(freqs, 256)| == 1
  {
    var q := InitialQueue(freqs, 256);
    InitialQueueLeaves(freqs, 256);
    MergeLeaves(q);
    var leaves := LeafSymbols(Merge(q));
    var nz := NonzeroSymbols(freqs, 256);
    NonzeroSymbolsIncreasing(freqs, 256);
    DistinctByMultiset(leaves, nz);
    forall x: byte
      ensures x in leaves <==> freqs[x] != 0
    {
      assert x in leaves <==> x in multiset(leaves);
      assert x in nz <==> x in multiset(nz);
    }
    assert |leaves| == |multiset(leaves)| == |multiset(nz)| == |nz|;
  }

  lemma RootSum(freqs: FrequencyTable)
    requires |InitialQueue(freqs, 256)| > 0
    ensures Merge(InitialQueue(freqs, 256)).freq == Sum(freqs)
  {
    InitialQueueSum(freqs, 256);
    MergeSum(InitialQueue(freqs, 256));
    assert freqs[..256] == freqs;
  }

  /**
    `buildTree`: no tree for an all-zero table; otherwise a well-formed tree
    whose root carries the table's total.
  */
  function BuildTree(freqs: FrequencyTable): (r: Option<Tree>)
    ensures r.None? <==> forall x: byte :: freqs[x] == 0
    ensures r.Some? ==> WellFormed(r.value, freqs) && r.value.freq == Sum(freqs)
  {
    var q := InitialQueue(freqs, 256);
    EmptyQueue(freqs);
    if |q| == 0 then
      None
    else
      InitialQueueWellFormed(freqs, 256);
      MergeWellFormed(q, freqs);
      RootSum(freqs);
      Some(Merge(q))
  }

  /**
    The leaves of the built tree are exactly the nonzero symbols, each once;
    the tree is a single leaf exactly when one symbol is nonzero.
  */
  lemma BuildTreeLeaves(freqs: FrequencyTable)
    requires BuildTree(freqs).Some?
    ensures multiset(LeafSymbols(BuildTree(freqs).value)) == multiset(NonzeroSymbols(freqs, 256))
    ensures Distinct(LeafSymbols(BuildTree(freqs).value))
    ensures forall x: byte :: x in LeafSymbols(BuildTree(freqs).value) <==> freqs[x] != 0
    ensures BuildTree(freqs).value.Leaf? <==> |NonzeroSymbols(freqs, 256)| == 1
  {
    EmptyQueue(freqs);
    RootLeaves(freqs);
  }
}
