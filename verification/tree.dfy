/** Huffman tree construction (file_compressor.py lines 8-21 and 39-50).
    Lemmas that do not call themselves carry `{:induction false}` too: it keeps Dafny's
    automatic induction from slowing their proofs. */
module HuffmanTree {
  import opened Common
  import opened Frequency

  /** `HuffmanNode`: a leaf carries a byte, an internal node two children. */
  datatype Node =
    | Leaf(sym: Byte, freq: nat)
    | Internal(freq: nat, left: Node, right: Node)

  /** The bytes at the leaves, left to right. */
  function Leaves(n: Node): seq<Byte>
  {
    match n
    case Leaf(s, _) => [s]
    case Internal(_, l, r) => Leaves(l) + Leaves(r)
  }

  /** The tie-break value of `__lt__`: the byte of a leaf, 256 for an internal node. */
  function TieValue(n: Node): nat
  {
    if n.Leaf? then n.sym else 256
  }

  /** `HuffmanNode.__lt__` (lines 15-21): a lower frequency always comes first, and a node
      never comes before one of lower frequency. */
  predicate Less(a: Node, b: Node)
    ensures a.freq < b.freq ==> Less(a, b)
    ensures Less(a, b) ==> a.freq <= b.freq
  {
    if a.freq == b.freq then TieValue(a) < TieValue(b) else a.freq < b.freq
  }

  /** `__lt__` is the lexicographic order on (frequency, tie-break value): irreflexive and
      transitive, and two nodes are incomparable exactly when both keys agree. */
  lemma LessIsLexicographic(a: Node, b: Node, c: Node)
    ensures Less(a, b) <==> a.freq < b.freq || (a.freq == b.freq && TieValue(a) < TieValue(b))
    ensures !Less(a, a)
    ensures Less(a, b) && Less(b, c) ==> Less(a, c)
    ensures !Less(a, b) && !Less(b, a) <==> a.freq == b.freq && TieValue(a) == TieValue(b)
  {
  }

  /** At equal frequency a leaf comes before an internal node. */
  lemma LeafBeforeInternal(a: Node, b: Node)
    requires a.Leaf? && b.Internal? && a.freq == b.freq
    ensures Less(a, b) && !Less(b, a)
  {
  }

  /** Two internal nodes of equal frequency compare equal: `__lt__` is not a strict total order. */
  lemma InternalTiesIncomparable(a: Node, b: Node)
    requires a.Internal? && b.Internal? && a.freq == b.freq
    ensures !Less(a, b) && !Less(b, a)
  {
  }

  /** `heapq.heappop` in the abstract: the position of a minimum under `__lt__`. Among
      nodes that compare equal the earliest is taken. */
  function MinIndex(pool: seq<Node>): (i: nat)
    requires |pool| > 0
    ensures i < |pool|
    ensures forall j :: 0 <= j < |pool| ==> !Less(pool[j], pool[i])
    ensures forall j :: 0 <= j < i ==> Less(pool[i], pool[j])
  {
    if |pool| == 1 then 0
    else
      var k := MinIndex(pool[..|pool| - 1]);
      if Less(pool[|pool| - 1], pool[k]) then |pool| - 1 else k
  }

  /** The pool without its `i`-th node. */
  function Remove(pool: seq<Node>, i: nat): (rest: seq<Node>)
    requires i < |pool|
    ensures |rest| == |pool| - 1
    ensures multiset(rest) + multiset{pool[i]} == multiset(pool)
    ensures forall n :: n in rest ==> n in pool
  {
    assert pool == pool[..i] + [pool[i]] + pool[i + 1..];
    pool[..i] + pool[i + 1..]
  }

  /** The pool with its `i`-th node and then the `j`-th of the others replaced by one
      node that has them as left and right child and weighs their sum. */
  function Merged(pool: seq<Node>, i: nat, j: nat): (next: seq<Node>)
    requires i < |pool| && j < |pool| - 1
  {
    var rest := Remove(pool, i);
    Remove(rest, j) + [Internal(pool[i].freq + rest[j].freq, pool[i], rest[j])]
  }

  /** One iteration of lines 44-49: pop a minimum, pop a minimum of what is left, and push
      a node that has them as left and right child and weighs their sum. */
  function MergeStep(pool: seq<Node>): (next: seq<Node>)
    requires |pool| >= 2
    ensures |next| == |pool| - 1
    ensures var m := next[|next| - 1];
            && m.Internal?
            && m.freq == m.left.freq + m.right.freq
            && multiset(next[..|next| - 1]) + multiset{m.left, m.right} == multiset(pool)
            && (forall k :: 0 <= k < |pool| ==> !Less(pool[k], m.left))
            && (forall k :: 0 <= k < |next| - 1 ==> !Less(next[k], m.right))
  {
    var i := MinIndex(pool);
    var rest := Remove(pool, i);
    var j := MinIndex(rest);
    var survivors := Remove(rest, j);
    assert Merged(pool, i, j)[..|survivors|] == survivors;
    assert forall k :: 0 <= k < |survivors| ==> survivors[k] in rest;
    Merged(pool, i, j)
  }

  /** `build_huffman_tree` after line 41: merge until one node is left; `None` for an
      empty pool. */
  function BuildTree(pool: seq<Node>): (root: Option<Node>)
    ensures root.None? <==> |pool| == 0
    ensures |pool| == 1 ==> root == Some(pool[0])
    ensures |pool| >= 2 ==> root.Some? && root.value.Internal?
    decreases |pool|
  {
    if |pool| == 0 then None
    else if |pool| == 1 then Some(pool[0])
    else BuildTree(MergeStep(pool))
  }

  /** Line 41: one leaf per byte `b..255` with a non-zero count, in ascending byte order. */
  function LeavesFrom(t: Table, b: nat): seq<Node>
    requires b <= 256
    decreases 256 - b
  {
    if b == 256 then []
    else if Get(t, b) > 0 then [Leaf(b, Get(t, b))] + LeavesFrom(t, b + 1)
    else LeavesFrom(t, b + 1)
  }

  /** The node list of line 41, before `heapify`: leaves carrying their non-zero counts, in
      ascending byte order. */
  function InitialNodes(t: Table): (nodes: seq<Node>)
    ensures CountedLeaves(nodes, t, 0) && Ascending(nodes)
  {
    LeavesFromOrdered(t, 0);
    LeavesFrom(t, 0)
  }

  /** The leaf bytes of a pool of trees, tree after tree. */
  function PoolLeaves(pool: seq<Node>): seq<Byte>
  {
    if |pool| == 0 then [] else Leaves(pool[0]) + PoolLeaves(pool[1..])
  }

  lemma {:induction false} PoolLeavesConcat(a: seq<Node>, b: seq<Node>)
    ensures PoolLeaves(a + b) == PoolLeaves(a) + PoolLeaves(b)
  {
    if |a| == 0 {
      assert a + b == b;
    } else {
      assert (a + b)[0] == a[0];
      assert (a + b)[1..] == a[1..] + b;
      PoolLeavesConcat(a[1..], b);
      calc {
        PoolLeaves(a + b);
        Leaves(a[0]) + PoolLeaves(a[1..] + b);
        Leaves(a[0]) + (PoolLeaves(a[1..]) + PoolLeaves(b));
        (Leaves(a[0]) + PoolLeaves(a[1..])) + PoolLeaves(b);
      }
    }
  }

  /** The leaves of a pool with one tree `x` in the middle. */
  lemma {:induction false} PoolLeavesAround(pool: seq<Node>, before: seq<Node>, x: Node, after: seq<Node>)
    requires pool == before + ([x] + after)
    ensures PoolLeaves(pool) == PoolLeaves(before) + (Leaves(x) + PoolLeaves(after))
  {
    var tail := [x] + after;
    assert tail[0] == x && tail[1..] == after;
    PoolLeavesConcat(before, tail);
  }

  lemma SplitAt(pool: seq<Node>, i: nat)
    requires i < |pool|
    ensures pool == pool[..i] + ([pool[i]] + pool[i + 1..])
  {
  }

  /** The leaves of a pool around its `i`-th tree. */
  lemma SplitPoolLeaves(pool: seq<Node>, i: nat)
    requires i < |pool|
    ensures PoolLeaves(pool) == PoolLeaves(pool[..i]) + (Leaves(pool[i]) + PoolLeaves(pool[i + 1..]))
  {
    SplitAt(pool, i);
    PoolLeavesAround(pool, pool[..i], pool[i], pool[i + 1..]);
  }

  /** The leaves of a pool without its `i`-th tree. */
  lemma RemovePoolLeaves(pool: seq<Node>, i: nat)
    requires i < |pool|
    ensures PoolLeaves(Remove(pool, i)) == PoolLeaves(pool[..i]) + PoolLeaves(pool[i + 1..])
  {
    PoolLeavesConcat(pool[..i], pool[i + 1..]);
  }

  /** Taking one tree out of a pool takes exactly its leaves out of the pool's leaves. */
  lemma RemoveLeaves(pool: seq<Node>, i: nat)
    requires i < |pool|
    ensures multiset(PoolLeaves(pool))
            == multiset(PoolLeaves(Remove(pool, i))) + multiset(Leaves(pool[i]))
  {
    SplitPoolLeaves(pool, i);
    RemovePoolLeaves(pool, i);
    var lb, li, la := PoolLeaves(pool[..i]), Leaves(pool[i]), PoolLeaves(pool[i + 1..]);
    assert multiset(lb + (li + la)) == multiset(lb) + multiset(li) + multiset(la);
    assert multiset(lb + la) == multiset(lb) + multiset(la);
  }

  lemma MergedPoolLeaves(pool: seq<Node>, i: nat, j: nat)
    requires i < |pool| && j < |pool| - 1
    ensures var rest := Remove(pool, i);
            PoolLeaves(Merged(pool, i, j))
            == PoolLeaves(Remove(rest, j)) + (Leaves(pool[i]) + Leaves(rest[j]))
  {
    var rest := Remove(pool, i);
    var merged := Internal(pool[i].freq + rest[j].freq, pool[i], rest[j]);
    PoolLeavesConcat(Remove(rest, j), [merged]);
    assert PoolLeaves([merged]) == Leaves(pool[i]) + Leaves(rest[j]) + PoolLeaves([]);
  }

  /** Replacing two trees of a pool by one node over them keeps the pool's leaves. */
  lemma {:induction false} MergedLeaves(pool: seq<Node>, i: nat, j: nat)
    requires i < |pool| && j < |pool| - 1
    ensures multiset(PoolLeaves(Merged(pool, i, j))) == multiset(PoolLeaves(pool))
  {
    var rest := Remove(pool, i);
    var ls, li, lj := PoolLeaves(Remove(rest, j)), Leaves(pool[i]), Leaves(rest[j]);
    calc {
      multiset(PoolLeaves(Merged(pool, i, j)));
      { MergedPoolLeaves(pool, i, j); }
      multiset(ls + (li + lj));
      multiset(ls) + multiset(li) + multiset(lj);
      multiset(ls) + multiset(lj) + multiset(li);
      { RemoveLeaves(rest, j); }
      multiset(PoolLeaves(rest)) + multiset(li);
      { RemoveLeaves(pool, i); }
      multiset(PoolLeaves(pool));
    }
  }

  /** A merge step keeps the leaves of the pool, counted with multiplicity. */
  lemma {:induction false} MergeStepLeaves(pool: seq<Node>)
    requires |pool| >= 2
    ensures multiset(PoolLeaves(MergeStep(pool))) == multiset(PoolLeaves(pool))
  {
    var i := MinIndex(pool);
    MergedLeaves(pool, i, MinIndex(Remove(pool, i)));
  }

  /** The built tree has exactly the leaves of the initial pool. */
  lemma {:induction false} BuildTreeLeaves(pool: seq<Node>)
    requires |pool| > 0
    ensures multiset(Leaves(BuildTree(pool).value)) == multiset(PoolLeaves(pool))
    decreases |pool|
  {
    if |pool| == 1 {
      assert PoolLeaves(pool) == Leaves(pool[0]) + PoolLeaves([]);
    } else {
      MergeStepLeaves(pool);
      BuildTreeLeaves(MergeStep(pool));
    }
  }

  /** Every internal node weighs the sum of its children, and every leaf the count of its
      byte in `t`. */
  predicate Weighted(n: Node, t: Table)
  {
    match n
    case Leaf(s, f) => f == Get(t, s)
    case Internal(f, l, r) => f == l.freq + r.freq && Weighted(l, t) && Weighted(r, t)
  }

  /** Merging keeps every node of the pool weighted. */
  lemma {:induction false} BuildTreeWeighted(pool: seq<Node>, t: Table)
    requires |pool| > 0
    requires forall n :: n in pool ==> Weighted(n, t)
    ensures Weighted(BuildTree(pool).value, t)
    decreases |pool|
  {
    if |pool| >= 2 {
      var i := MinIndex(pool);
      var rest := Remove(pool, i);
      var j := MinIndex(rest);
      var next := Merged(pool, i, j);
      assert next == MergeStep(pool);
      forall n | n in next
        ensures Weighted(n, t)
      {
        if n !in Remove(rest, j) {
          assert n == Internal(pool[i].freq + rest[j].freq, pool[i], rest[j]);
        }
      }
      BuildTreeWeighted(next, t);
    }
  }

  lemma LeavesFromStep(t: Table, b: nat)
    requires b < 256
    ensures PoolLeaves(LeavesFrom(t, b))
            == (if Get(t, b) > 0 then [b as Byte] else []) + PoolLeaves(LeavesFrom(t, b + 1))
  {
    var rest := LeavesFrom(t, b + 1);
    if Get(t, b) > 0 {
      var pool := [Leaf(b, Get(t, b))] + rest;
      assert pool[1..] == rest;
      assert PoolLeaves(pool) == Leaves(pool[0]) + PoolLeaves(rest);
    } else {
      assert [] + PoolLeaves(rest) == PoolLeaves(rest);
    }
  }

  /** The leaves of the initial pool are the bytes with a non-zero count, each once. */
  lemma {:induction false} LeavesFromSymbols(t: Table, b: nat, c: Byte)
    requires b <= 256
    ensures multiset(PoolLeaves(LeavesFrom(t, b)))[c] == if b <= c && Get(t, c) > 0 then 1 else 0
    decreases 256 - b
  {
    if b < 256 {
      LeavesFromStep(t, b);
      LeavesFromSymbols(t, b + 1, c);
      CountAfterStep(PoolLeaves(LeavesFrom(t, b)), PoolLeaves(LeavesFrom(t, b + 1)),
                     b, c, Get(t, b) > 0, Get(t, c) > 0);
    } else {
      assert LeavesFrom(t, b) == [];
    }
  }

  /** One step of `LeavesFromSymbols`: prepending `b` (when present) to a list that holds
      `c` once exactly when `b < c` and `c` is counted. */
  lemma CountAfterStep(l0: seq<Byte>, l1: seq<Byte>, b: Byte, c: Byte, present: bool,
                       counted: bool)
    requires l0 == (if present then [b] else []) + l1
    requires b == c ==> present == counted
    requires multiset(l1)[c] == if b + 1 <= c && counted then 1 else 0
    ensures multiset(l0)[c] == if b <= c && counted then 1 else 0
  {
    var head: seq<Byte> := if present then [b] else [];
    assert multiset(l0) == multiset(head) + multiset(l1);
  }

  /** Every node of `pool` is a leaf for a byte from `b` on, weighted by its non-zero count. */
  predicate CountedLeaves(pool: seq<Node>, t: Table, b: nat)
  {
    forall i :: 0 <= i < |pool| ==>
      pool[i].Leaf? && b <= pool[i].sym && Get(t, pool[i].sym) == pool[i].freq > 0
  }

  /** The leaf bytes of `pool` strictly ascend. */
  predicate Ascending(pool: seq<Node>)
  {
    forall i, j :: 0 <= i < j < |pool| && pool[i].Leaf? && pool[j].Leaf? ==>
      pool[i].sym < pool[j].sym
  }

  /** The nodes of `LeavesFrom(t, b)` are leaves for ascending bytes from `b` on, each with
      its non-zero count as weight. */
  lemma {:induction false} LeavesFromOrdered(t: Table, b: nat)
    requires b <= 256
    decreases 256 - b
    ensures CountedLeaves(LeavesFrom(t, b), t, b)
    ensures Ascending(LeavesFrom(t, b))
  {
    if b < 256 {
      LeavesFromOrdered(t, b + 1);
      var rest := LeavesFrom(t, b + 1);
      if Get(t, b) > 0 {
        var pool := [Leaf(b, Get(t, b))] + rest;
        assert LeavesFrom(t, b) == pool;
        forall i | 0 < i < |pool|
          ensures pool[i] == rest[i - 1] && b < pool[i].sym
        {
        }
      } else {
        assert LeavesFrom(t, b) == rest;
      }
    }
  }

  /** There are at least two bytes with a non-zero count. */
  predicate TwoSymbols(t: Table)
  {
    exists x: Byte, y: Byte :: x != y && Get(t, x) > 0 && Get(t, y) > 0
  }

  /** The leaves of line 41 are the bytes with a non-zero count, each once. */
  lemma InitialLeaves(t: Table)
    ensures forall b: Byte ::
              multiset(PoolLeaves(InitialNodes(t)))[b] == if Get(t, b) > 0 then 1 else 0
  {
    forall b: Byte
      ensures multiset(PoolLeaves(InitialNodes(t)))[b] == if Get(t, b) > 0 then 1 else 0
    {
      LeavesFromSymbols(t, 0, b);
    }
  }

  /** What line 41 builds from `t`: one leaf per counted byte, in ascending byte order. */
  predicate InitialPool(pool: seq<Node>, t: Table)
  {
    && CountedLeaves(pool, t, 0)
    && Ascending(pool)
    && forall b: Byte :: multiset(PoolLeaves(pool))[b] == if Get(t, b) > 0 then 1 else 0
  }

  lemma InitialPoolFacts(t: Table)
    ensures InitialPool(InitialNodes(t), t)
  {
    InitialLeaves(t);
    LeavesFromOrdered(t, 0);
    assert InitialNodes(t) == LeavesFrom(t, 0);
  }

  /** A pool of one leaf has that leaf's byte as its only leaf. */
  lemma LonePoolLeaves(pool: seq<Node>)
    requires |pool| == 1 && pool[0].Leaf?
    ensures PoolLeaves(pool) == [pool[0].sym]
  {
    assert PoolLeaves(pool) == Leaves(pool[0]) + PoolLeaves(pool[1..]);
  }

  /** The initial pool is empty exactly when every count is zero. */
  lemma EmptyPool(pool: seq<Node>, t: Table)
    requires InitialPool(pool, t)
    ensures |pool| == 0 <==> forall b: Byte :: Get(t, b) == 0
  {
    if |pool| == 0 {
      forall b: Byte
        ensures Get(t, b) == 0
      {
        assert multiset(PoolLeaves(pool))[b] == 0;
      }
    } else {
      assert Get(t, pool[0].sym) > 0;
    }
  }

  /** The initial pool has two nodes or more exactly when two bytes are counted. */
  lemma LargePool(pool: seq<Node>, t: Table)
    requires InitialPool(pool, t)
    ensures |pool| >= 2 <==> TwoSymbols(t)
  {
    if |pool| >= 2 {
      assert pool[0].sym < pool[1].sym;
      assert Get(t, pool[0].sym) > 0 && Get(t, pool[1].sym) > 0;
    } else {
      forall x: Byte | Get(t, x) > 0
        ensures |pool| == 1 && x == pool[0].sym
      {
        assert multiset(PoolLeaves(pool))[x] == 1;
        if |pool| == 1 {
          LonePoolLeaves(pool);
        }
      }
    }
  }

  /** Line 41 yields no node exactly when every count is zero, and two or more exactly when
      two bytes have a non-zero count. */
  lemma InitialNodesSize(t: Table)
    ensures |InitialNodes(t)| == 0 <==> forall b: Byte :: Get(t, b) == 0
    ensures |InitialNodes(t)| >= 2 <==> TwoSymbols(t)
  {
    InitialPoolFacts(t);
    EmptyPool(InitialNodes(t), t);
    LargePool(InitialNodes(t), t);
  }

  /** The tree built from the initial pool has each counted byte as a leaf exactly once. */
  lemma RootLeaves(t: Table)
    requires |InitialNodes(t)| > 0
    ensures forall b: Byte ::
              multiset(Leaves(BuildTree(InitialNodes(t)).value))[b] == if Get(t, b) > 0 then 1 else 0
  {
    InitialPoolFacts(t);
    BuildTreeLeaves(InitialNodes(t));
  }

  /** The tree built from the initial pool is weighted by the counts of `t`. */
  lemma RootWeighted(t: Table)
    requires |InitialNodes(t)| > 0
    ensures Weighted(BuildTree(InitialNodes(t)).value, t)
  {
    var pool := InitialNodes(t);
    InitialPoolFacts(t);
    forall n | n in pool
      ensures Weighted(n, t)
    {
      var i :| 0 <= i < |pool| && pool[i] == n;
    }
    BuildTreeWeighted(pool, t);
  }

  /** The facts about `BuildTree(InitialNodes(t))` that `Huffman` promises. */
  lemma HuffmanShape(t: Table)
    ensures BuildTree(InitialNodes(t)).None? <==> forall b: Byte :: Get(t, b) == 0
    ensures BuildTree(InitialNodes(t)).Some? ==> forall b: Byte ::
              multiset(Leaves(BuildTree(InitialNodes(t)).value))[b] == if Get(t, b) > 0 then 1 else 0
    ensures BuildTree(InitialNodes(t)).Some? ==> Weighted(BuildTree(InitialNodes(t)).value, t)
    ensures BuildTree(InitialNodes(t)).Some? ==> (BuildTree(InitialNodes(t)).value.Internal? <==> TwoSymbols(t))
  {
    InitialNodesSize(t);
    InitialPoolFacts(t);
    if |InitialNodes(t)| > 0 {
      RootLeaves(t);
      RootWeighted(t);
    }
  }

  /** `build_huffman_tree` (lines 39-50) on a frequency table. */
  function Huffman(t: Table): (root: Option<Node>)
    ensures root.None? <==> forall b: Byte :: Get(t, b) == 0
    ensures root.Some? ==> forall b: Byte ::
              multiset(Leaves(root.value))[b] == if Get(t, b) > 0 then 1 else 0
    ensures root.Some? ==> Weighted(root.value, t)
    ensures root.Some? ==> (root.value.Internal? <==> TwoSymbols(t))
  {
    HuffmanShape(t);
    BuildTree(InitialNodes(t))
  }

  lemma {:induction false} LeavesFromAgree(t1: Table, t2: Table, b: nat)
    requires b <= 256
    requires forall c: Byte :: Get(t1, c) == Get(t2, c)
    ensures LeavesFrom(t1, b) == LeavesFrom(t2, b)
    decreases 256 - b
  {
    if b < 256 {
      LeavesFromAgree(t1, t2, b + 1);
    }
  }

  /** The tree depends only on the counts: a table with only the occurring bytes as keys
      and one with all 256 keys build the same tree when their counts agree. */
  lemma {:induction false} HuffmanDeterministic(t1: Table, t2: Table)
    requires forall c: Byte :: Get(t1, c) == Get(t2, c)
    ensures Huffman(t1) == Huffman(t2)
  {
    LeavesFromAgree(t1, t2, 0);
  }
}
