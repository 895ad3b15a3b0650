/** Code generation, encoding and the decoding walk (file_compressor.py lines 52-63, 80
    and 118-124).
    Lemmas that do not call themselves carry `{:induction false}` too: it keeps Dafny's
    automatic induction from slowing their proofs. */
module Codes {
  import opened Common
  import opened Frequency
  import opened HuffmanTree

  /** Byte value to its code. */
  type CodeTable = map<Byte, Bits>

  /** `generate_codes(n, prefix)`: depth-first, '0' to the left and '1' to the right; a leaf
      reached with an empty path (a lone root leaf) gets the code "0". Entries found later
      overwrite earlier ones, as assignments into the shared dict do. */
  function GenerateCodes(n: Node, prefix: Bits): (codes: CodeTable)
    ensures forall b :: b in codes <==> b in Leaves(n)
    ensures forall b :: b in codes ==> |codes[b]| > 0
  {
    match n
    case Leaf(s, _) => map[s := if |prefix| == 0 then [false] else prefix]
    case Internal(_, l, r) => GenerateCodes(l, prefix + [false]) + GenerateCodes(r, prefix + [true])
  }

  /** `generate_codes(root)`, which yields an empty table when there is no root. */
  function CodesOf(root: Option<Node>): (codes: CodeTable)
    ensures forall b :: b in codes <==> root.Some? && b in Leaves(root.value)
  {
    match root
    case None => map[]
    case Some(n) => GenerateCodes(n, [])
  }

  /** The child a bit selects: `current_node.left` for '0', `.right` for '1'; a leaf has none. */
  function Child(n: Node, bit: bool): Option<Node>
  {
    match n
    case Leaf(_, _) => None
    case Internal(_, l, r) => Some(if bit then r else l)
  }

  /** The node reached by following `path` down from `n`, if every step has a child. */
  function Descend(n: Node, path: Bits): Option<Node>
    decreases |path|
  {
    if |path| == 0 then Some(n)
    else
      match Child(n, path[0])
      case None => None
      case Some(c) => Descend(c, path[1..])
  }

  /** The path from `n` to a leaf holding `b`; the right subtree is preferred, matching the
      overwrite order of `GenerateCodes`. */
  function PathTo(n: Node, b: Byte): Bits
    requires b in Leaves(n)
  {
    match n
    case Leaf(_, _) => []
    case Internal(_, l, r) => if b in Leaves(r) then [true] + PathTo(r, b) else [false] + PathTo(l, b)
  }

  predicate IsPrefix(p: Bits, q: Bits)
  {
    |p| <= |q| && q[..|p|] == p
  }

  /** Below an internal node, or with a non-empty prefix, the code of `b` is the prefix
      followed by the path to `b`. */
  lemma {:induction false} CodesFollowPaths(n: Node, prefix: Bits, b: Byte)
    requires n.Internal? || |prefix| > 0
    requires b in Leaves(n)
    ensures GenerateCodes(n, prefix)[b] == prefix + PathTo(n, b)
  {
    match n
    case Leaf(_, _) =>
    case Internal(_, l, r) =>
      var left, right := GenerateCodes(l, prefix + [false]), GenerateCodes(r, prefix + [true]);
      var bit := b in Leaves(r);
      var child := if bit then r else l;
      calc {
        GenerateCodes(n, prefix)[b];
        { assert GenerateCodes(n, prefix) == left + right; }
        (left + right)[b];
        GenerateCodes(child, prefix + [bit])[b];
        { CodesFollowPaths(child, prefix + [bit], b); }
        prefix + [bit] + PathTo(child, b);
        { AppendAssoc(prefix, [bit], PathTo(child, b)); }
        prefix + ([bit] + PathTo(child, b));
      }
  }

  /** Following the path to `b` ends at a leaf holding `b`. */
  lemma {:induction false} PathReachesLeaf(n: Node, b: Byte)
    requires b in Leaves(n)
    ensures var d := Descend(n, PathTo(n, b));
            d.Some? && d.value.Leaf? && d.value.sym == b
  {
    match n
    case Leaf(_, _) =>
    case Internal(_, l, r) =>
      var p := PathTo(n, b);
      if b in Leaves(r) {
        PathReachesLeaf(r, b);
        assert p[1..] == PathTo(r, b);
      } else {
        PathReachesLeaf(l, b);
        assert p[1..] == PathTo(l, b);
      }
  }

  /** A path to one leaf is never a prefix of a path to another byte's leaf. */
  lemma {:induction false} PathsPrefixFree(n: Node, b1: Byte, b2: Byte)
    requires b1 in Leaves(n) && b2 in Leaves(n)
    requires IsPrefix(PathTo(n, b1), PathTo(n, b2))
    ensures b1 == b2
  {
    match n
    case Leaf(_, _) =>
    case Internal(_, l, r) =>
      var p1, p2 := PathTo(n, b1), PathTo(n, b2);
      assert p1[0] == p2[0];
      assert p2[..|p1|][1..] == p2[1..][..|p1| - 1];
      if b1 in Leaves(r) {
        PathsPrefixFree(r, b1, b2);
      } else {
        PathsPrefixFree(l, b1, b2);
      }
  }

  /** Every code of an internal root is the path to its byte's leaf. */
  lemma {:induction false} CodeReachesLeaf(root: Node, b: Byte)
    requires root.Internal? && b in GenerateCodes(root, [])
    ensures var d := Descend(root, GenerateCodes(root, [])[b]);
            d.Some? && d.value.Leaf? && d.value.sym == b
  {
    CodesFollowPaths(root, [], b);
    assert [] + PathTo(root, b) == PathTo(root, b);
    PathReachesLeaf(root, b);
  }

  /** A leaf holding `b` sits exactly `d` edges below `n`. */
  predicate LeafAtDepth(n: Node, b: Byte, d: nat)
  {
    match n
    case Leaf(s, _) => s == b && d == 0
    case Internal(_, l, r) => d > 0 && (LeafAtDepth(l, b, d - 1) || LeafAtDepth(r, b, d - 1))
  }

  /** A path that ends on a leaf is as long as that leaf is deep. */
  lemma {:induction false} DescendDepth(n: Node, path: Bits)
    requires var d := Descend(n, path); d.Some? && d.value.Leaf?
    ensures LeafAtDepth(n, Descend(n, path).value.sym, |path|)
  {
    if |path| > 0 {
      var c := Child(n, path[0]).value;
      DescendDepth(c, path[1..]);
    }
  }

  /** Under an internal root, the code of `b` is as long as some leaf holding `b` is deep.
      `DepthIsCodeLength` states the converse. */
  lemma CodeLengthIsDepth(root: Node, b: Byte)
    requires root.Internal? && b in GenerateCodes(root, [])
    ensures LeafAtDepth(root, b, |GenerateCodes(root, [])[b]|)
  {
    CodeReachesLeaf(root, b);
    DescendDepth(root, GenerateCodes(root, [])[b]);
  }

  /** A leaf at some depth is among the leaves. */
  lemma {:induction false} LeafAtDepthIn(n: Node, b: Byte, d: nat)
    requires LeafAtDepth(n, b, d)
    ensures b in Leaves(n)
  {
    match n
    case Leaf(_, _) =>
    case Internal(_, l, r) =>
      if LeafAtDepth(l, b, d - 1) {
        LeafAtDepthIn(l, b, d - 1);
      } else {
        LeafAtDepthIn(r, b, d - 1);
      }
  }

  /** A byte that is a leaf only once sits at only one depth. */
  lemma {:induction false} DepthUnique(n: Node, b: Byte, d1: nat, d2: nat)
    requires multiset(Leaves(n))[b] == 1
    requires LeafAtDepth(n, b, d1) && LeafAtDepth(n, b, d2)
    ensures d1 == d2
  {
    match n
    case Leaf(_, _) =>
    case Internal(_, l, r) =>
      assert multiset(Leaves(n)) == multiset(Leaves(l)) + multiset(Leaves(r));
      var inL1, inL2 := LeafAtDepth(l, b, d1 - 1), LeafAtDepth(l, b, d2 - 1);
      var c1, c2 := if inL1 then l else r, if inL2 then l else r;
      LeafAtDepthIn(c1, b, d1 - 1);
      LeafAtDepthIn(c2, b, d2 - 1);
      assert multiset(Leaves(c1))[b] >= 1 && multiset(Leaves(c2))[b] >= 1;
      assert inL1 == inL2;
      DepthUnique(c1, b, d1 - 1, d2 - 1);
  }

  /** Conversely, when a byte is a leaf only once, a leaf at depth d gets a code of length d. */
  lemma {:induction false} DepthIsCodeLength(root: Node, b: Byte, d: nat)
    requires root.Internal? && multiset(Leaves(root))[b] == 1
    requires LeafAtDepth(root, b, d)
    ensures b in GenerateCodes(root, []) && |GenerateCodes(root, [])[b]| == d
  {
    LeafAtDepthIn(root, b, d);
    CodeLengthIsDepth(root, b);
    DepthUnique(root, b, |GenerateCodes(root, [])[b]|, d);
  }

  /** In a Huffman tree every byte is a leaf at most once, so with an internal root each leaf
      at depth d gets a code of length d. */
  lemma {:induction false} HuffmanCodeLengths(t: Table, b: Byte, d: nat)
    requires Huffman(t).Some? && Huffman(t).value.Internal?
    requires LeafAtDepth(Huffman(t).value, b, d)
    ensures var codes := GenerateCodes(Huffman(t).value, []);
            b in codes && |codes[b]| == d
  {
    var root := Huffman(t).value;
    LeafAtDepthIn(root, b, d);
    assert multiset(Leaves(root))[b] == 1;
    DepthIsCodeLength(root, b, d);
  }

  /** A root that is itself a leaf gets the code "0" and nothing else. */
  lemma LoneLeafCode(root: Node)
    requires root.Leaf?
    ensures GenerateCodes(root, []) == map[root.sym := [false]]
  {
  }

  /** No code of the table is a prefix of another byte's code. */
  lemma CodesPrefixFree(root: Node)
    ensures var codes := GenerateCodes(root, []);
            forall b1, b2 :: b1 in codes && b2 in codes && b1 != b2 ==>
              !IsPrefix(codes[b1], codes[b2])
  {
    var codes := GenerateCodes(root, []);
    forall b1, b2 | b1 in codes && b2 in codes && b1 != b2
      ensures !IsPrefix(codes[b1], codes[b2])
    {
      if root.Internal? {
        CodeIsPath(root, b1);
        CodeIsPath(root, b2);
        if IsPrefix(codes[b1], codes[b2]) {
          PathsPrefixFree(root, b1, b2);
        }
      }
    }
  }

  /** Under an internal root, a byte's code is the path to its leaf. */
  lemma {:induction false} CodeIsPath(root: Node, b: Byte)
    requires root.Internal? && b in GenerateCodes(root, [])
    ensures b in Leaves(root) && GenerateCodes(root, [])[b] == PathTo(root, b)
  {
    CodesFollowPaths(root, [], b);
    assert [] + PathTo(root, b) == PathTo(root, b);
  }

  /** Line 80: the codes of the bytes of `data`, concatenated in order. */
  function EncodeBits(codes: CodeTable, data: seq<Byte>): (bits: Bits)
    requires forall k :: 0 <= k < |data| ==> data[k] in codes
    ensures (forall k :: 0 <= k < |data| ==> |codes[data[k]]| > 0) ==> |bits| >= |data|
  {
    if |data| == 0 then [] else codes[data[0]] + EncodeBits(codes, data[1..])
  }

  /** Bytes `out` emitted ahead of the outcome of the rest of a walk. */
  function Emit(out: seq<Byte>, r: Result<seq<Byte>>): Result<seq<Byte>>
  {
    match r
    case Ok(v) => Ok(out + v)
    case Err(e) => Err(e)
  }

  /** The loop of lines 119-124, standing at `cur`: each bit selects a child; at a leaf its
      byte is emitted and the walk restarts at `root`. Bits left over in the middle of a path
      are dropped; stepping below a leaf fails as `None.char` does. */
  function Walk(root: Node, cur: Node, bits: Bits): (r: Result<seq<Byte>>)
    ensures r.Err? ==> r.error == MissingChild
    ensures root.Internal? && cur.Internal? ==> r.Ok?
    decreases |bits|
  {
    if |bits| == 0 then Ok([])
    else
      match Child(cur, bits[0])
      case None => Err(MissingChild)
      case Some(next) =>
        if next.Leaf? then Emit([next.sym], Walk(root, root, bits[1..]))
        else Walk(root, next, bits[1..])
  }

  /** Walking the path to `b` from `cur` emits `b` and returns to the root. */
  lemma {:induction false} WalkFollowsPath(root: Node, cur: Node, b: Byte, rest: Bits)
    requires cur.Internal? && b in Leaves(cur)
    ensures Walk(root, cur, PathTo(cur, b) + rest) == Emit([b], Walk(root, root, rest))
  {
    var bits := PathTo(cur, b) + rest;
    match cur
    case Internal(_, l, r) =>
      var next := if b in Leaves(r) then r else l;
      assert bits[0] == (b in Leaves(r)) && bits[1..] == PathTo(next, b) + rest;
      if next.Internal? {
        WalkFollowsPath(root, next, b, rest);
      }
  }

  /** Walking a proper prefix of the path to `b` emits nothing and does not fail. */
  lemma {:induction false} WalkStopsMidPath(root: Node, cur: Node, b: Byte, k: nat)
    requires cur.Internal? && b in Leaves(cur)
    requires k < |PathTo(cur, b)|
    ensures Walk(root, cur, PathTo(cur, b)[..k]) == Ok([])
  {
    if k > 0 {
      var path := PathTo(cur, b);
      var next := if b in Leaves(cur.right) then cur.right else cur.left;
      assert path[..k][0] == path[0] && path[..k][1..] == PathTo(next, b)[..k - 1];
      WalkStopsMidPath(root, next, b, k - 1);
    }
  }

  lemma EmitConcat(a: seq<Byte>, b: seq<Byte>, r: Result<seq<Byte>>)
    ensures Emit(a, Emit(b, r)) == Emit(a + b, r)
    ensures Emit([], r) == r
  {
    match r
    case Ok(v) =>
      assert a + (b + v) == (a + b) + v;
      assert [] + v == v;
    case Err(_) =>
  }

  /** Decoding the encoded bits of `data`, followed by `tail`, emits `data` and then
      whatever `tail` decodes to. */
  lemma {:induction false} DecodeEncoded(root: Node, data: seq<Byte>, tail: Bits)
    requires root.Internal?
    requires forall k :: 0 <= k < |data| ==> data[k] in Leaves(root)
    ensures var codes := GenerateCodes(root, []);
            Walk(root, root, EncodeBits(codes, data) + tail) == Emit(data, Walk(root, root, tail))
    decreases |data|
  {
    var codes := GenerateCodes(root, []);
    var w := Walk(root, root, tail);
    if |data| == 0 {
      calc {
        Walk(root, root, EncodeBits(codes, data) + tail);
        { EmptyPrefix(EncodeBits(codes, data), tail); }
        w;
        { EmitConcat([], [], w); }
        Emit(data, w);
      }
    } else {
      var b := data[0];
      var rest := EncodeBits(codes, data[1..]) + tail;
      calc {
        Walk(root, root, EncodeBits(codes, data) + tail);
        { CodeThenRest(root, data, tail); }
        Walk(root, root, PathTo(root, b) + rest);
        { WalkFollowsPath(root, root, b, rest); }
        Emit([b], Walk(root, root, rest));
        { DecodeEncoded(root, data[1..], tail); }
        Emit([b], Emit(data[1..], w));
        { EmitConcat([b], data[1..], w); }
        Emit([b] + data[1..], w);
        { assert [b] + data[1..] == data; }
        Emit(data, w);
      }
    }
  }

  lemma EmptyPrefix(empty: Bits, tail: Bits)
    requires |empty| == 0
    ensures empty + tail == tail
  {
  }

  /** The encoded bits of non-empty data start with the path to its first byte. */
  lemma {:induction false} CodeThenRest(root: Node, data: seq<Byte>, tail: Bits)
    requires root.Internal? && |data| > 0
    requires forall k :: 0 <= k < |data| ==> data[k] in Leaves(root)
    ensures var codes := GenerateCodes(root, []);
            EncodeBits(codes, data) + tail == PathTo(root, data[0]) + (EncodeBits(codes, data[1..]) + tail)
  {
    var codes := GenerateCodes(root, []);
    var rest := EncodeBits(codes, data[1..]);
    calc {
      EncodeBits(codes, data) + tail;
      (codes[data[0]] + rest) + tail;
      { AppendAssoc(codes[data[0]], rest, tail); }
      codes[data[0]] + (rest + tail);
      { CodesFollowPaths(root, [], data[0]);
        EmptyPrefix([], PathTo(root, data[0])); }
      PathTo(root, data[0]) + (rest + tail);
    }
  }

  lemma AppendAssoc(a: Bits, b: Bits, c: Bits)
    ensures (a + b) + c == a + (b + c)
  {
  }

  /** Decoding inverts encoding when the root is an internal node. */
  lemma {:induction false} DecodeInvertsEncode(root: Node, data: seq<Byte>)
    requires root.Internal?
    requires forall k :: 0 <= k < |data| ==> data[k] in Leaves(root)
    ensures Walk(root, root, EncodeBits(GenerateCodes(root, []), data)) == Ok(data)
  {
    DecodeEncoded(root, data, []);
    assert EncodeBits(GenerateCodes(root, []), data) + [] == EncodeBits(GenerateCodes(root, []), data);
    assert data + [] == data;
  }

  /** A code cut short at the end of the bits is dropped without an error. */
  lemma {:induction false} TrailingPartialCodeDropped(root: Node, data: seq<Byte>, b: Byte, k: nat)
    requires root.Internal?
    requires forall i :: 0 <= i < |data| ==> data[i] in Leaves(root)
    requires b in Leaves(root) && k < |GenerateCodes(root, [])[b]|
    ensures var codes := GenerateCodes(root, []);
            Walk(root, root, EncodeBits(codes, data) + codes[b][..k]) == Ok(data)
  {
    var codes := GenerateCodes(root, []);
    CodesFollowPaths(root, [], b);
    assert codes[b] == PathTo(root, b);
    WalkStopsMidPath(root, root, b, k);
    DecodeEncoded(root, data, codes[b][..k]);
    assert data + [] == data;
  }

  /** A root that is a leaf has no child: any bit makes the walk fail. */
  lemma LeafRootFails(root: Node, bits: Bits)
    requires root.Leaf? && |bits| > 0
    ensures Walk(root, root, bits) == Err(MissingChild)
  {
  }

  /** The decoder as evidently intended: a root that is itself a leaf stands for its byte once
      per bit, matching the one-bit code "0" it was given; otherwise the walk of lines
      119-124. It never fails. */
  function DecodeCorrected(root: Node, bits: Bits): (r: Result<seq<Byte>>)
    ensures r.Ok?
    ensures root.Leaf? ==> |r.value| == |bits| && forall k :: 0 <= k < |bits| ==> r.value[k] == root.sym
  {
    if root.Leaf? then Ok(seq(|bits|, _ => root.sym)) else Walk(root, root, bits)
  }

  /** A lone leaf root decodes as many copies of its byte as there are bits. */
  lemma DecodeCorrectedLoneLeaf(root: Node, bits: Bits, data: seq<Byte>)
    requires root.Leaf? && |bits| == |data|
    requires forall k :: 0 <= k < |data| ==> data[k] == root.sym
    ensures DecodeCorrected(root, bits) == Ok(data)
  {
    assert DecodeCorrected(root, bits).value == data;
  }

  /** With a lone leaf root every byte is encoded as one bit. */
  lemma {:induction false} EncodeLoneLeaf(s: Byte, data: seq<Byte>)
    requires forall k :: 0 <= k < |data| ==> data[k] == s
    ensures |EncodeBits(map[s := [false]], data)| == |data|
    decreases |data|
  {
    if |data| > 0 {
      EncodeLoneLeaf(s, data[1..]);
    }
  }
}
