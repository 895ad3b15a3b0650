/** The compressed container and the two end-to-end operations, `compress` and `decompress`
    (file_compressor.py lines 65-134), without their file I/O.
    Lemmas that do not call themselves carry `{:induction false}` too: it keeps Dafny's
    automatic induction from slowing their proofs. */
module Container {
  import opened Common
  import opened BigEndian
  import opened Packing
  import opened Frequency
  import opened HuffmanTree
  import opened Codes

  /** 256 count fields of 4 bytes, then the padding byte. */
  const HeaderSize: nat := 1025

  /** The first count that `to_bytes(4, 'big')` cannot represent. */
  const FieldLimit: nat := 0x1_0000_0000

  predicate CountsFit(t: Table)
  {
    forall b: Byte :: Get(t, b) < FieldLimit
  }

  /** Lines 88-89: the counts of bytes `b..255`, 4 big-endian bytes each. */
  function CountFields(t: Table, b: nat): (fields: seq<Byte>)
    requires b <= 256 && CountsFit(t)
    ensures |fields| == 4 * (256 - b)
    decreases 256 - b
  {
    if b == 256 then []
    else
      assert Pow256(4) == FieldLimit;
      ValueBytes(Get(t, b), 4) + CountFields(t, b + 1)
  }

  /** Lines 88-93: the count fields, the padding byte, then the payload. */
  function Serialize(t: Table, padding: Byte, payload: seq<Byte>): (file: seq<Byte>)
    requires CountsFit(t)
    ensures |file| == HeaderSize + |payload|
    ensures file[HeaderSize - 1] == padding && file[HeaderSize..] == payload
  {
    CountFields(t, 0) + [padding] + payload
  }

  /** `k` successive `int.from_bytes(f.read(4), 'big')` on what is left of the file: a read
      past the end yields fewer bytes, or none, and so a smaller value, without an error. */
  function ReadCounts(rest: seq<Byte>, k: nat): (r: (seq<nat>, seq<Byte>))
    ensures |r.0| == k
    ensures r.1 == rest[Min(4 * k, |rest|)..]
  {
    if k == 0 then ([], rest)
    else
      var n := Min(4, |rest|);
      var r := ReadCounts(rest[n..], k - 1);
      ([BytesValue(rest[..n])] + r.0, r.1)
  }

  /** What lines 104-106 read from a container. */
  datatype Parsed = Parsed(counts: seq<nat>, padding: nat, payload: seq<Byte>)

  /** Lines 104-106: 256 counts, one padding byte, and all that remains. */
  function Parse(file: seq<Byte>): (p: Parsed)
    ensures |p.counts| == 256
    ensures |file| >= HeaderSize ==> p.padding == file[HeaderSize - 1] && p.payload == file[HeaderSize..]
    ensures |file| < HeaderSize ==> p.padding == 0 && p.payload == []
  {
    var r := ReadCounts(file, 256);
    var n := Min(1, |r.1|);
    assert |file| >= HeaderSize ==> r.1[..n] == [file[HeaderSize - 1]];
    Parsed(r.0, BytesValue(r.1[..n]), r.1[n..])
  }

  /** The dict of line 104: every byte value is a key. */
  function TableOf(counts: seq<nat>): (t: Table)
    requires |counts| == 256
    ensures forall b: Byte :: b in t && Get(t, b) == counts[b]
  {
    map b: Byte | 0 <= b < 256 :: counts[b]
  }

  /** The first field of the counts of `b..255` holds the count of `b`. */
  lemma FirstField(t: Table, b: nat, tail: seq<Byte>)
    requires b < 256 && CountsFit(t)
    ensures var file := CountFields(t, b) + tail;
            && |file| >= 4
            && BytesValue(file[..4]) == Get(t, b)
            && file[4..] == CountFields(t, b + 1) + tail
  {
    assert Pow256(4) == FieldLimit;
    var field := ValueBytes(Get(t, b), 4);
    assert CountFields(t, b) == field + CountFields(t, b + 1);
    SplitField(field, CountFields(t, b + 1), tail);
  }

  lemma SplitField(field: seq<Byte>, more: seq<Byte>, tail: seq<Byte>)
    requires |field| == 4
    ensures (field + more + tail)[..4] == field
    ensures (field + more + tail)[4..] == more + tail
  {
  }

  /** `counts` lists the counts of bytes `b..255` in `t`, in order. */
  predicate CountsFrom(counts: seq<nat>, t: Table, b: nat)
  {
    |counts| == 256 - b && forall i :: 0 <= i < |counts| ==> b + i < 256 && counts[i] == Get(t, b + i)
  }

  /** Reading back the count fields of bytes `b..255` yields their counts and leaves
      whatever followed the fields. */
  lemma {:induction false} ReadCountFields(t: Table, b: nat, tail: seq<Byte>)
    requires b <= 256 && CountsFit(t)
    ensures ReadCounts(CountFields(t, b) + tail, 256 - b).1 == tail
    ensures CountsFrom(ReadCounts(CountFields(t, b) + tail, 256 - b).0, t, b)
    decreases 256 - b
  {
    if b < 256 {
      var file := CountFields(t, b) + tail;
      FirstField(t, b, tail);
      ReadCountsStep(file, 256 - b);
      ReadCountFields(t, b + 1, tail);
      var r' := ReadCounts(CountFields(t, b + 1) + tail, 256 - (b + 1));
      ShiftCounts(t, b, ReadCounts(file, 256 - b).0, r'.0);
    } else {
      assert CountFields(t, b) == [];
      assert CountFields(t, b) + tail == tail;
    }
  }

  /** One read of a full field: its value comes first, the remaining reads start after it. */
  lemma ReadCountsStep(file: seq<Byte>, k: nat)
    requires |file| >= 4 && k > 0
    ensures ReadCounts(file, k).0 == [BytesValue(file[..4])] + ReadCounts(file[4..], k - 1).0
    ensures ReadCounts(file, k).1 == ReadCounts(file[4..], k - 1).1
  {
  }

  /** The counts of `b..255` are the count of `b` followed by the counts of `b + 1..255`. */
  lemma ShiftCounts(t: Table, b: nat, counts: seq<nat>, rest: seq<nat>)
    requires b < 256 && counts == [Get(t, b)] + rest && CountsFrom(rest, t, b + 1)
    ensures CountsFrom(counts, t, b)
  {
    forall i | 0 < i < 256 - b
      ensures counts[i] == Get(t, b + i)
    {
      assert counts[i] == rest[i - 1];
    }
  }

  /** Writing a header and reading it back gives the same counts (zero for absent bytes),
      the same padding, and the payload. */
  lemma HeaderRoundTrip(t: Table, padding: Byte, payload: seq<Byte>)
    requires CountsFit(t)
    ensures var p := Parse(Serialize(t, padding, payload));
            && (forall b: Byte :: p.counts[b] == Get(t, b))
            && p.padding == padding
            && p.payload == payload
  {
    ReadCountFields(t, 0, [padding] + payload);
    assert Serialize(t, padding, payload) == CountFields(t, 0) + ([padding] + payload);
    var counts := Parse(Serialize(t, padding, payload)).counts;
    assert CountsFrom(counts, t, 0);
    forall b: Byte
      ensures counts[b] == Get(t, b)
    {
      assert counts[0 + b] == Get(t, 0 + b);
    }
  }

  /** Line 80 for the tree of the data's own counts: at least one bit per byte. */
  function CodeBits(data: seq<Byte>): (bits: Bits)
    requires |data| > 0
    ensures |bits| >= |data|
  {
    var t := FrequencyTable(data);
    var codes := CodesOf(Huffman(t));
    assert forall k :: 0 <= k < |data| ==> multiset(data)[data[k]] > 0;
    EncodeBits(codes, data)
  }

  /** `compress` without its I/O (lines 71-93): an empty input is refused, and a count that
      does not fit its 4-byte field makes `to_bytes` raise. */
  function Compress(data: seq<Byte>): (r: Result<seq<Byte>>)
    ensures r.Ok? <==> |data| > 0 && forall b: Byte :: multiset(data)[b] < FieldLimit
    ensures |data| == 0 ==> r == Err(EmptyInput)
    ensures r.Ok? ==> |r.value| >= HeaderSize && r.value[HeaderSize - 1] < 8
  {
    if |data| == 0 then Err(EmptyInput)
    else
      var t := FrequencyTable(data);
      var bits := CodeBits(data);
      var padding := Padding(|bits|);
      if !CountsFit(t) then Err(CountOverflow)
      else Ok(Serialize(t, padding, Pack(Padded(bits))))
  }

  /** Lines 104-116: the rebuilt tree and the payload bits without their padding; no tree
      is "Invalid Huffman data". */
  function Unframe(file: seq<Byte>): (r: Result<(Node, Bits)>)
    ensures r.Err? <==> forall b: Byte :: Parse(file).counts[b] == 0
    ensures r.Err? ==> r.error == InvalidData
  {
    var p := Parse(file);
    match Huffman(TableOf(p.counts))
    case None => Err(InvalidData)
    case Some(root) => Ok((root, DropPadding(Unpack(p.payload), p.padding)))
  }

  /** `decompress` without its I/O (lines 104-124). */
  function Decompress(file: seq<Byte>): (r: Result<seq<Byte>>)
    ensures r == Err(InvalidData) <==> forall b: Byte :: Parse(file).counts[b] == 0
    ensures r == Err(MissingChild) ==> Unframe(file).value.0.Leaf?
  {
    match Unframe(file)
    case Err(e) => Err(e)
    case Ok((root, bits)) => Walk(root, root, bits)
  }

  /** The file `Compress` writes for data it accepts. */
  lemma CompressedFile(data: seq<Byte>)
    requires |data| > 0 && CountsFit(FrequencyTable(data))
    ensures var bits := CodeBits(data);
            var padding := Padding(|bits|);
            Compress(data) == Ok(Serialize(FrequencyTable(data), padding, Pack(Padded(bits))))
  {
  }

  /** Parsing a serialized file gives a table that builds the same tree, the padding, and,
      once the padding is dropped, the bits that were packed. */
  lemma {:induction false} SerializedFields(t: Table, bits: Bits, padding: Byte, payload: seq<Byte>)
    requires CountsFit(t)
    requires padding == Padding(|bits|)
    requires payload == Pack(Padded(bits))
    ensures var p := Parse(Serialize(t, padding, payload));
            && Huffman(TableOf(p.counts)) == Huffman(t)
            && p.padding == padding
            && DropPadding(Unpack(p.payload), p.padding) == bits
  {
    HeaderRoundTrip(t, padding, payload);
    ReadTableBuildsSameTree(t, padding, payload);
    PayloadBits(bits, Parse(Serialize(t, padding, payload)));
  }

  /** A padding and payload read back as written give the packed bits. */
  lemma PayloadBits(bits: Bits, p: Parsed)
    requires p.padding == Padding(|bits|)
    requires p.payload == Pack(Padded(bits))
    ensures DropPadding(Unpack(p.payload), p.padding) == bits
  {
    PackRoundTrip(bits);
  }

  /** Reading the counts back gives a table that builds the same tree. */
  lemma {:induction false} ReadTableBuildsSameTree(t: Table, padding: Byte, payload: seq<Byte>)
    requires CountsFit(t)
    ensures Huffman(TableOf(Parse(Serialize(t, padding, payload)).counts)) == Huffman(t)
  {
    HeaderRoundTrip(t, padding, payload);
    HuffmanDeterministic(TableOf(Parse(Serialize(t, padding, payload)).counts), t);
  }

  /** Unframing a serialized file gives the tree of the table it was written from and the
      packed bits. */
  lemma {:induction false} UnframeSerialized(t: Table, bits: Bits, padding: Byte, payload: seq<Byte>)
    requires CountsFit(t) && Huffman(t).Some?
    requires padding == Padding(|bits|)
    requires payload == Pack(Padded(bits))
    ensures Unframe(Serialize(t, padding, payload)) == Ok((Huffman(t).value, bits))
  {
    SerializedFields(t, bits, padding, payload);
  }

  /** The file of `CompressedFile` unframes to the tree of the data's counts and the code
      bits. */
  lemma {:induction false} UnframeDataFile(data: seq<Byte>)
    requires |data| > 0 && CountsFit(FrequencyTable(data))
    ensures var bits := CodeBits(data);
            Unframe(Serialize(FrequencyTable(data), Padding(|bits|), Pack(Padded(bits))))
            == Ok((Huffman(FrequencyTable(data)).value, bits))
  {
    var t := FrequencyTable(data);
    var bits := CodeBits(data);
    assert Get(t, data[0]) > 0;
    UnframeSerialized(t, bits, Padding(|bits|), Pack(Padded(bits)));
  }

  /** Unframing a compressed file recovers the tree of the data's counts and the code bits. */
  lemma {:induction false} UnframeCompressed(data: seq<Byte>)
    requires |data| > 0 && CountsFit(FrequencyTable(data))
    ensures Unframe(Compress(data).value) == Ok((Huffman(FrequencyTable(data)).value, CodeBits(data)))
  {
    CompressedFile(data);
    UnframeDataFile(data);
  }

  /** Decompressing a compressed file gives back the data, for data with at least two
      distinct bytes and counts that fit their fields. */
  lemma {:induction false} RoundTrip(data: seq<Byte>)
    requires exists i, j :: 0 <= i < |data| && 0 <= j < |data| && data[i] != data[j]
    requires forall b: Byte :: multiset(data)[b] < FieldLimit
    ensures Compress(data).Ok?
    ensures Decompress(Compress(data).value) == Ok(data)
  {
    var i, j :| 0 <= i < |data| && 0 <= j < |data| && data[i] != data[j];
    DistinctBytesTwoSymbols(data, i, j);
    DataFits(data);
    CompressedFile(data);
    DataInLeaves(data);
    var root := Huffman(FrequencyTable(data)).value;
    calc {
      Decompress(Compress(data).value);
      { UnframeCompressed(data);
        DecompressUnframed(Compress(data).value); }
      Walk(root, root, CodeBits(data));
      { CodeBitsOfRoot(data); }
      Walk(root, root, EncodeBits(GenerateCodes(root, []), data));
      { DecodeInvertsEncode(root, data); }
      Ok(data);
    }
  }

  /** A file that unframes is decoded by walking its tree over its bits. */
  lemma DecompressUnframed(file: seq<Byte>)
    requires Unframe(file).Ok?
    ensures var (root, bits) := Unframe(file).value;
            Decompress(file) == Walk(root, root, bits)
  {
  }

  /** The code bits of data use the codes of the tree of its counts. */
  lemma {:induction false} CodeBitsOfRoot(data: seq<Byte>)
    requires |data| > 0
    ensures Huffman(FrequencyTable(data)).Some?
    ensures forall k :: 0 <= k < |data| ==> data[k] in GenerateCodes(Huffman(FrequencyTable(data)).value, [])
    ensures CodeBits(data) == EncodeBits(GenerateCodes(Huffman(FrequencyTable(data)).value, []), data)
  {
    DataInLeaves(data);
  }

  /** Counts below the field limit are what `CountsFit` asks of the table. */
  lemma DataFits(data: seq<Byte>)
    requires forall b: Byte :: multiset(data)[b] < FieldLimit
    ensures CountsFit(FrequencyTable(data))
  {
  }

  /** Two different bytes in the data make two counted bytes. */
  lemma DistinctBytesTwoSymbols(data: seq<Byte>, i: nat, j: nat)
    requires i < |data| && j < |data| && data[i] != data[j]
    ensures TwoSymbols(FrequencyTable(data))
  {
    var t := FrequencyTable(data);
    assert Get(t, data[i]) > 0 && Get(t, data[j]) > 0;
  }

  /** Every byte of non-empty data is a leaf of the tree of its counts. */
  lemma {:induction false} DataInLeaves(data: seq<Byte>)
    requires |data| > 0
    ensures Huffman(FrequencyTable(data)).Some?
    ensures forall k :: 0 <= k < |data| ==> data[k] in Leaves(Huffman(FrequencyTable(data)).value)
  {
    var t := FrequencyTable(data);
    assert Get(t, data[0]) > 0;
    var root := Huffman(t).value;
    forall k | 0 <= k < |data|
      ensures data[k] in Leaves(root)
    {
      assert Get(t, data[k]) > 0;
      assert multiset(Leaves(root))[data[k]] == 1;
    }
  }

  /** The bytes with a non-zero count are the bytes of the data. */
  lemma CountedBytesOccur(data: seq<Byte>, b: Byte)
    requires Get(FrequencyTable(data), b) > 0
    ensures exists k :: 0 <= k < |data| && data[k] == b
  {
    assert b in multiset(data);
  }

  /** Every count of data shorter than the field limit fits its field. */
  lemma ShortDataFits(data: seq<Byte>)
    requires |data| < FieldLimit
    ensures CountsFit(FrequencyTable(data))
  {
    forall b: Byte
      ensures Get(FrequencyTable(data), b) < FieldLimit
    {
      CountBelowLength(data, b);
    }
  }

  /** Data made of one repeated byte is compressed, but decompressing it fails: the root is a
      leaf, and the first bit asks it for a child. */
  lemma {:induction false} SingleSymbolNotRecovered(data: seq<Byte>)
    requires 0 < |data| < FieldLimit
    requires forall k :: 0 <= k < |data| ==> data[k] == data[0]
    ensures Compress(data).Ok?
    ensures Decompress(Compress(data).value) == Err(MissingChild)
  {
    ShortDataFits(data);
    CompressedFile(data);
    LoneSymbolLeafRoot(data);
    LoneLeafBits(data);
    UnframeCompressed(data);
    LeafRootFails(Huffman(FrequencyTable(data)).value, CodeBits(data));
  }

  /** Data of one repeated byte gets a root that is a leaf. */
  lemma LoneSymbolLeafRoot(data: seq<Byte>)
    requires |data| > 0
    requires forall k :: 0 <= k < |data| ==> data[k] == data[0]
    ensures Huffman(FrequencyTable(data)).value.Leaf?
  {
    var t := FrequencyTable(data);
    assert Get(t, data[0]) > 0;
    forall x: Byte | Get(t, x) > 0
      ensures x == data[0]
    {
      CountedBytesOccur(data, x);
    }
    assert !TwoSymbols(t);
  }

  /** `decompress` with the evidently intended decoder (lines 104-124, corrected at 119-124). */
  function DecompressCorrected(file: seq<Byte>): (r: Result<seq<Byte>>)
    ensures r.Err? <==> forall b: Byte :: Parse(file).counts[b] == 0
  {
    match Unframe(file)
    case Err(e) => Err(e)
    case Ok((root, bits)) => DecodeCorrected(root, bits)
  }

  /** With a lone leaf root, every byte of the data is the leaf's byte. */
  lemma {:induction false} DataAtLoneLeaf(data: seq<Byte>)
    requires |data| > 0
    requires Huffman(FrequencyTable(data)).value.Leaf?
    ensures forall k :: 0 <= k < |data| ==> data[k] == Huffman(FrequencyTable(data)).value.sym
  {
    var root := Huffman(FrequencyTable(data)).value;
    assert Leaves(root) == [root.sym];
    assert forall k :: 0 <= k < |data| ==> multiset(data)[data[k]] > 0;
  }

  /** With a lone leaf root, the code bits are one per byte of the data. */
  lemma LoneLeafBits(data: seq<Byte>)
    requires |data| > 0
    requires Huffman(FrequencyTable(data)).value.Leaf?
    ensures |CodeBits(data)| == |data|
  {
    var root := Huffman(FrequencyTable(data)).value;
    DataAtLoneLeaf(data);
    EncodeLoneLeaf(root.sym, data);
    assert CodesOf(Some(root)) == map[root.sym := [false]];
  }

  /** Data of one repeated byte comes back through the corrected decoder. */
  lemma {:induction false} LoneLeafRoundTrip(data: seq<Byte>)
    requires |data| > 0 && CountsFit(FrequencyTable(data))
    requires Huffman(FrequencyTable(data)).value.Leaf?
    ensures DecompressCorrected(Compress(data).value) == Ok(data)
  {
    var root := Huffman(FrequencyTable(data)).value;
    var bits := CodeBits(data);
    DataAtLoneLeaf(data);
    LoneLeafBits(data);
    UnframeCompressed(data);
    DecodeCorrectedLoneLeaf(root, bits, data);
  }

  /** With the corrected decoder every non-empty input whose counts fit comes back. */
  lemma {:induction false} CorrectedRoundTrip(data: seq<Byte>)
    requires |data| > 0
    requires forall b: Byte :: multiset(data)[b] < FieldLimit
    ensures Compress(data).Ok?
    ensures DecompressCorrected(Compress(data).value) == Ok(data)
  {
    var root := Huffman(FrequencyTable(data)).value;
    DataFits(data);
    CompressedFile(data);
    if root.Internal? {
      UnframeCompressed(data);
      DataInLeaves(data);
      DecodeInvertsEncode(root, data);
    } else {
      LoneLeafRoundTrip(data);
    }
  }

  /** A file shorter than the header is not refused: the reads past its end yield zero, and
      it decodes to nothing unless every count read is zero. */
  lemma ShortContainerAccepted(file: seq<Byte>)
    requires |file| < HeaderSize
    ensures Decompress(file) == if forall b: Byte :: Parse(file).counts[b] == 0
                                then Err(InvalidData) else Ok([])
  {
  }

  lemma CountOneField()
    ensures BytesValue([0, 0, 0, 1]) == 1
  {
    var zero: seq<Byte> := [0];
    assert BytesValue(zero) == 0 by { assert zero[..0] == []; }
    assert BytesValue(zero + [0]) == 0 by { assert (zero + [0])[..1] == zero; }
    assert BytesValue(zero + [0, 0]) == 0 by { assert (zero + [0, 0])[..2] == zero + [0]; }
    var file: seq<Byte> := [0, 0, 0, 1];
    assert file[..3] == zero + [0, 0];
  }

  /** For instance four bytes holding a count of 1 for byte 0 decompress to an empty file. */
  lemma {:induction false} ShortContainerExample()
    ensures Decompress([0, 0, 0, 1]) == Ok([])
  {
    var file: seq<Byte> := [0, 0, 0, 1];
    CountOneField();
    assert file[..Min(4, |file|)] == file;
    assert Parse(file).counts[0] == 1;
    ShortContainerAccepted(file);
  }
}
