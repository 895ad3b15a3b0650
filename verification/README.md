# Huffman file compressor — a Dafny model

This project models the Huffman engine of `file_compressor.py`: the pure byte and bit
manipulation inside `compress` and `decompress`, with the file I/O removed.

- **Node order.** `HuffmanNode.__lt__` orders nodes by frequency, then by byte value.
  Internal nodes take the value 256 for the tie-break.
  - Model: `HuffmanTree.Less`, over the datatype `Node = Leaf(sym, freq) | Internal(freq, left, right)`.
- **Frequency table.** `build_frequency_table` counts each byte of the data.
  - Model: `Frequency.FrequencyTable`, a `map<Byte, nat>` holding only the occurring bytes, like the `defaultdict`.
- **Tree.** `build_huffman_tree` first lists one leaf per counted byte in ascending byte order (`InitialNodes`).
  It then repeatedly pops two minima and pushes their merge (`MergeStep`, `BuildTree`).
  - `heapq` is modelled only as "take a minimum under `__lt__`". `MinIndex` takes the first such node.
  - The same function builds the tree on both sides. `HuffmanDeterministic` shows that the table
    `compress` counts and the 256-key table `decompress` reads back give the same tree.
- **Codes.** `generate_codes` is modelled by `Codes.GenerateCodes`: depth-first, `false` for a left step and `true` for a right one.
  - A lone leaf root gets the code `[false]`.
  - Later entries overwrite earlier ones, as in the shared dict.
  - `PathTo` and `Descend` give the tree paths that the codes are proved equal to.
- **Container.** `Container.Compress` writes three things:
  - 256 big-endian 4-byte counts (`CountFields`, `BigEndian.ValueBytes`);
  - one padding byte (`Packing.Padding`);
  - the code bits, zero-padded to whole bytes and packed eight to a byte (`Packing.Padded`, `Packing.Pack`).

  `Container.Decompress` reads them back (`Parse`), rebuilds the tree, unpacks and unpads the bits (`Unframe`), and walks the tree (`Codes.Walk`).
- **Bytes.** Bytes are the subtype `Byte` of `int` (0..255) and bit strings are `seq<bool>`.
  An exception that the source does not catch becomes an `Err` result, so that it can be stated and proved:
  - `CountOverflow` for `to_bytes` on a count of 2^32 or more;
  - `MissingChild` for `None.char` at line 122.

  The handled outcomes are also `Err` results: `EmptyInput` at line 71, and `InvalidData` at lines 109-111.

The main theorem is `Container.RoundTrip`. For data with at least two distinct byte values
and every count below 2^32, `Decompress(Compress(data)) == Ok(data)`. It rests on:
- the header round trip (`HeaderRoundTrip`);
- the packing round trip (`PackRoundTrip`);
- the determinism of the tree (`HuffmanDeterministic`);
- each code being the path to its byte's leaf (`CodesFollowPaths`);
- the fact that walking a code emits its byte and returns to the root (`WalkFollowsPath`, `DecodeInvertsEncode`).

The decoding proof follows the paths directly and does not go through prefix-freeness. That no
code is a prefix of another (`CodesPrefixFree`) is proved separately, as a property of the code
table.

### Behaviour at the edges

- **Short files.** A file shorter than the 1025-byte header is accepted. `f.read(4)` past the
  end of the file returns fewer bytes, or `b''`, and `int.from_bytes(b'', 'big')` is 0, so no
  error is raised. A short file with some non-zero count decompresses to an empty output
  (`Container.ShortContainerAccepted`, `Container.ShortContainerExample`).
- **Cut-off paths.** Bits that end partway along a path are dropped without an error
  (`Codes.TrailingPartialCodeDropped`).
- **One-symbol input.** Data made of one repeated byte compresses but does not decompress
  (`Container.SingleSymbolNotRecovered`; see Findings).

## Model

| member | source | states |
|---|---|---|
| `HuffmanTree.Less` | file_compressor.py:15-21 | a node of lower frequency always comes first, and no node comes before one of lower frequency; the tie-break on byte value or 256 is stated by `LessIsLexicographic` |
| `HuffmanTree.LessIsLexicographic` | file_compressor.py:15-21 | `__lt__` is the lexicographic order on (frequency, byte value or 256): irreflexive, transitive, and two nodes are incomparable exactly when both keys agree |
| `HuffmanTree.LeafBeforeInternal` | file_compressor.py:15-21 | at equal frequency a leaf is strictly before an internal node |
| `HuffmanTree.InternalTiesIncomparable` | file_compressor.py:15-21 | two internal nodes of equal frequency compare equal both ways, so the order is not total |
| `HuffmanTree.MinIndex` | file_compressor.py:44-45 | the popped node is a minimum: no node of the pool is less than it, and it is the first such node |
| `HuffmanTree.MergeStep` | file_compressor.py:44-49 | one loop iteration shrinks the pool by one. The pushed node is internal and weighs the sum of its children. Its children together with the remaining nodes are the old pool as a multiset. The left child is a minimum of the old pool, and the right child is a minimum of what was left |
| `HuffmanTree.BuildTree` | file_compressor.py:43-50 | no root exactly for an empty pool; a one-node pool is its own root; two or more nodes give an internal root |
| `HuffmanTree.BuildTreeLeaves` | file_compressor.py:43-50 | merging keeps the multiset of leaf bytes of the pool |
| `HuffmanTree.BuildTreeWeighted` | file_compressor.py:46-49 | if every pool node weighs the sum of its children, so does the root |
| `HuffmanTree.InitialNodes` | file_compressor.py:41 | the list comprehension (built by `LeavesFrom`) holds only leaves, each carrying its byte's non-zero count, in strictly ascending byte order; `LeavesFromSymbols` adds that every counted byte is there once |
| `HuffmanTree.LeavesFromOrdered` | file_compressor.py:41 | the initial node list holds leaves only, each carrying its byte's non-zero count, in strictly ascending byte order |
| `HuffmanTree.LeavesFromSymbols` | file_compressor.py:41 | the list built from byte `b` on holds each byte `c >= b` with a non-zero count exactly once, and no other byte |
| `HuffmanTree.InitialNodesSize` | file_compressor.py:41 | the initial list is empty exactly when every count is zero, and has two or more nodes exactly when two bytes have non-zero counts |
| `HuffmanTree.Huffman` | file_compressor.py:39-50 | `None` exactly when every count is zero. Otherwise each byte with a non-zero count is a leaf exactly once and no other byte is a leaf. Every internal node weighs the sum of its children and every leaf its byte's count. The root is internal exactly when two bytes are counted |
| `HuffmanTree.HuffmanDeterministic` | file_compressor.py:41 | tables that agree on every byte's count (a missing key counting as 0) build the same tree: the `defaultdict` of line 34 and the 256-key dict of line 104 |
| `Frequency.FrequencyTable` | file_compressor.py:33-37 | the keys are exactly the bytes of the data, and each count is the number of occurrences of its byte |
| `Frequency.FrequencySum` | file_compressor.py:33-37 | the counts sum to the length of the data |
| `Frequency.CountBelowLength` | file_compressor.py:33-37 | no count exceeds the length of the data |
| `Codes.GenerateCodes` | file_compressor.py:52-63 | the code table's keys are exactly the leaf bytes, and every code is non-empty |
| `Codes.CodesOf` | file_compressor.py:52-56 | the table of a root has exactly its leaf bytes as keys; no root gives an empty table |
| `Codes.CodesFollowPaths` | file_compressor.py:52-63 | below an internal node, or under a non-empty prefix, a byte's code is the prefix followed by the left/right path to its leaf |
| `Codes.CodeIsPath` | file_compressor.py:52-63 | under an internal root, a byte's code is exactly the left/right path to its leaf |
| `Codes.CodeReachesLeaf` | file_compressor.py:52-63 | following a code of an internal root from the root ends on the leaf of that code's byte |
| `Codes.CodeLengthIsDepth` | file_compressor.py:52-63 | under an internal root, a leaf holding the byte sits exactly as deep as the byte's code is long |
| `Codes.DepthUnique` | file_compressor.py:52-63 | a byte that is a leaf only once sits at only one depth |
| `Codes.DepthIsCodeLength` | file_compressor.py:52-63 | conversely, under an internal root, a leaf at depth d whose byte is a leaf only once gets a code of length d |
| `Codes.HuffmanCodeLengths` | file_compressor.py:39-63 | in a tree built from a table with an internal root, every leaf at depth d gets a code of length d |
| `Codes.LoneLeafCode` | file_compressor.py:57-60 | a root that is a leaf gets the single code "0" |
| `Codes.CodesPrefixFree` | file_compressor.py:52-63 | no byte's code is a prefix of another byte's code |
| `Codes.Walk` | file_compressor.py:118-124 | the only failure of the decoding loop is stepping below a leaf; from an internal root it never fails |
| `Codes.WalkFollowsPath` | file_compressor.py:119-124 | walking the path to a byte's leaf emits that byte, returns to the root, and continues with the remaining bits |
| `Codes.EncodeBits` | file_compressor.py:80 | when every code used is non-empty, the joined codes have at least one bit per byte; `DecodeEncoded` states that walking them gives the bytes back |
| `Codes.DecodeEncoded` | file_compressor.py:80 | walking the concatenated codes of some data, followed by any further bits, emits the data ahead of what those further bits decode to |
| `Codes.DecodeInvertsEncode` | file_compressor.py:118-124 | from an internal root, decoding the concatenated codes of data gives back exactly the data |
| `Codes.TrailingPartialCodeDropped` | file_compressor.py:120-124 | bits that stop partway along a code are dropped without an error: the output is the data decoded before them |
| `Codes.LeafRootFails` | file_compressor.py:121-122 | with a leaf root, any non-empty bit string fails at the first bit |
| `Codes.DecodeCorrected` | file_compressor.py:119-124 | the corrected decoder never fails, and under a leaf root it emits that leaf's byte once per bit |
| `Codes.DecodeCorrectedLoneLeaf` | file_compressor.py:57-60 | under a leaf root, one bit per byte of data made only of the leaf's byte decodes back to that data |
| `Packing.Padding` | file_compressor.py:81 | the padding is below 8, and it is the least count that brings the bit length to a multiple of 8 |
| `Packing.Padded` | file_compressor.py:82 | the padded bits are a whole number of bytes long, start with the original bits, and continue with zeros only |
| `Packing.Pack` | file_compressor.py:83 | packing gives one byte per 8 bits, and unpacking those bytes gives back the bits |
| `Packing.Unpack` | file_compressor.py:114 | expanding gives 8 bits per byte |
| `Packing.DropPadding` | file_compressor.py:115-116 | dropping the padding keeps a prefix that is `padding` bits shorter, or empty when the padding exceeds the length, as Python's `[:-padding]` does |
| `Packing.PackRoundTrip` | file_compressor.py:81-83 | padding, packing, unpacking and dropping the padding gives back exactly the code bits |
| `BigEndian.BitsValue` | file_compressor.py:83 | the value of a bit string read most significant bit first (`int(s, 2)`), below 2 to the power of its length; `ValueBitsOfBitsValue` states that formatting it back to the same width gives the string |
| `BigEndian.ValueBits` | file_compressor.py:114 | the 8-bit pattern of `{byte:08b}` has the requested width and reads back as the value |
| `BigEndian.ValueBitsOfBitsValue` | file_compressor.py:83 | the bit pattern of the value of an 8-bit group (`int(..., 2)`) is the group itself |
| `BigEndian.BytesValue` | file_compressor.py:104 | a big-endian value of n bytes is below 256^n |
| `BigEndian.ValueBytes` | file_compressor.py:89 | `to_bytes(4, 'big')` of a count that fits gives four bytes that `from_bytes` reads back as the count |
| `Container.CountFields` | file_compressor.py:88-89 | the count fields of bytes `b..255` are 4 bytes each; `ReadCountFields` states that they read back as the counts |
| `Container.Serialize` | file_compressor.py:88-93 | the file is the 1025-byte header followed by the payload, with the padding byte last in the header |
| `Container.ReadCounts` | file_compressor.py:104 | `k` reads yield `k` values and consume 4 bytes each, or whatever is left: reads past the end of the file yield fewer bytes and no error |
| `Container.Parse` | file_compressor.py:104-106 | parsing always yields 256 counts. A file that holds the whole header yields its 1025th byte as the padding and all that follows as the payload. A shorter file yields padding 0 and an empty payload |
| `Container.TableOf` | file_compressor.py:104 | the dict read back has every byte as a key, holding its read count |
| `Container.ReadCountFields` | file_compressor.py:88-89 | reading back the written count fields yields the counts in byte order and leaves exactly what followed them |
| `Container.HeaderRoundTrip` | file_compressor.py:88-93 | writing the header and reading it back gives every byte's count (zero for absent bytes), the padding, and the payload |
| `Container.ReadTableBuildsSameTree` | file_compressor.py:104-108 | the table read back builds the same tree as the table that was written |
| `Container.CodeBits` | file_compressor.py:75-80 | the code bits of non-empty data have at least one bit per byte |
| `Container.Compress` | file_compressor.py:71-93 | compressing succeeds exactly for non-empty data whose counts all fit 4 bytes. Empty data is refused as empty input. A result holds the full header with a padding byte below 8 |
| `Container.Unframe` | file_compressor.py:104-116 | a file fails as invalid data exactly when every count read back is zero |
| `Container.Decompress` | file_compressor.py:104-124 | decompression gives "invalid data" exactly when every count read is zero; a missing-child failure happens only with a leaf root |
| `Container.UnframeCompressed` | file_compressor.py:75-116 | unframing a compressed file gives the tree of the data's counts and exactly the code bits |
| `Container.RoundTrip` | file_compressor.py:75-124 | for data with two distinct bytes and counts below 2^32, compressing succeeds and decompressing gives the data back |
| `Container.SingleSymbolNotRecovered` | file_compressor.py:119-122 | data of one repeated byte compresses, but decompressing it fails at the first bit |
| `Container.LoneSymbolLeafRoot` | file_compressor.py:41-50 | data of one repeated byte has a leaf as its root |
| `Container.DecompressCorrected` | file_compressor.py:104-124 | the corrected decompression fails exactly when every count read is zero |
| `Container.CorrectedRoundTrip` | file_compressor.py:75-124 | with the corrected decoder, every non-empty input whose counts are below 2^32 round-trips, including one repeated byte |
| `Container.ShortDataFits` | file_compressor.py:89 | data shorter than 2^32 bytes never overflows a count field |
| `Container.ShortContainerAccepted` | file_compressor.py:104-106 | a file shorter than the header is not refused. It decodes to nothing unless every count read from it is zero |
| `Container.ShortContainerExample` | file_compressor.py:104-106 | the four-byte file 00 00 00 01 decompresses to an empty output |

## Left out

- File reading and writing, `os.path.getsize`, and every `print` message. `compress` and `decompress` are modelled on the bytes they read and write.
- `validate_file_path` (lines 23-31): filesystem and permission checks.
- The UTF-8 text/binary classification at lines 128-132. It only chooses a message and does not change the output bytes.
- The zip conversion functions, the menu and `main`. They are wrappers around `zipfile`, temporary files and console input.
- The `IOError`/`ValueError` handlers. The two uncaught exceptions of the core (`OverflowError` at line 89 and `AttributeError` at line 122) are `Err(CountOverflow)` and `Err(MissingChild)` results. The model does not show the partly written output file that the overflow leaves behind.
- The layout of `heapq`.
  - The model pops the first node that no other node is less than.
  - When two internal nodes of equal weight tie, `heapq` may pop the other one. The model's tree can then differ in shape from the program's.
  - Taking the first such node is the model's own choice.
  - The leaf, weight, determinism and round-trip proofs use only two facts: each pop is a minimum under `__lt__` (the minimality and multiset facts of `MergeStep`), and the tree is a deterministic function of the table.
  - That these properties carry over to the other tie choices `heapq` can make is not proved here.

## Findings

| source | as written | input that shows it | evidently intended | confidence | as-written member | corrected member |
|---|---|---|---|---|---|---|
| file_compressor.py:119-122 | for a root that is a leaf, `current_node.left` is `None` after the first bit, and `current_node.char` raises `AttributeError`. `compress` gives such a root the code "0" at line 59, so one-symbol files do not decompress | the one-byte file `b"A"`: its container holds the count 1 for byte 65, padding 7 and the payload byte 00 | each bit under a lone leaf root decodes to that leaf's byte, so the data comes back | not executed | `Container.SingleSymbolNotRecovered` | `Container.CorrectedRoundTrip` |
