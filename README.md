# Huffman compressor, modelled in Dafny

A model of the Huffman coding core of `huffman-compressor`:

- `insert_sorted`, the insertion into a list kept in order by a key;
- `HuffmanTreeNode`, the symbol-code tree;
- `SimpleHuffmanCoder`, which counts symbol frequencies, builds the code
  tree by merging the two rarest nodes, derives the code table from the
  tree's paths, encodes by table lookup and decodes by walking the tree;
- `CanonicalHuffmanCoder`, which keeps only the code length of every symbol,
  rebuilds canonical codes from those lengths, and decodes with a table of
  `2^max_length` slots;
- the bit-packing helpers `byte_to_chr`, `chr_to_byte`, `ord_seq` and
  `chr_seq` of the file compressor.

The main results are these:

- the simple coder's round trip (`decode(encode(s)) == s`) for every fitted
  text with two or more distinct symbols;
- the lengths a fitted coder records obey Kraft's inequality, with
  equality;
- for two or more distinct symbols whose code lengths obey Kraft's
  inequality (as a fitted canonical coder's do), the canonical coder
  round-trips whenever its sorted code lengths grow by at most one from
  symbol to symbol;
- a counterexample (lengths 1, 3, 3, 3, 3) on which the canonical
  construction, as written, loses a symbol. A corrected construction that
  pads every code to its recorded length round-trips for two or more
  distinct symbols whose lengths obey Kraft's inequality, so for every
  fitted text of two or more distinct symbols (a text of one symbol gets
  the length 0 and the code "", so it encodes to "" and decodes to "");
- `chr_to_byte(byte_to_chr(bits))` gives back `bits` plus the padding zeros,
  and `byte_to_chr(chr_to_byte(s)) == s` for 8-bit characters.

Python values map to Dafny as follows:

- strings are `string`;
- dicts, which keep insertion order, are association lists
  (`Dicts.Dict<K, V> = seq<(K, V)>`): `d[k] = v` updates a key in place or
  appends a new one;
- an exception becomes an `Err` of `Results.Result`;
- `sorted` is a stable insertion sort.

Functions that only compute are Dafny functions. Loops are methods proved
equal to those functions. The two coders are classes over their Python
attributes. `CanonicalHuffmanCoder` reaches the state it inherits through a
`base: SimpleHuffmanCoder` field.

Modules, in dependency order:

- `Results`: errors and results;
- `Bits`: `int(s, 2)`, `bin`, `zfill`;
- `Dicts`;
- `SortedInsert`;
- `FrequencyTable`;
- `HuffmanTree`;
- `TreeBuilder`;
- `SimpleCoder`;
- `FittedCodeLengths`;
- `CanonicalCodes`;
- `CanonicalDecode`;
- `CanonicalRoundTrip`;
- `CanonicalCoder`;
- `CanonicalExamples`;
- `SimpleExamples`;
- `FileCompressor`.

The demonstration at the end of `huffman_coding.py` is
`CanonicalCoder.CodingExample`; its text is a parameter.

## Model

| member | source | states |
|---|---|---|
| Bits.ParseBinary | huffman_coding.py:153 | `int(s, 2)` succeeds exactly on a non-empty string of '0'/'1' (ValueError otherwise), and then gives the number the bits denote, below 2^len |
| Bits.Bin | huffman_coding.py:154 | `bin(n)[2:]` is a non-empty binary string denoting n, with no leading zero except for n = 0, and so the shortest such string |
| Bits.ZFill | huffman_coding.py:154 | `zfill(w)` gives max(len, w) characters and keeps the number a binary string denotes |
| Bits.BinFits | huffman_coding.py:154 | `bin(n)[2:]` fits in w digits exactly when n < 2^w |
| Bits.Render | huffman_coding.py:154 | `bin(n)[2:].zfill(w)` is a binary string denoting n |
| Bits.RenderValue | huffman_coding.py:153-154 | rendering the value of a binary string at its own width gives the string back (`int` and `bin`/`zfill` are inverse) |
| Bits.ValueInjective | huffman_coding.py:153 | two binary strings of one width that `int(., 2)` maps to the same number are equal |
| Dicts.Get | huffman_coding.py:108 | `d[k]` finds a value exactly when k is a key (KeyError otherwise) |
| Dicts.Put | huffman_coding.py:58-61 | `d[k] = v` keeps the dict invariant, makes `d[k]` return v, changes no other key's lookup, keeps an existing key's position and appends a new key at the end |
| Dicts.FromPairsOfDict | huffman_coding.py:159 | `dict(pairs)` over pairs with distinct keys is exactly those pairs in order |
| Dicts.GetIffItem | huffman_coding.py:159 | in a dict, `d[k] == v` exactly when (k, v) is an item |
| SortedInsert.InsertIndex | huffman_coding.py:40-44 | the guarded scan stops at or before the guard: every element it passes has a strictly better key than obj, and the one it stops at does not |
| SortedInsert.Inserted | huffman_coding.py:34-47 | the list after `insert_sorted` is one longer and holds the old elements plus obj |
| SortedInsert.InsertSorted | huffman_coding.py:34-47 | the loop with its guard computes the list `Inserted` describes |
| SortedInsert.InsertedKeepsSorted | huffman_coding.py:34-47 | a list sorted by key (ascending, or descending with `desc`) stays sorted after the insertion |
| SortedInsert.InsertIndexSplitsSorted | huffman_coding.py:43-45 | in a sorted list obj goes after exactly the elements whose key is strictly better |
| SortedInsert.InsertedWithKey | huffman_coding.py:43-45 | among the elements of its own key, obj comes first; all other keys keep their order |
| SortedInsert.StableSort | huffman_coding.py:79-80 | `sorted(..., key, reverse)` returns a permutation of its input, ordered by key |
| SortedInsert.StableSortIsStable | huffman_coding.py:79-80 | the sort is stable: the elements of every key keep their input order |
| SortedInsert.StableSortOfSorted | huffman_coding.py:79-80 | an input already in order is returned unchanged |
| SortedInsert.SortKeepsKeys | huffman_coding.py:145-147 | sorting pairs keeps the multiset of their first components |
| FrequencyTable.Distinct | huffman_coding.py:53-62 | the symbols of s, each once, exactly those occurring in s |
| FrequencyTable.DistinctInFirstOccurrenceOrder | huffman_coding.py:56-61 | the distinct symbols are listed in order of first occurrence |
| FrequencyTable.SymbolFrequencies | huffman_coding.py:53-62 | the counting loop computes `Frequencies(s)` |
| FrequencyTable.FrequenciesSnoc | huffman_coding.py:57-61 | one more character: a new symbol is put with count 1, a known one gets its count plus one |
| FrequencyTable.FrequenciesKnown | huffman_coding.py:60-61 | a known symbol has its count increased in place, at its position |
| FrequencyTable.FrequenciesNew | huffman_coding.py:58-59 | a new symbol is appended with count 1 |
| FrequencyTable.FrequenciesKeysAndCounts | huffman_coding.py:53-62 | the result is a dict whose keys are exactly the symbols of s, in order of first occurrence, each with its number of occurrences (at least 1) |
| FrequencyTable.FrequenciesSum | huffman_coding.py:53-62 | the counts add up to the length of s |
| FrequencyTable.FrequenciesOfEmpty | huffman_coding_test.py:49-50 | the empty string has the empty frequency dict |
| HuffmanTree.Tree.IsLeaf | huffman_coding.py:26-27 | a node is a leaf exactly when neither '0' nor '1' leads anywhere from it |
| HuffmanTree.SameNodeIgnoresChildren | huffman_coding.py:15-16 | `__eq__` is an equivalence relation, and two different trees with the same symbol and count compare equal |
| HuffmanTree.PathTo | huffman_coding.py:96-103 | every leaf symbol has a binary path from the root that reaches its leaf, non-empty below an internal root |
| HuffmanTree.PathsPrefixFree | huffman_coding.py:96-103 | in a tree without repeated symbols no symbol's path is a prefix of another's |
| TreeBuilder.LeafNodes | huffman_coding.py:82 | one leaf per (symbol, count) pair, in the same order |
| TreeBuilder.Merge | huffman_coding.py:84-91 | one loop turn shortens the list by one and replaces the last two nodes by their parent (last node left, the one before it right) |
| TreeBuilder.MergeStep | huffman_coding.py:84-91 | the parent is inserted by descending count into the list without the two popped nodes, and the final root is unchanged by the turn |
| TreeBuilder.CodeTree | huffman_coding.py:76-92 | building the tree fails (IndexError at `symbol_nodes[0]`) exactly on the empty text |
| TreeBuilder.MergeKeepsLeaves | huffman_coding.py:83-91 | a turn keeps the multiset of leaf symbols and the total count |
| TreeBuilder.MergeKeepsWellFormed | huffman_coding.py:88-89 | a turn keeps every node's symbol and count those of its two children |
| TreeBuilder.MergeKeepsSorted | huffman_coding.py:91 | a turn keeps the node list sorted by descending count |
| TreeBuilder.WellFormedSymbol | huffman_coding.py:88-89 | in a well-formed tree a node's `symbol` is its leaves, left to right |
| TreeBuilder.BuildFromPreserves | huffman_coding.py:83-92 | the root holds every leaf of the starting list, their total count, and is well formed |
| TreeBuilder.SortedLeafNodes | huffman_coding.py:79-82 | the starting list holds the frequency dict's symbols and its total count |
| TreeBuilder.SortedLeafNodesOrder | huffman_coding.py:79-82 | the starting list is leaves sorted by descending count |
| TreeBuilder.CodeTreeFacts | huffman_coding.py:76-92 | for a non-empty text the root exists, counts the text's length, has every distinct symbol at exactly one leaf and no other, is well formed, and is a leaf exactly when the text has one distinct symbol |
| SimpleCoder.MergeLast | huffman_coding.py:85-91 | the pops and the insertion compute one `Merge` turn |
| SimpleCoder.MergeAll | huffman_coding.py:83-91 | the loop leaves the single root of the list (or nothing from an empty list) |
| SimpleCoder.BuildCodeTree | huffman_coding.py:79-92 | the method computes `CodeTree(data)`, including the IndexError on an empty text |
| SimpleCoder.CodeNodeGet | huffman_coding.py:96-103 | after `code_node(t, cur)` every leaf symbol of t maps to cur plus its path, and every other key keeps its value |
| SimpleCoder.CodeNodeKeys | huffman_coding.py:96-103 | `code_node` appends the new symbols in left-to-right leaf order and keeps the dict invariant |
| SimpleCoder.CodeDictPaths | huffman_coding.py:94-105 | on a fresh coder the code dict has exactly the leaf symbols as keys, each mapped to its root-to-leaf path |
| SimpleCoder.CodeDictPrefixFree | huffman_coding.py:94-105 | no code of the table is a prefix of another symbol's code |
| SimpleCoder.EncodeWith | huffman_coding.py:107-109 | encoding succeeds exactly when every symbol has a code; otherwise KeyError |
| SimpleCoder.Child | huffman_coding.py:115-118 | one bit moves to the node that path leads to, or to None |
| SimpleCoder.WalkFrom | huffman_coding.py:111-124 | decoding raises only ValueError or AttributeError, and succeeds only on a binary string |
| SimpleCoder.WalkPath | huffman_coding.py:114-123 | walking a symbol's path from an internal node emits that symbol and restarts at the root |
| SimpleCoder.DecodeEncode | huffman_coding.py:107-124 | for a tree of two or more distinct leaves, every string over its symbols encodes and decodes back to itself |
| SimpleCoder.FittedRoundTrip | huffman_coding.py:72-124 | for a coder fitted on a text with two or more distinct symbols, `decode(encode(s)) == s` for every s over the text's symbols |
| SimpleCoder.WalkInternal | huffman_coding.py:111-124 | from an internal node of a tree with an internal root, decoding succeeds exactly on binary strings and otherwise raises ValueError (line 120), never AttributeError |
| SimpleCoder.FittedDecodeErrors | huffman_coding.py:72-124 | for a coder fitted on a text with two or more distinct symbols, `decode` succeeds exactly on binary strings and otherwise raises ValueError |
| SimpleCoder.SimpleHuffmanCoder.constructor | huffman_coding.py:64-70 | a fresh coder has no tree and an empty dict, and a non-empty string fits it |
| SimpleCoder.SimpleHuffmanCoder.Fit | huffman_coding.py:72-74 | an empty text raises IndexError and changes nothing; otherwise the tree is the text's and the codes are written over the old dict |
| SimpleCoder.SimpleHuffmanCoder.MakeCodeTree | huffman_coding.py:76-92 | the tree attribute becomes the text's tree, or IndexError for an empty text; the dict is untouched |
| SimpleCoder.SimpleHuffmanCoder.MakeCodeDict | huffman_coding.py:94-105 | without a tree AttributeError, otherwise `code_node` applied to the existing dict |
| SimpleCoder.SimpleHuffmanCoder.Encode | huffman_coding.py:107-109 | encoding with the coder's dict |
| SimpleCoder.SimpleHuffmanCoder.Decode | huffman_coding.py:111-124 | decoding by walking the coder's tree |
| FittedCodeLengths.LengthPairs | huffman_coding.py:137-138 | each item of the code dict with its code replaced by the code's length, same keys and order |
| FittedCodeLengths.CodeLengthsOfDict | huffman_coding.py:137-138 | on a fresh lengths dict the loop records every code's length, in the code dict's order |
| FittedCodeLengths.CodeNodeLengths | huffman_coding.py:96-103 | each code `code_node` assigns is as long as its leaf is deep |
| FittedCodeLengths.FittedDepths | huffman_coding.py:134-138 | a fresh coder records every leaf of its tree with that leaf's depth |
| FittedCodeLengths.DepthsWeight | huffman_coding.py:88-89 | the leaves below a node at depth d, every internal node having two children, fill the 2^(m - d) strings of m bits that begin with the node's path |
| FittedCodeLengths.WeightPermuted | huffman_coding.py:145-147 | reordering the lengths changes neither their bound nor their weight |
| FittedCodeLengths.TreeKraft | huffman_coding.py:134-147 | the sorted lengths recorded for any tree obey Kraft's inequality, with equality: the leaves fill the code space of the longest length |
| FittedCodeLengths.FittedLengths | huffman_coding.py:134-138 | the lengths of a fitted coder are a dict over exactly the text's distinct symbols whose sorted items obey Kraft's inequality, with equality |
| CanonicalCodes.SortKeyOrder | huffman_coding.py:147 | the integer sort key orders pairs by length first and symbol second, as the key `(x[1], x[0])` does |
| CanonicalCodes.SortedLengths | huffman_coding.py:145-147 | the sorted items are a permutation of the dict's items, ordered by length and then by symbol |
| CanonicalCodes.SortedLengthsOfDict | huffman_coding.py:145-147 | the sorted items of a dict are a dict with the same keys, each with its recorded length |
| CanonicalCodes.Incremented | huffman_coding.py:153-154 | the successor of a code denotes its value plus one, keeps its width unless the code was all ones, and then grows by one bit |
| CanonicalCodes.IncrementedWithin | huffman_coding.py:153-154 | the successor of a code that is not all ones is the one string of its width denoting the next value |
| CanonicalCodes.IncrementedOverflow | huffman_coding.py:153-154 | the successor of an all-ones code is the one string one bit wider denoting 2^width |
| CanonicalCodes.NextCode | huffman_coding.py:153-156 | a loop turn gives a binary code at least as long as the previous one and never empty |
| CanonicalCodes.NextCodeStep | huffman_coding.py:153-156 | `int(new_code, 2)` raises ValueError on the empty code, otherwise the turn gives `NextCode` |
| CanonicalCodes.CanonicalArr | huffman_coding.py:145-157 | the construction fails exactly on no pairs (IndexError) or on a first length of 0 followed by more pairs (ValueError); otherwise it gives every symbol in sorted order, the first with all-zero code of its length |
| CanonicalCodes.CanonicalArray | huffman_coding.py:145-157 | the loop computes `CanonicalArr` of the sorted pairs |
| CanonicalCodes.CodeLengthsGrow | huffman_coding.py:151-157 | codes never get shorter along the sorted list, so the last is the longest |
| CanonicalCodes.PaddedNextCode | huffman_coding.py:153-156 | the corrected step gives a code at least as long as the recorded length |
| CanonicalCodes.PaddedArr | huffman_coding.py:145-157 | the corrected construction has the same errors and symbols, and every code is at least as long as its recorded length |
| CanonicalCodes.AgreeStep | huffman_coding.py:155-156 | when the length grows by at most one, one appended '0' is all the padding needed |
| CanonicalCodes.SmallStepsArr | huffman_coding.py:155-156 | when the sorted lengths step by at most one, the codes as written are the corrected codes |
| CanonicalCodes.KraftFirstLength | huffman_coding.py:149-153 | two or more lengths that obey Kraft's inequality leave no room for a first length of 0 |
| CanonicalCodes.PaddedInvariant | huffman_coding.py:149-157 | under Kraft's inequality each corrected code has its recorded length, and extended to the longest length it denotes the space the earlier codes take, so codes follow each other without gap or overlap |
| CanonicalDecode.Expansion | huffman_coding.py:175-179 | `all_codes` has one slot per m-bit string that begins with some code, and every slot holds a symbol of the codes |
| CanonicalDecode.ExpansionIndex | huffman_coding.py:175-179 | the slots from the weight of the first i codes up to that of the first i + 1 hold the i-th symbol |
| CanonicalDecode.Window | huffman_coding.py:182-185 | the window has exactly m bits: the first m of the stream, or the stream zero-filled |
| CanonicalDecode.WindowConcat | huffman_coding.py:182-185 | a window over a code and more bits is the code and a window over the rest |
| CanonicalDecode.DecodeFrom | huffman_coding.py:180-189 | the loop emits at most one symbol per bit, and raises only ValueError, IndexError or KeyError |
| CanonicalDecode.WindowSymbol | huffman_coding.py:182-186 | a window over a canonical code and any bits after it reads a slot of the table that holds the code's symbol |
| CanonicalDecode.DecodeStep | huffman_coding.py:181-188 | a canonical code followed by more bits decodes to its symbol, then the decoding of the rest |
| CanonicalDecode.EncodeBinary | huffman_coding.py:107-109 | encoding with binary codes gives a binary string |
| CanonicalDecode.DecodeCanonical | huffman_coding.py:161-189 | with canonical codes and matching recorded lengths, decoding the encoding of any string over the symbols gives it back |
| CanonicalRoundTrip.ArrWithin | huffman_coding.py:173 | the last code bounds every code, so `max_length` is the longest code |
| CanonicalRoundTrip.CanonicalDecoding | huffman_coding.py:168-189 | decoding with an empty lengths dict raises IndexError; a result has at most one symbol per bit |
| CanonicalRoundTrip.PaddedDecoding | huffman_coding.py:168-189 | the same for the decoder over corrected codes |
| CanonicalRoundTrip.DecodingUnfolds | huffman_coding.py:170-189 | after a successful construction decoding is the loop over the expansion to the longest code |
| CanonicalRoundTrip.PaddedCanonical | huffman_coding.py:149-157 | under Kraft's inequality the corrected codes of sorted lengths, starting at length 1 or more, are canonical with exactly the recorded lengths |
| CanonicalRoundTrip.PaddedRoundTrip | huffman_coding.py:141-189 | for two or more symbols whose lengths obey Kraft's inequality, encoding with the corrected codes and decoding gives every string back |
| CanonicalRoundTrip.CanonicalRoundTrip | huffman_coding.py:141-189 | the coder as written round-trips every string when, in addition, the sorted lengths step by at most one |
| CanonicalCoder.CanonicalError | huffman_coding.py:145-157 | `_make_canonical_dict` raises exactly on an empty dict (IndexError) or a first sorted length of 0 with more symbols |
| CanonicalCoder.CodeLengthsStep | huffman_coding.py:137-138 | one more code dict item writes its code's length into the lengths dict |
| CanonicalCoder.DecodeFromStep | huffman_coding.py:181-188 | one loop turn emits the window's symbol and drops its recorded length (at least 1) from the stream |
| CanonicalCoder.DecodingSetup | huffman_coding.py:170-179 | after a successful construction `max_length` bounds every code, every table slot advances the stream, and decoding is the loop over that table |
| CanonicalCoder.DecodingError | huffman_coding.py:170 | a failing `_make_canonical_dict` makes `decode` raise the same error |
| CanonicalCoder.FittedCodes | huffman_coding.py:134-159 | fitting a non-empty text never fails in `_make_canonical_dict`, and `dict(pairs)` holds exactly the canonical pairs |
| CanonicalCoder.FittedEncodes | huffman_coding.py:161-166 | a fitted coder has a canonical code for every symbol of its text |
| CanonicalCoder.FittedCanonicalRoundTrip | huffman_coding.py:134-189 | fit, encode and decode from the lengths alone give every string over the text's symbols back, for texts of two or more symbols whose sorted lengths step by at most one |
| CanonicalCoder.FittedPaddedRoundTrip | huffman_coding.py:134-189 | with the corrected codes, the same round trip holds for every text of two or more distinct symbols |
| CanonicalCoder.FittedOneSymbol | huffman_coding.py:134-138 | a text of one distinct symbol records length 0 for it |
| CanonicalCoder.CanonicalHuffmanCoder.constructor | huffman_coding.py:129-132 | a fresh coder is empty, and a non-empty string fits it and always gives canonical codes, which become the code dict |
| CanonicalCoder.CanonicalHuffmanCoder.Fit | huffman_coding.py:134-139 | the simple fit, then every code length written into the lengths dict, then the canonical dict made from the whole lengths dict, with its error |
| CanonicalCoder.CanonicalHuffmanCoder.RecordCodeLengths | huffman_coding.py:137-138 | the lengths dict receives every code's length, symbol by symbol |
| CanonicalCoder.CanonicalHuffmanCoder.MakeCanonicalDict | huffman_coding.py:141-159 | on success the canonical pairs and the dict made from them; on an error both attributes as they were |
| CanonicalCoder.CanonicalHuffmanCoder.Encode | huffman_coding.py:161-166 | the simple encoding with the canonical dict, and the lengths dict |
| CanonicalCoder.CanonicalHuffmanCoder.Decode | huffman_coding.py:168-189 | canonical codes from the given lengths, then the decoding loop over the expansion |
| CanonicalCoder.ExpandCodes | huffman_coding.py:175-179 | the loop builds `all_codes` as `Expansion` describes |
| CanonicalCoder.DecodeWithTable | huffman_coding.py:180-189 | the decoding loop computes `DecodeFrom` |
| CanonicalCoder.DecodeSymbol | huffman_coding.py:181-188 | one turn either raises the loop's error or emits a symbol and consumes between 1 and all remaining bits |
| CanonicalCoder.CodingExample | huffman_coding.py:213-237 | an empty text fails with IndexError, a text of one symbol decodes to "", and a text of two or more symbols whose sorted lengths step by at most one comes back unchanged |
| CanonicalExamples.FiveCodes | huffman_coding.py:149-157 | lengths a:1, b..e:3 give the codes 0, 10, 110, 111 and 1000 (four bits for 'e') |
| CanonicalExamples.FiveLosesE | huffman_coding.py:141-189 | with those lengths "e" encodes to "1000", which decodes to "ba" |
| CanonicalExamples.FivePadded | huffman_coding.py:141-189 | the corrected codes round-trip every string over the five symbols |
| CanonicalExamples.OneSymbol | huffman_coding.py:141-189 | a single symbol gets the code "", any number of copies encodes to "", and "" decodes to "" |
| SimpleExamples.AbFrequencies | huffman_coding.py:53-62 | "ab" counts one 'a' and then one 'b' |
| SimpleExamples.SortTwo | huffman_coding.py:79-80 | the stable sort by descending count keeps two pairs of equal count in their order |
| SimpleExamples.BuildTwo | huffman_coding.py:83-92 | from two nodes the loop builds one parent with the last node on the left |
| SimpleExamples.TwoLeafNodes | huffman_coding.py:79-82 | two leaves of equal count, in frequency order, stay in that order |
| SimpleExamples.TwoLeafTree | huffman_coding.py:83-92 | leaves x and then y (in that order) build one parent whose symbol is y followed by x, with y on the '0' side |
| SimpleExamples.TwoLeafCodes | huffman_coding.py:94-105 | a parent of two distinct leaves gives its left leaf the code '0' and its right leaf '1' |
| SimpleExamples.AbCodeTree | huffman_coding_test.py:65-67 | the tree of "ab" has 'b' on the '0' side and 'a' on the '1' side |
| SimpleExamples.AbCodeDict | huffman_coding_test.py:65-67 | `SimpleHuffmanCoder("ab")._code_dict` is {'a': '1', 'b': '0'} |
| SimpleExamples.AbRoundTrip | huffman_coding_test.py:65-69 | "abbabaabbbbab" encodes with that coder and decodes back to itself |
| SimpleExamples.OneFrequencies | huffman_coding.py:53-62 | "a" counts one 'a' |
| SimpleExamples.OneCodeDict | huffman_coding_test.py:59-61 | `SimpleHuffmanCoder("a")._code_dict` is {'a': ''}: the tree is a single leaf |
| FileCompressor.Padded | huffman_file_compressor.py:16 | the bits followed by the fewest '0's that make a whole number of 8-bit portions |
| FileCompressor.Pack | huffman_file_compressor.py:17-19 | with the model's `int(s, 2)`, packing succeeds exactly on binary bits (ValueError otherwise), one 8-bit character per portion |
| FileCompressor.ByteToChr | huffman_file_compressor.py:6-20 | the method packs the padded bits |
| FileCompressor.PackChars | huffman_file_compressor.py:17-19 | each character's code is the value of its portion |
| FileCompressor.PackPrefix | huffman_file_compressor.py:18 | one non-binary portion makes the whole call raise ValueError |
| FileCompressor.ByteToChrResult | huffman_file_compressor.py:6-20 | with the model's `int(s, 2)`, which accepts only '0' and '1', `byte_to_chr` raises exactly on non-binary bits, otherwise gives one character per started portion with that portion's value |
| FileCompressor.CharBits | huffman_file_compressor.py:31 | a character's bits are binary and denote its code, 8 of them below 256 and more from 256 on |
| FileCompressor.ChrToByte | huffman_file_compressor.py:23-32 | the loop concatenates every character's bits |
| FileCompressor.UnpackLength | huffman_file_compressor.py:29-32 | 8-bit characters unpack to 8 bits each |
| FileCompressor.PackUnpack | huffman_file_compressor.py:6-32 | packing undoes unpacking on 8-bit characters |
| FileCompressor.UnpackPack | huffman_file_compressor.py:6-32 | unpacking undoes packing |
| FileCompressor.BitsRoundTrip | huffman_file_compressor.py:6-32 | `chr_to_byte(byte_to_chr(bits))` is the bits followed by fewer than 8 padding zeros |
| FileCompressor.CharsRoundTrip | huffman_file_compressor.py:6-32 | `byte_to_chr(chr_to_byte(s)) == s` for 8-bit characters |
| FileCompressor.WideChar | huffman_file_compressor.py:31 | a character of code 256 or more unpacks to more than 8 bits |
| FileCompressor.OrdSeq | huffman_file_compressor.py:35-41 | one code per character, each that character's code point |
| FileCompressor.ChrSeq | huffman_file_compressor.py:44-50 | succeeds exactly when every number is a code point, with one character per number; ValueError otherwise |
| FileCompressor.ChrSeqOrdSeq | huffman_file_compressor.py:35-50 | `chr_seq(ord_seq(s)) == s` |
| FileCompressor.OrdSeqChrSeq | huffman_file_compressor.py:35-50 | `ord_seq(chr_seq(ords)) == ords` whenever `chr_seq` succeeds |

## Left out

- Printing: `HuffmanTreeNode.print` and `__str__` (huffman_coding.py:18-31)
  write to the console.
- The demonstration script (huffman_coding.py:192-237): only its coding part
  (the constructor call at line 213 and lines 228-237) is modelled, as
  `CanonicalCoder.CodingExample`. The text is a parameter and the printing
  is dropped.
- The archive format and the command line of huffman_file_compressor.py
  (`dump`/`load`, lines 58-97, and the entry point, lines 104-127) are not
  modelled, because they are file I/O and JSON. bin_file_io.py is not part
  of this model.
- `inverse_symbol_code_length_dict`, imported by huffman_coding_test.py, is
  not defined in the source, so it is not modelled.
- Bits.ParseBinary: Python's `int(s, 2)` also accepts surrounding
  whitespace, underscores, a sign and a `0b` prefix. The model raises
  ValueError on every character other than '0' and '1'. The simple coder's
  and the code construction's own strings are always binary, but two callers
  parse strings they were given, so there the model raises where Python
  does not:
- CanonicalDecode.DecodeFrom: a window of the encoded string that is not
  binary raises ValueError in the model. In Python, with lengths a:1, b:2,
  c:2 (table "aabc"), `decode(" 1")` gives "ab", and `decode("-1")` gives
  "c" through the negative index `all_codes[-1]`.
- CanonicalRoundTrip.CanonicalDecoding: raises ValueError on such strings
  too, for the same reason.
- FileCompressor.Pack: a portion such as "+1111111" raises ValueError in
  the model; Python gives character 127.
- FileCompressor.ByteToChrResult: states the same error cases as `Pack`, so
  `byte_to_chr("+1111111")`, which Python answers with '\x7f', is an error
  in the model.
- Code lengths are `nat`: a lengths dict with negative lengths cannot be
  passed to `decode`.
- CanonicalRoundTrip.CanonicalDecoding: the lengths dict has `char` keys.
  Python's `decode` takes whatever dict it is given (the archive reader
  passes it the output of `json.loads`), so its keys may be strings of any
  length; `CanonicalCoder.CanonicalHuffmanCoder.Decode` has the same
  restriction.
- CanonicalCoder.CanonicalHuffmanCoder.MakeCanonicalDict: when
  `int('', 2)` raises, Python has already replaced `_symbol_code_arr` by the
  sorted, half-rewritten list. On an empty lengths dict, Python sets
  `_symbol_code_arr` to `[]` (lines 145-147) before `[0]` raises IndexError
  (line 149). In both cases the model keeps the attribute as it was.
  Either way, `decode` raises the same error.
- SortedInsert.InsertSorted: Python's `insert_sorted` changes the caller's
  list in place (append, insert, pop). The model returns the new list, so
  it does not capture in-place update or aliasing. No caller of the model
  shares the list.
- Inheritance: attribute sharing between `CanonicalHuffmanCoder` and
  `SimpleHuffmanCoder` is modelled by the `base` field. The canonical
  `_make_code_tree` and `_make_code_dict` are the simple coder's methods
  called on `base`.
- SimpleCoder.FittedRoundTrip: requires two or more distinct symbols.
  With one symbol the tree is a single leaf whose code is '', so every
  string of that symbol encodes to '' and decodes to ''; a bit fed to the
  lone leaf steps onto a missing child and raises AttributeError.
- SimpleCoder.DecodeEncode: requires an internal root, for the same reason.
- TreeBuilder.CodeTreeFacts: requires a non-empty text; the empty text's
  IndexError is stated by `TreeBuilder.CodeTree`.
- CanonicalCoder.FittedCanonicalRoundTrip: requires the sorted lengths to
  step by at most one, because the construction as written breaks the
  round trip otherwise (see Findings).
- CanonicalCoder.CodingExample: says nothing about texts whose sorted code
  lengths grow by more than one somewhere, for the same reason.
- FileCompressor.CharsRoundTrip: stated only for characters below 256.
  Wider characters give more than 8 bits (FileCompressor.WideChar), and the
  round trip then fails.
- FileCompressor.ChrSeq: Python's `chr` returns a lone surrogate for
  0xD800..0xDFFF. A Dafny `char` cannot hold one, so the model raises
  ValueError there.

## Findings

| source | as written | input that shows it | evidently intended | confidence | as-written member | corrected member |
|---|---|---|---|---|---|---|
| huffman_coding.py:155-156 | after incrementing, a code gets at most one '0' appended, however much longer the recorded length is | the lengths a:1, b:3, c:3, d:3, e:3 (those of "aaaabcde") give the codes 0, 10, 110, 111, 1000. "e" encodes to "1000", which decodes to "ba" | pad the incremented code with zeros up to the recorded length | not executed | CanonicalExamples.FiveLosesE | CanonicalRoundTrip.PaddedRoundTrip |
