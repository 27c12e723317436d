# InfoSearch indexing and retrieval core, modelled in Dafny

InfoSearch is a small C++ search engine over crawled HTML pages. This project models its indexing and retrieval
chain and proves properties of the model:

- the var-byte integer codec (`Compression`), which uses the byte layout of unsigned LEB128 (DWARF Version 4,
  section 7.6);
- the separate-chaining `HashMap<K,V>` with its load-factor rehash;
- the `InvertedIndex` (term → postings of docId and term frequency), with its compressed save/load format, its
  frequency export and its export to the uncompressed boolean layout;
- the `BooleanIndex` (term → docId list), with its save/load format;
- the `Tokenizer` (case folding and splitting into runs of word characters);
- the `QueryParser`: operator classification, padding of `(`, `)` and `!`, segmentation at whitespace, lexing,
  shunting-yard conversion to reverse Polish notation (RPN), and the stack evaluator with intersection, union and
  complement of sorted docId lists;
- `Scorer::search`: additive TF-IDF with an optional sorted allow-list and a sort by descending score;
- the helpers of `main.cpp` that build the index: the URL table file and the per-document ingestion callback.

How the model is built:

- **Stateful code is imperative Dafny.** The hash table, the two indexes and the loops of the source are Dafny
  classes and methods with `while`/`for` loops. Each is proved against a specification function.
- **Classes and their abstract state.** `HashMap` keeps its buckets in an `array`, and its abstract content is a
  ghost `map`. `InvertedIndex` and `BooleanIndex` own a `HashMap`, and their content is that map.
- **Files are byte sequences.** `size_t` fields are 8 bytes and `uint32_t` fields 4 bytes, least significant byte
  first. A file read is an `Option<Bytes>` whose `None` means "cannot open"; a writer takes a `canOpen` flag and
  returns `None` in place of the file when it is false.
- **Library code is a parameter:**
  - `std::hash`;
  - the UTF-8 decoding of the tokenizer;
  - the HTML cleaner;
  - the lemmatizer;
  - the `idf` weight.

  Nothing is assumed about any of them.
- **Integer arithmetic is modelled explicitly** where the source wraps around: `uint32_t` gaps and frequencies,
  the `size_t` document counter, and the `uint64_t` frequency sums.

The modules and their files:

| file | module |
|---|---|
| common.dfy | Common |
| compression.dfy | Compression |
| hashmap.dfy | HashTable |
| sorting.dfy | Sorting |
| inverted_index.dfy | InvertedIndexing |
| boolean_index.dfy | BooleanIndexing |
| tokenizer.dfy | Tokenization |
| query_ops.dfy | QueryOperators |
| query_lexer.dfy | QueryLexing |
| shunting_yard.dfy | ShuntingYard |
| rpn_eval.dfy | RpnEvaluation |
| query_parser.dfy | QueryParsing |
| scorer.dfy | Ranking |
| ingest.dfy | Ingestion |

Two details of the code shape the model:

- `insert` checks the load factor before it adds the key, so the table's invariant is
  `4 * elementCount <= 3 * tableSize + 4`.
- `load` decodes a posting list while the gap block has bytes. The frequency block is read in lockstep, and its
  length is never compared with the gap block's.

## Model

| member | source | states |
|---|---|---|
| Common.LittleEndianRoundTrip | include/core/InvertedIndex.hpp:66-69 | a field of `width` bytes, written least significant byte first, reads back as the number written whenever that number fits |
| Common.ReadSizeField | include/core/InvertedIndex.hpp:117-120 | an 8-byte `size_t` field written at pos reads back as its value, and the cursor moves 8 bytes |
| Common.ReadManyAt | include/core/InvertedIndex.hpp:122-159 | records laid out one after another, each of which reads back as its entry, are read back as the whole entry list |
| Common.RunsJoin | include/nlp/Tokenizer.hpp:59-76 | joining the runs gives back exactly the kept elements, in order |
| Common.RunsKept | include/nlp/Tokenizer.hpp:59-76 | every run is non-empty and holds only kept elements |
| Common.RunsCut | include/nlp/Tokenizer.hpp:63-70 | a separator ends the run in front of it: the runs of `w + [c] + rest` are `w` followed by the runs of `rest` |
| Common.RunsNone | include/nlp/Tokenizer.hpp:73-78 | input without kept elements has no runs |
| Compression.VarByteShape | include/utils/Compression.hpp:12-17 | every byte of an encoding except the last has bit 7 set, and the last has it clear |
| Compression.VarByteLength | include/utils/Compression.hpp:12-17 | the encoding of n takes at most k bytes exactly when n < 128^k |
| Compression.VarByteLengthBounds | include/utils/Compression.hpp:12-17 | a 32-bit number takes 1 to 5 bytes: 1 byte exactly below 128, 2 bytes exactly from 128 to 16383, and 5 bytes exactly from 2^28 up |
| Compression.VarByteExamples | include/utils/Compression.hpp:12-17 | 5 → [5], 127 → [127], 128 → [0x80, 0x01], 300 → [0xAC, 0x02], and 0xFFFFFFFF takes 5 bytes |
| Compression.EncodeVarByte | include/utils/Compression.hpp:10-18 | appends the encoding of number to output: earlier bytes are unchanged, 1 to 5 bytes are added, and they carry the continuation bit on all but the last |
| Compression.DecodeAt | include/utils/Compression.hpp:20-37 | a cursor at or past the end gives 0 and stays put; otherwise the cursor advances and stays within the buffer |
| Compression.AccumulateGroups | include/utils/Compression.hpp:24-35 | the loop's OR of shifted 7-bit groups equals the value of the groups read from the cursor, shifted into place |
| Compression.DecodeVarByte | include/utils/Compression.hpp:20-37 | the number and the cursor returned are those of DecodeAt; on overrun at entry, 0 with the cursor unchanged |
| Compression.DecodeOfVarByte | include/utils/Compression.hpp:20-37 | where the encoding of a 32-bit n lies in the buffer, decoding there is defined, returns n and advances by the encoding's length |
| Compression.CompressList | include/utils/Compression.hpp:39-49 | the result is the in-order concatenation of the encodings of the numbers |
| Compression.EncodedLength | include/utils/Compression.hpp:39-49 | a compressed list takes at most 5 bytes per number |
| Compression.EncodedAppend | include/utils/Compression.hpp:39-49 | compressing a concatenation gives the concatenation of the compressed parts |
| Compression.DecodeManyAt | include/utils/Compression.hpp:20-49 | decoding \|xs\| numbers where their encodings lie in turn gives xs and stops right after the last encoding |
| Compression.CompressListRoundTrip | include/utils/Compression.hpp:39-49 | decoding \|xs\| numbers from the start of compressList(xs) gives xs back and leaves the cursor at the end of the buffer |
| Compression.DecodePairsAt | include/core/InvertedIndex.hpp:143-156 | decoding two buffers in lockstep until the first is used up pairs back the two lists encoded in them |
| HashTable.Slot | include/core/HashMap.hpp:30-33 | the bucket of a key is inside the table |
| HashTable.AbsentFromChain | include/core/HashMap.hpp:83-94 | under the representation invariant, a key missing from its own bucket is not in the map |
| HashTable.OverwriteHolds | include/core/HashMap.hpp:69-75 | overwriting a key's node in its bucket keeps the representation invariant for the updated map |
| HashTable.AppendHolds | include/core/HashMap.hpp:78-79 | appending a new key to its bucket keeps the representation invariant for the extended map |
| HashTable.EnumerationRebuilds | include/core/HashMap.hpp:110-119 | inserting the pairs of an enumeration of m, in order, rebuilds m, and the enumeration has one entry per key |
| HashTable.FlattenEnumerates | include/core/HashMap.hpp:110-119 | the nodes bucket by bucket list every pair of the map exactly once |
| HashTable.MapOfKeys | include/core/HashMap.hpp:60-80 | the keys that a sequence of inserts leaves are exactly the keys inserted |
| HashTable.InsertAllAppend | include/core/HashMap.hpp:60-80 | inserting a + b is inserting a, then b |
| HashTable.HashMap.constructor | include/core/HashMap.hpp:55-58 | a table of initialSize empty buckets holding the empty map |
| HashTable.HashMap.Size | include/core/HashMap.hpp:107 | size() is the number of keys stored |
| HashTable.HashMap.Put | include/core/HashMap.hpp:67-79 | the key maps to the value and every other key is unchanged; size grows by one exactly for a new key; the invariant holds |
| HashTable.HashMap.Insert | include/core/HashMap.hpp:60-80 | upsert: as Put, after doubling the table exactly when 4·count > 3·tableSize |
| HashTable.HashMap.Rehash | include/core/HashMap.hpp:36-52 | doubles tableSize and leaves the abstract map and the count unchanged |
| HashTable.HashMap.PutAll | include/core/HashMap.hpp:45-51 | re-inserting one old bucket gives the map those inserts build, without a nested rehash |
| HashTable.HashMap.Get | include/core/HashMap.hpp:83-94 | the stored value of the key, or None (null) exactly when the key is absent |
| HashTable.HashMap.Contains | include/core/HashMap.hpp:96-105 | true exactly when the key is stored |
| HashTable.HashMap.Traverse | include/core/HashMap.hpp:110-119 | the callback receives every stored pair exactly once, bucket by bucket |
| HashTable.HashMap.Clear | include/core/HashMap.hpp:121-128 | the map is empty and the count is 0; tableSize is unchanged |
| Sorting.InsertDescending | include/core/InvertedIndex.hpp:183-187 | inserting into a list sorted by descending key keeps it sorted, with the element added to its multiset |
| Sorting.SortDescending | src/ranking/Scorer.cpp:49-50 | std::sort with a `>` comparator: the result is a permutation of its input, in non-increasing key order |
| InvertedIndexing.AddPosting | include/core/InvertedIndex.hpp:41-48 | the list ends with docId, grows by at most one, and every posting for another document is kept in place |
| InvertedIndexing.AddTermTo | include/core/InvertedIndex.hpp:30-50 | the term's list ends with a posting for docId, and no other term changes |
| InvertedIndexing.AddTermCountsOne | include/core/InvertedIndex.hpp:30-50 | an addTerm whose counter does not wrap adds one occurrence to its term and none to any other |
| InvertedIndexing.TfSumCountsCalls | include/core/InvertedIndex.hpp:30-50 | after fewer than 2^32 calls from an empty index, each term's frequencies sum to the number of calls for it |
| InvertedIndexing.AddTermKeepsIncreasing | include/core/InvertedIndex.hpp:30-50 | fed a docId no smaller than the term's last one, addTerm keeps every term's docIds strictly increasing |
| InvertedIndexing.AddAllPosted | include/core/InvertedIndex.hpp:30-50 | every posted docId comes from a call for that term |
| InvertedIndexing.CallsBuildIncreasing | include/core/InvertedIndex.hpp:30-50 | calls that give each term non-decreasing docIds build strictly increasing postings from an empty index |
| InvertedIndexing.GapRestores | include/core/InvertedIndex.hpp:84-87 | adding the `uint32_t` gap to the previous docId restores the docId, with wrap-around |
| InvertedIndexing.RebuildDeltas | include/core/InvertedIndex.hpp:146-156 | the running sum of the gaps rebuilds the postings, for any postings |
| InvertedIndexing.DecodeOfBlocks | include/core/InvertedIndex.hpp:78-104 | decoding the two blocks save writes for a list gives the list back |
| InvertedIndexing.ReadHeaderOf | include/core/InvertedIndex.hpp:124-133 | termLen, the term and the two block sizes, written in front of the blocks, read back, and the cursor lands on the blocks |
| InvertedIndexing.ReadBlocksOf | include/core/InvertedIndex.hpp:124-139 | a record read at its position gives back its term and both blocks, and ends where the record ends |
| InvertedIndexing.ReadRecordOf | include/core/InvertedIndex.hpp:122-158 | one term record, wherever it lies, reads back as its term and postings |
| InvertedIndexing.RecordsReadBack | include/core/InvertedIndex.hpp:122-158 | every record of the list, wherever it lies, reads back as its entry |
| InvertedIndexing.ReadRecordsAt | include/core/InvertedIndex.hpp:122-159 | records written one after another read back in order |
| InvertedIndexing.LoadOfImage | include/core/InvertedIndex.hpp:60-163 | load of save's bytes reads back totalDocs and every term record in the order written |
| InvertedIndexing.LoadOfSave | include/core/InvertedIndex.hpp:60-163 | whatever enumeration order save used, load of its bytes restores totalDocs and exactly the postings of the index |
| InvertedIndexing.ExportEnumerates | include/core/InvertedIndex.hpp:213-226 | the records exportToBooleanIndex writes enumerate the index's terms with their docIds |
| InvertedIndexing.BooleanLoadOfExport | include/core/InvertedIndex.hpp:202-229 | BooleanIndex load of exportToBooleanIndex's output gives totalDocs and, for every term, its postings' docIds in order |
| InvertedIndexing.FrequencyTableOfIndex | include/core/InvertedIndex.hpp:171-196 | the frequency table has one row per term, whose frequency is the sum of that term's frequencies, and every term has a row |
| InvertedIndexing.WriteRecord | include/core/InvertedIndex.hpp:71-104 | the bytes written for one term: termLen, term, block sizes, then the gap block and the frequency block |
| InvertedIndexing.WriteRecords | include/core/InvertedIndex.hpp:71-104 | the records of the traverse, one after another |
| InvertedIndexing.WriteDocIdRecords | include/core/InvertedIndex.hpp:213-226 | the records of exportToBooleanIndex are the BooleanIndex records of each term's docIds |
| InvertedIndexing.SumFrequencies | include/core/InvertedIndex.hpp:176-179 | the `uint64_t` sum of the term's frequencies |
| InvertedIndexing.DecodeBlocks | include/core/InvertedIndex.hpp:142-156 | the postings the lockstep decoding loop rebuilds from the two blocks |
| InvertedIndexing.ReadTermHeader | include/core/InvertedIndex.hpp:124-133 | the reads of termLen, term, sizeDeltas and sizeTfs give the header reader's result |
| InvertedIndexing.ReadTermRecord | include/core/InvertedIndex.hpp:124-156 | one iteration of load's term loop gives the record reader's result |
| InvertedIndexing.ReadTermRecords | include/core/InvertedIndex.hpp:122-159 | load's loop reads up to termCount records, stopping at the first the data cannot hold |
| InvertedIndexing.NextCount | include/core/InvertedIndex.hpp:57 | `++totalDocs` on a `size_t`: one more, and 0 after 2^64 − 1 |
| InvertedIndexing.InvertedIndex.constructor | include/core/InvertedIndex.hpp:26-27 | an empty index with totalDocs 0 |
| InvertedIndexing.InvertedIndex.AddTerm | include/core/InvertedIndex.hpp:30-50 | the index becomes AddTermTo of the old one, and totalDocs is unchanged |
| InvertedIndexing.InvertedIndex.GetPostings | include/core/InvertedIndex.hpp:52-55 | the term's postings, or None (null) exactly when the term is absent |
| InvertedIndexing.InvertedIndex.IncrementDocCount | include/core/InvertedIndex.hpp:57 | totalDocs goes one up in `size_t` arithmetic, and the postings are unchanged |
| InvertedIndexing.InvertedIndex.GetTotalDocs | include/core/InvertedIndex.hpp:58 | the current totalDocs |
| InvertedIndexing.InvertedIndex.Save | include/core/InvertedIndex.hpp:60-108 | false and no file when the file does not open; otherwise true, and the file is totalDocs, termCount and the records of some enumeration of the index |
| InvertedIndexing.InvertedIndex.Load | include/core/InvertedIndex.hpp:110-163 | a file that cannot be opened gives false and changes nothing; otherwise the table is cleared and rebuilt from the records read |
| InvertedIndexing.InvertedIndex.InsertEntries | include/core/InvertedIndex.hpp:158 | load's inserts, in order |
| InvertedIndexing.InvertedIndex.ExportFrequencyStats | include/core/InvertedIndex.hpp:165-200 | no table when the file does not open; otherwise rows ranked 1, 2, … in non-increasing frequency, holding exactly the (term, frequency) pairs of an enumeration of the index |
| InvertedIndexing.InvertedIndex.ExportToBooleanIndex | include/core/InvertedIndex.hpp:202-229 | no file when the file does not open; otherwise the file is totalDocs, termCount and, per term of an enumeration, the term and its docIds without frequencies |
| BooleanIndexing.AddTermTo | include/core/BooleanIndex.hpp:19-36 | the term's list ends with docId, and no other term changes |
| BooleanIndexing.AddTermKeepsIncreasing | include/core/BooleanIndex.hpp:19-36 | fed a docId no smaller than the term's last one, addTerm keeps every list strictly increasing |
| BooleanIndexing.ReadIds | include/core/BooleanIndex.hpp:99-103 | reading count ids gives count of them and moves the cursor 4·count bytes |
| BooleanIndexing.ReadIdsOf | include/core/BooleanIndex.hpp:99-103 | ids written one after another read back |
| BooleanIndexing.ReadRecordOf | include/core/BooleanIndex.hpp:90-103 | one term record, wherever it lies, reads back as its term and ids |
| BooleanIndexing.RecordsReadBack | include/core/BooleanIndex.hpp:88-106 | every record of the list, wherever it lies, reads back as its entry |
| BooleanIndexing.ReadRecordsAt | include/core/BooleanIndex.hpp:88-106 | records written one after another read back in order |
| BooleanIndexing.LoadOfImage | include/core/BooleanIndex.hpp:46-110 | load of save's bytes reads back totalDocs and every record in the order written |
| BooleanIndexing.LoadOfSave | include/core/BooleanIndex.hpp:46-110 | whatever enumeration order save used, load of its bytes restores totalDocs and exactly the id lists |
| BooleanIndexing.ReadIdList | include/core/BooleanIndex.hpp:99-103 | the id loop of load gives the id reader's result |
| BooleanIndexing.ReadTermRecord | include/core/BooleanIndex.hpp:90-103 | one iteration of load's term loop gives the record reader's result |
| BooleanIndexing.WriteRecord | include/core/BooleanIndex.hpp:57-70 | the bytes written for one term: termLen, term, docCount and the ids |
| BooleanIndexing.WriteRecords | include/core/BooleanIndex.hpp:57-70 | the records of the traverse, one after another |
| BooleanIndexing.ReadTermRecords | include/core/BooleanIndex.hpp:88-106 | load's loop reads up to termCount records, stopping at the first the data cannot hold |
| BooleanIndexing.BooleanIndex.constructor | include/core/BooleanIndex.hpp:15-16 | an empty index with totalDocs 0 |
| BooleanIndexing.BooleanIndex.AddTerm | include/core/BooleanIndex.hpp:19-36 | the index becomes AddTermTo of the old one: [docId] for a new term, docId appended unless it is already last |
| BooleanIndexing.BooleanIndex.GetDocIds | include/core/BooleanIndex.hpp:38-41 | the term's list, or None (null) exactly when the term is absent |
| BooleanIndexing.BooleanIndex.SetTotalDocs | include/core/BooleanIndex.hpp:43 | totalDocs becomes the value given, and the lists are unchanged |
| BooleanIndexing.BooleanIndex.GetTotalDocs | include/core/BooleanIndex.hpp:44 | the value last set |
| BooleanIndexing.BooleanIndex.Save | include/core/BooleanIndex.hpp:46-74 | false and no file when the file does not open; otherwise true, and the file is totalDocs, termCount and the records of some enumeration of the index |
| BooleanIndexing.BooleanIndex.Load | include/core/BooleanIndex.hpp:76-110 | a file that cannot be opened gives false and changes nothing; otherwise the table is cleared and rebuilt from the records read |
| BooleanIndexing.BooleanIndex.InsertEntries | include/core/BooleanIndex.hpp:105 | load's inserts, in order |
| Tokenization.Fold | include/nlp/Tokenizer.hpp:38-51 | the result is never a capital, and a code point that is not a capital is unchanged |
| Tokenization.FoldPairs | include/nlp/Tokenizer.hpp:38-51 | A–Z map to a–z, U+0410–U+042F to U+0430–U+044F and U+0401 to U+0451, and folding twice is folding once |
| Tokenization.FoldAllAt | include/nlp/Tokenizer.hpp:35-51 | the folded text holds the fold of each code point in place |
| Tokenization.Tokenize | include/nlp/Tokenizer.hpp:18-79 | a failed decoding gives no tokens; otherwise the tokens are the maximal runs of word characters of the folded text |
| Tokenization.TokensAreWords | include/nlp/Tokenizer.hpp:54-70 | no token is empty, and every token is made of word characters, none of them a capital |
| Tokenization.TokensKeepWordChars | include/nlp/Tokenizer.hpp:59-76 | the tokens joined are exactly the word characters of the folded text, in order |
| Tokenization.NoWordCharsNoTokens | include/nlp/Tokenizer.hpp:73-78 | text without word characters gives no tokens |
| Tokenization.ApostropheSplits | include/nlp/Tokenizer.hpp:59-70 | `It's` gives `it` and `s` |
| Tokenization.CyrillicAndDigits | include/nlp/Tokenizer.hpp:43-57 | `Ёж 2` gives `ёж` and `2`: Ё is folded and digits are kept |
| QueryOperators.TryParseOperator | include/nlp/QueryParser.hpp:37-70 | an operator is returned exactly for the spellings of that kind, with its precedence (OR 1, AND 2, NOT 3, parentheses 0); every other string is rejected |
| QueryOperators.Intersect | include/nlp/QueryParser.hpp:73-78 | every element of the result is in both lists |
| QueryOperators.Union | include/nlp/QueryParser.hpp:80-85 | an element is in the result exactly when it is in either list |
| QueryOperators.IntersectSorted | include/nlp/QueryParser.hpp:73-78 | on sorted unique lists the intersection is sorted, unique and holds exactly the common ids |
| QueryOperators.UnionSorted | include/nlp/QueryParser.hpp:80-85 | on sorted unique lists the union is sorted and unique |
| QueryOperators.Complement | include/nlp/QueryParser.hpp:87-104 | ascending, below n, and holding exactly the ids in [0, n) missing from the list |
| QueryOperators.OpNot | include/nlp/QueryParser.hpp:87-104 | ascending ids below totalDocs including every id missing from a; for a sorted a, exactly the complement of a |
| QueryOperators.NotSkip | include/nlp/QueryParser.hpp:94-97 | the step that meets a[a_idx] keeps the loop invariant |
| QueryOperators.NotKeep | include/nlp/QueryParser.hpp:98-101 | the step that emits docId keeps the loop invariant |
| QueryLexing.Lemmas | include/nlp/QueryParser.hpp:113-118 | no more lemmas than tokens, and none empty |
| QueryLexing.LemmasOfTokens | include/nlp/QueryParser.hpp:113-118 | every lemma is the lemma of some token; when no lemma is empty, the lemmas are those of the tokens one for one |
| QueryLexing.LemmatizeAll | include/nlp/QueryParser.hpp:113-118 | the loop keeps the non-empty lemmas of the tokens, in order |
| QueryLexing.Find | include/nlp/QueryParser.hpp:130 | the first index from `from` on that holds the byte, or None when there is none |
| QueryLexing.PadSymbol | include/nlp/QueryParser.hpp:129-134 | the find/replace loop surrounds every occurrence of the symbol with one space on each side and changes nothing else |
| QueryLexing.PadReplace | include/nlp/QueryParser.hpp:130-133 | one replace step, and the cursor step after it, keep the loop invariant |
| QueryLexing.SpacedAppend | include/nlp/QueryParser.hpp:126-135 | padding distributes over concatenation |
| QueryLexing.ThreePasses | include/nlp/QueryParser.hpp:126-135 | the three passes for `(`, `)` and `!` together pad each of the three symbols once |
| QueryLexing.PreprocessQuery | include/nlp/QueryParser.hpp:126-135 | the processed query is the query with every `(`, `)` and `!` surrounded by spaces |
| QueryLexing.PadAllIsolates | include/nlp/QueryParser.hpp:126-135 | after padding, every `(`, `)` and `!` has a space on each side |
| QueryLexing.PadAllKeepsText | include/nlp/QueryParser.hpp:126-135 | padding changes nothing but spaces |
| QueryLexing.PaddedSymbolsStandAlone | include/nlp/QueryParser.hpp:126-141 | every whitespace segment of the processed query that holds `(`, `)` or `!` is that symbol alone |
| QueryLexing.Lex | include/nlp/QueryParser.hpp:141-159 | each segment gives its operator token, or the WORD tokens of the non-empty lemmas of its tokens |
| QueryLexing.LexWords | include/nlp/QueryParser.hpp:151-157 | the WORD tokens of the non-empty lemmas of the words, in order |
| QueryLexing.LexedTokensWellFormed | include/nlp/QueryParser.hpp:141-159 | every lexed WORD is non-empty with precedence 0, and every operator token carries the kind and precedence of its spelling |
| ShuntingYard.ToRpn | include/nlp/QueryParser.hpp:161-196 | the loop's output is the shunting-yard conversion of the tokens |
| ShuntingYard.ShuntAccounted | include/nlp/QueryParser.hpp:165-191 | during conversion, WORDs reach the output in input order, only operators and `(` are stacked, no `)` is output, and every operator is output or stacked exactly once |
| ShuntingYard.FlushAccounted | include/nlp/QueryParser.hpp:192-196 | flushing the stack keeps that accounting |
| ShuntingYard.RpnAccounts | include/nlp/QueryParser.hpp:161-196 | the RPN holds the WORDs in input order, holds no `)`, and holds the input's operators as a multiset |
| ShuntingYard.PopOperatorsStops | include/nlp/QueryParser.hpp:183-188 | an incoming operator pops exactly the operators of precedence ≥ its own on top of the stack, stopping at `(` |
| ShuntingYard.PopOperatorsOutput | include/nlp/QueryParser.hpp:183-188 | the popped operators go to the output top first |
| ShuntingYard.PopUntilOpenAccounted | include/nlp/QueryParser.hpp:173-177 | `)` pops until a `(`, which is then on top if there is one |
| ShuntingYard.AndBeforeOr | include/nlp/QueryParser.hpp:161-196 | `a \| b & c` becomes `a b c & \|` |
| ShuntingYard.ParensFirst | include/nlp/QueryParser.hpp:161-196 | `( a \| b ) & c` becomes `a b \| c &` |
| ShuntingYard.UnmatchedOpenFlushed | include/nlp/QueryParser.hpp:192-196 | an unmatched `(` is flushed to the output |
| RpnEvaluation.IdsBelow | include/nlp/QueryParser.hpp:92 | the set of ids in [0, n) |
| RpnEvaluation.WordMeaning | include/nlp/QueryParser.hpp:203-210 | a WORD pushes its list, or the empty list for an absent word, and the list is sorted and stands for the word's set |
| RpnEvaluation.NotMeaning | include/nlp/QueryParser.hpp:211-218 | NOT on an empty stack is skipped; otherwise the top becomes its complement in [0, totalDocs), and it never throws while entries stay below totalDocs |
| RpnEvaluation.MergeMeaning | include/nlp/QueryParser.hpp:219-231 | AND pushes the sorted intersection and OR the sorted union, as sets, with the bound kept |
| RpnEvaluation.BinaryMeaning | include/nlp/QueryParser.hpp:219-231 | a binary operator with fewer than two operands is skipped; otherwise the two tops are replaced by their intersection or union |
| RpnEvaluation.StepMeaning | include/nlp/QueryParser.hpp:201-232 | every evaluation step keeps the stack sorted and equal, entry by entry, to the set evaluation |
| RpnEvaluation.EvalMeaning | include/nlp/QueryParser.hpp:199-232 | on an index of sorted unique lists every stack entry is sorted and stands for its set; with all ids below totalDocs, evaluation never throws |
| RpnEvaluation.BooleanResultMeaning | include/nlp/QueryParser.hpp:199-234 | the result is sorted, unique and equal to the set the query stands for; it is defined whenever all ids are below totalDocs |
| RpnEvaluation.EvalNoneStays | include/nlp/QueryParser.hpp:215-217 | once a step has thrown, the evaluation stays thrown |
| RpnEvaluation.NotAloneSkipped | include/nlp/QueryParser.hpp:213-214 | a lone NOT gives the empty result |
| RpnEvaluation.OneOperandSkipped | include/nlp/QueryParser.hpp:221-222 | `w AND` with one operand gives w's list |
| RpnEvaluation.LastOperandWins | include/nlp/QueryParser.hpp:234 | two words without an operator give the second word's list |
| RpnEvaluation.LeftoverOpenIsUnion | include/nlp/QueryParser.hpp:219-231 | a flushed `(` acts as a binary operator other than AND: it unions the two tops |
| RpnEvaluation.EvalThrows | include/nlp/QueryParser.hpp:215-217 | a throw in a prefix makes the whole evaluation throw |
| RpnEvaluation.OperandSorted | include/nlp/QueryParser.hpp:215-217 | on an index of sorted lists the NOT operand is sorted |
| RpnEvaluation.IdAtTotalThrows | include/nlp/QueryParser.hpp:87-104 | with y posted at docId 2 and totalDocs 2, `!(!y \| y)` throws: the outer NOT's operand is longer than totalDocs |
| RpnEvaluation.EvalRpn | include/nlp/QueryParser.hpp:198-234 | the loop's result is the evaluation of the RPN against the index, with None for a throw |
| QueryParsing.ParseTerms | include/nlp/QueryParser.hpp:109-120 | the non-empty lemmas of the query's tokens, in order |
| QueryParsing.ParseBoolean | include/nlp/QueryParser.hpp:122-235 | the result is the pipeline's value; it is sorted, unique and equal to the set the query stands for, and it is defined whenever all ids are below totalDocs |
| Ranking.AccumulateKeys | src/ranking/Scorer.cpp:19-41 | after one term's postings, the scored documents are the earlier ones plus the allowed documents of those postings |
| Ranking.AccumulateScore | src/ranking/Scorer.cpp:19-41 | an allowed document's score grows by the sum of tf·w over its postings; any other document's is unchanged |
| Ranking.ScoresKeys | src/ranking/Scorer.cpp:11-42 | the scored documents are exactly the allowed documents in the postings of the query's terms |
| Ranking.ScoresSum | src/ranking/Scorer.cpp:11-42 | an allowed document's score is the sum over query-term occurrences, repeats included, of tf·idf(N, \|postings\|) |
| Ranking.AbsentTermsScoreNothing | src/ranking/Scorer.cpp:13-15 | a query whose terms are all missing from the index scores no document |
| Ranking.RowsOnce | src/ranking/Scorer.cpp:46-47 | traversing a map gives each (docId, score) row once |
| Ranking.RowsRank | src/ranking/Scorer.cpp:44-50 | a permutation of the traversed rows lists every scored document once, with its score |
| Ranking.BinarySearch | src/ranking/Scorer.cpp:23 | std::binary_search on a sorted list: true exactly when the id is in the list |
| Ranking.IsAllowed | src/ranking/Scorer.cpp:21-27 | a posting passes exactly when there is no allow-list or its docId is in the list |
| Ranking.AddScores | src/ranking/Scorer.cpp:19-41 | the accumulator after one term's postings is the specified score map |
| Ranking.ScorePosting | src/ranking/Scorer.cpp:21-40 | one posting: filtered out, or its score added to the document's entry |
| Ranking.AddScore | src/ranking/Scorer.cpp:32-40 | `*currentScore += score` for a present document, insert otherwise |
| Ranking.CollectRows | src/ranking/Scorer.cpp:46-47 | the traverse callback's rows, in order |
| Ranking.Search | src/ranking/Scorer.cpp:3-52 | one result per scored document, carrying its score, in non-increasing score order |
| Ingestion.UrlRecord | src/main.cpp:27-29 | a URL record is its 8-byte length and its bytes |
| Ingestion.ReadUrlOf | src/main.cpp:45-49 | a URL record, wherever it lies, reads back as its URL |
| Ingestion.UrlsReadBack | src/main.cpp:43-50 | every URL record, wherever it lies, reads back as its URL |
| Ingestion.LoadOfSavedUrls | src/main.cpp:18-52 | loadUrls of the bytes saveUrls wrote gives back the URL vector exactly |
| Ingestion.SaveUrls | src/main.cpp:18-32 | false and no file when the file does not open; otherwise true, and the file is the count, then each URL's length and bytes |
| Ingestion.LoadUrls | src/main.cpp:34-52 | a file that cannot be opened gives false and leaves urls untouched; otherwise urls is cleared and refilled from the file |
| Ingestion.RecordUrl | src/main.cpp:93-94 | for every doc.id below 2^32 − 1, docUrls grows to hold doc.id, holds url there, and keeps every other entry, with new entries empty |
| Ingestion.IngestDocument | src/main.cpp:90-117 | the URL is recorded; empty HTML changes nothing else; otherwise the non-empty lemmas go to addTerm with doc.id, in order, and the document is counted once exactly when it had any |
| Ingestion.IndexTerms | src/main.cpp:111-117 | the terms are added in order, and totalDocs goes up once exactly when there were any |
| Ingestion.AddTerms | src/main.cpp:112-114 | the addTerm calls of the document, in order, with totalDocs unchanged |
| Ingestion.DocumentKeepsIncreasing | src/main.cpp:111-116 | a document whose id is at least every posted id keeps every postings list strictly increasing and leaves no id after its own |

## Left out

- `Tokenization.Tokenize`: does not model the UTF-8 conversion. The method receives the decoder's code points, with None for a
  decoding error, and returns tokens as code points. The query parser and the ingestion callback take a
  `tokenize` of bytes to token bytes as a parameter.
- HtmlParser::getCleanText and Lemmatizer::lemmatize are wrappers over foreign libraries. Both are function
  parameters about which nothing is assumed, and a lemma may be empty.
- MongoConnector, the crawler and the command-line part of main.cpp (argument parsing, file existence checks, the
  interactive loop, printing) are not part of this model. Only the body of the ingestion callback is modelled.
- File streams are byte sequences. An output file that does not open is a `canOpen` parameter of each writer, and
  an input file that does not open is `None`. Write errors after opening are not modelled.
- `InvertedIndexing.InvertedIndex.Load`, `BooleanIndexing.BooleanIndex.Load`, `Ingestion.LoadUrls`: on a truncated
  file the source's loop still runs all `termCount` or `count` iterations. A field cut by the end of the file
  keeps the bytes that were there, and every later field stays at its initial value of 0. So a truncated index
  inserts records such as the term `""` with empty postings, and a truncated URL table gives `count` URLs padded
  with empty or `'\0'`-filled strings. The model instead stops reading at the first record the data cannot hold.
  On a file save wrote, both behaviours read back the same content.
- `Compression.DecodeVarByte`: requires that no group would make the source shift by 32 bits or more, since that
  shift is undefined behaviour in C++.
- `InvertedIndexing.DecodeBlocks`: stops on such an overlong group.
- `QueryOperators.OpNot`: requires `|a| <= totalDocs` (the `reserve` argument would wrap) and `totalDocs < 2^32`
  (the `uint32_t` counter would never reach it). `RpnEvaluation.EvalStep` models the first case as a throw (None)
  instead.
- `RpnEvaluation.EvalRpn`, `QueryParsing.ParseBoolean`: require totalDocs below 2^32 and every list of the index
  strictly increasing. That is what ingestion in document order builds, and it is where opNOT's merge is a complement.
  The never-throws clause has one more premise, that every posted id is below totalDocs, and ingestion does not
  guarantee it. A document with empty HTML, or with no lemmas, takes an id without being counted. A later document's
  id can then reach totalDocs, and the query throws `std::length_error` (`RpnEvaluation.IdAtTotalThrows`).
- `Ingestion.RecordUrl`, `Ingestion.IngestDocument`: require doc.id below 2^32 − 1. At the largest `uint32_t` id,
  `doc.id + 1` wraps to 0, `resize(0)` empties the vector, and the store that follows is out of range, which is
  undefined behaviour.
- `HashTable.HashMap.Insert`: the float load-factor comparison `(float)count / size > 0.75f` is taken as the exact
  comparison `4 * count > 3 * size`.
- std::hash is a parameter of every table, and nothing is assumed about it. Because of that, traverse order is
  "some enumeration": save, the exports and search state their results for the enumeration they used.
- `Ranking.Search`: scores are `real`, and `idf` is a parameter standing for `std::log((double)N / df)`. Floating-point
  rounding and the sign of the logarithm are not modelled.
- `Ranking.Search`, `InvertedIndexing.InvertedIndex.ExportFrequencyStats`: std::sort is unstable, so only
  sortedness and the permutation are stated, never the order of ties. The sort is modelled as an insertion sort
  with those two properties.
- `InvertedIndexing.InvertedIndex.ExportFrequencyStats`: returns the CSV rows, not the text; the header line and the
  console message are left out.
- `InvertedIndexing.TfSumCountsCalls`: requires fewer than 2^32 calls, so that no `uint32_t` term frequency wraps.
  `InvertedIndexing.AddPosting` models the wrap itself.
