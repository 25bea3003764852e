# Snappy, regular expressions, word counters, JSON and geohashes in Dafny

This project models five algorithm cores of the repository and proves what they are for.

* **Snappy** (`Snappy*.dfy`). The greedy LZ77 compressor with its hash table, skipping and
  copy tags, the varint header, and the tag-driven decompressor over a fragmented source with
  its three writers. `SnappyFormat` defines what a compressed string means, by a decoder over a
  whole string; the classes are proved against it. The main results are the round trip with the
  exact condition under which it holds, the size bound, the independence of fragmentation and of the
  writer, and that every fast path has the effect of its slow one.
* **Regular expressions** (`Regex*.dfy`). The two-pass recursive-descent compiler that emits a
  byte program with back-patched offsets, and the backtracking matcher that runs it.
  `RegexSyntax` is the grammar as the compiler goes through it, `RegexGrammar` how patterns are
  written, character by character, `RegexRefused` what is wrong with the others, `RegexLang` the
  language of a pattern, and `RegexWays` lists the
  matches in the order in which they are preferred, with the ends of the groups on each.
  `RegexCode` is the program of a syntax tree, `RegexEmit` what the links of the compiler do to it,
  and `RegexCompiler` the compiler. `RegexCont` is what is left to be matched at a node,
  `RegexOrder` what that means, `RegexSteps` and `RegexRun` the steps of the matcher,
  `RegexProgram` the facts behind the shortcuts, `RegexReplace` what replacements stand for, and
  `RegexMatcher` the matcher, the search and the replacement. The main result is that a search returns the smallest place at which a match starts,
  with the first match in the order of preference and its groups, and that the matcher ends.
* **Word counters** (`WordSearch`, `WordTrie`, `AhoCorasick`, `KmpCount`, `WordCounters`). Both
  automata are proved to count the places where a word stands between delimiters, and so to agree.
* **Geohashes** (`GeoDigits`, `GeoAdjacent`, `GeoGrid`, `GeoBox`). The neighbour tables are proved
  to count on de-interleaved bits, grids to list exactly a square, and encoding and decoding to be
  inverse, in exact arithmetic.
* **JSON** (`Json`, `JsonTexts`, `JsonParser`, `JsonStrings`, `JsonDocs`, `JsonRoundTrip`).
  `JsonTexts` says in characters which texts stand for which trees. The iterative parser is proved to
  read every such text to its tree, whatever blanks it has, and to refuse texts that go wrong; the
  recursive printer is proved to print such a text, so that the two undo each other. Strings are
  compared with section 7 of RFC 8259.

`Bytes` and `Ascii` hold what several of these share.

## How the source is modelled

Objects whose methods update their fields are classes with the same fields: the decompressor, the
writers, the source, the regular expression compiler and matcher, and the word automaton. Loops are
loops with invariants, and every such method is proved against a function or predicate. Some long
functions are cut into several methods along their branches. Library calls on strings (`strchr`,
`strstr`, `strspn`, `strncmp`, `std::string::find` and the like) are functions on sequences.

* Bytes are integers from 0 to 255 and machine words are integers with the wrap-around written out
  where the source can reach it: the 32-bit length of a long literal, the header shift, the offset
  less one of a copy, the 32 bits that are kept of the length of a fragment and of the bytes
  buffered of it, and the sizes of the automaton's tables. Loads and stores are little-endian byte
  assembly.
* Uncompressing is not what its documentation promises on fragments of 2^32 bytes or more. Only the
  low 32 bits of their length are skipped (snappy/snappy.cc:657, 757-760, 795-797), and while a tag
  is stitched together the bytes to add are cut to 32 bits as well (snappy/snappy.cc:822-830). Such a
  fragment is never got over: the program refuses the source, or stays in the loop of `RefillTag` for
  ever. The model has the same fields; a result `ends` that is false stands for a loop that does not
  end. The condition on fragments, or for flat strings on the length behind the header, is exact:
  `InternalUncompress`, `Uncompress`, `IsValidCompressedBuffer` and `RoundTrip` say so in both
  directions, and `SnappyLimits` has the inputs.
* Positions, lengths and counts for which the source uses `int` are integers: subjects and
  replacements of regular expressions, words and texts of the counters, sizes of JSON texts, and the
  number of buffers of an IOVec are meant to be below 2^31.
* `SnappyWriters.Writer` stands for the template parameter of the decompressor: a datatype over the
  three writer classes. A hash function is a parameter of the compressor, so that the results hold
  for every one.
* `CompressFragment` is documented to want the room of `MaxCompressedLength` at its output pointer
  (snappy/snappy-internal.h:59-61), but `RawCompress` hands it the space behind the header. The
  model asks for less, n + n/6 + 17, and shows that it is enough.
* Where `ReadUncompressedLength` and `Varint::Parse32WithLimit` disagree on a header, both are
  modelled as they are, and the exact difference is stated (`HeadersAgree`, `StricterThanValid`).
* Regular expressions are over ASCII text without NUL. Programs are shorter than 32768 bytes, since
  offsets are `short`. A search for a pattern with a known first character looks behind the first
  character of the text before it looks for the end, so `Find` asks for a text that is not empty in
  that case alone.
* The compiler and the compiled expression are two classes here and one in the source; the fields
  are divided between them. A group that is not set has ends -1.
* The automaton's tables are allocated with 32-bit sizes, and the place r * 256 + c of an edge is an
  `int` (bklib/bklib.cpp:198-207, 235-247, 263-266). With more nodes than that allows the program reads and
  writes outside its tables, so `Prepare` and `Search` ask for room for all nodes, which there always
  is for up to 2^23 characters in all words.
* A bit mask of words is a set of word numbers; there are at most 32 words, as the shift wants.
  Characters of words and texts are 7-bit and not NUL.
* Coordinates are real numbers. Up to 12 digits all midpoints are exact in double precision, so that
  this is what the program computes there.
* JSON trees are values, and the chain of parents is a stack of open containers. A number that runs
  to the end of the text makes the program read on behind it; that result is `Unknown` here.
* A surrogate pair among the escapes of a JSON string is read as two characters of three bytes each,
  where RFC 8259 means one of four (bklib/bklib.cpp:949-976); the model does the same, and
  `JsonStrings.PlainMeans` says that these are the only strings read otherwise than they are meant.

## Model

| member | source | states |
|---|---|---|
| SnappyApi.RoundTrip | snappy/snappy.cc:1230-1242 | Compress, then Uncompress, returns true and the same bytes, for every hash function with the right range and every input below 2^32 bytes whose code has fewer than 2^32 bytes behind the header, and for no other. The code has if 32+n+n/6 is at most 2^32; it has not if no block has the same four bytes twice and the literals that the blocks become are that long. |
| SnappyApi.CompressedDecodes | snappy/snappy.cc:874-953 | Whatever Compress may have written for some data reads, under the strict header rule, as a header followed by tags that decode to the data. |
| SnappyApi.CompressString | snappy/snappy.cc:1293-1302 | The string that Compress fills is cut to what was written, is no longer than 32+n+n/6, and stands for the data; when no block has the same four bytes twice it consists of a literal for each block. |
| SnappyApi.InternalUncompress | snappy/snappy.cc:849-867 | With any of the three writers the program returns true exactly when the whole-string decoder succeeds on the bytes of the source and every fragment behind the header is shorter than 2^32 bytes; the output is then the decoder's. It comes back from every source with such fragments. So neither the writer nor the way the source is cut into fragments below 2^32 bytes matters. |
| SnappyApi.RawUncompress | snappy/snappy.cc:1220-1228 | True exactly when the bytes decode and the fragments behind the header are shorter than 2^32 bytes; then the flat array begins with the decoded bytes. |
| SnappyApi.RawUncompressToIOVec | snappy/snappy.cc:1120-1130 | The same success flag, under the same condition on fragments, and the same bytes, laid end to end over separate and possibly empty buffers. |
| SnappyApi.IsValidCompressedBuffer | snappy/snappy.cc:1275-1279 | True exactly when decoding into a buffer of the length in the header succeeds and fewer than 2^32 bytes come after the header, which is when RawUncompress returns true, although the validator takes other paths and keeps no bytes. |
| SnappyApi.Uncompress | snappy/snappy.cc:1230-1242 | True exactly when the header passes the strict reading, the tags decode and fewer than 2^32 bytes come after the header; the output is then the decoded string. |
| SnappyLimits.LongBodyExample | snappy/snappy.cc:790-847 | A string of 2^32+5 bytes that stands for the empty string and that neither Uncompress nor IsValidCompressedBuffer accepts. |
| SnappyLimits.RoundTripExample | snappy/snappy.cc:874-953 | 2^32-1 bytes in which no block has the same four bytes twice, so that the round trip fails on them. |
| SnappyApi.StricterThanValid | snappy/snappy.cc:235-244 | Uncompress rejects what IsValidCompressedBuffer accepts if and only if the tags decode and the header has five bytes of which the last is 16 or more. |
| SnappyApi.StricterExample | snappy/snappy.cc:692-711 | Five concrete bytes on which the two disagree. |
| SnappyStubs.HeadersAgree | snappy/snappy-stubs-internal.h:415-435 | The strict and the lenient reading of a header agree on all that the strict one accepts, and differ if and only if a fifth byte of 16 to 127 ends the header. |
| SnappyStubs.HeaderRoundTrip | snappy/snappy-stubs-internal.h:437-463 | The header written for a length below 2^32, with anything after it, reads back as that length and its own size, in both readings. |
| SnappyStubs.VarintRoundTrip | snappy/snappy-stubs-internal.h:437-463 | Seven-bit groups written least significant first sum up to the value again. |
| SnappyStubs.Encode32 | snappy/snappy-stubs-internal.h:437-463 | Writes the varint of a 32-bit value at the pointer and nothing else, and returns the position behind it. |
| SnappyStubs.Parse32WithLimit | snappy/snappy-stubs-internal.h:415-435 | Succeeds exactly on strict headers and returns the value and the position behind it. |
| SnappyMatch.FindMatchLength | snappy/snappy-internal.h:85-118 | The result is the length of the longest common prefix of the two stretches up to the limit: equal so far, and different or at the limit there. |
| SnappyMatch.FirstDifference | snappy/snappy-internal.h:104-107 | The byte that holds the lowest differing bit of two little-endian words is the first byte in which they differ. |
| SnappyMatch.SameBytes | snappy/snappy-internal.h:104-107 | The low 8k bits of two little-endian words agree exactly when their first k bytes do. |
| SnappyMatch.FindLSBSetNonZero | snappy/snappy-stubs-internal.h:366-377 | The portable binary search by shifts finds the lowest bit set of a 32-bit word. |
| SnappyMatch.FindLSBSetNonZero64 | snappy/snappy-stubs-internal.h:380-388 | The same for 64 bits, by halves. |
| SnappyCompressor.Log2Floor | snappy/snappy-stubs-internal.h:349-364 | The portable binary search finds the k with 2^k <= n < 2^(k+1), and -1 for zero. |
| SnappyCompressor.GetUint32IsLoad32 | snappy/snappy.cc:274-299 | Shifting eight loaded bytes by k bytes is loading four bytes k places further on. |
| SnappyCompressor.SourceHashIsGood | snappy/snappy.cc:47-53 | The multiplicative hash of the compressor stays inside every table size that is handed out. |
| SnappyCompressor.GetHashTable | snappy/snappy.cc:247-271 | The table is cleared; its size is the smallest power of two from 256 up that is not below the size of the input, or the largest allowed. |
| SnappyCompressor.TableShift | snappy/snappy.cc:338-339 | The shift is 32 less the logarithm of the table size. |
| SnappyCompressor.MatchCodes | snappy/snappy.cc:416-424 | A copy from an earlier equal stretch of the block reproduces the input, overlapping or not. |
| SnappyCompressor.ScanForMatch | snappy/snappy.cc:377-397 | The scan looks at every byte 32 times, at every second byte 32 times and so on, enters each position in the table, and stops at the first one whose four bytes equal those at the position the table had for their hash, or when the next one is too near to the end of the block. |
| SnappyCompressor.EmitMatches | snappy/snappy.cc:405-442 | Every match is emitted as copies that decode to the input so far, the first as one copy as long as the match, and what has been written stays within 7/6 of what has been read. |
| SnappyCompressor.CompressFragment | snappy/snappy.cc:329-453 | What is written for a block decodes, after any earlier output, to the block; it takes at most 7/6 of the block and five bytes, and no byte outside start..start+n+n/6+17 changes, the fast literal path included. A block that has no four bytes twice becomes one literal. If the positions that the skipping loop looks at have a first match in the table, 15 bytes or more before the end, the code begins with a literal of the bytes before it and a copy of all the bytes that are equal. |
| SnappyCompressor.FirstRound | snappy/snappy.cc:368-425 | The literal and the copy of the first round are those of the first match there is. |
| SnappyCompressor.Compress | snappy/snappy.cc:874-953 | All of the source is read; header and blocks together stand for the data and fit 32+n+n/6 bytes, and no byte behind that changes. |
| SnappyEmit.LiteralEmits | snappy/snappy.cc:156-196 | Decoding a literal tag and its bytes appends exactly these bytes, for all five sizes of tag. |
| SnappyEmit.CopyEmits | snappy/snappy.cc:216-232 | Decoding the run of copy tags for a match of any length repeats that many bytes from the offset back. |
| SnappyEmit.EmitLiteral | snappy/snappy.cc:156-196 | Writes the tag and the literal; the fast path writes nothing behind p+17, the exact one nothing behind the literal. |
| SnappyEmit.EmitCopyLessThan64 | snappy/snappy.cc:198-214 | Writes the two-byte or the three-byte form of one copy and nothing else. |
| SnappyEmit.EmitCopy | snappy/snappy.cc:216-232 | Writes the run of copies for a match of any length and nothing else. |
| SnappyFormat.CopyFromExactly | snappy/snappy.cc:87-103 | The meaning of a copy: the output is continued by exactly as many bytes, each of which repeats the one an offset back, and nothing else is such a continuation. |
| SnappyFormat.EmitsChain | snappy/snappy.cc:716-787 | Code that takes the decoder from a to b and code that takes it from b to c are together code from a to c. |
| SnappyFormat.DecodeLiteralSplit | snappy/snappy.cc:752-767 | A literal may be handed to the writer in pieces. |
| SnappyTable.TableIsComputed | snappy/snappy.cc:567-650 | All 256 entries of char_table are those of the definition that is compiled only in debug builds. |
| SnappyTable.EntryFields | snappy/snappy.cc:557-565 | The three fields of every entry are the size of the tag, the length of the copy and the high bits of its offset. |
| SnappyCopy.IncrementalCopy | snappy/snappy.cc:98-103 | Copies forward byte by byte, so that an overlapping source repeats; nothing else changes. |
| SnappyCopy.PatternDoubles | snappy/snappy.cc:141-145 | While source and target are less than eight apart, one eight-byte move doubles the stretch that repeats. |
| SnappyCopy.IncrementalCopyFastPath | snappy/snappy.cc:140-152 | Ends with the same bytes as the byte-by-byte copy for every distance and length, and changes nothing more than ten bytes behind the copy. |
| SnappyCopy.CopyShort | snappy/snappy.cc:1200-1203 | Two eight-byte moves do for at most sixteen bytes from at least eight back, and change nothing more than sixteen bytes on. |
| SnappyFlat.SnappyArrayWriter.Append | snappy/snappy.cc:1159-1168 | Accepts exactly what fits, appends it, and touches nothing behind the limit. |
| SnappyFlat.SnappyArrayWriter.AppendFromSelf | snappy/snappy.cc:1184-1217 | Accepts exactly offsets from 1 to what was produced and lengths that fit; whichever of the three copies is taken, the output is that of the byte-by-byte copy, and nothing behind op_limit_ changes. |
| SnappyScatter.SnappyIOVecWriter.Append | snappy/snappy.cc:1004-1032 | Accepts what the flat writer accepts and appends the same bytes, across as many buffers as they take, empty ones included. |
| SnappyScatter.SnappyIOVecWriter.TryFastAppend | snappy/snappy.cc:1034-1048 | Either appends the bytes or changes nothing. |
| SnappyScatter.SnappyIOVecWriter.AppendFromSelf | snappy/snappy.cc:1050-1116 | Accepts the same copies as the flat writer and appends the same bytes, also when source and target span several buffers and overlap. |
| SnappyScatter.FlatAt | snappy/snappy.cc:1050-1072 | A stretch of one buffer is the stretch of the logical output at the buffer's start. |
| SnappyWriters.SnappyDecompressionValidator.AppendFromSelf | snappy/snappy.cc:1266-1272 | The validator accepts exactly the copies that the other writers accept. |
| SnappySource.Source.Peek | snappy/snappy-sinksource.h:79-92 | The next flat region is a beginning of what is left, empty only at the end. |
| SnappySource.Source.Skip | snappy/snappy-sinksource.h:94-97 | Skips any number of bytes, across fragments. |
| SnappyDecompress.SnappyDecompressor.ReadUncompressedLength | snappy/snappy.cc:692-711 | Reads the lenient header byte by byte and leaves the source behind it. |
| SnappyDecompress.SnappyDecompressor.RefillTag | snappy/snappy.cc:790-847 | While all fragments left are below 2^32 bytes: succeeds exactly when a whole tag is left, wherever the fragments are cut; no byte is lost or repeated; end of input is noted exactly when nothing is left. While one is not: it stays in the source, the end is never noted, and the loop that stitches a tag may not end. |
| SnappyDecompress.SnappyDecompressor.FillScratch | snappy/snappy.cc:822-830 | The loop that stitches a tag gathers the needed bytes, notes that they are not there, or goes on for ever, which needs a fragment whose length is 0 in 32 bits. |
| SnappySource.DroppedNarrow | snappy/snappy.cc:657 | Skipping no more than the low 32 bits of the length of a fragment never gets past one of 2^32 bytes or more. |
| SnappyDecompress.SnappyDecompressor.AppendLiteral | snappy/snappy.cc:752-767 | A literal that runs over fragments below 2^32 bytes has the effect of the whole literal; over wider ones it still ends and leaves the wide one in the source. |
| SnappyDecompress.SnappyDecompressor.DoLiteral | snappy/snappy.cc:734-768 | One literal tag, fast path or not, and with the 32-bit wrap of long lengths, keeps what the rest of the input will decode to, or decoding fails. |
| SnappyDecompress.SnappyDecompressor.DoCopy | snappy/snappy.cc:769-783 | One copy tag, by table entry and masked load, keeps what the rest of the input will decode to, or decoding fails. |
| SnappyDecompress.SnappyDecompressor.DecompressAllTags | snappy/snappy.cc:716-787 | The end of the input is reached without an error only if all fragments are below 2^32 bytes, and then the output is what the whole-string decoder gives; over such fragments the loop ends, and when it ends otherwise that decoder fails. |
| SnappyDecompress.CopyFields | snappy/snappy.cc:770-779 | Table entry and trailing bytes together give the offset and the length of the copy. |
| SnappyDecompress.NoTag | snappy/snappy.cc:790-847 | Without a whole tag decoding can only end well at the very end. |
| RegexMatcher.StrRegexp | bklib/bkregexp.cpp:863-869 | The answer is true exactly when the pattern is written by the rules for some tree and some place of the text has a match of it. The empty text is left out only for patterns whose first character is known. |
| RegexMatcher.RegExp.Find | bklib/bkregexp.cpp:487-555 | The result is the smallest place where a match of the pattern starts, and -1 exactly when there is none. The text found is the first match there in the order of preference: earlier alternatives before later ones, and more rounds of a loop before fewer. The ends of every group are those of its last round on this match. Holds with all three shortcuts. |
| RegexMatcher.RegExp.Compile | bklib/bkregexp.cpp:81-143 | Accepts exactly the patterns that are written by the rules for some tree; the program then is the code of that tree and fills the measured size exactly; the shortcuts hold of every match and are kept whenever there are any. |
| RegexGrammar.ParsesIffSpelled | bklib/bkregexp.cpp:153-437 | A pattern is accepted, as a tree, exactly if it is a text for that tree: `*`, `+`, `?`, `.`, `^`, `$`, bars, groups numbered by their opening parentheses, quoted characters, brackets and words, with at most nine groups and nothing repeated by `*` or `+` that matches the empty string. A word takes all ordinary characters in a row but a last one that a sign repeats. |
| RegexGrammar.MembersMean | bklib/bkregexp.cpp:345-383 | A character is in the brackets exactly if it is listed there, a bracket or a dash that is first included, or lies in a range of theirs. |
| RegexGrammar.WidthMeans | bklib/bkregexp.cpp:153-437 | The flag HASWIDTH is set exactly of what does not match the empty string. |
| RegexGrammar.WordLength | bklib/bkregexp.cpp:413-432 | A word gives up its last character to a sign behind it, unless it has no other. |
| RegexRefused.DoubledRefused | bklib/bkregexp.cpp:309-313 | A sign behind a sign is refused, wherever in the pattern. |
| RegexRefused.EmptyRefused | bklib/bkregexp.cpp:266-268 | So is `*` or `+` behind what matches the empty string. |
| RegexRefused.SignRefused | bklib/bkregexp.cpp:397-401 | So is a sign that is first in an alternative. |
| RegexRefused.ClosingRefused | bklib/bkregexp.cpp:199-206 | So is a closing parenthesis outside of all groups. |
| RegexRefused.OpenRefused | bklib/bkregexp.cpp:196-197 | So is a group that is not closed. |
| RegexRefused.TenthRefused | bklib/bkregexp.cpp:162-168 | So is the tenth group. |
| RegexRefused.BracketRefused | bklib/bkregexp.cpp:360-379 | So are brackets that are not closed. |
| RegexRefused.BareBracketRefused | bklib/bkregexp.cpp:350-379 | So is an opening bracket at the end of the pattern. |
| RegexRefused.RangeRefused | bklib/bkregexp.cpp:366-370 | So is a range that runs backwards. |
| RegexRefused.BackslashRefused | bklib/bkregexp.cpp:403-406 | So is a backslash at the end of the pattern. |
| RegexMatcher.RegExp.FindShortcuts | bklib/bkregexp.cpp:109-142 | What is kept of the program is true of every match of the pattern: the first character, the anchor, and a literal that the text must have. Each is kept exactly when the program has one alternative and begins accordingly, and the literal is the longest on the way. |
| RegexMatcher.RegExp.LongestLiteral | bklib/bkregexp.cpp:128-140 | Every text with a match has the literal in it. No literal on the chain of next-offsets is longer, and none as long comes later; there is no literal on the chain exactly if there is none to return. |
| RegexMatcher.RegExp.ScanFrom | bklib/bkregexp.cpp:527-540 | Skipping to the next occurrence of the first character passes over no match. |
| RegexMatcher.RegExp.ScanAll | bklib/bkregexp.cpp:541-548 | Without a known first character every place is tried, the end of the text included. |
| RegexMatcher.RegExp.FirstWayMatch | bklib/bkregexp.cpp:558-576 | The first way in the order of preference is a match in the language of the pattern. |
| RegexMatcher.RegExp.TryAt | bklib/bkregexp.cpp:558-576 | Succeeds exactly when a match starts here, and then ends where the first match in the order of preference ends; the ends of every group are those last passed on this match, both unset, or in order and inside the match. |
| RegexMatcher.RegExp.RunFrom | bklib/bkregexp.cpp:587-738 | The matcher ends on every program in place. It fails exactly when there is no way through what is left to be matched, and then sets no group; otherwise it takes the first way in the order of preference, ends where this way ends, and records for each group the last start and the last end that it passes. |
| RegexMatcher.RegExp.TryBranches | bklib/bkregexp.cpp:693-708 | The alternatives are tried in turn, none is left out, and the first that succeeds decides. |
| RegexMatcher.RegExp.TryCounts | bklib/bkregexp.cpp:710-723 | A simple loop is tried with every number of repetitions from the longest down, and the first that succeeds decides; the look at the first character of the next literal skips none that would. |
| RegexMatcher.RegExp.Enter | bklib/bkregexp.cpp:645-667 | The start of a group is noted after success unless a later round has noted one, and is not behind its end. |
| RegexMatcher.RegExp.Leave | bklib/bkregexp.cpp:669-691 | The end of a group is noted after success unless a later round has noted one. |
| RegexMatcher.RegExp.Single | bklib/bkregexp.cpp:596-637 | An ordinary node succeeds exactly when what it stands for matches here, and moves by what it matched. |
| RegexMatcher.RegExp.Repeat | bklib/bkregexp.cpp:741-774 | The count is the largest number of characters in a row that the node takes. |
| RegexMatcher.RegExp.Replacement | bklib/bkregexp.cpp:789-859 | The buffer has the length of the expansion and a NUL, and holds the expansion; however the replacement is cut into items, that is what they stand for, one after the other. |
| RegexReplace.ExpansionMeans | bklib/bkregexp.cpp:829-857 | A replacement that is written as ampersands, backslashes with digits, backslashes with a backslash or an ampersand, and other characters, a lone backslash included, stands for the found text, the text of the groups, backslashes, ampersands and the characters themselves. |
| RegexReplace.EveryReplacement | bklib/bkregexp.cpp:829-857 | Every replacement is written in this way. |
| RegexMatcher.RegExp.ReplacementLength | bklib/bkregexp.cpp:798-823 | The first pass computes the length of what the second pass writes. |
| RegexMatcher.RegExp.WriteExpansion | bklib/bkregexp.cpp:834-857 | The second pass writes the expansion and nothing behind it. |
| RegexMatcher.RegExp.FoundGroup | bklib/bkregexp.cpp:846-855 | The part of the found text that is copied is what the group caught in the whole text. |
| RegexCompiler.Compiler.Expression | bklib/bkregexp.cpp:153-208 | In both passes: succeeds exactly when the grammar accepts, at the same position and with the same flags; the emitting pass appends the code of the alternatives with every next-offset linked, and the measuring pass adds its length. |
| RegexCompiler.Compiler.Alternative | bklib/bkregexp.cpp:215-241 | The same for one alternative: the tail of every piece is linked to the next piece. |
| RegexCompiler.Compiler.Piece | bklib/bkregexp.cpp:252-315 | The same for an item with its repetition sign; * and + are refused over what may be empty, and so is a doubled sign. |
| RegexCompiler.Compiler.Atom | bklib/bkregexp.cpp:325-441 | The same for one item. |
| RegexCompiler.Compiler.Bracket | bklib/bkregexp.cpp:345-383 | The same for a bracket expression, with ranges, complements and a leading bracket or dash. |
| RegexCompiler.Compiler.EmitStar | bklib/bkregexp.cpp:286-292 | x* becomes the alternation of x followed by itself and of nothing: the operand is moved and five offsets are set. |
| RegexCompiler.Compiler.EmitPlus | bklib/bkregexp.cpp:295-301 | x+ becomes x followed by the alternation of a jump back and of nothing. |
| RegexCompiler.Compiler.EmitOpt | bklib/bkregexp.cpp:302-309 | x? becomes the alternation of x and of nothing. |
| RegexCompiler.Compiler.HookBranches | bklib/bkregexp.cpp:192-194 | The end of every alternative is linked to the closing node. |
| RegexCompiler.Compiler.InsertNode | bklib/bkregexp.cpp:443-458 | An operator in front of the operand emitted last; the operand moves unchanged. |
| RegexCompiler.Compiler.SetTail | bklib/bkregexp.cpp:462-471 | Exactly the offset of the last node of the chain changes. |
| RegexCompiler.Compiler.SetOperandTail | bklib/bkregexp.cpp:475-480 | The same on the operand of a BRANCH, and nothing on other nodes. |
| RegexCompiler.Compiler.EmitNode | bklib/bkregexp.h:89-99 | Appends a node with an empty offset, or adds three to the size. |
| RegexCompiler.Compiler.EmitByte | bklib/bkregexp.h:80-86 | Appends a byte, or adds one to the size. |
| RegexCode.PatchAsm | bklib/bkregexp.cpp:462-471 | Setting the exit of code whose exit was open gives the code with that exit. |
| RegexCode.PatchBranch | bklib/bkregexp.cpp:192-194 | Setting the exit of one more alternative gives the code with one more alternative linked. |
| RegexCode.ChainAsm | bklib/bkregexp.cpp:462-471 | From the first node of an item the next-offsets lead, never backwards, to its last node, which holds the exit. |
| RegexCode.ChainOpenAlts | bklib/bkregexp.cpp:176-191 | Unfinished alternatives lead from one BRANCH to the next and end at the last. |
| RegexCode.SeqSnoc | bklib/bkregexp.cpp:226-235 | Appending a piece to an alternative links the piece before it and appends the new one's code. |
| RegexCode.AltsSnoc | bklib/bkregexp.cpp:181-188 | Appending an alternative appends a BRANCH node and its pieces. |
| RegexEmit.StarSteps | bklib/bkregexp.cpp:286-292 | Where each of the four walks for x* ends, and the program after each link. |
| RegexEmit.PlusSteps | bklib/bkregexp.cpp:295-301 | The same for x+. |
| RegexEmit.OptSteps | bklib/bkregexp.cpp:302-309 | The same for x?. |
| RegexEmit.WalkStep | bklib/bkregexp.cpp:192-194 | One step of the walk over the alternatives of a finished group. |
| RegexEmit.ExpressionFits | bklib/bkregexp.cpp:153-208 | The first alternative is part of the whole and its code no longer. |
| RegexWays.WaysRange | bklib/bkregexp.cpp:58-62 | Matches end inside the text, and what is flagged HASWIDTH never matches the empty string. |
| RegexWays.WaysMatch | bklib/bkregexp.cpp:587-738 | The ways through an item, listed in the order in which the matcher tries them, end exactly where the item matches. |
| RegexWays.AltsWaysMatch | bklib/bkregexp.cpp:587-738 | The same for a list of alternatives, and so for a whole pattern. |
| RegexWays.RoundsUnfold | bklib/bkregexp.cpp:287-292 | The ways through x* are those through x and then x*, and after them the one that takes nothing. |
| RegexLang.PatternSound | bklib/bkregexp.cpp:266-268 | Every accepted pattern repeats with * and + only what has width, and numbers its groups below ten. |
| RegexLang.StarOnce | bklib/bkregexp.cpp:287-292 | x* is nothing, or x and then x*. |
| RegexLang.PlusOnce | bklib/bkregexp.cpp:295-301 | x+ is x and then x*. |
| RegexOrder.ArmedAfter | bklib/bkregexp.cpp:179-187 | Whoever has passed a frame from i to m may enter what follows at m: every loop that is re-entered has taken a character. |
| RegexSteps.StepBack | bklib/bkregexp.cpp:642-643 | A jump back to x* leads to an equal task that is nearer to a character, which is why the matcher ends. |
| RegexSteps.StepPlusBack | bklib/bkregexp.cpp:642-643 | The same for x+. |
| RegexSteps.StepGroup | bklib/bkregexp.cpp:645-667 | Matching a group is matching its alternatives and then its closing node. |
| RegexOrder.OrderAlts | bklib/bkregexp.cpp:693-708 | The ways through alternatives are those through the first one and then those through the others. |
| RegexOrder.PiecesOrder | bklib/bkregexp.cpp:215-241 | The ways through the nodes of an alternative are those through its pieces one after the other, in the same order. |
| RegexOrder.OrderStar | bklib/bkregexp.cpp:287-292 | The two choices at the BRANCH of x*, taken in turn, give the ways through x* in their order. |
| RegexSteps.Choices | bklib/bkregexp.cpp:693-708 | The operands of the BRANCH nodes in a row are all the ways on, and each is nearer to a character or the end. |
| RegexOrder.SimpleRounds | bklib/bkregexp.cpp:710-723 | A simple loop matches every stretch from the longest run down, and nothing else, in this order. |
| RegexSteps.FirstCharacter | bklib/bkregexp.cpp:712-719 | What begins with a literal node begins with the literal's first character. |
| RegexCont.NodeOfFrame | bklib/bkregexp.cpp:777-784 | Which opcode stands at a frame, and where its next-offset leads. |
| RegexProgram.TopOrder | bklib/bkregexp.cpp:587-738 | The ways through a program are those through the alternatives of the pattern, in the same order. |
| RegexProgram.AltsWaysSome | bklib/bkregexp.cpp:558-576 | There is a way exactly if a match starts at the place. |
| RegexProgram.OnlyAlternative | bklib/bkregexp.cpp:114-117 | The first BRANCH leads to END exactly if there is one alternative. |
| RegexProgram.StartCharacter | bklib/bkregexp.cpp:118-120 | If the one alternative begins with a literal, every match begins with its first character. |
| RegexProgram.StartAnchor | bklib/bkregexp.cpp:121 | If it begins with ^, every match is at the start of the text. |
| RegexProgram.WalkOn | bklib/bkregexp.cpp:132-137 | Each literal met on the chain of next-offsets is in every text with a match. |
| RegexProgram.BareFrame | bklib/bkregexp.cpp:132-137 | What lies between two pieces on that chain is no literal. |
| AhoCorasick.AhoCorasick.Search | bklib/bklib.cpp:251-280 | Every counter is the number of places where the text has the word, up to the case of letters, between delimiters or ends of the text, for every list of at most 32 words for whose nodes the allocated tables have room, and the total is their sum; words added after the tables were made, and empty words, count nothing. |
| WordSearch.FoldSame | bklib/bklib.cpp:251-280 | Two strings are the same in lower case exactly if at each place the characters are equal, or one is a capital and the other the small letter 32 further on. |
| WordSearch.CountIsOccurrences | bklib/bklib.cpp:251-280 | Counting in lower case is counting the places where the text has the word up to the case of letters. |
| AhoCorasick.AhoCorasick.Prepare | bklib/bklib.cpp:196-249 | Ends on every list of words for whose nodes the allocated tables have room, with tables in which every failure link is the longest proper suffix that is a path, and every match set holds the non-empty words that are suffixes. The sizes are the 32-bit sums and products of the source, and the place of every edge is an int. |
| AhoCorasick.SmallIsRoomy | bklib/bklib.cpp:196-203 | There is room for up to 2^23 characters in all words. |
| AhoCorasick.NoRoomExample | bklib/bklib.cpp:196-203 | For one word of 16777215 characters the size of the table wraps around to 0. |
| AhoCorasick.AhoCorasick.BuildTrie | bklib/bklib.cpp:209-224 | The table is a trie, every word is a path in it, and each node holds the words that end there; there is one node for every prefix of a word, so that no table with less room would do. |
| AhoCorasick.AhoCorasick.CloseRoot | bklib/bklib.cpp:225-228 | Only missing edges of the root change, and lead to the root. |
| AhoCorasick.AhoCorasick.BuildFailures | bklib/bklib.cpp:230-248 | The breadth-first search gives every node its failure link and its matches. |
| AhoCorasick.AhoCorasick.Expand | bklib/bklib.cpp:238-248 | One node's children: links, merged matches, queue order. |
| AhoCorasick.AhoCorasick.Follow | bklib/bklib.cpp:241-242 | Following failure links to an edge and over it leads from the longest suffix of a text to that of the text and one character. |
| AhoCorasick.AhoCorasick.CountEnds | bklib/bklib.cpp:265-279 | The words that end at a character are counted exactly if they stand alone. |
| AhoCorasick.AhoCorasick.SetAlphabet | bklib/bklib.cpp:188-194 | The set of delimiters grows or shrinks by the symbols. |
| AhoCorasick.AhoCorasick.Reset | bklib/bklib.cpp:177-186 | No words and no tables are left. |
| AhoCorasick.AhoCorasick.Add | bklib/bklib.h:146 | One more word; tables made before stay those of the earlier words. |
| AhoCorasick.CountHere | bklib/bklib.cpp:268-277 | One character further, the count of a word grows by one exactly if the word ends there and stands alone. |
| WordTrie.Child | bklib/bklib.cpp:214-221 | A node has an edge for c exactly when its path and c are a path. |
| WordTrie.Grow | bklib/bklib.cpp:217-220 | A new node keeps the table a trie. |
| WordTrie.FallBack | bklib/bklib.cpp:242 | Where c has no edge, the failure link loses no candidate. |
| WordTrie.Advance | bklib/bklib.cpp:243 | Where c has an edge, it leads to the longest suffix of the text and c. |
| WordTrie.MatchesMerge | bklib/bklib.cpp:245 | The words that end at a node and those of its failure link are all the words that are suffixes. |
| WordTrie.AllKnown | bklib/bklib.cpp:236-248 | When a node is taken from the queue, all nodes that are no deeper have been queued. |
| WordTrie.StateMatches | bklib/bklib.cpp:260-266 | In the state reached, the matching words are those the text ends with. |
| WordSearch.DelimMeaning | bklib/bklib.cpp:74-84 | The table of word characters is that of the letters, the digits and the underscore. |
| WordSearch.CaseOfDelims | bklib/bklib.cpp:251-280 | With the default alphabet it makes no difference to the count whether the characters beside a word are looked at in lower case or as they are. |
| WordCounters.CountBoth | bklib/bklib.cpp:196-417 | One search for up to 32 words gives each the count that bkCountWords gives for the word and the text in lower case. |
| KmpCount.CountWords | bklib/bklib.cpp:382-417 | The count is the number of places where the word stands between delimiters or ends of the text, or whether there is one; the search takes at most as many failure steps as the text has characters. |
| KmpCount.Preprocess | bklib/bklib.cpp:388-397 | kmpNext[i] is the longest border of the first i characters whose next character differs, else -1. |
| KmpCount.SkipBorders | bklib/bklib.cpp:390 | Falling back past a mismatch loses no border that the next character extends. |
| KmpCount.SkipPrefixes | bklib/bklib.cpp:402 | The same during the search. |
| KmpCount.AfterMatch | bklib/bklib.cpp:413 | After a match the longest border of the word is kept, so that overlapping places are found. |
| GeoAdjacent.AdjacentMoves | bklib/bklib.cpp:1420-1453 | For every hash of any length a step gives a hash of the same length whose two interleaved numbers are moved by one along one axis, around its range, and unchanged along the other. |
| GeoAdjacent.FindNeighbor | bklib/bklib.cpp:1425-1433 | Each neighbour table lists, for every digit, the digit in which three of the bits, or the two others, count by one. |
| GeoAdjacent.OnBorder | bklib/bklib.cpp:1435-1442 | Each border table lists exactly the digits at which that count goes around. |
| GeoAdjacent.LastDigit | bklib/bklib.cpp:1445-1452 | A step changes the last digit, and the digits before it exactly when the last one goes around. |
| GeoGrid.StepBack | bklib/bklib.cpp:1420-1453 | A step and the opposite step lead back, for every hash. |
| GeoGrid.SameHash | bklib/bklib.cpp:1420-1453 | A hash is known by its length and its two numbers. |
| GeoGrid.Row | bklib/bklib.cpp:1455-1470 | The row lists the centre and then the steps to the left and right in turn. |
| GeoGrid.Grid | bklib/bklib.cpp:1472-1491 | The grid lists the row of the centre and then the rows above and below in turn. |
| GeoGrid.GridEntry | bklib/bklib.cpp:1472-1491 | Every entry lies at the offset of its place in the grid. |
| GeoGrid.GridIsSquare | bklib/bklib.cpp:1472-1491 | The grid lists the hashes at offsets of at most `steps` along both axes, and nothing else. |
| GeoBox.Decode | bklib/bklib.cpp:1353-1379 | The result is the centre and the limits of the box that the bits lead to. |
| GeoBox.Encode | bklib/bklib.cpp:1381-1418 | The result is the hash of the wanted precision, or of 8 digits, that leads to the point; the box of the hash holds every point in range, without its lower and left border unless that is a border of the map. |
| GeoBox.EncodedExactly | bklib/bklib.cpp:1381-1418 | A hash is the one of a point in range exactly if its box holds the point: below and to the left the border is not part of the box, unless it is a border of the map. |
| GeoBox.EncodedHolds | bklib/bklib.cpp:1381-1418 | The box of the hash of a point holds the point, for every point in range and every number of digits. |
| GeoBox.HeldEncoded | bklib/bklib.cpp:1381-1418 | Every point that the box of a hash holds is encoded to that hash. |
| GeoBox.OneHalf | bklib/bklib.cpp:1389-1406 | Of the two halves of a box, one holds a point of the box: the upper one exactly if the point is above the middle. |
| GeoBox.RoundTrip | bklib/bklib.cpp:1353-1418 | Encoding the centre of the box of any hash of 1 to 12 digits, with as many digits, gives the hash. |
| GeoBox.BoxOfHash | bklib/bklib.cpp:1353-1379 | The box of a hash is the one in the column and row that its two numbers name. |
| GeoBox.NextBox | bklib/bklib.cpp:1420-1453 | The box of the hash to the right begins where the box of the hash ends, in the same row. |
| GeoBox.BoxAbove | bklib/bklib.cpp:1420-1453 | The box of the hash above begins where the box of the hash ends, in the same column. |
| GeoBox.ColumnsCover | bklib/bklib.cpp:1353-1379 | All the columns of hashes of one length go exactly around the world. |
| GeoBox.RowsCover | bklib/bklib.cpp:1353-1379 | And all the rows from pole to pole. |
| JsonRoundTrip.RoundTrip | bklib/bklib.cpp:830-1080 | Parsing what is printed for a tree gives the tree, with the members of arrays named by their indexes: for every unnamed object or array with non-empty names that need no escape in objects and none but numbers in arrays, NUL-free strings, the words and numbers. |
| JsonRoundTrip.PrintedMeans | bklib/bklib.cpp:1095-1165 | The printed text of a tree is a text of the grammar, the one without blanks, and stands for the tree. |
| JsonRoundTrip.PrintedString | bklib/bklib.cpp:1095-1131 | A printed string is spelled, character by character, as JSON strings are, and is the string. |
| JsonRoundTrip.NamedMemberRefused | bklib/bklib.cpp:1133-1165 | An array with a member of another name is printed with the name, and that text is refused. |
| JsonRoundTrip.PrintAndParse | bklib/bklib.cpp:1133-1165 | The same of the two programs one after the other. |
| JsonStrings.EscapedIsLegal | bklib/bklib.cpp:1095-1131 | A printed string follows the grammar of section 7 of RFC 8259, has no surrogate escape, and means the string that was printed. |
| JsonStrings.ReadIffSpelled | bklib/bklib.cpp:911-983 | The parser accepts a string exactly if it follows the grammar of section 7 of RFC 8259 up to its closing quote, or up to the end of the text; its value is that of its characters one by one. |
| JsonStrings.PlainMeans | bklib/bklib.cpp:949-976 | This value is the one that RFC 8259 gives the string exactly if there is no surrogate pair among its escapes. |
| JsonStrings.PlainLength | bklib/bklib.cpp:949-976 | Each surrogate pair is read as six bytes where four are meant. |
| JsonStrings.PairExample | bklib/bklib.cpp:949-976 | The escapes D834 DD1E: what is read and what is meant. |
| JsonParser.Parse | bklib/bklib.cpp:830-1080 | The result is that of running the token machine from the start, about which DocParses and the lemmas on refusals are. |
| JsonDocs.DocParses | bklib/bklib.cpp:830-1080 | Every text of an object or array, with any blanks behind any token, is read to the tree that it stands for, up to the end of the text, a NUL or the given size. |
| JsonDocs.DocRuns | bklib/bklib.cpp:901-1059 | Over the text of a value the parser adds exactly that value to the innermost container, under the pending name or the next index. |
| JsonDocs.BoxRuns | bklib/bklib.cpp:841-879 | From its opening bracket to the blanks behind its closing bracket a container is put on the stack, filled, and closed. |
| JsonDocs.LabelRuns | bklib/bklib.cpp:881-994 | Over a label with its colon the name is pending, and nothing else changes. |
| JsonDocs.NumberStep | bklib/bklib.cpp:1032-1059 | A number is read up to a blank, a comma or a closing bracket, as a float exactly if it has a point or an exponent sign. |
| JsonDocs.MismatchRefused | bklib/bklib.cpp:865-871 | A closing bracket that is not that of the innermost container is refused, wherever in the text. |
| JsonDocs.ColonRefused | bklib/bklib.cpp:881-889 | So is a colon that is not in an object. |
| JsonDocs.UnclosedRefused | bklib/bklib.cpp:1074-1079 | So is a text that ends in a container. |
| JsonDocs.SecondRefused | bklib/bklib.cpp:851-910 | So is anything but blanks behind the root, another container included. |
| JsonDocs.BareRefused | bklib/bklib.cpp:865-910 | So is a text that begins with anything but an opening bracket. |
| JsonDocs.NothingRefused | bklib/bklib.cpp:836-839 | So is a text without a token. |
| JsonDocs.StrangeRefused | bklib/bklib.cpp:996-1065 | So is a word that is none of the three, and any character that no token begins with. |
| JsonDocs.StringRefused | bklib/bklib.cpp:911-978 | So is a string whose characters are followed neither by a quote nor by the end of the text. |
| JsonTexts.DecimalMeans | bklib/bklib.cpp:1167-1182 | The name of a member of an array is its index in decimal digits. |
| JsonStrings.SpellingLegal | bklib/bklib.cpp:911-983 | Strings that are spelled character by character follow the grammar of section 7 of RFC 8259, with the values that the parser gives them. |
| JsonStrings.LegalSpelling | bklib/bklib.cpp:911-983 | And the grammar has no other strings. |
| JsonParser.ParseToken | bklib/bklib.cpp:840-1066 | One round of the parser does one step of the token machine, with its error conditions. |
| JsonParser.ParseString | bklib/bklib.cpp:911-978 | A string is read up to its quote with all escapes resolved, or refused. |
| JsonParser.ParseHex | bklib/bklib.cpp:808-828 | Four hexadecimal digits of either case, or failure. |
| JsonParser.ParseNumber | bklib/bklib.cpp:1048-1059 | A number is what stands before the next space, comma or closing bracket, and a float exactly if it has a point or an exponent sign. |
| Json.Stringify | bklib/bklib.cpp:1133-1165 | The text of a tree: labels but for numbered members of arrays, members with commas between them. |
| Json.EscapeString | bklib/bklib.cpp:1095-1131 | The escaped text of a string up to its first NUL. |

## Left out

- SnappyScatter.SnappyIOVecWriter.Append: asks for buffers that have room for the expected length and are separate, as the header file demands of callers; what happens with less room is not modelled.
- SnappyApi.InternalUncompress: of a source with a fragment of 2^32 bytes or more it says that it is never accepted, not whether it is refused or the program does not come back.
- SnappyApi.RawUncompress: asks for a destination of the length in the header, as the header file demands.
- SnappyApi.Uncompress: does not model the comparison with `max_size()` of the string.
- JsonParser.Parse: does not model the texts of error messages.
- JsonDocs.DocParses: is about texts with all their commas and colons; the parser reads texts without them as well, and with more of them.
- Sinks other than a flat array, the destructor's final `Skip` and the reuse of the small and large hash tables.
- 32-bit and big-endian variants, the builtin bit scans and the byte-wise `FindMatchLength`, which computes the same.
- Patterns whose program has 32768 bytes or more, for which the offsets do not fit, and texts with non-ASCII characters.
- A regular expression object whose compilation failed after an earlier success, which keeps the earlier program.
- JSON names that are empty or need an escape: names are printed unescaped, and an empty name is taken for a missing one.
- Editing of JSON trees in place (`bkJsonSet`, `bkJsonDel`), typed access and release of memory.
- Score modes and values of the word automaton, and its list in JSON form.
- The pointer structure of JSON trees (parent, next, first and last links).
- Rounding of geohash coordinates beyond 12 digits, and NaN.
- Distances, bearings and bounding boxes, hashes and checksums, time, logging and file helpers.
- The bindings to the JavaScript engine, timers and compression of archives.
