# pgvector-cpp, modelled in Dafny

pgvector-cpp is a header-only C++ library that adds pgvector's `vector`, `halfvec` and
`sparsevec` types to libpqxx. This project models the headers' value types and their
text conversions, and proves properties of them:

- **The value types.** `pgvector::Vector`, `pgvector::HalfVector` and `pgvector::SparseVector`
  are immutable once constructed, so each one is a datatype.
- **The constructors.** Each is a function, or a method with its loop. The dense-to-sparse
  constructor drops zeros; its result is proved to be the unique sparse form of its input.
- **`operator<<`.** The streaming loops are methods. Each is proved to write the
  `[a,b,c]` or `{i:v,...}/d` literal.
- **The libpqxx `string_traits` specialisations:**
  - the `from_string` decoders of all three types: guards, `getline` field splitting and
    error order;
  - `size_buffer`, `into_buf` and `to_buf` of `sparsevec`.

  Each decoder's `getline` loop is a method proved against a specification function. The
  sparse encoder writes into an `array<char>` and is proved to write exactly the literal
  and its terminating zero, within the `size_buffer` bound. Decoding what the encoder
  writes gives the vector back.
- **The v0.1.x headers** (`include/pqxx.hpp`, `include/vector.hpp`, `include/sparsevec.hpp`).
  Their types hold the same state, so the same datatypes serve. Their dense decoder differs:
  it splits everything after `[`, closing bracket included. It is modelled on its own.
- **`convert_to_utf8`** of the disco example, next to the Latin-1 to UTF-8 transcoding it is
  meant to perform (see Findings).

Numbers are not implemented. C++ `float` is an opaque type (`Numbers.Float`), `int` is
`Numbers.Int32`, and every formatter, parser and buffer-size function the library calls
(libpqxx's `string_traits<int|float>`, `std::stof`, `std::stod`, `std::ostream <<`) is a
field of the `Numbers.Numerics` record passed as a parameter. What the proofs need of them
is a named predicate that the lemma requires:

- `ParseInvertsFormat`: the parsers read the formatters' texts back;
- `DelimiterFree`: the number texts contain no `,`, `:` or `}`;
- `BuffersSuffice`: libpqxx's size bound covers each text and its terminating zero.

A thrown exception is an `Err` of the `Errors.Error` datatype.

`[]` hands one empty field to the parser, so it never decodes to an empty vector
(`Pqxx.EmptyBracketsParseOneEmptyField`). `std::stof` throws on an empty text, so in C++
`[]` is rejected.

Files:

- `wrappers.dfy`: `Option`, `Result` and the error kinds;
- `numbers.dfy`: the numeric primitives;
- `text.dfy`: `find` and `getline` splitting;
- `dense_text.dfy`: the `[a,b,c]` literal;
- `vector.dfy`, `halfvec.dfy`, `sparsevec.dfy`: the three types;
- `pqxx.dfy`: the libpqxx conversions;
- `legacy.dfy`: the v0.1.x headers;
- `disco.dfy`: the example's transcoder.

## Model

| member | source | states |
|---|---|---|
| Text.IndexOf | include/pgvector/pqxx.hpp:147 | the position of the first `:` (or `|s|` when there is none), and that it is `|s|` exactly when the character is absent |
| Text.IndexOfFirst | include/pgvector/pqxx.hpp:147 | no occurrence of the character comes before the found position |
| Text.SplitCount | include/pgvector/pqxx.hpp:41-45 | the `getline` loop reads one more field than there are commas, so it always reads at least one field |
| Text.SplitFieldsFree | include/pgvector/pqxx.hpp:41-45 | no field read by `getline` contains the separator |
| Text.JoinSplit | include/pgvector/pqxx.hpp:41-45 | the fields, rejoined with the separator, give back the text: nothing is lost or reordered |
| Text.SplitJoin | include/pgvector/pqxx.hpp:41-45 | separator-free fields joined with the separator are read back as exactly those fields |
| Text.SplitTrailingSeparator | include/pgvector/pqxx.hpp:41-45 | a trailing separator yields one extra, empty, field |
| Text.SplitAppendChar | include/pqxx.hpp:26-31 | appending a non-separator character extends only the last field |
| DenseText.Write | include/pgvector/vector.hpp:65-75 | the streaming loop writes `[`, the element texts separated by commas, `]` |
| DenseText.EmptyLiteral | include/pgvector/vector.hpp:65-75 | the empty vector prints as `[]` |
| DenseText.LiteralFields | include/pgvector/vector.hpp:65-75 | the text between the brackets splits back into exactly the element texts |
| DenseText.LiteralCommaCount | include/pgvector/vector.hpp:65-75 | n ≥ 1 elements print exactly n − 1 commas, none for the empty vector |
| Vectors.FromSeq | include/pgvector/vector.hpp:28-36 | the vector holds exactly the given elements, and its dimensions are their number |
| Vectors.FromArray | include/pgvector/vector.hpp:39-41 | the vector holds the first `n` array elements in order, and has `n` dimensions |
| Vectors.Dimensions | include/pgvector/vector.hpp:52-54 | the dimensions are the number of elements the conversion returns |
| Vectors.ConversionRoundTrip | include/pgvector/vector.hpp:57-59 | the conversion is lossless: constructing from its result gives the same vector |
| Vectors.Equal | include/pgvector/vector.hpp:61-63 | equal exactly when the element sequences are equal, which is equality of the vectors |
| Vectors.Print | include/pgvector/vector.hpp:65-75 | the text written is the `[a,b,c]` literal of the elements |
| HalfVectors.FromSeq | include/pgvector/halfvec.hpp:20-32 | the half vector holds exactly the given elements, unrounded (the conversion returns them with no narrowing to half precision), and its dimensions are their number |
| HalfVectors.Dimensions | include/pgvector/halfvec.hpp:35-37 | the dimensions are the number of elements the conversion returns |
| HalfVectors.ConversionRoundTrip | include/pgvector/halfvec.hpp:40-42 | the conversion is lossless: constructing from its result gives the same vector |
| HalfVectors.Equal | include/pgvector/halfvec.hpp:44-46 | equal exactly when the element sequences are equal |
| HalfVectors.Print | include/pgvector/halfvec.hpp:48-58 | the text written is the `[a,b,c]` literal of the elements |
| SparseVectors.Make | include/pgvector/sparsevec.hpp:19-26 | fails with a length mismatch exactly when indices and values differ in length, otherwise keeps all three as given |
| SparseVectors.FromDense | include/pgvector/sparsevec.hpp:29-38 | dimensions are the input length; indices are strictly ascending and in range; each value is the non-zero input at its index; every non-zero position is kept |
| SparseVectors.SparseOfUnique | include/pgvector/sparsevec.hpp:29-38 | that description fixes the sparse form uniquely |
| SparseVectors.DropsZerosExample | test/sparsevec_test.cpp:9-14 | `{1,0,2,0,3,0}` gives dimensions 6, indices [0,2,4] and values [1,2,3] |
| SparseVectors.Equal | include/pgvector/sparsevec.hpp:55-57 | equal exactly when the vectors are equal |
| SparseVectors.Print | include/pgvector/sparsevec.hpp:59-72 | the text written is `{i:v,...}/d` with one-based indices in stored order |
| SparseVectors.PrefixStep | include/pgvector/sparsevec.hpp:61-68 | each iteration extends the text by a comma (except the first) and one `i+1:v` entry |
| Pqxx.FirstUnparsed | include/pgvector/pqxx.hpp:41-45 | the position of the field on which `std::stof` first throws, or the field count when none does; the field there does not parse |
| Pqxx.FirstUnparsedFirst | include/pgvector/pqxx.hpp:41-45 | every field before that position parses, so it is the first failure the loop meets |
| Pqxx.ParseFields | include/pgvector/pqxx.hpp:41-45 | succeeds exactly when every field parses; then one element per field, in order; otherwise the error names the first field that does not parse |
| Pqxx.DecodeDense | include/pgvector/pqxx.hpp:33-47 | rejects as malformed any text shorter than 2 or not `[`…`]`; a bracketed text decodes exactly when every comma-separated field between the brackets parses, to one element per field (commas + 1) in order; otherwise the error names the first field that does not parse |
| Pqxx.ReadFloats | include/pgvector/pqxx.hpp:39-45 | the `good()`/`getline` loop returns what `ParseFields` gives for the split fields |
| Pqxx.VectorFromString | include/pgvector/pqxx.hpp:33-47 | succeeds or fails exactly as `DecodeDense` with `std::stof`, with the same elements or the same error |
| Pqxx.HalfVectorFromString | include/pgvector/pqxx.hpp:78-92 | succeeds or fails exactly as `DecodeDense` with `std::stof`, with the same elements or the same error |
| Pqxx.EmptyBracketsParseOneEmptyField | include/pgvector/pqxx.hpp:39-46 | `[]` passes one empty field to the parser, so it never yields an empty vector |
| Pqxx.TrailingCommaGivesEmptyField | include/pgvector/pqxx.hpp:41-45 | a trailing comma hands an empty last field to the parser |
| Pqxx.DenseRoundTrip | include/pgvector/pqxx.hpp:33-47 | decoding the literal of a non-empty vector gives it back when the parser reads the element texts back |
| Pqxx.FindClose | include/pgvector/pqxx.hpp:128-131 | `find("}/", 1)`: a position where `}/` starts, or the text length when there is none |
| Pqxx.FindCloseFirst | include/pgvector/pqxx.hpp:128 | no `}/` starts before the position found |
| Pqxx.DecodeEntry | include/pgvector/pqxx.hpp:147-160 | a decoded entry has a `:`, an index text that parses to the stored index plus 1 (so at least 1), and a value text that parses to the stored value |
| Pqxx.EntryRejects | include/pgvector/pqxx.hpp:147-157 | the errors of one entry, in the order the code throws: no `:` is malformed, then an index text that does not parse, then a value text that does not parse, then an index below 1 |
| Pqxx.EntryAccepts | include/pgvector/pqxx.hpp:147-160 | an entry with a `:`, an index text parsing to i ≥ 1 and a value text parsing to v decodes to `(i − 1, v)` |
| Pqxx.FirstBadEntry | include/pgvector/pqxx.hpp:143-161 | the position of the entry on which the loop first throws, or the entry count when none does; the entry there fails |
| Pqxx.FirstBadEntryFirst | include/pgvector/pqxx.hpp:143-161 | every entry before that position decodes, so it is the first failure the loop meets |
| Pqxx.DecodeEntriesMeaning | include/pgvector/pqxx.hpp:143-161 | the entries decode exactly when every entry decodes; then one index and one value per entry, in field order; otherwise the error is that of the first entry that fails |
| Pqxx.EntriesShape | include/pgvector/pqxx.hpp:143-161 | decoded entries give as many indices as values as fields, and every index is non-negative |
| Pqxx.DecodeSparse | include/pgvector/pqxx.hpp:123-165 | errors in order: malformed framing, bad dimensions, negative dimensions; `{}/d` is empty; on success, one entry per comma-separated field, non-negative indices, dimensions ≥ 0 |
| Pqxx.EntriesDecide | include/pgvector/pqxx.hpp:138-164 | once framing and dimensions pass, the text decodes exactly when its entries do, to those entries with the parsed dimensions, and otherwise fails with the entries' error |
| Pqxx.SparseFromString | include/pgvector/pqxx.hpp:123-165 | the step-by-step decoder returns exactly `DecodeSparse` |
| Pqxx.ReadEntries | include/pgvector/pqxx.hpp:141-162 | the `getline` loop, with each entry's checks in throw order, returns exactly `DecodeEntries` of the split fields |
| Pqxx.EntryFails | include/pgvector/pqxx.hpp:147-157 | an entry that fails ends the loop with its error, whatever was read before |
| Pqxx.EntryDecodes | include/pgvector/pqxx.hpp:159-160 | an entry that decodes appends its index and value and the loop goes on with the next field |
| Pqxx.NoIndexChecks | include/pgvector/pqxx.hpp:155-164 | `{2:5,2:5}/1` decodes with a duplicate, out-of-range index: only index < 1 is rejected |
| Pqxx.EntryRoundTrip | include/pgvector/pqxx.hpp:147-160 | one entry text decodes back to its index and value |
| Pqxx.LiteralRoundTrip | include/pgvector/pqxx.hpp:123-165 | decoding the `{i:v,...}/d` text gives the vector back whenever its formatters read back |
| Pqxx.LiteralFraming | include/pgvector/pqxx.hpp:124-133 | the literal passes the framing guard, with the entries before the first `}/` and the dimensions after |
| Pqxx.EntriesRoundTrip | include/pgvector/pqxx.hpp:141-162 | the joined entry texts decode back to the indices and values |
| Pqxx.RoundTrip | include/pgvector/pqxx.hpp:123-203 | what `into_buf` writes with libpqxx's formatters, `from_string` reads back as the same vector |
| Pqxx.SizeBuffer | include/pgvector/pqxx.hpp:205-222 | the loop returns 4, plus the dimensions' bound, plus 2 and the index and value bounds per entry |
| Pqxx.EntriesFit | include/pgvector/pqxx.hpp:214-220 | the text of the first k entries fits within what `size_buffer` counts for them |
| Pqxx.BufferBoundCovers | include/pgvector/pqxx.hpp:178-222 | the whole literal and its terminating zero fit in `size_buffer` characters |
| Pqxx.WriteEntry | include/pgvector/pqxx.hpp:188-194 | one loop iteration writes a comma unless first, then `index+1`, `:` and the value; the value's writer leaves a zero at the returned position, and nothing past it changes |
| Pqxx.WriteNumber | include/pgvector/pqxx.hpp:192-194 | libpqxx's number `into_buf`: writes the text and a zero at the position, returns the position after the zero, touches nothing after it |
| Pqxx.WriteTail | include/pgvector/pqxx.hpp:197-200 | writes `}/`, the dimensions and the terminating zero |
| Pqxx.WriteEntries | include/pgvector/pqxx.hpp:184-195 | the buffer starts with `{` and the comma-joined entries, and nothing past the returned position changes |
| Pqxx.IntoBuf | include/pgvector/pqxx.hpp:172-203 | more than 16000 entries fails before anything is written; otherwise the buffer holds the literal and a zero, within `size_buffer`, and the rest is unchanged |
| Pqxx.ToBuf | include/pgvector/pqxx.hpp:167-170 | the view returned is exactly the literal, without the terminating zero; the buffer it points into holds the literal and the zero, and nothing past them changes |
| LegacyPqxx.LegacyInner | include/pqxx.hpp:26 | the inner text is `substr(1, -2)` with the count wrapped to a 64-bit `size_t` and clamped to what remains: everything after the first character |
| LegacyPqxx.DecodeLegacy | include/pqxx.hpp:19-33 | rejects as malformed unless `[` first and `]` last; otherwise decodes exactly when every comma-separated field after the `[`, closing bracket included, parses, to one element per field; otherwise the error names the first field that does not parse |
| LegacyPqxx.LegacyVectorFromString | include/pqxx.hpp:19-33 | the `getline` loop with `std::stod` succeeds or fails exactly as `DecodeLegacy` |
| LegacyPqxx.OneCharRejected | include/pqxx.hpp:20-22 | a one-character text is always rejected |
| LegacyPqxx.LegacyFields | include/pqxx.hpp:26-31 | the legacy fields are the current decoder's, except that the last carries the closing `]` |
| LegacyPqxx.LegacyEmptyBrackets | include/pqxx.hpp:26-31 | `[]` hands the single field `]` to `std::stod` |
| LegacyVectors.FromSeq | include/vector.hpp:7-9 | the vector holds exactly the given elements |
| LegacyVectors.FromArray | include/vector.hpp:11-13 | the vector holds the first `n` array elements in order |
| LegacyVectors.ConversionRoundTrip | include/vector.hpp:15-17 | the conversion is lossless: constructing from its result gives the same vector |
| LegacyVectors.Equal | include/vector.hpp:19-21 | equal exactly when the element sequences are equal |
| LegacyVectors.Print | include/vector.hpp:23-33 | for up to INT_MAX elements, the count the `int` loop counter can reach, the text written is the `[a,b,c]` literal |
| LegacySparseVectors.Make | include/sparsevec.hpp:17-24 | fails exactly on a length mismatch, otherwise keeps all three as given |
| LegacySparseVectors.FromDense | include/sparsevec.hpp:26-35 | the result is the sparse form of the dense input |
| LegacySparseVectors.Equal | include/sparsevec.hpp:49-51 | equal exactly when dimensions, indices and values are equal |
| LegacySparseVectors.Print | include/sparsevec.hpp:53-66 | the text written is `{i:v,...}/d` |
| Disco.ConvertToUtf8 | examples/disco/example.cpp:17-30 | the output is each input byte converted on its own, in order: below 128 the byte, otherwise 195 and `v − 64` |
| Disco.ConvertedLength | examples/disco/example.cpp:23-27 | the output is one byte longer than the input per byte ≥ 128 |
| Disco.AsciiUnchanged | examples/disco/example.cpp:22-24 | pure ASCII is copied unchanged |
| Disco.ConvertedAppend | examples/disco/example.cpp:19-28 | the conversion distributes over concatenation |
| Disco.UpperQuarterCorrect | examples/disco/example.cpp:25-27 | for bytes 0xC0–0xFF the code writes the correct UTF-8 encoding |
| Disco.SecondQuarterMisencoded | examples/disco/example.cpp:25-27 | for bytes 0x80–0xBF the code writes C3 and a non-continuation byte, which no UTF-8 decoder accepts |
| Disco.CopyrightSignMisencoded | examples/disco/example.cpp:25-27 | `©` (0xA9) becomes C3 69 instead of C2 A9 |
| Disco.Utf8Encode | examples/disco/example.cpp:21 | the intended encoding: one byte below 0x80, else a lead in C2–DF and a continuation byte that decode to the code point |
| Disco.Latin1ToUtf8 | examples/disco/example.cpp:17-30 | the corrected loop emits the UTF-8 encoding of each Latin-1 byte |
| Disco.Latin1RoundTrip | examples/disco/example.cpp:21 | the corrected output decodes back to the Latin-1 input |
| Disco.AgreesOutsideSecondQuarter | examples/disco/example.cpp:23-27 | the code as written and the corrected one agree on input with no byte in 0x80–0xBF |

## Left out

- The dense `into_buf`, `to_buf` and `size_buffer` of `Vector` and `HalfVector` are left
  out. They delegate to libpqxx's `std::vector<float>` array formatter and then overwrite
  the braces with brackets. That formatter is not part of this model.
- `type_name` and `nullness` are left out. They are declarations for libpqxx, with no
  behaviour of their own.
- The number formatters and parsers are parameters, not implementations. These are
  `string_traits<int|float>`, `std::stof`, `std::stod` and `std::ostream <<`. The proofs
  assume only the named predicates `ParseInvertsFormat`, `DelimiterFree` and
  `BuffersSuffice`.
- Floating-point semantics are not modelled: rounding in `std::stof`, the narrowing of
  `std::stod`'s double to `float`, NaN, and signed zeros. `Float` is opaque, with equality
  only. Zero-ness is the `isZero` parameter.
- The unordered-map and span constructors of `SparseVector` are left out. They are not in
  the headers modelled here.
- The defaulted constructors are left out. `SparseVector()` leaves `dimensions_`
  uninitialised (include/pgvector/sparsevec.hpp:17, 75, and likewise in
  include/sparsevec.hpp). `Vector()` (include/pgvector/vector.hpp:24) holds an empty
  `std::vector<float>`, which is `Vectors.FromSeq([])`. `HalfVector` declares none.
- The move and span constructors of `Vector` and `HalfVector` build the same value as the
  copy constructor, so `FromSeq` stands for all three.
- Pqxx.IntoBuf requires a buffer of at least `size_buffer` characters and libpqxx number
  bounds that cover their texts. The `conversion_overrun` that libpqxx's number writers
  throw on a shorter buffer is not modelled.
- Pqxx.IntoBuf and Pqxx.ToBuf require every stored index to be below INT_MAX. The C++
  `indices[i] + 1` overflows for INT_MAX, which is undefined behaviour. `SparseVectors.Print`
  has the same requirement.
- Pqxx.SizeBuffer returns an unbounded `nat`, so it does not model the width of `size_t`.
  The comments at include/pgvector/pqxx.hpp:178-179 and 211-212 say that `size_buffer` is
  `noexcept` and cannot report an overflow, so the 16000-entry limit is enforced in
  `into_buf` before anything is written (Pqxx.IntoBuf).
- LegacyPqxx.LegacyInner, LegacyPqxx.DecodeLegacy, LegacyPqxx.LegacyVectorFromString and
  LegacyPqxx.LegacyFields require a text of at most SIZE_MAX characters. A `string_view`
  size is a `size_t`, so no longer text exists.
- `NotAFloat` stands for both exceptions `std::stof` and `std::stod` throw:
  `std::invalid_argument` for a text that is not a number and `std::out_of_range` for one
  whose value does not fit. The model does not tell them apart.
- LegacyPqxx.DecodeLegacy requires a non-empty text. The legacy code calls `front()` and
  `back()` on an empty view, which is undefined behaviour.
- LegacyVectors.Print requires at most INT_MAX elements: the loop counter is an `int`
  (include/vector.hpp:25), and counting past INT_MAX overflows it, which is undefined
  behaviour.
- SparseVectors.FromDense requires the input to be at most INT_MAX long. The C++ code
  narrows the size and the positions to `int`.
- Disco.Utf8Decode covers only the one- and two-byte UTF-8 forms, which are all that
  Latin-1 needs. A longer form is rejected.
- The example programs other than `convert_to_utf8`, the database tests, and all I/O
  (streams are modelled as the text they receive) are left out.

## Findings

| source | as written | input that shows it | evidently intended | confidence | as-written member | corrected member |
|---|---|---|---|---|---|---|
| examples/disco/example.cpp:25-27 | every byte v ≥ 128 becomes `195, v − 64`, which is right only for 0xC0–0xFF | byte 0xA9 (`©`) becomes C3 69, which is not UTF-8 | `0xC0 + v / 64, 0x80 + v % 64`: 0xA9 becomes C2 A9 | not executed | Disco.CopyrightSignMisencoded | Disco.Latin1ToUtf8 |
