# bioread header bootstrap, modelled in Dafny

This project models the bootstrap of bioread's `AcqReader`
(`src/bioread/readers.py`). The bootstrap works out how to read the header of
an AcqKnowledge file. It has four parts:

- **The versioned main-header table.** `_main_header_structure` has 24
  `(name, struct code, first version)` rows. It is `AcqReader.MainHeaderStructure`,
  built row by row by `AcqReader.MainField`.
- **The version filter and format-string builder.** `_headers_for` is
  `HeaderTable.HeadersFor`. `_header_str_for`, `_main_header_str_for` and
  `_main_headers_for` are `AcqReader.HeaderStrFor`, `AcqReader.MainHeaderStrFor`
  and `AcqReader.MainHeadersFor`. Format strings are real strings. The part of
  Python's `struct` module that the reader uses is modelled in `StructFormat`:
  - codes with an optional repeat count: `b`, `h`, `i`, `d`, `s`;
  - the `<` and `>` prefixes in standard-size mode;
  - a parser, `calcsize` and `unpack`.
- **Offsets.** The module-level `header_name_offsets` is
  `HeaderTable.HeaderNameOffsets`, a loop that calls `calcsize` on each prefix
  of the table.
- **Byte-order and version detection.** `_set_order_and_version` is
  `AcqReader.SetOrderAndVersion`, with its first half in
  `AcqReader.ReadCandidates`. It works in these steps:
  1. Read the version-0 header prefix once.
  2. Decode item 1 (`iVersion`) as a signed 32-bit integer under `<` and
     under `>`. This uses `Endian`, two's complement in either byte order.
  3. Keep the positive readings.
  4. Sort the `(version, flag)` pairs the way Python orders tuples, and take
     the first.

### Representation

- The file is a sequence of bytes (`Endian.Byte`, 0..255). `seek(0)` followed
  by `read(n)` is the prefix of at most n bytes (`AcqReader.ReadPrefix`).
- The reader is an immutable `AcqReader.Reader` value. `byte_order_flag` and
  `file_version` are `Option`s, and both start out unset (`NewReader`).
  Detection returns the updated reader and an optional error. When detection
  fails, the reader comes back unchanged, as in Python: the exception is
  raised before either attribute is assigned.
- Python's exceptions become `AcqReader.ReaderError`:
  - `TypeError`: putting an unset flag in front of a format string;
  - `Struct(...)`: `struct.error`, for a buffer of the wrong size;
  - `IndexError`: indexing an empty candidate list.

### Behaviour as written

- **The filter keeps fields whose first version is at least `ver`**
  (readers.py:56). So `_headers_for(main, 0)` returns the
  whole table. At `ver` 1..30 it drops `nItemHeaderLen` and `iVersion`. Above
  30 it returns nothing. The detection read is therefore 150 bytes, the width
  of the whole table.
- **A second detection simply recomputes** and overwrites the flag and version.
  `AcqReader.BestIsUnique` shows that the recomputation on the same bytes
  picks the same flag and version.
- **Every failure is one of Python's own exceptions:**
  - A short file surfaces as `struct.error` from `unpack`: the short read
    still returns whatever bytes exist.
  - "No positive version" surfaces as an `IndexError`.
  - An unset flag with `include_bof` surfaces as a `TypeError`.

## Model

| member | source | states |
|---|---|---|
| HeaderTable.HeadersFor | src/bioread/readers.py:55-56 | a field is kept exactly when it is in the table and its first version is at least `ver`; the result is a subsequence of the table (relative order kept) and no longer than it |
| HeaderTable.HeadersForCounts | src/bioread/readers.py:56 | each qualifying field is kept exactly as many times as it occurs in the table, every other field never, so together with the subsequence property the result is exactly the filtered list |
| HeaderTable.HeadersForExtremes | src/bioread/readers.py:55-56 | the filter returns the whole table exactly when every field qualifies, and the empty list exactly when none does |
| HeaderTable.HeadersForConcat | src/bioread/readers.py:56 | filtering a concatenation is concatenating the filtered parts |
| HeaderTable.HeadersForTwice | src/bioread/readers.py:56 | filtering at v1 then at v2 is filtering once at the larger of the two |
| HeaderTable.HeadersForMonotone | src/bioread/readers.py:56 | the fields kept at a larger version are a subsequence of those kept at a smaller one |
| AcqReader.MainHeaderStructure | src/bioread/readers.py:26-53 | the main table as 24 rows, in file order; its content is stated by MainTableVersions, MainLayout and MainWidth |
| AcqReader.MainField | src/bioread/readers.py:29-52 | row i of the main table: name, struct code and first version, one case per source row; stated through MainTableVersions, MainLayout and SumOfMainWidths |
| AcqReader.NewReader | src/bioread/readers.py:19-22 | a reader over the file's bytes with the byte-order flag and file version unset; that an unset flag makes a prefixed format string fail with TypeError is stated by HeaderStrFor |
| AcqReader.MainTableVersions | src/bioread/readers.py:28-53 | the main table has 24 rows; the first two appear from version 0, all others from version 30 |
| AcqReader.MainHeadersForCases | src/bioread/readers.py:29-56 | filtering the main table gives the whole table up to version 0, all but the first two rows up to 30, and nothing above 30 |
| AcqReader.MainHeadersFor | src/bioread/readers.py:70-71 | the main-header fields at `ver`: the whole table for `ver <= 0`, rows 2.. for 0 < ver <= 30, none above |
| AcqReader.SumOfMainWidths | src/bioread/readers.py:29-52 | any 24 codes with the main table's per-field widths occupy 150 bytes |
| AcqReader.MainWidth | src/bioread/readers.py:29-52 | the whole main table is 150 bytes wide in standard sizes |
| AcqReader.MainLayout | src/bioread/readers.py:29-32 | field 0 is a single 'h' yielding one item; field 1 is `iVersion`, a single 'i' from version 0; the first four fields start at byte offsets 0, 2, 6 and 10 |
| AcqReader.ProbeCodes | src/bioread/readers.py:79-87 | the version-0 codes start with 'h' then 'i' and are 150 bytes wide in total |
| AcqReader.HeaderStrFor | src/bioread/readers.py:58-64 | (flag requested by default) fails, with TypeError, exactly when the flag is requested but unset; the unprefixed string parses back to exactly the filtered fields' codes, the prefixed one to the flag's byte order and those codes; `calcsize` of '<' plus the unprefixed string is the sum of their widths |
| AcqReader.HeaderStrPrefix | src/bioread/readers.py:58-64 | with the flag set, the prefixed string is the flag followed by exactly the unprefixed string |
| AcqReader.MainHeaderStrFor | src/bioread/readers.py:66-68 | the main header's format string (flag requested by default): TypeError exactly when the flag is requested but unset; unprefixed, it parses back to the codes of the main-header fields at `ver`; prefixed, to the flag's byte order and those codes; at version 0, `calcsize` of '<' plus the unprefixed string is 150 |
| AcqReader.Insert | src/bioread/readers.py:92-94 | inserting into a sorted candidate list keeps it sorted in Python's tuple order and adds exactly that element |
| AcqReader.Sort | src/bioread/readers.py:92-94 | `sorted` yields a permutation of its input, ordered by version and then by flag character |
| AcqReader.KeepPositive | src/bioread/readers.py:92-94 | a candidate is kept exactly when it is in the list and its version is positive |
| AcqReader.SortedHeadIsLeast | src/bioread/readers.py:95 | the head of a sorted list is below or equal to every element |
| AcqReader.SortedPositiveHead | src/bioread/readers.py:91-95 | the sorted positive list is empty exactly when no candidate is positive; otherwise its head is the least positive candidate |
| AcqReader.ChooseCandidate | src/bioread/readers.py:91-95 | fails, with IndexError, exactly when every candidate's version is 0 or negative; otherwise returns a positive candidate below or equal to every positive candidate |
| AcqReader.BestIsUnique | src/bioread/readers.py:91-98 | at most one candidate is the least positive one, so detection on the same bytes always picks the same flag and version |
| AcqReader.ChooseFromPair | src/bioread/readers.py:84-95 | for a '<' and a '>' reading, the pick written case by case: IndexError if neither is positive, else the smaller positive version, with '<' winning a tie |
| AcqReader.DetectsEncoded | src/bioread/readers.py:76-95 | a version 0 < v < 65536 stored at bytes 2..5 in two's complement under either byte order is detected as exactly that order and v |
| AcqReader.ProbeCandidates | src/bioread/readers.py:84-89 | the two readings of bytes 2..5, '<' first and '>' second; the '>' reading is the '<' reading of the four bytes reversed |
| AcqReader.DetectsSmallVersion | src/bioread/readers.py:76-95 | if bytes 2..5 read as v, 0 < v < 65536, under one byte order, detection picks exactly that order and v, whatever the other reading is |
| AcqReader.ReadPrefix | src/bioread/readers.py:81-82 | reading n bytes from offset 0 yields a prefix of the file of length min(n, file length) |
| AcqReader.UnpackVersion | src/bioread/readers.py:86-88 | `struct.unpack(bof + fmt, data)[1]` on the version-0 format fails with a size mismatch (150 expected) exactly when `data` is not 150 bytes long; otherwise it is bytes 2..5 as a signed 32-bit integer in that byte order |
| AcqReader.ReadCandidates | src/bioread/readers.py:79-89 | the two readings succeed exactly when the file has at least 150 bytes, fail with the size mismatch otherwise, and are bytes 2..5 decoded under '<' and under '>' |
| AcqReader.SetOrderAndVersion | src/bioread/readers.py:76-98 | on any error the reader is unchanged; struct.error exactly when the file is shorter than 150 bytes, and then always the buffer-size mismatch (150 expected, the file length given); IndexError exactly when it is long enough but no reading is positive; success exactly when the file has at least 150 bytes and some reading is positive, and then the flag and version are set to the least positive (version, flag) candidate, the one ChooseCandidate picks |
| HeaderTable.OffsetStep | src/bioread/readers.py:107-110 | a field's offset is the previous field's offset plus that field's width |
| HeaderTable.OffsetsNondecreasing | src/bioread/readers.py:107-110 | offsets never decrease along the table |
| HeaderTable.HeaderNameOffsets | src/bioread/readers.py:101-111 | one entry per field, names in input order, first offset 0, each later offset the previous one plus the previous field's width, each the sum of the widths before it, never decreasing |
| StructFormat.ParseJoin | src/bioread/readers.py:63 | joining codes into a string and parsing it back gives the same codes |
| StructFormat.ParseFormatOfJoin | src/bioread/readers.py:61-63 | a flag followed by joined codes parses to that byte order and those codes |
| StructFormat.CalcSize | src/bioread/readers.py:80 | `struct.calcsize` in standard-size mode; its behaviour is stated by CalcSizeOfJoin and CalcSizeIsUnpackLength |
| StructFormat.CalcSizeIsUnpackLength | src/bioread/readers.py:80-87 | for a format `calcsize` accepts, `unpack` succeeds exactly on buffers of the length `calcsize` reports |
| StructFormat.CalcSizeOfJoin | src/bioread/readers.py:109-110 | `calcsize` of a flag plus joined codes is the sum of the codes' widths, whatever the byte order |
| StructFormat.SumWidthsConcat | src/bioread/readers.py:108-110 | the width of concatenated code lists is the sum of their widths |
| StructFormat.Unpack | src/bioread/readers.py:87 | `struct.unpack` in standard-size mode; its behaviour is stated by CalcSizeIsUnpackLength, UnpackOfParsed and UnpackSecondItem |
| StructFormat.UnpackOfParsed | src/bioread/readers.py:87 | unpacking with a flag in front of a parsed code string succeeds exactly when the buffer has the codes' total width, and then yields those codes' values |
| StructFormat.UnpackSecondItem | src/bioread/readers.py:87 | when the first code yields one item and the second is a plain 'i', item 1 is the 4 bytes after the first code read as a signed integer |
| StructFormat.DecimalRoundTrip | src/bioread/readers.py:40-41 | a repeat count written in decimal reads back as the same count |
| Endian.SignedRoundTrip | src/bioread/readers.py:87 | decoding a value encoded in two's complement under the same byte order gives it back |
| Endian.UnsignedLERoundTrip | src/bioread/readers.py:87 | reading the little-endian bytes of an unsigned value in range gives it back |
| Endian.EncodeLERoundTrip | src/bioread/readers.py:87 | re-encoding the value read from some bytes gives back the same bytes |
| Endian.BigIsReversedLittle | src/bioread/readers.py:84-87 | the big-endian unsigned reading is the little-endian reading of the reversed bytes |
| Endian.SignedBigIsReversedLittle | src/bioread/readers.py:84-87 | the '>' reading of a field is the '<' reading of its bytes reversed |
| Endian.DecodeSignedRange | src/bioread/readers.py:87 | an n-byte field decodes into the signed n-byte range |
| Endian.FourByteValues | src/bioread/readers.py:87 | a 4-byte field's unsigned value under each byte order, digit by digit |

## Left out

- File objects: the file is its byte contents. `seek(0)` and `read(n)` are the
  prefix of at most n bytes. No other I/O error is modelled.
- `read` (readers.py:73-74) does nothing and is not modelled.
- Values of 'd' and 's' items: `unpack` returns their raw bytes. IEEE-754
  doubles are not decoded, and no field other than `iVersion` is read.
- The other `struct` prefixes ('@', '=', '!') and a format with no prefix, padding, whitespace in
  formats and format characters not used by the table: the parser rejects
  them as a bad character or a missing prefix.
- `StructFormat.Unpack`: states item values only for the version field. For
  other items it states only their number (`UnpackCodes`), not their values.
- `AcqReader.MainHeaderStrFor`: characterises the main header's format string
  through the codes it parses back to. It does not state the literal text
  "hiihhhddddd8b6hhdh40s10shhhhhh".
- `AcqReader.DetectsSmallVersion`: covers versions below 65536 only. Larger
  positive versions can lose to a smaller byte-swapped reading, exactly as in
  the code.
- The `@property` decorator and the class wrapper: the table is a plain
  function, and the methods take the reader as an argument.
