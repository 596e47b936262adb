# unidecode in Dafny

A model of the Go package `unidecode`, which replaces non-ASCII characters with
ASCII approximations. It covers two functions: `decodeTransliterations`, which
fills a 65536-slot table from a compressed asset, and `Unidecode`, which
rewrites a string code point by code point through that table.

The model has four modules:

- `Wrappers`: `Option` and `Result`.
- `TableDecoder`: the record format of the decompressed asset.
  - A record is a 2-byte little-endian slot index, a 1-byte length N, and N payload bytes.
  - `ScanRecords` is its reference parser and `Store` is the effect of writing records into the table in order.
  - `EncodeRecords` is the inverse of the parser.
  - The three ways a record can be cut short are errors. A panic in Go becomes a `DecodeError` value here.
- `Transliteration`: the per-code-point rule of `Unidecode`.
  - `Transliterate` is the left-to-right concatenation of each code point's contribution.
  - A lookup past the end of the table is a `Panic` value.
  - `TransliterateFixed` is the rule with the corrected bound (see Findings).
- `Unidecode`: the package state as a `Transliterator` object.
  - Its fields are the table array, the `decoded` flag, whether the mutex is held, and the buffer pool.
  - `DecodeTransliterations` is the decoder loop, writing into the array in place. It is proved to produce `Store(old table, ScanRecords(asset).records)`.
  - Its `Unidecode` method takes the first-use initialisation, then either a pooled or a fresh buffer, then the append loop `AppendTransliterated`. Only a call on at most 64 input bytes that does not panic puts its buffer back in the pool.
  - `Unidecode` is proved to return `Transliterate(DecodedTable(asset), s)` whatever the pooled buffer held before.

The input string is taken as its sequence of code points. Go's `len(s)` is its
UTF-8 byte length (`ByteLen`). Payload bytes become code points one for one
(`Runes`), which is what Go's `[]rune(string(b))` does for ASCII payloads.

A failed initialisation is not retried. `mutex.Unlock()` (unidecode.go:70) is
not deferred, so a panic from `decodeTransliterations()` (unidecode.go:67)
leaves the mutex held. Every later call then finds `decoded` false and blocks
forever in `mutex.Lock()` (unidecode.go:65). In the model such a later call
returns `Failure(Deadlock)` (`Unidecode.Transliterator.Unidecode`,
`Unidecode.RepeatedCalls`).

## Model

| member | source | states |
|---|---|---|
| TableDecoder.LittleEndian16 | unidecode.go:26 | the slot index is `lo + 256*hi`: always below 65536, with `lo` its low byte and `hi` its high byte |
| TableDecoder.ScanRecords | unidecode.go:37-53 | every parsed record names a slot inside the 65536-entry table and carries fewer than 256 payload bytes |
| TableDecoder.EmptyTable | unidecode.go:21 | the table starts with 65536 slots, all unset (nil) |
| TableDecoder.DecodedTable | unidecode.go:21 | the decoded table still has exactly 65536 slots |
| TableDecoder.ScanEncode | unidecode.go:37-53 | encoding any list of well-formed records and parsing the bytes gives back exactly that list, with no error |
| TableDecoder.ScanAccounting | unidecode.go:37-53 | the records parsed are the encoding of a prefix of the stream. Success means the whole stream was consumed. A failure names the shape of the unconsumed tail: 1 byte is a truncated index, 2 bytes are a missing length, and otherwise the payload is shorter than its length byte, with the counts it wanted and had |
| TableDecoder.DecodeSucceedsIff | unidecode.go:37-53 | decoding succeeds if and only if the stream is a whole number of complete records |
| TableDecoder.Store | unidecode.go:52 | writing records keeps the table at 65536 slots |
| TableDecoder.StoreUntouched | unidecode.go:52 | a slot that no record names keeps its previous value |
| TableDecoder.StoreLastWins | unidecode.go:52 | a slot holds the payload of the last record naming it; later records overwrite earlier ones |
| TableDecoder.StoreNamedIsSet | unidecode.go:52 | a slot that some record names ends up set |
| TableDecoder.UnsetIffUnnamed | unidecode.go:21 | a slot of the decoded table is unset (nil) if and only if no record of the stream names it |
| TableDecoder.StoreKeepsEntriesShort | unidecode.go:48-52 | writing records keeps every table entry at most 255 code points long |
| TableDecoder.DecodedEntriesShort | unidecode.go:48-52 | no entry of the decoded table is longer than 255 code points |
| TableDecoder.StoreSnoc | unidecode.go:52 | writing one more record changes exactly its slot, to its payload |
| Transliteration.Contribution | unidecode.go:84-94 | one code point panics exactly when it passes the guard but indexes one past the table; the panic names that index and the table length |
| Transliteration.Transliterate | unidecode.go:83-95 | a failing transliteration always reports the out-of-range index, which is equal to the table length |
| Transliteration.TransliterateConcat | unidecode.go:83-96 | the output for `a + b` is the output for `a` followed by the output for `b`; a panic in `a` wins over `b` |
| Transliteration.Single | unidecode.go:83-95 | a one-code-point input yields that code point's contribution |
| Transliteration.Splice | unidecode.go:83-95 | the contribution of a code point sits between the outputs for what precedes and what follows it |
| Transliteration.AsciiUnchanged | unidecode.go:84-86 | an input of ASCII code points is returned unchanged |
| Transliteration.AboveRangeDropped | unidecode.go:88-91 | a code point above U+10FFFF or above the table length contributes nothing |
| Transliteration.UnsetSlotDropped | unidecode.go:92-94 | a code point whose slot is unset contributes nothing |
| Transliteration.EntryInserted | unidecode.go:92-94 | a code point whose slot is set contributes exactly that entry, in place |
| Transliteration.FailsIffPanics | unidecode.go:83-95 | the transliteration fails if and only if some code point of the input indexes one past the table |
| Transliteration.OutputLengthBound | unidecode.go:83-95 | with entries of at most 255 code points, the output has at most 255 code points per input code point |
| Transliteration.OutputAscii | unidecode.go:83-95 | if every table entry is ASCII, the output of a non-negative input is ASCII |
| Transliteration.BoundaryPanics | unidecode.go:88-92 | code point 65536 (U+10000) passes the `c > transCount` guard and panics on the 65536-entry table |
| Transliteration.FixedAgrees | unidecode.go:83-95 | on inputs that do not reach the out-of-range lookup, the code as written and the corrected rule give the same output |
| Transliteration.SuccessIsFixed | unidecode.go:83-95 | whenever the code as written returns a string, that string is the output of the corrected rule |
| Transliteration.FixedConcat | unidecode.go:83-96 | the corrected rule also maps concatenated inputs to concatenated outputs |
| Transliteration.FixedDropsOutsideTable | unidecode.go:88-91 | under the corrected guard, every non-ASCII code point at or past the table length, 65536 included, contributes nothing |
| Unidecode.EncodedLen | unidecode.go:72 | a code point takes 1 to 4 UTF-8 bytes, and exactly 1 if and only if it is ASCII |
| Unidecode.ByteLen | unidecode.go:72 | the byte length lies between the code-point count and four times it, and equals the count if and only if the string is ASCII |
| Unidecode.Append | unidecode.go:85-93 | `append` extends the elements by exactly the given values and never shrinks the capacity below them |
| Unidecode.Checkout | unidecode.go:77 | taking a buffer from a non-empty pool removes exactly its most recent buffer; an empty pool stays empty |
| Unidecode.Transliterator.constructor | unidecode.go:19-27 | the initial package state: an all-nil table, not decoded, mutex free, pool empty |
| Unidecode.Transliterator.DecodeTransliterations | unidecode.go:29-54 | the decoder reports exactly the reference parser's error, and leaves the table as the old table with every record written in stream order |
| Unidecode.Transliterator.GetSlice | unidecode.go:72-82 | the buffer is always empty. Inputs over 64 bytes get a fresh buffer of capacity `len(s)` and leave the pool alone. Smaller inputs take the pool's most recent buffer, or a fresh one of capacity 64 when the pool is empty |
| Unidecode.Transliterator.PutSlice | unidecode.go:97-99 | only a buffer for an input of at most 64 bytes goes back to the pool |
| Unidecode.Transliterator.AppendTransliterated | unidecode.go:83-95 | the loop succeeds exactly when the reference transliteration does. On success the buffer holds its old elements followed by the transliteration. On failure it reports the same panic |
| Unidecode.Transliterator.Unidecode | unidecode.go:63-101 | the first call decodes the table and later calls keep it. A decoder failure returns that error and leaves the mutex held, and every later call deadlocks. Once decoded, the result is the reference transliteration, independent of the pool's contents. Every string it returns is the corrected rule's output. Only a successful call with at most 64 input bytes puts its buffer back |
| Unidecode.RepeatedCalls | unidecode.go:63-71 | two calls on a fresh state agree when the asset decodes. When it does not, the first reports the decode error and the second deadlocks |
| Unidecode.DecodedFailsIff65536 | unidecode.go:88-92 | over the decoded table, `Unidecode` panics exactly on inputs that contain U+10000 |
| Unidecode.DecodedOutputBound | unidecode.go:48-95 | over the decoded table, the output has at most 255 code points per input code point |

## Left out

- zlib decompression of the asset (unidecode.go:30-34) is left out. It is a foreign library call, so the model starts from the decompressed bytes, and a reader error other than a short stream is not represented.
- The contents of `tableData` are not part of this model. The asset is a parameter of the `Transliterator`.
- The mutex is modelled only as a flag held across a panicking decode. Concurrent callers, memory ordering and the unlocked first read of `decoded` are left out, because the model is sequential.
- The internals of the `gopkgs.com/pool.v1` pool are left out. Only the size gate, the "starts empty" reslice and the put-back are modelled. The model's pool hands out its most recently returned buffer, which is one valid behaviour of that pool.
- Go's UTF-8 decoding of the input in `for _, c := range s` is left out. The input is a sequence of code points. Invalid UTF-8 becoming U+FFFD is not modelled; `ByteLen` counts a non-scalar value as the 3 bytes of U+FFFD.
- TableDecoder.Runes: `[]rune(string(b))` is modelled as one code point per payload byte. This is exact for ASCII payloads and does not decode multi-byte UTF-8 payloads.
- Unidecode.Append: Go's growth policy for `append` is not modelled. A reallocation here grows the capacity to exactly what is needed. Only the elements, and the capacity not shrinking, are stated.
- The final `string(r)` conversion (unidecode.go:96) is the identity on the code-point sequence.
- Code points are unbounded integers. Go's `rune` is an `int32` that `range` never makes negative, so a negative value in the input has no counterpart in Go; the model copies it like an ASCII code point.

## Findings

| source | as written | input that shows it | evidently intended | confidence | as-written member | corrected member |
|---|---|---|---|---|---|---|
| unidecode.go:88 | `c > unicode.MaxRune \|\| c > transCount`, with `transCount` = 65536 | the string "\U00010000": code point 65536 passes the guard, and `transliterations[65536]` is out of range on the 65536-entry array, so `Unidecode` panics | `c >= transCount`, so that every code point outside the table is ignored like the other reserved characters. `Transliterator.Unidecode` keeps the panic of the code as written; by `Transliteration.SuccessIsFixed`, every string it returns is the corrected rule's output | not executed | Transliteration.BoundaryPanics | Transliteration.FixedDropsOutsideTable |
