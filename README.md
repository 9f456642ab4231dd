# NEX file viewer: cursor, scalar decoders and ZX Spectrum Next specifics

This project is a Dafny model of the byte-level part of the webview script of the NEX file viewer. The viewer decodes ZX Spectrum Next `.nex` files and shows their fields lazily.

The script keeps a read cursor over an immutable data buffer in two globals: `lastOffset`, where the last field starts, and `lastSize`, its length. On top of that cursor it has:

- `read`, which advances to the next field;
- `getValue`, which decodes the current window as a little-endian unsigned integer;
- its decimal, hex, bit and string views;
- zero-padded hex formatting and the index hover text;
- the hex dump `htmlMemDump`, which collapses runs of equal bytes that span at least two whole 16-byte rows;
- the deferred-details bookkeeping of `htmlDetails`.

The ZX Spectrum Next part covers:

- the storage order of the 16K banks;
- the colour, core-version and included-banks renderers;
- the 9-bit palette entry format (RRRGGGBB P000000B) with `getPalette`, the default palette and the palette listing;
- the size guards in front of the three image conversions.

JavaScript semantics the source relies on are made explicit:

- A read past the end of the buffer is `undefined`. Arithmetic on it is `NaN`. `Values.Num` has both alongside the integers.
- Shifts and masks see `undefined` as 0 (`Values.ByteOrZero`).
- `undefined.toString()` throws (`Format.Rendered.Throws`).
- `String.fromCharCode` of `NaN` or `undefined` is NUL.
- Writing at the end of an array extends it (`ZxSpecific.Store`).

Files:

- `values.dfy` (module `Values`): bytes, JavaScript number results, little-endian sums.
- `format.dfy` (module `Format`): numerals, `getHexString`, the hover string, line-break conversion.
- `memdump.dfy` (module `MemDumpPlan`): the layout decisions of the hex dump as pure functions, and their lemmas.
- `parser.dfy` (module `Parser`): the class `Cursor` holding the buffer and the two globals, with one method per operation.
- `zxspecific.dfy` (module `ZxSpecific`): the ZX Spectrum Next specifics, each renderer reading a `Cursor`.

## Model

| member | source | states |
|---|---|---|
| Values.LittleEndianBound | src/html/parser.ts:219-227 | the little-endian value of k bytes is below 256^k |
| Values.LittleEndianRoundTrip | src/html/parser.ts:219-227 | encoding a value that fits in `width` bytes and decoding it gives it back |
| Values.ToLittleEndianOfDecode | src/html/parser.ts:219-227 | decoding bytes and encoding the value again gives the same bytes |
| Format.NumeralDigits | src/html/parser.ts:236 | `n.toString(base)` consists only of digits of the base and is never empty |
| Format.NumeralRoundTrip | src/html/parser.ts:236 | the decimal or hex numeral of `n` reads back as `n` |
| Format.PaddedNumeral | src/html/parser.ts:190 | `padStart` with '0' keeps the numeral as a suffix, adds only zeros in front, and keeps its value |
| Format.GetHexString | src/html/parser.ts:187-192 | `undefined` gives `size` '?' characters; otherwise the length is max(size, digits), with the unpadded hex as suffix after zeros only; the result is never truncated and parses back to the value; NaN gives "NAN" padded |
| Format.NumeralCanonical | src/html/parser.ts:236 | `n.toString(base)` is "0" for zero and has no leading zero otherwise |
| Format.GetIndexHoverString | src/html/parser.ts:198-201 | the text is "Index (hex): ", then `getHexString(i, 4)` (hex digits only, at least 4, reading back as the index), then "\nIndex (dec): ", then the decimal numeral of the index (no leading zero, reading back as the index) |
| Format.ConvertLineBreaks | src/html/parser.ts:111-113 | the result holds no line break and is at least as long as the input |
| Format.ConvertLineBreaksResult | src/html/parser.ts:111-113 | no line break is left, and each one is replaced by 4 characters (length grows by 3 per break) |
| Format.ConvertLineBreaksAppend | src/html/parser.ts:111-113 | the replacement distributes over concatenation |
| Format.ConvertLineBreaksNoop | src/html/parser.ts:111-113 | text without line breaks is unchanged |
| Format.ConvertLineBreaksIdempotent | src/html/parser.ts:111-113 | converting twice is the same as converting once |
| MemDumpPlan.RunEnd | src/html/parser.ts:306-310 | the scan stops at the first later index whose byte differs or is missing, or at `size`; every byte it passes equals the row-start value |
| MemDumpPlan.NextIndex | src/html/parser.ts:306-321 | the dump always moves forward and never past `size` |
| MemDumpPlan.RowStartStep | src/html/parser.ts:298-324 | at a row start, a scan result `l` with l16 = l - l%16 > i+16 gives the range [i, l16-1] and continues at l16; otherwise a single cell, continuing at i+1 |
| MemDumpPlan.InRowStep | src/html/parser.ts:298-329 | off a row start, the element is always a single cell at data index `i` and address `offset+i` |
| MemDumpPlan.DumpStep | src/html/parser.ts:288-330 | one loop step appends the element at `i` and continues from the next index |
| MemDumpPlan.NextItemOk | src/html/parser.ts:291-324 | the element at `i` keeps the promises of `ItemOk` |
| MemDumpPlan.DumpItemsOk | src/html/parser.ts:288-330 | each cell shows the byte at `lastOffset+i` and the address `offset+i`, and is not at a collapsing row start; each collapsed range starts at a row start, spans a multiple of 16 bytes, at least 32, and holds only its value |
| MemDumpPlan.DumpCoverage | src/html/parser.ts:288-339 | from index `i`, the elements cover the indices up to the first missing byte, each exactly once and in increasing order; the dump fails exactly when a byte of the block is missing |
| MemDumpPlan.DumpOfCoverage | src/html/parser.ts:281-339 | a block inside the buffer is covered completely (indices 0..size-1, each once, in order) without error; a block that runs past the buffer ends with the error line; every element is as `DumpItemsOk` states |
| Parser.ReadAllWindow | src/html/parser.ts:210-213 | after a sequence of reads from any state, the window starts at the old end plus all sizes but the last, and has the last size |
| Parser.ReadsFromStart | src/html/parser.ts:210-213 | from the initial state (0, 0), after reads s1..sn the offset is s1+...+s(n-1) and the size is sn |
| Parser.FieldsContiguous | src/html/parser.ts:210-213 | field k+1 starts exactly where field k ends: no overlap and no gap |
| Parser.ValueStep | src/html/parser.ts:222-225 | one more byte adds that byte times 256^i (NaN when the byte is missing) |
| Parser.Cursor.constructor | src/html/parser.ts:397-399 | the data arrives with offset 0 and size 0 |
| Parser.Cursor.Read | src/html/parser.ts:210-213 | the new offset is the old offset plus the old size, and the new size is `size` |
| Parser.Cursor.GetValue | src/html/parser.ts:219-227 | the result is the little-endian value of the max(lastSize, 1) bytes at the cursor, below 256^max(lastSize,1); for lastSize ≤ 1 it is the single byte or `undefined`; NaN when a byte of a longer window is missing; the cursor does not move |
| Parser.Cursor.DecimalValue | src/html/parser.ts:234-237 | the canonical decimal numeral of the same value as `GetValue`: digits only, reading back as the value, "0" for zero and no leading zero otherwise; "NaN" for NaN; a TypeError for `undefined` |
| Parser.Cursor.HexValue | src/html/parser.ts:243-246 | the unpadded upper-case hex numeral of the same value: reading back as the value, "0" for zero and no leading zero otherwise; "NAN" for NaN; a TypeError for `undefined` |
| Parser.Cursor.BitValue | src/html/parser.ts:253-257 | "1" iff bit `bit mod 32` of the value mod 2^32 is set, "0" otherwise (also for a missing value); for values below 2^32 and bits below 32, "1" iff the bit is set |
| Parser.Cursor.StringValue | src/html/parser.ts:264-271 | exactly `lastSize` characters; character i has code buf[lastOffset+i], or NUL past the end |
| Parser.Cursor.ScanRun | src/html/parser.ts:306-310 | the loop computes `RunEnd`: the first later index whose byte differs or is missing |
| Parser.Cursor.DumpElement | src/html/parser.ts:289-329 | one iteration of the dump emits `NextItem` and continues at `NextIndex` |
| Parser.Cursor.MemDump | src/html/parser.ts:281-345 | the dump is `DumpOf` of the block at the old offset with addresses from `offset`; afterwards the offset has advanced by exactly `size`, also after an error, and `lastSize` is unchanged |
| Parser.Cursor.Details | src/html/parser.ts:361-365 | `data-index` is a decimal numeral that reads back as the old offset; the offset then advances by `size`; `lastSize` is unchanged |
| Parser.Cursor.Toggle | src/html/parser.ts:372-377 | before the deferred decoding runs, the offset is reset to the recorded `data-index` |
| ZxSpecific.BankPosition | src/html/zxspecific.ts:8-17 | the storage position of a bank is the identity from 6 on, and below 6 exactly for banks below 6 |
| ZxSpecific.GetMemBankPermutation | src/html/zxspecific.ts:13-17 | positions 0..5 hold banks 5, 2, 0, 1, 3, 4; position i ≥ 6 holds bank i; the bank is below 112 iff the position is |
| ZxSpecific.BankPermutationInverse | src/html/zxspecific.ts:13-17 | the bank at a position and the position of a bank undo each other, both ways |
| ZxSpecific.BankPermutationBijective | src/html/zxspecific.ts:8-17 | on 0..111 the permutation is onto 0..111 and injective: each bank is stored at exactly one position |
| ZxSpecific.ZxColorAsWritten | src/html/zxspecific.ts:49-59 | as written, "BLACK" iff the value is 0, "UNKNOWN" otherwise |
| ZxSpecific.ZxColorName | src/html/zxspecific.ts:49-59 | the intended table: for values 0..7 a colour name that stands for that number, "UNKNOWN" otherwise |
| ZxSpecific.ZxColorDiscrepancy | src/html/zxspecific.ts:47-60 | the code as written and the intended table differ exactly on the values 1..7 |
| ZxSpecific.ZxColorValue | src/html/zxspecific.ts:47-60 | as written: "BLACK" iff the value of the current window is 0, "UNKNOWN" otherwise |
| ZxSpecific.ZxColorValueCorrected | src/html/zxspecific.ts:47-60 | one case label per colour: a value 0..7 gives the name of that colour number |
| ZxSpecific.VersionCharShows | src/html/zxspecific.ts:67-70 | the character for a component is '0' plus the byte, a decimal digit of the same value for components below 10, and NUL for a missing byte |
| ZxSpecific.CoreVersionValue | src/html/zxspecific.ts:66-72 | a 5-character string with dots at 1 and 3; positions 0, 2 and 4 show the bytes at offset, offset+1 and offset+2 |
| ZxSpecific.IncludedBanksIncreasing | src/html/zxspecific.ts:80-83 | the listed bank indices are below `lastSize` and strictly increasing |
| ZxSpecific.IncludedBanksMembers | src/html/zxspecific.ts:80-83 | an index is listed iff it is below `lastSize` and its byte is exactly 1; other byte values are ignored |
| ZxSpecific.BankListTextStep | src/html/zxspecific.ts:80-83 | scanning one more byte appends "i " exactly when that byte is 1 |
| ZxSpecific.BankListTextGrows | src/html/zxspecific.ts:84-85 | the list text only grows as bytes are scanned, so an early "..." means the full list is too long |
| ZxSpecific.BanksValue | src/html/zxspecific.ts:78-89 | "..." iff the full space-terminated list of included banks is longer than 15 characters; otherwise exactly that list, at most 15 characters |
| ZxSpecific.Decode9 | src/html/zxspecific.ts:160-166 | every decoded entry has 3-bit channels and a 1-bit priority |
| ZxSpecific.DecodeEncode | src/html/zxspecific.ts:144-149 | every colour is decoded back from the byte pair that stores it |
| ZxSpecific.EncodeDecode | src/html/zxspecific.ts:144-149 | decoding loses only the unused bits 1..6 of the second byte |
| ZxSpecific.Decode9BitOps | src/html/zxspecific.ts:163-166 | on byte values, the shifts and masks of the source equal the divisions and remainders of `Decode9` |
| ZxSpecific.Decode9Examples | src/html/zxspecific.ts:144-149 | (0xFF, 0x01) gives R=G=B=7, P=0, and (0x00, 0x80) gives R=G=B=0, P=1 |
| ZxSpecific.SlotOfEntry | src/html/zxspecific.ts:109-112 | slots 3e, 3e+1 and 3e+2 hold red, green and blue of entry e, times 32 |
| ZxSpecific.PaletteStoreEntry | src/html/zxspecific.ts:101-112 | storing one entry's three channels extends the decoded prefix by one entry |
| ZxSpecific.Store | src/html/zxspecific.ts:110-112 | writing at index k of an array sets slot k, keeps every other slot, and extends the array when k is its length |
| ZxSpecific.GetPalette | src/html/zxspecific.ts:96-115 | the array has max(768, 3·ceil(lastSize/2)) slots; slot 3e+k is channel k of the decode of the byte pair at lastOffset+2e, times 32, for each decoded entry, and `undefined` elsewhere |
| ZxSpecific.PaletteComplete | src/html/zxspecific.ts:99-114 | when the loop ends, the array is the whole palette |
| ZxSpecific.PaletteSlotRange | src/html/zxspecific.ts:105-107 | every decoded channel is a multiple of 32 in 0..224; a slot is set iff its entry was decoded |
| ZxSpecific.FullPaletteBlock | src/html/zxspecific.ts:96-115 | a 512-byte block gives exactly 768 slots, all set |
| ZxSpecific.DefaultSlotOfEntry | src/html/zxspecific.ts:131-138 | slots 3e..3e+2 of the default palette are the channels of the decode of (e, 0), times 32 |
| ZxSpecific.DefaultStoreEntry | src/html/zxspecific.ts:125-138 | storing one entry extends the computed prefix by one entry |
| ZxSpecific.DefaultPalette | src/html/zxspecific.ts:122-141 | 768 slots; entry i is computed from i alone, as the decode of the byte pair (i, 0) |
| ZxSpecific.DefaultSlotRange | src/html/zxspecific.ts:131-133 | every slot is set, a multiple of 32 up to 224, and every blue slot is one of 0, 64, 128, 192 |
| ZxSpecific.DefaultIsPairBlock | src/html/zxspecific.ts:122-141 | the default palette equals what `getPalette` decodes from the 512-byte block of pairs (i, 0) |
| ZxSpecific.CreatePalette | src/html/zxspecific.ts:150-204 | one row per byte pair, ceil(lastSize/2) rows; row e shows offset lastOffset+2e, entry e, the word, its 4-digit hex, the decoded entry and the swatch |
| ZxSpecific.WordIsWindowValue | src/html/zxspecific.ts:170 | the word 256·val1 + val0 is the 2-byte little-endian value at the pair, below 2^16, with the bytes as low and high part, or NaN when a byte is missing |
| ZxSpecific.PaletteRowWord | src/html/zxspecific.ts:158-170 | a row's entry is the decode of its word's low and high byte, with valid channels and priority |
| ZxSpecific.SwatchDigits | src/html/zxspecific.ts:188 | the swatch is a string of six hex digits; the pair for channel k reads back as that channel times 32 |
| ZxSpecific.PaletteRowSwatch | src/html/zxspecific.ts:188-189 | the swatch of entry e shows, pair by pair, the slots `getPalette` computes for that entry |
| ZxSpecific.CreateUlaScreen | src/html/zxspecific.ts:24-41 | the conversion fails iff lastOffset + 6912 > buffer length; otherwise the 6912 bytes at the cursor are passed on |
| ZxSpecific.CreateLayer2Screen | src/html/zxspecific.ts:250-267 | the conversion fails iff lastOffset + 49152 > buffer length; otherwise the `lastSize` bytes at the cursor (up to the buffer end) and the palette are passed on as a 16 x 16 image |
| ZxSpecific.CreatePaletteImage | src/html/zxspecific.ts:210-220 | `lastSize` other than 512 fails the assertion; otherwise 256 pixels with pixel i = i, and the 768-slot palette of the block at the cursor |

## Left out

- The DOM and the HTML markup are not modelled: node creation, descriptions, details navigation, lines, hover attributes and the markup strings of the dump and the palette listing. Only the values, offsets and layout decisions the markup is built from are kept (`MemDumpPlan.Dump`, `ZxSpecific.PaletteRow`).
- `arrayBufferToBase64` (src/html/parser.ts:51-56) calls the browser's `btoa`. It is not part of this model.
- The message listener (src/html/parser.ts:390-404) is webview transport. Only the state it sets up is kept, as `Parser.Cursor.constructor`. `parseRoot` is not part of this model.
- The GIF encoder (`ImageConvert.createGifFromArray`) and the ULA screen decoder (`UlaScreen`) are not part of this model. The conversions stop at the data handed to them (`ZxSpecific.Conversion`).
- Exceptions inside the image `try` blocks other than the size guards, which come from the GIF or ULA decoders, are not modelled.
- `convertBitsToString` (src/html/zxspecific.ts:171) is not part of this model. `ZxSpecific.CreatePalette` leaves out the binary hover text, and any exception from it.
- `assert` (src/html/zxspecific.ts:211) is not defined in the source files. It is taken as throwing when its condition fails. The exception leaves `createPaletteImage` because the call comes before the `try`, so the model returns `AssertionFailed` and not the "Error converting image." marker.
- The event-listener registration and removal in `htmlDetails` are left out. `Parser.Cursor.Details` and `Parser.Cursor.Toggle` model only the save, advance and restore of `lastOffset`; `Toggle` takes the recorded string as a parameter.
- The global `lastValue` is written by `getValue` and read nowhere else (src/html/parser.ts:220-226). The model keeps it as a local accumulator.
- `main.ts` is not part of this model. Its only self-contained function duplicates `getMemBankPermutation`.
- The reads of `dataBuffer` in `getZxNextDefaultPalette` (src/html/zxspecific.ts:127-129) have no effect on the result. `ZxSpecific.DefaultPalette` leaves them out.
- The hover text of the palette image (src/html/zxspecific.ts:226-237) is markup. It is left out.
- Parser.Cursor.GetValue: JavaScript numbers are doubles, and the model uses unbounded integers. Two effects are not modelled. First, a window whose value exceeds 2^53 is rounded in the source; smaller values, including many of 7 or more bytes, are exact there too. Second, from a window of 129 bytes on, `factor *= 256` reaches 256^128 = 2^1024, which is Infinity (src/html/parser.ts:223-224), and a sum past the largest double is Infinity as well. The source then returns Infinity, or NaN where a byte 0 meets `Infinity * 0`, and `decimalValue` shows "Infinity" or "NaN". The model gives the exact integer in all these cases.
- Parser.Cursor.BitValue: `1 << bit` and `&` are modelled on the value modulo 2^32 as unsigned. For values at or above 2^31, JavaScript's signed 32-bit view gives the same bit pattern, so the bit tested is the same.
- Offsets and sizes are natural numbers. Negative or fractional sizes and offsets are not modelled.
- ZxSpecific.CreateUlaScreen: `UlaScreen.SCREEN_SIZE` is defined in code that is not part of this model. The model fixes it at 6912, the size of a ULA screen (6144 bytes of pixels and 768 of attributes).
- ZxSpecific.CreateUlaScreen: the source passes the whole `dataBuffer` and `lastOffset` to `new UlaScreen(...)` (src/html/zxspecific.ts:31). The model passes on the 6912-byte slice at the cursor instead, which is what the guard makes available to the decoder; what `UlaScreen` reads is not modelled.
- ZxSpecific.CreateLayer2Screen: the 16 x 16 dimensions are passed on as written, not the 256 x 192 of a Layer 2 screen. The model does not claim that the resulting image is a correct picture.

## Findings

| source | as written | input that shows it | evidently intended | confidence | as-written member | corrected member |
|---|---|---|---|---|---|---|
| src/html/zxspecific.ts:47-60 | every case label of the switch is `0`, so only "BLACK" can be returned and every other value gives "UNKNOWN" | a colour byte of 1 gives "UNKNOWN" instead of "BLUE" (likewise 2..7) | values 0..7 map to BLACK, BLUE, RED, MAGENTA, GREEN, CYAN, YELLOW, WHITE | high (not executed) | ZxSpecific.ZxColorValue | ZxSpecific.ZxColorValueCorrected |
