# LZMW codec, modelled in Dafny

A model of the compression codec in `LZMW.py`: the encoder
`lzmw_compress`, the decoder `lzmw_decompress`, the byte export of the
codes, and the integer size that `calculate_compression_stats` reports.
It comes with the proof that decoding the encoder's output reproduces the
input.

The encoder starts from a dictionary that maps the 256 one-character
phrases to the codes 0-255. It extends its current phrase while the
extension is still a key. When the extension is not a key, it emits the
code of the current phrase and files the extension under the next free
code. It then restarts from the character it could not add. The decoder
rebuilds the same dictionary one step behind the encoder. It resolves a
code it does not know yet by the deferred-code rule
`previous + previous[0]`.

Despite the name, this growth rule is plain LZW: the abandoned phrase
plus one character. New entries are not concatenations of two earlier
phrases, as in Miller–Wegman. The model follows the code.

## Layout

- `alphabet.dfy` (`Alphabet`): text over characters below 256, and the two initial dictionaries.
- `encoder.dfy` (`Encoder`): the encoder's loop state and its invariant. `Step`, `Feed` and `Run` specify the loop as functions. `Compress` is the loop itself.
- `decoder.dfy` (`Decoder`): the same for the decoder.
- `lockstep.dfy` (`Lockstep`): the relation between the encoder and the decoder run on its codes, which is one dictionary entry behind. Each encoder step, and the final emission, keep it.
- `round_trip.dfy` (`RoundTrip`): the relation over a whole text. It proves that decoding inverts encoding and that the final dictionaries are inverse to each other.
- `export.dfy` (`Export`): the big-endian export with widths 1/2/4, with its reader given the widths.
- `stats.dfy` (`Stats`): the reported size with tiers 1/2/3/4, and how it compares with the export.
- `pipeline.dfy` (`Pipeline`): what the app does with these pieces.

The three loops (encoder, decoder, export) are modelled as methods with `for` loops. Each method is proved
equal to a spec function (`Compression`, `Decompression`, `Packing`). The
properties are proved about those functions.

## Modelling choices

- A Python `str` is a Dafny `string`. A character of code 256 or more makes the encoder's lookups at LZMW.py:33 and :44 raise `KeyError`. Every encoder member therefore requires `InAlphabet(text)`.
- Empty input returns a bare `[]` from the encoder and a bare `""` from the decoder, not a pair. These are the constructors `EmptyList` and `EmptyText`.
- A first code outside 0-255 raises `KeyError` at LZMW.py:66. This is the result `UnknownFirstCode(code)`.
- Later codes are never checked. Any code that is not a key takes the fallback path: a negative code, or one far beyond the dictionary. No "malformed stream" error exists in the code, so the model has none either. `Decoder.UnknownCodesAccepted` shows such a stream being decoded.
- `code.to_bytes(n, 'big')` raises `OverflowError` for a negative code or a code of 2^32 or more. This is the result `Overflow(code)`, and the export stops at the first such code.
- The statistics count a code in 65536..16777215 as 3 bytes. The export writes 4 bytes for it. Both are modelled as written, and `Stats.ReportedVersusExported` states exactly when they differ.

## Model

| member | source | states |
|---|---|---|
| `Alphabet.InitialCodes` | LZMW.py:19 | the encoder starts with exactly the one-character phrases below 256, each mapped to its own code point |
| `Alphabet.InitialPhrases` | LZMW.py:62 | the decoder starts with exactly the codes 0-255, each mapped to its one-character phrase |
| `Alphabet.InitialSizes` | LZMW.py:19-20 | both initial dictionaries hold 256 entries, matching `dict_size = 256` |
| `Alphabet.InitialInverse` | LZMW.py:62 | the two initial dictionaries are inverse to each other |
| `Encoder.InitialNumbered` | LZMW.py:19-20 | the initial dictionary uses each code 0..255 exactly once |
| `Encoder.Extend` | LZMW.py:36-37 | filing an absent phrase under `dict_size` and incrementing keeps the codes exactly 0..dict_size-1, one phrase each |
| `Encoder.Step` | LZMW.py:25-40 | one character keeps the loop invariant: the single-character entries stay in place, the codes stay 0..size-1 and injective, the dictionary stays prefix-closed, the current phrase stays a key (so the lookup at :33 succeeds), and each code is below the size at emission; no entry is overwritten; exactly `phrase + c` is added when absent, under the old `dict_size` |
| `Encoder.ExtendValid` | LZMW.py:32-40 | emitting the current phrase's code, filing `phrase + c` under `dict_size` and restarting from `c` keeps the loop invariant |
| `Encoder.Initial` | LZMW.py:19-23 | before the loop the invariant holds with the 256 initial entries, no output and the first character as the current phrase |
| `Encoder.Feed` | LZMW.py:25-40 | any further characters keep the invariant, and each adds at most one code to the output |
| `Encoder.FeedAppend` | LZMW.py:25-40 | feeding `a + b` is feeding `a` and then `b`: the loop can be split anywhere |
| `Encoder.Run` | LZMW.py:19-40 | after i characters the invariant holds and fewer than i codes have been emitted |
| `Encoder.RunNext` | LZMW.py:25 | the state after i characters is one more loop iteration on the state after i − 1 |
| `Encoder.FlushBounds` | LZMW.py:43-44 | the final lookup of the current phrase succeeds, and the code it appends is below 256 plus its position |
| `Encoder.Compression` | LZMW.py:5-46 | empty text gives the bare empty list; otherwise there are 1 to n codes; the j-th code is in 0..255+j (below `dict_size` when emitted); the final dictionary has 256 + (codes − 1) entries numbered 0.. without gaps or repeats; it is prefix-closed and keeps the initial entries |
| `Encoder.Compress` | LZMW.py:5-46 | the source's loop over `text[1:]`, mutating the dictionary, size, output and phrase, returns exactly `Compression(text)` |
| `Encoder.SingleCharacter` | LZMW.py:23-44 | a one-character text gives that character's code alone, with the initial dictionary unchanged |
| `Encoder.PairFound` | LZMW.py:29-36 | after a character, a second copy files the pair and emits one code, and a third copy finds the pair and emits nothing |
| `Encoder.RepeatCompresses` | LZMW.py:25-44 | repetition compresses: any character below 256 repeated n ≥ 3 times gives fewer than n codes |
| `Decoder.Step` | LZMW.py:69-84 | one code adds exactly one entry under `dict_size`, namely `previous + current[0]`; no existing entry changes; the output grows by `current`; `current` is the entry for a known code and `previous + previous[0]` for any other code |
| `Decoder.Run` | LZMW.py:62-84 | after k ≥ 1 codes the dictionary has keys exactly 0..254+k, every phrase is non-empty, the initial entries are intact, and the output is at least k characters long |
| `Decoder.RunPrefix` | LZMW.py:69 | decoding one more code is one more loop iteration |
| `Decoder.Decompression` | LZMW.py:48-86 | no codes give the bare empty string; a first code outside 0..255 is a `KeyError`; otherwise the dictionary ends with 255 + k entries, keyed 0..254+k |
| `Decoder.Decompress` | LZMW.py:48-86 | the source's loop over `compressed_data[1:]` returns exactly `Decompression(codes)` |
| `Decoder.SingleCode` | LZMW.py:66-67 | one code decodes to its character, with no dictionary growth |
| `Decoder.DeferredCode` | LZMW.py:73-75 | the not-yet-known code 256 after 'a' decodes as "aa" |
| `Decoder.UnknownCodesAccepted` | LZMW.py:70-75 | after any first code c, two later codes that are neither known nor the next free code (negative, or far past the dictionary) are decoded by the fallback without error, giving c six times |
| `Decoder.FallbackTwice` | LZMW.py:73-75 | from a one-character phrase, two codes outside the dictionary append that character twice and then three times |
| `Lockstep.EmitDecodes` | LZMW.py:70-75 | the code the encoder emits for its phrase decodes to that phrase; when the decoder does not know the code yet, the fallback yields the same phrase |
| `Lockstep.SimStep` | LZMW.py:26-40 | one encoder step keeps it in lockstep with the decoder on the emitted codes: output so far plus current phrase is the consumed text, sizes one apart, decoder entries equal to the encoder's at the same codes, the missing entry is `previous + phrase[0]` |
| `Lockstep.SimStart` | LZMW.py:29-36 | after two characters the encoder has emitted the first character's code, and the decoder started on it is in lockstep |
| `Lockstep.SimAdvance` | LZMW.py:25-40 | one more character keeps the encoder and the decoder run on its codes in lockstep |
| `Lockstep.FeedSim` | LZMW.py:25-40 | any further characters keep the encoder and the decoder run on its codes in lockstep |
| `RoundTrip.Simulation` | LZMW.py:19-40 | after the whole of any text of two or more characters, the encoder and the decoder run on its codes are in lockstep |
| `Lockstep.CatchUp` | LZMW.py:81-82 | once the decoder has read the encoder's last code, its dictionary is the encoder's read backwards |
| `Lockstep.SimFinish` | LZMW.py:43-44 | decoding the final code gives exactly the consumed text, and a dictionary that is the encoder's read backwards |
| `RoundTrip.RoundTrip` | LZMW.py:205-208 | for every non-empty text with characters below 256, decompressing the codes gives back the text, and the decoder's final dictionary is the exact inverse of the encoder's |
| `RoundTrip.EmptyRoundTrip` | LZMW.py:15-16 | empty text compresses to the bare empty list, which decompresses to the bare empty string (the decoder's bare `""` is LZMW.py:58-59) |
| `RoundTrip.DeferredOnlyNext` | LZMW.py:70-75 | on the encoder's output, a code unknown to the decoder is always exactly the decoder's `dict_size` |
| `Export.Width` | LZMW.py:223-228 | the export writes 1, 2 or 4 bytes per code (`WidthIsSmallest` proves it is the smallest of these that holds the code) |
| `Export.BigEndian` | LZMW.py:224 | `to_bytes(n, 'big')` writes exactly n bytes |
| `Export.FromBigEndian` | LZMW.py:224 | the value of n big-endian bytes is below 256^n |
| `Export.BigEndianRoundTrip` | LZMW.py:224 | reading back the bytes written gives the value |
| `Export.FromBigEndianRoundTrip` | LZMW.py:224-228 | every n-byte string is the big-endian writing of its value |
| `Export.WidthIsSmallest` | LZMW.py:223-228 | the width is 1, 2 or 4, and it is the smallest of these that holds the code; the code fits its width exactly when it is in 0..2^32-1 |
| `Export.WidthBoundaries` | LZMW.py:223-228 | 255 takes 1 byte, 256 and 65535 take 2, 65536 takes 4; 258 is written as bytes 1, 2 |
| `Export.Packing` | LZMW.py:222-228 | the export succeeds exactly when every code is in 0..2^32-1; otherwise it stops on an offending code from the list |
| `Export.OverflowStops` | LZMW.py:222-228 | after the first code that overflows, later codes change nothing |
| `Export.Export` | LZMW.py:221-228 | the source's loop, writing into a growing buffer, returns exactly `Packing(codes)` |
| `Export.Widths` | LZMW.py:223-228 | one width per code, the one the export used; when the export succeeds they add up to exactly the number of bytes written |
| `Export.UnpackSnoc` | LZMW.py:224-228 | reading back one more field of known width appends its big-endian value to what the front reads to |
| `Export.PackingLast` | LZMW.py:222-228 | when the export succeeds, its bytes are the front's bytes followed by the last code in its own width |
| `Export.ExportRoundTrip` | LZMW.py:221-228 | given the per-code widths, the exported bytes read back to exactly the codes |
| `Stats.StatsWidth` | LZMW.py:103-106 | the statistics charge 1 to 4 bytes per code; for a code in 0..2^32-1 that is the fewest bytes that hold it |
| `Stats.CompressedSize` | LZMW.py:103-106 | the reported size is between 1 and 4 bytes per code |
| `Stats.WidthsCompared` | LZMW.py:103-106 | per code, the reported width never exceeds the exported one; the two differ exactly in 65536..16777215, where they are 3 and 4 |
| `Stats.ReportedVersusExported` | LZMW.py:103-106 | for exportable codes, the reported size is at most the exported size, and equal to it exactly when no code is in 65536..16777215 |
| `Stats.DisputedCode` | LZMW.py:105 | code 65536 is reported as 3 bytes but exported as 4 |
| `Pipeline.CompressAndCheck` | LZMW.py:163-166 | for every non-empty input whose characters are all below 256, compressing and then decompressing gives it back, so the check at LZMW.py:205 succeeds and the `st.error` branch at LZMW.py:207-208 is unreachable; an input with a character of 256 or more raises `KeyError` in the encoder instead |
| `Pipeline.ExportNeverOverflows` | LZMW.py:222-228 | the encoder's codes always export when the text has at most 2^32 − 255 characters |
| `Pipeline.ShortTextSizesAgree` | LZMW.py:103-106 | for a text of at most 65281 characters, the reported size equals the number of exported bytes |

## Left out

- The Streamlit interface (LZMW.py:119-299) is presentation and I/O. This covers the radios, text areas, file upload, the UTF-8 decode at :138, the tabs and the explanation text. Only the compress / decompress / compare sequence is kept, as `Pipeline.CompressAndCheck`.
- The pandas views of the dictionary (LZMW.py:251-263) are left out: they are a foreign library.
- The `io.BytesIO` buffer and `st.download_button` (LZMW.py:221, 230-237) are left out. The buffer is a Dafny `seq<byte>`.
- The compression ratio and the space-saved percentage (LZMW.py:108-109) are left out. They are floating-point and can be `float('inf')`.
- Characters of code 256 or more are excluded by a precondition on the encoder. The model does not produce the `KeyError` they raise.
- Python integers are unbounded, and so are the model's. No code width or dictionary ceiling is imposed: the source has none.
