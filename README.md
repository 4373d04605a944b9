# Predictive payload codec

A Dafny model of the predictive payload codec, which exists in two implementations: Python (`Compression.payload_compression`, `Decompression.payload_decompression`) and C# (`Compression.PayloadCompression`, `Decompression.PayloadDecompression`).

The encoder scans a text payload from position 2 on. It hashes the two preceding characters with a djb2-style hash reduced to 16 bits. It then looks that hash up in a 65536-slot guess table whose slots all start as `' '`.
- A hit sets the position's flag bit.
- A miss appends the character to the leftovers, which start as the first two characters, and stores the character in the slot.

The frame is `[leftover count][leftover bytes][flag bitmap packed into bytes]`. The decoder replays the same table in lock-step against the text it has rebuilt so far. It stops at a clear flag once the leftovers run out, which is how the padding bits are dropped.

The model has these parts:
- `results.dfy`: the exceptions each implementation raises, as a `Result`.
- `text.dfy`: characters as code points. `Char16` is a C# `char`. It also has the byte/character conversions.
- `context_hash.dfy`: the hash.
  - Python reduces modulo 65536 once; C# reduces after each step. The contract of the C# hash states that the two agree.
  - The predictor takes the hash as a `Hasher` parameter, so it serves both implementations.
- `bit_packing.dfy`: packing and unpacking of the flag bitmap.
  - Python's `bitarray` packs most significant bit first.
  - C#'s `ConvertToByteArray` and `BitArray(byte[])` pack least significant bit first.
- `predictor.dfy`: the shared model, as functions.
  - `Scan` is the encoder's state after each position: table, flags and leftovers.
  - `Replay` and `Decode` are the decoder's loop.
  - The lemmas relate them, ending in `DecodeInvertsScan`.
- `python_compression.dfy`, `python_decompression.dfy`, `csharp_compression.dfy`, `csharp_decompression.dfy`: one module per source file.
  - Each has a function stating what the call returns or raises (`Compress`, `Decompress`).
  - Each also has imperative methods that follow the source's loops over arrays (the guess table and the bitmap). Each method is proved to compute that function.

The model follows the code wherever it differs from the codec's documented design:
- **Table default.** The table starts with `' '` in every slot, not "unset". A space after a fresh context is therefore a hit.
- **Leftover bytes.** The decoder takes the leftovers from bytes `1 .. count` inclusive.
- **Overflow.**
  - There is no dedicated overflow error.
  - Python raises `ValueError` from `bytearray` when the count or a leftover is above 255.
  - C# wraps both the count and the leftovers modulo 256; see Findings.
- **Corrupt frames.** There is no corrupt-frame error. A set flag always appends whatever the slot holds.
- **Character range.**
  - Characters are not limited to single bytes. Python characters are code points and C# characters are UTF-16 code units.
  - The byte limits show up as the error paths above.

## Model

| member | source | states |
|---|---|---|
| ContextHash.Hash | Python/PayloadCompression/Compression.py:20-36 | Python's `__hash_function` (the same in Decompression.py:20-37), reduced once modulo 65536; its `Slot` type gives the range. The two djb2 steps stay below 2^21 and 2^27, so computing them in 32 bits gives the values of Python's unbounded integers and of C#'s `ulong` |
| ContextHash.StepwiseHash | PredictorPayloadCompression/PayloadCompression/Compression.cs:9-16 | C#'s `HashFunction` (the same in Decompression.cs:9-17): reducing modulo 65536 after each step picks the same slot as Python's single reduction at the end, for every pair of characters |
| ContextHash.AaaabbbbContextsDiffer | PredictorPayloadCompression/PayloadCompression.Tests/PayloadCompression.Tests.cs:6 | the contexts "aa", "ab" and "bb" hash to three different slots |
| Text.Codes | Python/PayloadCompression/Decompression.py:58 | reading bytes as characters (`chr`, `Convert.ToChar`) keeps the length and yields only characters below 256 |
| Text.Bytes | Python/PayloadCompression/Compression.py:60 | writing characters below 256 as bytes (`ord` into a `bytearray`) and reading them back gives the characters |
| Text.BytesOfCodes | Python/PayloadCompression/Decompression.py:93 | reading bytes as characters and writing them back gives the bytes |
| BitPacking.Pack | PredictorPayloadCompression/PayloadCompression/Compression.cs:20-21 | the bitmap packs into `(n + 7) / 8` bytes |
| BitPacking.Unpack | PredictorPayloadCompression/PayloadDecompression/Decompression.cs:44-49 | unpacking yields eight flags per byte |
| BitPacking.PackByteBit | PredictorPayloadCompression/PayloadCompression/Compression.cs:27-30 | bit k of a packed byte is set exactly when the k-th bit of its chunk is, and padding bits are clear |
| BitPacking.PackByteClear | PredictorPayloadCompression/PayloadCompression/Compression.cs:21 | a run of clear bits packs to a zero byte |
| BitPacking.UnpackPack | PredictorPayloadCompression/PayloadDecompression/Decompression.cs:49 | unpacking what was packed, in the same order, gives the bits back followed by fewer than eight clear padding bits |
| BitPacking.PackPrefixStep | PredictorPayloadCompression/PayloadCompression/Compression.cs:27-30 | ORing bit i into byte i / 8 under its mask turns the packed prefix of i bits into the packed prefix of i + 1 bits, leaving every other byte alone |
| BitPacking.OrIn | PredictorPayloadCompression/PayloadCompression/Compression.cs:25-38 | the OR loop of `ConvertToByteArray` as a function of how many bits were visited: a buffer of `(n + 7) / 8` bytes, each set bit k ORing its mask into byte k / 8 |
| BitPacking.OrInPacksPrefix | PredictorPayloadCompression/PayloadCompression/Compression.cs:25-38 | after i iterations of the OR loop the buffer holds the first i bits packed, and the bytes not yet reached are zero |
| BitPacking.OrInPacks | PredictorPayloadCompression/PayloadCompression/Compression.cs:18-41 | ORing in every bit one at a time packs the bitmap |
| BitPacking.PackAaaabbbbFlags | PredictorPayloadCompression/PayloadCompression.Tests/PayloadCompression.Tests.cs:6 | the flags of "aaaabbbb" pack to 0b10001000 least significant bit first and to 0b00010001 most significant bit first |
| Predictor.Scan | Python/PayloadCompression/Compression.py:119-127 | the encoder's state after the loop has visited positions 2 .. i-1, one pass of the loop body per position: the table keeps its 65536 slots and there are exactly i flags |
| Predictor.ScanNext | Python/PayloadCompression/Compression.py:123-127 | a hit appends a set flag and changes nothing else; a miss appends a clear flag and the character to the leftovers, and writes the character into the context's slot |
| Predictor.ScanPrefix | Python/PayloadCompression/Compression.py:119-127 | scanning further only appends: earlier flags and leftovers stay as they were |
| Predictor.FlagsMarkHits | Python/PayloadCompression/Compression.py:82-83 | flags 0 and 1 are clear, and flag i is set exactly when the table held s[i] in its context's slot at step i |
| Predictor.StepWritesContextSlot | PredictorPayloadCompression/PayloadCompression/Compression.cs:65-70 | a step writes only the slot of the current context, and only on a miss |
| Predictor.LeftoversAreMisses | Python/PayloadCompression/Compression.py:86 | the leftovers are s[0], s[1] and then exactly the characters whose flag is clear, in order; so there are no more of them than characters |
| Predictor.ScanDraws | Python/PayloadCompression/Compression.py:88 | every slot holds `' '` or a leftover, every scanned character is `' '` or a leftover, and every leftover occurs in the payload |
| Predictor.FreshSlot | Python/PayloadCompression/Compression.py:88 | a slot that no context scanned so far hashes to still holds `' '` |
| Predictor.SpaceAfterFreshContext | PredictorPayloadCompression/PayloadCompression.Tests/PayloadCompression.Tests.cs:10-23 | where a context's slot was never written, the position is a hit exactly when it holds a space (the space of "Hello World" is left out) |
| Predictor.DistinctAllMiss | Python/PayloadCompression/Compression.py:123-127 | in a payload with no repeated character and no space every position misses, so the leftovers are the whole prefix |
| Predictor.ScanAaaabbbb | PredictorPayloadCompression/PayloadCompression.Tests/PayloadCompression.Tests.cs:6 | under any hash that separates its contexts, "aaaabbbb" scans to hits at positions 3 and 7 and the leftovers "aaabbb" |
| Predictor.Replay | Python/PayloadCompression/Decompression.py:97-112 | the decoder's loop (also Decompression.cs:53-71) from the current output on: it only appends to the output, at most one character per flag, so padding beyond the flags is never emitted |
| Predictor.Decode | Python/PayloadCompression/Decompression.py:95-112 | decoding seeds the output with the first two leftovers, a fresh table and the cursor at 2; the text starts with those two leftovers and is no longer than the flags (or two) |
| Predictor.ReplayStep | Python/PayloadCompression/Decompression.py:102-108 | a set flag appends the slot's guess and keeps the table and cursor; a clear flag with a leftover left appends it, stores it in the slot and advances the cursor |
| Predictor.ReplayAllMisses | Python/PayloadCompression/Decompression.py:104-110 | with every remaining flag clear, the decoder copies out the remaining leftovers and stops |
| Predictor.ReplayAdvances | Python/PayloadCompression/Decompression.py:98-108 | from the encoder's table, cursor and output `s[..i]` at step i, one decoder round reaches the encoder's state and `s[..i + 1]` |
| Predictor.ReplayFollowsScan | Python/PayloadCompression/Decompression.py:97-112 | the lock-step invariant: with the output equal to `s[..i]`, the same table and the cursor at the number of leftovers emitted, the replay rebuilds s |
| Predictor.DecodeInvertsScan | Python/PayloadCompression/Decompression.py:95-112 | decoding the encoder's leftovers against its flags, plus any clear padding flags, gives the payload back |
| PythonCompression.AsciiEncode | Python/PayloadCompression/Compression.py:114-115 | the short path succeeds exactly when every character is ASCII, with bytes that read back as the string; otherwise UnicodeEncodeError |
| PythonCompression.MergeBitArrayLeftovers | Python/PayloadCompression/Compression.py:39-63 | the frame is the count, the leftovers' codes and the bitmap packed most significant bit first; ValueError exactly when the count or a code exceeds 255 |
| PythonCompression.Compress | Python/PayloadCompression/Compression.py:93-129 | what `payload_compression` returns or raises: "" raises ValueError, a short string can fail only with UnicodeEncodeError and a longer one only with ValueError; a short string's bytes are as many as its characters, and no frame of n characters is longer than 1 + n + (n + 7) / 8 bytes |
| PythonCompression.InitArrays | Python/PayloadCompression/Compression.py:66-90 | an all-clear bitmap of len(S) bits, the first (at most two) characters as leftovers, and a table of 65536 spaces |
| PythonCompression.ScanPosition | Python/PayloadCompression/Compression.py:120-127 | one pass of the loop takes the bitmap, leftovers and table from the scan state at i to the scan state at i + 1 |
| PythonCompression.ScanLoop | Python/PayloadCompression/Compression.py:119-127 | from the seeded leftovers, an all-clear bitmap and a table of spaces, the loop leaves the bitmap, leftovers and table of the full scan |
| PythonCompression.PayloadCompression | Python/PayloadCompression/Compression.py:93-129 | the method, with its scan loop over the bitmap and table arrays, returns or raises what `Compress` specifies |
| PythonCompression.CompressSucceeds | Python/PayloadCompression/Compression.py:111-129 | the encoder fails exactly on the empty string, on a short non-ASCII string, and on a longer string with a code above 255 or more than 255 leftovers |
| PythonCompression.ShortPath | Python/PayloadCompression/Compression.py:111-115 | the empty string raises ValueError; one or two ASCII characters come back as their raw bytes, with no header |
| PythonCompression.CompressesAaaabbbb | Python/PayloadCompression/Compression.py:56-63 | "aaaabbbb" gives the same leftovers and flags as in C#, but the flag byte is 0b00010001, so the two frame formats differ |
| PythonDecompression.AsciiDecode | Python/PayloadCompression/Decompression.py:92-93 | a short frame decodes to its bytes as characters exactly when every byte is ASCII; otherwise UnicodeDecodeError |
| PythonDecompression.LeftoversEnd | Python/PayloadCompression/Decompression.py:57-58 | the leftovers end at `count + 1`, clamped to the frame as Python's slice is |
| PythonDecompression.SeedLength | Python/PayloadCompression/Decompression.py:60-61 | `get_length(leftovers_length)`: 2, or 1 when the count byte is 0 |
| PythonDecompression.Decompress | Python/PayloadCompression/Decompression.py:71-112 | what `payload_decompression` returns or raises: ValueError exactly for the empty frame, otherwise UnicodeDecodeError or IndexError only; a short frame reads back byte for byte; a longer one yields text that starts with its first two leftover bytes and has at most one character per flag bit (or two) |
| PythonDecompression.InitArrays | Python/PayloadCompression/Decompression.py:40-68 | the leftovers are the bytes after the count and the flags are the remaining bytes unpacked most significant bit first; the table holds 65536 spaces; seeding fails when fewer leftovers exist than the seed needs |
| PythonDecompression.RebuildText | Python/PayloadCompression/Decompression.py:97-110 | the decoding loop over the table array computes `Decode` |
| PythonDecompression.PayloadDecompression | Python/PayloadCompression/Decompression.py:71-112 | the method returns or raises what `Decompress` specifies |
| PythonDecompression.ShortCountRejected | Python/PayloadCompression/Decompression.py:57-61 | a frame of three or more bytes raises IndexError exactly when its count byte is 0 or 1 |
| PythonDecompression.RoundTrip | Python/PayloadCompression/Decompression.py:71-112 | every frame `payload_compression` returns decodes to the string it came from |
| CSharpCompression.WrapByte | PredictorPayloadCompression/PayloadCompression/Compression.cs:77-79 | the unchecked `(byte)` cast keeps the value modulo 256 |
| CSharpCompression.Frame | PredictorPayloadCompression/PayloadCompression/Compression.cs:74-85 | the frame has `1 + count + (n + 7) / 8` bytes: the count modulo 256, each leftover modulo 256, then the bitmap packed least significant bit first |
| CSharpCompression.FrameFits | PredictorPayloadCompression/PayloadCompression/Compression.cs:77-83 | with fewer than 256 leftovers, all below U+0100, the frame reads back as the count, the leftovers and the packed bits |
| CSharpCompression.Compress | PredictorPayloadCompression/PayloadCompression/Compression.cs:43-86 | what `PayloadCompression` returns or throws: it fails exactly for strings shorter than two characters (ArgumentException for "", IndexOutOfRangeException for one character), and no frame of n characters is longer than 1 + n + (n + 7) / 8 bytes |
| CSharpCompression.ConvertToByteArray | PredictorPayloadCompression/PayloadCompression/Compression.cs:18-41 | the OR loop with its bit and byte counters returns the bitmap packed least significant bit first |
| CSharpCompression.AssembleFrame | PredictorPayloadCompression/PayloadCompression/Compression.cs:74-85 | appending the count, the leftovers and the packed bits yields the frame |
| CSharpCompression.FillWithSpaces | PredictorPayloadCompression/PayloadCompression/Compression.cs:58-61 | every slot of the table becomes a space |
| CSharpCompression.ScanPosition | PredictorPayloadCompression/PayloadCompression/Compression.cs:63-71 | one pass of the loop takes the bitmap, leftovers and table from the scan state at i to the scan state at i + 1 |
| CSharpCompression.ScanLoop | PredictorPayloadCompression/PayloadCompression/Compression.cs:63-71 | from the seeded leftovers, an all-clear bitmap and a table of spaces, the loop leaves the bitmap, leftovers and table of the full scan |
| CSharpCompression.PayloadCompression | PredictorPayloadCompression/PayloadCompression/Compression.cs:43-86 | the method returns or throws what `Compress` specifies: ArgumentException for "", IndexOutOfRangeException for one character, otherwise the frame |
| CSharpCompression.CheckedCompress | PredictorPayloadCompression/PayloadCompression/Compression.cs:77-79 | the corrected encoder succeeds exactly when the original does with at most 255 leftovers, all below U+0100, and then returns the same frame; where the original succeeds but would wrap a byte, it throws OverflowException |
| CSharpCompression.TwoCharFrame | PredictorPayloadCompression/PayloadCompression/Compression.cs:55-56 | there is no short path: two characters give the four-byte frame {2, c0, c1, 0} |
| CSharpCompression.CompressesAaaabbbb | PredictorPayloadCompression/PayloadCompression.Tests/PayloadCompression.Tests.cs:6 | "aaaabbbb" compresses to the leftovers "aaabbb" and the flag byte 0b10001000 |
| CSharpDecompression.Decompress | PredictorPayloadCompression/PayloadDecompression/Decompression.cs:37-74 | what `PayloadDecompression` returns or throws: IndexOutOfRangeException exactly for the empty frame, OverflowException exactly when the count exceeds the rest of the frame; a decoded text starts with the first two leftover bytes and has at most one character per flag bit (or two) |
| CSharpDecompression.InitializeArrays | PredictorPayloadCompression/PayloadDecompression/Decompression.cs:19-35 | every leftover byte becomes a character and every slot a space; the output is seeded with two leftovers, and seeding fails when there are fewer |
| CSharpDecompression.RebuildText | PredictorPayloadCompression/PayloadDecompression/Decompression.cs:53-71 | the decoding loop over the table array computes `Decode` |
| CSharpDecompression.PayloadDecompression | PredictorPayloadCompression/PayloadDecompression/Decompression.cs:37-74 | the method returns or throws what `Decompress` specifies. An empty frame gives IndexOutOfRangeException. A count beyond the frame gives OverflowException. Fewer than two leftovers give ArgumentOutOfRangeException. |
| CSharpDecompression.DecompressFrame | PredictorPayloadCompression/PayloadDecompression/Decompression.cs:39-51 | a frame whose count and leftovers fit in a byte parses back into those leftovers and the bitmap, padded to whole bytes |
| CSharpDecompression.RoundTrip | PredictorPayloadCompression/PayloadDecompression/Decompression.cs:37-74 | with at most 255 leftovers, all below U+0100, every frame `PayloadCompression` returns decodes to the string it came from |
| CSharpDecompression.WrappedCountRejected | PredictorPayloadCompression/PayloadDecompression/Decompression.cs:31-34 | a frame whose count wrapped to 0 or 1 is rejected with ArgumentOutOfRangeException |
| CSharpDecompression.DistinctCountWraps | PredictorPayloadCompression/PayloadCompression/Compression.cs:77 | 256 (or 257, 512, ...) distinct non-space characters compress to a frame the decoder rejects |
| CSharpDecompression.CountWraps | PredictorPayloadCompression/PayloadCompression/Compression.cs:77 | U+0100 .. U+01FF compresses, but its frame is rejected instead of decoded |
| CSharpDecompression.CheckedRoundTrip | PredictorPayloadCompression/PayloadDecompression/Decompression.cs:37-74 | with checked casts, every frame the encoder produces decodes to the string it came from |
| CSharpDecompression.CheckedRefusesWrap | PredictorPayloadCompression/PayloadCompression/Compression.cs:77 | the checked encoder throws OverflowException on more than 255 distinct non-space characters |
| CSharpDecompression.CharWrapsFrame | PredictorPayloadCompression/PayloadCompression/Compression.cs:78-80 | "abĀ" compresses to {3, 97, 98, 0, 0}: U+0100 is written as byte 0 |
| CSharpDecompression.AllMissFrame | PredictorPayloadCompression/PayloadDecompression/Decompression.cs:53-71 | a frame whose flag bytes are all zero, with a flag for every leftover, decodes to its leftovers |
| CSharpDecompression.CharWraps | PredictorPayloadCompression/PayloadCompression/Compression.cs:78-80 | that frame decodes to "ab" followed by U+0000 |
| CSharpDecompression.CheckedRefusesWideChar | PredictorPayloadCompression/PayloadCompression/Compression.cs:78-80 | the checked encoder throws OverflowException on "abĀ" |
| CSharpDecompression.DecompressesAaaabbbb | PredictorPayloadCompression/PayloadDecompression.Tests/PayloadDecompression.Tests.cs:6 | the frame of "aaaabbbb" decodes to "aaaabbbb" |

## Findings

| source | as written | input that shows it | evidently intended | confidence | as-written member | corrected member |
|---|---|---|---|---|---|---|
| PredictorPayloadCompression/PayloadCompression/Compression.cs:77 | `(byte)leftovers.Count` wraps the leftover count modulo 256 | U+0100 .. U+01FF: 256 leftovers, the count is written as 0, and the decoder throws ArgumentOutOfRangeException | refuse such a payload, as the Python encoder does, rather than emit a frame that cannot be decoded | high, proved; not executed | CSharpDecompression.CountWraps | CSharpDecompression.CheckedRoundTrip |
| PredictorPayloadCompression/PayloadCompression/Compression.cs:79 | `(byte)c` keeps only the low byte of a leftover | "abĀ" (U+0100 is a leftover) decodes to "ab" followed by U+0000 | refuse a leftover above U+00FF rather than change it silently | high, proved; not executed | CSharpDecompression.CharWraps | CSharpDecompression.CheckedRefusesWideChar |

## Left out

- Sockets, the observer classes, the entry points and the `__init__.py` re-exports: these are I/O and wiring around the codec, not part of it.
- The `bitarray`, `BitArray`, `List` and `StringBuilder` internals: packing and unpacking are modelled directly as functions over bit sequences in each order.
- ASCII and Unicode codec internals: `str(..., encoding="ASCII")` and `bytearray(S, encoding="ASCII")` are modelled by their outcome only (success exactly when every code is below 128).
- A C# `null` string or frame: the model's inputs are always values.
- Partial state left behind by an exception: each modelled call either returns its result or reports the exception, so half-filled lists and tables are not observable.
- PythonCompression.PayloadCompression, CSharpCompression.PayloadCompression and CSharpDecompression.PayloadDecompression: parts of these long methods are proved as separate helper methods. The parts are the table fill, the scan loop and one pass of it, the frame assembly, and the rebuild loop. The helpers run in the original order on the same arrays.
- PythonDecompression.RebuildText: the decoding loop of `payload_decompression` is the same kind of helper, for the same reason.
- PythonCompression.InitArrays and PythonDecompression.InitArrays build their lists as whole sequences rather than element by element. Python's list comprehensions are not loops the model needs to step through.
- The test vectors other than "aaaabbbb" (plus the two-character frame) are not restated as lemmas. Each extra vector needs a long step-by-step scan proof, and the general lemmas cover the behaviour they test.
