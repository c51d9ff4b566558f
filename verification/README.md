# Bootloader configuration page codec — a Dafny model

This project models `config.c` of the CAN bootloader. That file stores the bootloader's
configuration record in one flash page and reads it back. A page of N ≥ 4 bytes holds:

- in bytes [0, 4), the CRC-32 of bytes [4, N), most significant byte first;
- in bytes [4, N), the record, written as a MessagePack map of seven named entries.

The model has six modules, one per part of the file:

- `CTypes` (`ctypes.dfy`) holds fixed-width integers and `char` buffers. It also defines `CStr`, the C string a buffer holds (what `strlen` measures and `strcmp` compares).
- `Envelope` (`envelope.dfy`) is the integrity envelope. It defines `config_calculate_crc`, `config_is_valid` and the header step of `config_write`. The CRC-32 primitive is a function-typed parameter, so it stays uninterpreted.
- `UidHex` (`uid.dfy`) renders the 12 unique-ID bytes as hex in `config_SetUID`.
- `Schema` (`schema.dfy`) holds the record `bootloader_config_t`, the wire as MessagePack tokens, and the encoder `config_write_messagepack`.
- `Decoder` (`decoder.dfy`) is `config_update_from_serialized`. It consumes tokens as the C loop does, up to the first failure whose outcome depends on the MessagePack library's cursor.
- `Page` (`page.dfy`) composes the parts into `config_write` and `config_read`.

The wire is a sequence of tokens: `MapHdr(n)`, `Str(s)`, `U8(b)` and `UInt(u)`. Each token is one MessagePack value from the map, str or integer format families. The MessagePack library's byte layer enters the page operations as two parameters:

- `pack` gives the bytes the writer produces for a token sequence;
- `parse` gives the tokens the reader finds in a byte sequence.

The page round trip assumes `parse` undoes `pack` up to how integers are marked (`ReaderInverts`). For values of 128 to 255 the writer emits `U8(b)` and `UInt(b)` as the same bytes, so the reader may return either one. The decoder reads both alike (`UpdateFromSerializedSameValues`).

The decoder follows the code, not an idealised design:

- An unrecognised key is not skipped, and neither is "UID". Only the key is consumed, so its value is read as the next pass's key (`UnrecognisedKeyShiftsEntries`, `UnrecognisedKeyThenNumberOverflows`).
- Errors from the reader are ignored by the loop. The model continues wherever the outcome is determined by the visible code. It stops with `KeyOverflow` where the C code writes outside `key[64]`. That includes a value missing in a pass before the last: the next key read finds nothing (`MissingValueOverflows`). It stops with `ValueReadFailed` where, in a pass before the last, a value is present but the field's reader rejects it: a wrong type, an integer out of range, or a string of 65 or more characters. It stops there because the library's cursor position after a failed read is not modelled. In the last pass nothing more is read: the field keeps its value and the loop ends normally (`LastValueDecidesField`).
- A payload that does not start with a map header leaves the record unchanged, because `key_count` stays 0.
- A text field of the record holds the characters of its buffer. The encoder writes, and the decoder stores, the C string up to the first NUL (`CStr`). This is what `strlen` and `strcmp` see.

## Model

| member | source | states |
|---|---|---|
| CTypes.CStr | config.c:119-121 | the C string of a buffer is its longest NUL-free prefix: either the whole buffer, or the part before the first NUL |
| CTypes.CStrOfTerminatorFree | config.c:75 | a NUL-free text is its own C string, and taking the C string twice changes nothing, so `strlen` of a decoded field is the stored text |
| CTypes.CStrOfTerminated | config.c:32 | a NUL-free text followed by a NUL reads back as exactly that text |
| Envelope.PayloadCrc | config.c:35-38 | the page checksum is the CRC of the `size - 4` bytes that follow the 4-byte header |
| Envelope.PayloadCrcIgnoresHeader | config.c:35-38 | the checksum covers exactly bytes [4, N): pages that agree from byte 4 on have the same checksum, whatever their headers hold |
| Envelope.BeEncode | config.c:61-64 | the header is four bytes that, read most significant first, denote the stored CRC |
| Envelope.BeDecode | config.c:42-47 | the assembled value has the first header byte as its top byte, then the second and third, and the fourth as its low byte |
| Envelope.BeDecodeEncode | config.c:40-64 | unpacking the four header bytes as `config_is_valid` does inverts the packing that `config_write` does |
| Envelope.BeEncodeDecode | config.c:42-47 | packing inverts unpacking: four header bytes are determined by the 32-bit value they denote |
| Envelope.IsValid | config.c:40-49 | a page is valid iff its first four bytes are exactly the big-endian packing of the CRC of bytes [4, N) |
| Envelope.SealHeader | config.c:60-64 | storing the header keeps the length and bytes [4, N), stores the payload CRC most significant byte first, and yields a valid page |
| Envelope.SealHeaderIdempotent | config.c:60-64 | re-sealing a valid page changes nothing, and sealing twice equals sealing once |
| Envelope.HeaderCorruptionDetected | config.c:40-49 | changing any one header byte of a valid page, with the payload unchanged, makes the page invalid |
| Envelope.ZeroPageValidity | config.c:40-49 | an all-zero page is valid exactly when the CRC of an all-zero payload is 0, so erased flash is not invalid by construction |
| UidHex.HexPairs | config.c:27-31 | the output has two characters per byte; character 2i is the digit of the high nibble and 2i+1 the digit of the low nibble; every character is in [0-9a-f] |
| UidHex.RenderUid | config.c:27-32 | 12 ID bytes give 25 characters: 24 lowercase hex digits, high nibble first, then a NUL at index 24 |
| UidHex.UidText | config.c:29-32 | the C string held by the rendered buffer is exactly the 24 hex digits |
| UidHex.ParseHexPairsInverts | config.c:28-31 | the hex rendering loses nothing: parsing the digits back gives the original bytes |
| UidHex.UidTextParses | config.c:28-32 | the UID text read back as hex gives the 12 ID bytes |
| UidHex.UidTextInjective | config.c:28-31 | two devices show the same UID text only if their 12 ID bytes are equal |
| UidHex.SetUid | config.c:27-32 | the byte loop writes two digits per byte and then a NUL, producing exactly the rendered buffer |
| Schema.DeclaredLengthsMatch | config.c:71-89 | every length passed to `cmp_write_str` with a key literal equals the literal's length |
| Schema.KeyToken | config.c:71-89 | writing the first declared-length characters of a key literal writes the whole key |
| Schema.KeysDistinct | config.c:121-145 | the seven key literals are pairwise distinct and contain no NUL |
| Schema.ValueToken | config.c:72-90 | the ID is written as an 8-bit integer, the three text fields as strings, and the counters as unsigned integers; each token carries the field's value, and a text token is the field's C string, so it holds no NUL |
| Schema.Entries | config.c:71-89 | the pairs of a list of fields hold, at position 2i, the key literal of the i-th field and, at 2i+1, its value |
| Schema.EntriesAppend | config.c:69-90 | writing two lists of fields one after the other gives the pairs of the first list followed by the pairs of the second |
| Schema.Encode | config.c:67-91 | the encoding has 15 tokens, and the first is a map header announcing one entry for each of the 7 fields |
| Schema.EncodeLayout | config.c:69-90 | after the header, the keys are ID, name, device_class, application_crc, application_size, update_count, UID in that order, and each is followed by that field's value |
| Schema.WireOrderCoversEveryField | config.c:69-90 | the encoder writes every field of the record exactly once |
| Decoder.KeyTerminatorIndex | config.c:117-119 | the index where the NUL is stored lies outside `key[64]` exactly when the next token is not a string of fewer than 64 characters |
| Decoder.KeyTerminatorOutOfBounds | config.c:111-119 | with the code as written, the NUL lands at index 64 or beyond in `char key[64]` when tokens run out, whenever a non-string stands where a key is expected, and whenever a key has 64 characters or more |
| Decoder.ReadKey | config.c:117-119 | a key read succeeds exactly when the terminator index is inside the 64-byte key buffer; it then consumes one string token of fewer than 64 characters |
| Decoder.ReadUChar | config.c:122 | the ID read succeeds exactly on an 8-bit value or an unsigned value below 256, and yields that value |
| Decoder.ReadUInt32 | config.c:136-144 | a counter read succeeds exactly on an 8-bit value or an unsigned value below 2^32, and yields that value |
| Decoder.ReadText | config.c:126-132 | a text read succeeds exactly on a string of at most 64 characters, leaving room for the NUL in the 65-byte field, and stores its C string |
| Decoder.ReadValue | config.c:122-144 | the ID reader accepts exactly an integer token below 256, the counter readers exactly one below 2^32 and the text readers exactly a string of at most 64 characters; the value read has the field's kind and denotes the token's integer, or is the string's C string |
| Decoder.ReadField | config.c:121-145 | reading a recognised field succeeds exactly when that field's reader accepts the next token; the field then holds the value read, exactly one token is consumed and no other field changes; a failure is blamed on that field |
| Decoder.Lookup | config.c:121-145 | a key selects a field iff its C string equals that field's literal; "UID" and every other name select nothing |
| Decoder.LookupKeyOf | config.c:121-145 | each of the six decoded fields' own literal selects it, and "UID" selects nothing |
| Decoder.Dispatch | config.c:121-145 | the six sequential `if`s, each comparing the same key, behave like a single dispatch on `Lookup`, so at most one value is read per pass |
| Decoder.Select | config.c:121-145 | a dispatch consumes either no value token or exactly one |
| Decoder.Iteration | config.c:116-146 | one iteration succeeds only on a string key and consumes the key plus at most one value |
| Decoder.IterationChangesAtMostOneField | config.c:116-146 | an iteration changes only the field its key selects, and a failed value read is blamed on that field |
| Decoder.DecodeEntries | config.c:114-146 | n passes that all succeed consume at least n tokens and never change `uid` |
| Decoder.RunPasses | config.c:116-146 | a loop of n passes that ends normally had at least n tokens to read, and never changes `uid` |
| Decoder.NothingLeftOverflows | config.c:111-119 | once no token is left, any further pass ends in the key overflow, because the key read fails and `key[64]` is written |
| Decoder.MissingValueOverflows | config.c:111-146 | a recognised key with no token after it, with at least one more pass announced, ends in the key overflow: the value read fails and the next key read finds nothing |
| Decoder.RunPassesSplit | config.c:116-146 | in a loop of n + m passes with m > 0, the first n passes must all succeed; only the last pass can end normally after a failed value read |
| Decoder.UpdateFromSerialized | config.c:108-147 | `uid` is never set from the wire; without a leading map header nothing changes; a map header announcing more entries than tokens remain always ends in an error |
| Decoder.UpdateFromSerializedLoop | config.c:108-147 | the C loop, which counts `key_count` down and runs the six `if`s, computes the functional decoder's result |
| Decoder.AbsentKeyUnchanged | config.c:108-147 | a field whose key appears nowhere in the payload keeps its initial value, and `uid` always keeps its initial value |
| Decoder.LastValueDecidesField | config.c:116-146 | in a map of one entry with a recognised key, a value the field's reader rejects leaves the record unchanged, and an accepted one sets that field alone |
| Decoder.SkipUidKey | config.c:116-146 | the "UID" entry is not recognised, and only its key is consumed |
| Decoder.DecodeEntry | config.c:116-146 | one encoded entry of a decoded field is read back in one iteration, setting that field from the record |
| Decoder.DecodeFields | config.c:116-146 | the encoded entries of any list of decoded fields are read back one per iteration, each setting its field from the record |
| Decoder.DecodeEncode | config.c:67-147 | decoding the encoder's output, whatever follows it, restores ID, name, device_class, application_crc, application_size and update_count; `uid` is untouched; both strings, up to their first NUL, must be at most 64 characters |
| Decoder.UnrecognisedKeyConsumedAlone | config.c:116-146 | a pass on an unrecognised key of fewer than 64 characters consumes the key only and changes nothing |
| Decoder.UnrecognisedKeyShiftsEntries | config.c:116-146 | one more announced entry plus a leading unrecognised key decodes like the payload without both, so the key's value is read as the next key |
| Decoder.UnrecognisedKeyThenNumberOverflows | config.c:116-146 | an unrecognised key followed by any non-string, with at least one more pass to come, ends in the key overflow |
| Decoder.IterationSameValues | config.c:122-144 | a pass reads an 8-bit integer and the same unsigned integer alike: on tokens denoting the same values it fails alike or succeeds alike |
| Decoder.UpdateFromSerializedSameValues | config.c:108-147 | decoding depends only on the values the tokens denote, not on how integers are marked |
| Page.StorePayload | config.c:57-58 | the writer touches only bytes [4, N); when its output fits, the payload region starts with that output and the rest of the buffer is kept |
| Page.ConfigWrite | config.c:51-65 | a written page keeps the buffer's length, is valid for any record, holds the big-endian CRC of [4, N) in [0, 4), and starts its payload with the encoding when that fits |
| Page.ConfigRead | config.c:93-106 | reading decodes only bytes [4, N) and succeeds iff decoding does; the result's `uid` is always the rendering of the hardware ID bytes, and the other fields are those decoded |
| Page.ConfigReadIgnoresHeader | config.c:100 | reading depends only on the payload region, never on the stored CRC |
| Page.WrittenPageIsValid | config.c:51-65 | the validity check accepts every page `config_write` has just produced |
| Page.ReadEncodedPayload | config.c:93-106 | a page whose payload region starts with the encoding of a record reads back as that record, with `uid` replaced by the hardware rendering, whatever the header and the bytes after the encoding hold |
| Page.WriteThenRead | config.c:51-106 | a written page is valid, and reading it back gives every encoded field of the record, with `uid` replaced by the hardware rendering, when the reader returns the values the writer wrote |
| Page.WriteThenReadExact | config.c:51-106 | for a record with NUL-free strings of at most 64 characters, the page round trip is exact except for `uid` |

## Left out

- The hardware unique-ID read at `UID_BASE` (config.c:6-25) is memory-mapped hardware. The union aliasing of three native-order words to 12 bytes is part of it. The 12 bytes are an input (`uidBytes`).
- The CRC-32 algorithm of `crc32` is not part of this model. It is the parameter `crc`. For this reason the model does not prove that every single-bit error in the payload is detected; only header corruption is covered.
- The MessagePack library (`cmp`, `cmp_mem_access`) is not part of this model. The byte format, the cursor, and the writer's and reader's error codes are absent. Tokens stand for values, and `pack` and `parse` stand for the byte layer.
- Decoder.ReadField: it does not say where the reader's cursor is after a value that is present but rejected: a wrong type, an integer out of range, or a string of 65 or more characters. In a pass before the last, the model stops with `ValueReadFailed` there, while the C loop goes on from a position decided by the library.
- Decoder.RunPasses: after a failed value read in the last pass, it keeps the field's earlier value. This assumes of every reader, `cmp_read_str` included, that it writes nothing to its destination when it fails; the library's readers are not part of this model.
- Decoder.ReadUChar: it assumes the library accepts exactly the 8-bit and small-unsigned encodings for `cmp_read_uchar`. Decoder.ReadUInt32 assumes the same for unsigned values that fit 32 bits.
- Page.StorePayload: when the encoding does not fit the page, it writes the longest prefix that fits. The library instead refuses each write that does not fit, and a later smaller write may still succeed. The model's claims about an overflowing write are therefore about this approximation. Validity after writing does not depend on it.
- Page.ConfigRead: the C local `result` is uninitialised (config.c:95). The model replaces it with a caller-chosen `init`. The "unchanged" property is stated on `UpdateFromSerialized` instead.
- Page.ConfigRead: on a decode error the model returns the error, and the C code still renders the UID. A key overflow has then written outside `key[64]`, which is undefined behaviour. A value that is present but rejected (a wrong type, an integer out of range, or a string of 65 or more characters) before the last pass leaves the loop to go on from a cursor position the library decides.
- Page.ReadEncodedPayload: it assumes `ReaderInverts`, that the reader returns tokens denoting the values the writer wrote. This is a property of the library's byte format, which is not part of this model. Page.WriteThenRead and Page.WriteThenReadExact rest on the same assumption.
- `config_is_valid` shifts `p[0] << 24` on a promoted `int` (config.c:44). That shift overflows for bytes ≥ 0x80. The model uses natural-number arithmetic, which is the evident meaning.
- The layout of `bootloader_config_t` (config.h) is not part of this model. `ID` is taken as 8-bit and the three counters as 32-bit, as the reads imply. A text field is taken to hold the characters of its buffer, of any length. The 65-byte bound shows where the decoder stores a string, and the round trip requires each string, up to its first NUL, to fit it.
- Flash erase and programming, the command line, and boot decisions are outside this file.

## Findings

| source | as written | input that shows it | evidently intended | confidence | as-written member | corrected member |
|---|---|---|---|---|---|---|
| config.c:111-119 | `key_len` is reset to `sizeof key` (64), and `key[key_len] = 0` runs whether or not the read succeeded. A failed read leaves `key_len` at 64, and an over-long string sets it to the string's length. | a map header announcing more entries than remain (the read fails, so `key[64]` is written); a number where a key is expected; a 64-character key | a key that does not fit `key[64]`, or a failed key read, ends decoding with an error and writes nothing outside the buffer | high for the failed-read case, medium for the over-long key (it depends on `cmp_read_str` reporting the string's length); not executed | Decoder.KeyTerminatorOutOfBounds | Decoder.ReadKey |
