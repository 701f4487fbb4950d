# Dark Souls parameter tables, in Dafny

This project models the table decoders of `DarkSoulsParameterEditor.py`.
The editor reads a raw memory dump of the game as one byte string and
recovers two kinds of table from it:

- **String tables** (`make_strings`). The decoder finds the first occurrence
  of a 12-byte marker and reads a block count 12 bytes after it. Each
  12-byte index block from marker + 28 contributes the inclusive ID range
  `startId ..= endId`. After the blocks comes one 4-byte offset per ID,
  relative to the marker. Each string is the UTF-16LE code units stored at
  marker + offset, up to the first zero unit among the first `MAX_LEN`.
  The editor then turns the result into an ID → name dictionary.
- **The weapon parameter table** (`make_weapons`). The decoder finds the
  UTF-16LE text `EquipParamWeapon`. It reads a 16-bit record count 74 bytes
  after it, then `count` index triples `(id, structOffset, aux)` from
  anchor + 112. Then come `count` packed records of the parameter struct's
  size.
- **Two integer helpers**: `divceil` (ceiling division written as a negated
  floor division) and `hex_length` (the number of hexadecimal digits of an
  integer).

Files and modules:

- `bytes.dfy` (`Bytes`): the byte-level behaviour of Python that the
  decoders rely on.
  - Clipping slices (`Slice`).
  - `int.from_bytes(..., 'little')` (`LeUint`) and its inverse `LeBytes`.
  - `bytes.find` (`Find`), which returns the least match or -1.
  - UTF-16LE code units (`Units`) and the encoder `EncodeUtf16Le`.
- `string_tables.dfy` (`StringTables`): `make_strings` and the name
  dictionary.
  - `MakeStrings` and its loops (`ExpandBlocks`, `ReadOffsets`,
    `DecodeText`, `DecodeTexts`) are methods. Each is proved equal to a
    specification function: `StringTable`, `DeclaredIds`, `Offsets`, `Text`
    and `Texts`.
  - Lemmas state what those functions mean.
  - A worked example decodes a small sample dump.
- `weapon_params.dfy` (`WeaponParams`): `make_weapons`.
  - `MakeWeapons` and its loops (`ReadTriples`, `ReadRecords`) are proved
    equal to `WeaponTable`, `Triples` and `Records`.
- `numeric.dfy` (`Numeric`): `divceil` and `hex_length`.
- `results.dfy` (`Results`): the `Result` and `Option` datatypes.

The exceptions the Python code raises become `Failure` values:

| Python | model |
|---|---|
| `ValueError('Header not found.')` | `HeaderNotFound` |
| `struct.error` on a short index block | `TruncatedIndexBlock` |
| `UnicodeDecodeError` on an odd byte count | `UndecodableText` |
| `ValueError('Weapon params not found.')` | `AnchorNotFound` |
| `struct.error` on a short triple | `TruncatedIndex` |
| `UnboundLocalError` when the count is 0 | `EmptyTable` |
| `ValueError` from `from_buffer_copy` on a short record | `TruncatedRecord` |

Python's slicing is modelled exactly. A read that runs past the end of the
dump yields a short or empty slice rather than an error. So a code unit
with no bytes left reads as 0 and ends a string, and a 4-byte offset read
near the end is a short value.

Behaviour of the code worth noting:

- A string with no zero unit among the first `MAX_LEN` is only its first
  code unit, because `end` stays `s + 2`.
- A weapon table whose count is 0 raises, because the loop variable `i` is
  never bound before line 211.
- A truncated table raises and ends the decoder.
- The weapon count is at anchor + 74 and the triples start at
  anchor + 112.

## Model

| member | source | states |
|---|---|---|
| StringTables.MakeStrings | DarkSoulsParameterEditor.py:220-243 | `make_strings` returns the table or raises the error that `StringTable` defines. `maxLen` defaults to 64, as `MAX_LEN=64` does. The lemmas below give the meaning of that function. |
| StringTables.ExpandBlocks | DarkSoulsParameterEditor.py:224-230 | The block loop yields the concatenated inclusive ID ranges of the `BlockCount` blocks at marker + 28. It yields None exactly when a block has fewer than 12 bytes left. |
| StringTables.ReadOffsets | DarkSoulsParameterEditor.py:231-233 | The offset loop reads exactly one little-endian 4-byte offset per ID, contiguously from `OffsetsStart`. Offset `k` is `OffsetAt(k)`. |
| StringTables.DecodeText | DarkSoulsParameterEditor.py:236-242 | The terminator scan and the decode give `Text`: the units before the first zero among the first `maxLen`, otherwise the first unit alone. The result is None when the byte slice has odd length. |
| StringTables.DecodeTexts | DarkSoulsParameterEditor.py:234-242 | The string loop gives the string at marker + offset for each offset, in order. It gives None when the codec rejects any of them. |
| StringTables.StringTableHeaderFailures | DarkSoulsParameterEditor.py:221-229 | The decoder raises "Header not found" exactly when the marker is absent. It fails on the block table exactly when the marker is present and the last declared block is cut off. |
| StringTables.StringTableUndecodable | DarkSoulsParameterEditor.py:234-242 | The decoder fails in the codec exactly when the header is sound and the string of some declared ID is rejected. |
| StringTables.TextsNoneIff | DarkSoulsParameterEditor.py:234-242 | The string loop gives up exactly when some offset's string is rejected. |
| StringTables.StringTableEntries | DarkSoulsParameterEditor.py:224-243 | A returned table has one entry per declared ID. The count is the sum over the blocks of `max(0, endId - startId + 1)`. Entry `k` is (ID `k`, offset `k`, the string at marker + offset `k`). |
| StringTables.ZipDecoded | DarkSoulsParameterEditor.py:243 | Zipping the IDs with their offsets and decoded strings satisfies the entry-by-entry description `EntriesFor`. |
| StringTables.BlocksInBoundsIffEachFits | DarkSoulsParameterEditor.py:227-229 | Every one of the `BlockCount` blocks fits in the dump exactly when the offset array starts inside it. |
| StringTables.ExpandIdsCount | DarkSoulsParameterEditor.py:228-230 | The number of IDs is the sum over the blocks of the inclusive range sizes. An inverted range contributes none. |
| StringTables.ExpandIdsAt | DarkSoulsParameterEditor.py:228-230 | The IDs are in block order, then in ascending order within a block. The `t`-th ID of block `j` sits right after the IDs of the earlier blocks. |
| StringTables.IdRangeMembership | DarkSoulsParameterEditor.py:230 | `range(st_ID, end_ID + 1)` holds exactly the IDs between the two, inclusive. |
| StringTables.ExpandIdsMembership | DarkSoulsParameterEditor.py:228-230 | An ID is declared exactly when some block's inclusive range holds it. The block's first field plays no part. |
| StringTables.FirstZeroUnit | DarkSoulsParameterEditor.py:238-241 | The scan finds the first zero code unit in its window, with none before it. It gives -1 only when the window holds no zero. |
| StringTables.TextLength | DarkSoulsParameterEditor.py:236-242 | A decoded string is never longer than `max(1, MAX_LEN - 1)` code units. |
| StringTables.TextFromDump | DarkSoulsParameterEditor.py:236-242 | Unit `i` of a decoded string is the little-endian unit stored at `s + 2i`. When the scan looked at one unit or more, no unit of the string is zero. |
| StringTables.TextEmptyIffFirstUnitZero | DarkSoulsParameterEditor.py:237-242 | With `MAX_LEN >= 1` and two bytes at `s`, the string is empty exactly when its first unit is zero. |
| StringTables.TextTerminated | DarkSoulsParameterEditor.py:238-242 | A first zero unit at `j < MAX_LEN` gives a string of exactly `j` units. |
| StringTables.TextUnterminated | DarkSoulsParameterEditor.py:237-242 | With no zero among the first `MAX_LEN` units, the string is the first code unit alone. |
| StringTables.NameTableKeys | DarkSoulsParameterEditor.py:95 | The keys of `NameTable(entries)`, the model of `{k: v for (k, o, v) in entries}`, are exactly the entries' IDs. |
| StringTables.NameTableLastWins | DarkSoulsParameterEditor.py:95 | In `NameTable(entries)`, a repeated ID maps to the string of its last occurrence. |
| StringTables.SampleTable | DarkSoulsParameterEditor.py:94-95 | On a 58-byte sample dump the item-name marker yields one block `(0, 5, 6)`, offsets 48 and 54, and entries `(5, 48, "AB")` and `(6, 54, "C")`. The name dictionary built from them maps 5 to "AB" and 6 to "C". |
| StringTables.SampleText | DarkSoulsParameterEditor.py:236-242 | Units stored from `s` that are nonzero and followed by a zero unit within the scan decode to exactly those units. |
| Bytes.Find | DarkSoulsParameterEditor.py:221 | `memory.find` gives the least index where the pattern occurs, or -1 exactly when it occurs nowhere. |
| Bytes.FindFrom | DarkSoulsParameterEditor.py:221 | The search from `from` gives the least match at or after `from`, or -1 when there is none. |
| Bytes.Slice | DarkSoulsParameterEditor.py:224 | `m[a:b]` clips at the end of the dump. Its length is `min(b, len) - a`, or 0, and its bytes are those of the dump. |
| Bytes.LeUintBound | DarkSoulsParameterEditor.py:224 | `int.from_bytes` of `n` bytes is below `256^n`. |
| Bytes.LeUintOfLeBytes | DarkSoulsParameterEditor.py:224 | Reading back the little-endian bytes of a value that fits gives the value. |
| Bytes.LeBytesOfLeUint | DarkSoulsParameterEditor.py:224 | Re-encoding a read value to the same width gives back the bytes. |
| Bytes.LeUintOfTwo | DarkSoulsParameterEditor.py:239 | A 2-byte read is `b0 + 256 * b1`. |
| Bytes.U32At | DarkSoulsParameterEditor.py:229 | One `I` field of `struct.unpack('III', ...)` is a 32-bit value. |
| Bytes.UnitsAt | DarkSoulsParameterEditor.py:242 | Code unit `i` of a UTF-16LE byte string is the little-endian value of bytes `2i` and `2i + 1`. |
| Bytes.UnitsOfEncoding | DarkSoulsParameterEditor.py:202 | Decoding the code units of `s.encode('utf_16_le')` gives back the characters of `s`. |
| Bytes.UnitsInjective | DarkSoulsParameterEditor.py:242 | Two byte strings with the same code units are equal. |
| Bytes.EncodingFromUnits | DarkSoulsParameterEditor.py:202 | Bytes whose code units are the characters of `s` are `s.encode('utf_16_le')`. |
| WeaponParams.MakeWeapons | DarkSoulsParameterEditor.py:202-217 | `make_weapons` returns the table or raises the error that `WeaponTable` defines. The lemmas below give the meaning of that function. |
| WeaponParams.ReadTriples | DarkSoulsParameterEditor.py:208-211 | The index loop reads triple `k` at anchor + 112 + 12k. It fails exactly when a triple is cut off. It leaves `i` unbound exactly when the count is 0, and otherwise at the last triple. |
| WeaponParams.ReadRecords | DarkSoulsParameterEditor.py:212-214 | The record loop reads `n` slices of `size` bytes, back to back. It fails exactly when the last one is cut off. |
| WeaponParams.AnchorIsEncodedName | DarkSoulsParameterEditor.py:202 | The 32 anchor bytes are `"EquipParamWeapon".encode('utf_16_le')`. |
| WeaponParams.RecordCountBound | DarkSoulsParameterEditor.py:205 | The count read from `memory[idx+74:idx+76]` is a 16-bit value. |
| WeaponParams.WeaponTableFailures | DarkSoulsParameterEditor.py:202-214 | The decoder fails exactly when: the anchor is absent; or the triples of a nonzero count run past the dump; or the count is 0; or the records run past the dump. |
| WeaponParams.WeaponTableEntries | DarkSoulsParameterEditor.py:205-216 | A returned table has exactly `count` pairs. Pair `k` is the triple at anchor + 112 + 12k and the `size` bytes at anchor + 112 + 12·count + size·k (`RecordOffset`), all inside the dump. |
| WeaponParams.TripleRoundTrip | DarkSoulsParameterEditor.py:210 | Packing an unpacked triple again gives back its 12 bytes. |
| WeaponParams.TripleOfEncoding | DarkSoulsParameterEditor.py:210 | Unpacking a packed triple of 32-bit values gives back the triple. |
| WeaponParams.ConcatRecords | DarkSoulsParameterEditor.py:213-214 | The first `n` records, read one at a time and laid end to end, are the `size * n` bytes from the first record. |
| WeaponParams.TilesAreRecords | DarkSoulsParameterEditor.py:213-214 | Reading the records one at a time gives the same list as the loop's result. |
| WeaponParams.RecordsTileRegion | DarkSoulsParameterEditor.py:213-214 | The records read are packed. Laid end to end they are exactly the `size * count` bytes after the triples. |
| Numeric.FloorDiv | DarkSoulsParameterEditor.py:248 | Python's `//` rounds toward negative infinity for either sign of the divisor. |
| Numeric.DivCeil | DarkSoulsParameterEditor.py:246-248 | `-(-n // d)` is the ceiling of `n / d`: `(r - 1)·d < n <= r·d` for `d > 0`, and the mirror bounds for `d < 0`. |
| Numeric.BitLength | DarkSoulsParameterEditor.py:252 | `i.bit_length()` is 0 exactly for 0, and otherwise the `r` with `2^(r-1) <= abs(i) < 2^r`. |
| Numeric.HexLengthIsDigitCount | DarkSoulsParameterEditor.py:251-252 | `HexLength(i)`, the model of `hex_length(i)`, is 0 for 0, and otherwise the least `r` with `abs(i) < 16^r`: the number of hexadecimal digits. |

## Left out

- The Qt window, the table widgets and `table_size_to_contents` are presentation only.
- The PyQt import fallbacks and `main` are environment handling.
- Reading the dump file (line 86) is I/O. The dump is an input sequence of bytes.
- `structs.EQUIP_PARAM_WEAPON_ST`: the struct module is not part of this model. The struct's size is the parameter `size`, and a record stays as its raw bytes. No field is interpreted.
- MakeWeapons: requires `size > 0`. A ctypes structure has a positive size, and a zero step would make `range` raise.
- DecodeText: stops at 16-bit code units. Turning them into a Python `str` is left out. So is the `UnicodeDecodeError` that the codec raises for an unpaired surrogate. Only the odd-length error is modelled.
- DivCeil: requires `d != 0`. The `ZeroDivisionError` of `//` is not modelled.
- ReadTriple: reads the native-order `'III'` format as little-endian, the byte order of the platform the dumps come from.
- The other `make_strings` calls (from line 96 on), their name dictionaries and the code that displays them are left out. They repeat line 94 with other markers.
- Scanning for several anchors, merging repeated tables and skipping corrupt ones are left out. The code has no such loop: each decoder uses the first match and raises on failure.
