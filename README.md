# osu! replay decoder, modelled in Dafny

This project models the decoder of osu! replay files (`.osr`) in `osr.py` and
the helper copies in the two scripts `parse_osr.py` and `render_osr.py`. A
replay file is read in this order:

1. a `<BI` block holding the game mode and the version; only mode 0 (osu!) is
   accepted;
2. three length-prefixed strings: the beatmap hash, the player name and the
   replay hash;
3. a 23-byte `<HHHHHHIH?I` block: the hit counts, score, combo, perfect flag
   and mods;
4. the life graph, a string of comma-separated `offset|life` records;
5. a 12-byte `<QI` block: the timestamp and the payload length;
6. the payload: LZMA-compressed comma-separated `w|x|y|z` frame records.

Each non-empty frame record becomes one `ReplayPoint`. Its time `t` is the
running sum of the deltas `w`. When the caller asks for it and the HardRock
mod is set, `y` is mirrored to `384 - y`. Besides the decoder the model covers:
- the button decoding `keys`;
- `has_mod`, `len`, indexing and ordering on a `Replay`;
- the mod abbreviation and mod name listings with their tables;
- `to_bin`, the 17-column button text;
- the variant frame loop of `render_osr.py`, which drops records with a
  negative delta and never mirrors.

Modules, one file each:

- `Wrappers`: the `Option` and `Result` datatypes.
- `Bits`: Python's unbounded-integer `&`, `|` and `>>`, with `Bit(x, k)`.
- `Bytes`: bytes, the little-endian integers of `struct`, `split` and `join`
  on one separator, dropping empty pieces, and Python's string comparison.
- `Stream`: the file object `f` as a class whose field `rest` holds the
  unread bytes. `Read(n)` does a short read at the end of the file, as Python
  does.
- `Leb128`: `parse_uleb128`, as the loop on the stream and as a spec function.
- `LengthPrefixed`: `parse_string`.
- `Records`: the comma and pipe records and the `Timeline` of points that
  `read_file` builds.
- `Osr`: the header, `Replay.read_file` and the `Replay` class.
- `Formatting`: `shortmods`, `mods_to_str`, `to_bin` and the string `keys`.
- `RenderTrack`: the decode loop of `render_osr.py`.

Each Python loop is a Dafny `method` with a `while` loop and invariants. Most
such methods are proved equal to a spec function, and the lemmas state what
that function means. `Formatting.ToBin` has no spec function: its contract
states each digit it writes. Python exceptions are `Failure` values:
- a short read is `Truncated` (`struct.error`);
- a mode byte of 1-3 is `UnsupportedMode` (the failed assertion), and a mode
  byte of 4 or more is `UnknownMode` (the IndexError of `MODES[self.mode]`,
  raised while the assertion message is built);
- a missing life graph or a wrong field count is a failure;
- `str += None` is a `TypeError` value, and an index past a table is an
  `IndexError` value.

The calls into the standard library the model does not implement are
parameters of type `Env`: `lzma.decompress`, `int(...)` and `float(...)` on
a field.

## Model

| member | source | states |
|---|---|---|
| Leb128.ParseUleb128 | osr.py:83-93 | reads bytes up to and including the first one whose high bit is clear, returns the value `Uleb128` gives and leaves exactly the rest; at the end of the file it fails, all bytes consumed |
| Leb128.Uleb128 | osr.py:83-93 | a decoded integer takes at least one byte and no more than the input holds |
| Leb128.Uleb128Terminator | osr.py:86-91 | the value is the sum of `(b_i & 0x7F) << 7i` over the bytes up to and including the first with a clear high bit, and exactly those bytes are consumed |
| Leb128.Uleb128Fails | parse_osr.py:7-17 | (the same code as osr.py:83-93) there is no value exactly when every remaining byte has its high bit set |
| Leb128.Uleb128RoundTrip | render_osr.py:16-26 | (the same code as osr.py:83-93) decoding the encoding of any natural number returns it and consumes exactly the encoding, whatever follows |
| Leb128.AccumulatedBound | osr.py:88 | the value of `n` bytes is below `2^(7n)`, so each `\|=` adds bits above all earlier ones |
| Leb128.AccumulatedCons | osr.py:86-91 | accumulating low group first gives the low seven bits of the first byte plus 128 times the value of the rest |
| Bits.And | osr.py:185 | `a & b` is non-negative and at most `b`, and at most `a` when `a` is non-negative |
| Bits.Or | osr.py:88 | `a \| b` is at least each operand and at most their sum |
| Bits.Shr | osr.py:79 | `x >> k` stays between 0 and `x` for a non-negative `x` and stays negative for a negative one |
| Bits.AndIsMaskTest | osr.py:184-185 | `a & b == b` exactly when every bit set in `b` is set in `a` |
| Bits.AndPow2 | osr.py:105-107 | `n & (1 << k)` is `2^k` when bit `k` of `n` is set and 0 otherwise |
| Bits.OrDisjoint | osr.py:88 | OR-ing a value below `2^k` with a multiple of `2^k` is their sum |
| Bits.ShrStep | parse_osr.py:122 | one more `n >>= 1` halves `n >> k`, rounding down, negative `n` included |
| Bytes.LittleEndian | osr.py:148 | an unsigned little-endian field of `w` bytes is below `256^w` |
| Bytes.LittleEndianOfBytes | osr.py:164 | writing a number below `256^w` in `w` little-endian bytes and reading it back gives the number |
| Bytes.BytesOfLittleEndian | osr.py:170 | reading `w` bytes and writing the value back in `w` bytes gives the bytes |
| Bytes.Split | osr.py:166 | `split(",")` gives at least one piece, and no piece holds the separator |
| Bytes.Join | parse_osr.py:104 | `sep.join(pieces)` starts with the first piece, puts the separator right after it when there are more, and is empty for no pieces |
| Bytes.JoinSplit | osr.py:174 | joining the pieces of `split` with the separator gives the text back |
| Bytes.SplitJoin | osr.py:176 | splitting pieces joined with a separator none of them holds gives the pieces back |
| Bytes.NonEmpty | osr.py:167 | the `if rec:` filter keeps only non-empty pieces and never more than there were |
| Bytes.NonEmptyAppend | osr.py:174-175 | filtering the concatenation of two runs of pieces concatenates their filtered runs |
| Bytes.NonEmptyKeepsAll | osr.py:175 | a run with no empty piece is left as it is |
| Bytes.LexLess | osr.py:198-199 | string `<`: only different strings are less, a proper prefix is less, and a smaller first byte decides |
| Bytes.LexLessIrreflexive | osr.py:198-199 | no player name is less than itself |
| Bytes.LexLessTransitive | osr.py:198-199 | the name order is transitive |
| Bytes.LexLessTotal | osr.py:198-199 | of two different names one is less than the other |
| Stream.Take | osr.py:102 | `f.read(n)` returns `min(n, remaining)` bytes, a prefix of the remaining ones |
| Stream.ByteStream.Read | osr.py:174 | `f.read(n)` returns those bytes and consumes exactly them |
| LengthPrefixed.ParseString | osr.py:96-102 | reads the marker, and for 0x0B the ULEB128 length and then up to that many bytes; returns what `ReadString` gives and leaves exactly the rest; fails only when the marker or the length cannot be read |
| LengthPrefixed.ReadString | parse_osr.py:20-26 | (the same code as osr.py:96-102) a string takes at least its marker byte and no more than the input; the returned bytes are the last ones it consumes |
| LengthPrefixed.StringByMarker | osr.py:97-102 | marker 0x00 gives the empty string after one byte; 0x0B consumes the marker, the length and `length` bytes (or what is left) and returns them; any other marker returns no string after one byte |
| LengthPrefixed.StringRoundTrip | render_osr.py:29-35 | (the same code as osr.py:96-102) reading an encoded string field returns it and consumes exactly its encoding |
| Records.ParseEach | osr.py:166-169 | a successful parse gives one value per record |
| Records.ParseEachSpec | osr.py:174-177 | the records parse exactly when each one does; the values are in record order; on a failure the error is that of the first failing record |
| Records.ParseEachFailurePersists | osr.py:176-177 | after one failing record no later record changes the result (the exception ends the loop) |
| Records.ParseSkip | osr.py:175 | an empty piece changes nothing |
| Records.ParseNext | osr.py:176-182 | a piece that parses appends its value |
| Records.ParseStop | osr.py:176-177 | a piece that fails is the failure of the whole text |
| Records.ParseLifeEvent | osr.py:168-169 | a life record fails with the field-count error exactly when it does not split into two fields at `\|`; it decodes exactly when both conversions succeed, and the event holds the converted offset and life |
| Records.ParseFrame | osr.py:176-177 | a frame record fails with the field-count error exactly when it does not split into four fields at `\|`; it decodes exactly when all four conversions succeed, and the frame holds the converted `w`, `x`, `y` and `z` |
| Records.Mirror | osr.py:179-180 | a mirrored `y` and the original add up to 384, so the playfield height 0 to 384 maps onto itself; without the flip `y` is kept |
| Records.Timeline | osr.py:171-182 | one point per frame |
| Records.TimelineSnoc | osr.py:178-182 | one more frame adds its delta to the total `SumW` of the deltas and appends one point at that total |
| Records.TimelineAt | osr.py:173-182 | point `i` is at `w_0 + ... + w_i` with frame `i`'s `x` and `z`, and `y` mirrored exactly when flipping |
| Records.TimelinePrefixSums | osr.py:173-178 | the first point is at its own delta; each later one is at its predecessor's time plus its delta; `x` and `z` are unchanged |
| Records.TimelineMirror | osr.py:179-180 | unmirrored points keep `y`; a mirrored `y` and the unmirrored one add up to 384; nothing else differs |
| Osr.Keys | osr.py:110-117 | a key and its own mouse button are never both reported |
| Osr.KeysByBit | osr.py:110-117 | key 1 iff bits 0 and 2; key 2 iff bits 1 and 3; mouse 1 iff bit 0 without key 1; mouse 2 iff bit 1 without key 2; smoke iff bit 4; a key and its mouse button are never both down |
| Osr.EachBit | osr.py:105-107 | `each_bit(n, count)` yields `count` values |
| Osr.EachBitValues | osr.py:105-107 | value `x` is `2^x` when bit `x` is set and 0 otherwise |
| Osr.FixedBlock | osr.py:148 | a `struct` block of `n` bytes reads exactly when `n` bytes remain, and consumes exactly them |
| Osr.StringField | osr.py:150 | a string field reads exactly when `parse_string` can, fails only on a short read, and takes at least its marker byte from the front |
| Osr.UnpackCounts | osr.py:153-164 | the six counts and the combo are below `2^16`, the score and the mods below `2^32`, and `perfect` holds exactly when its byte is non-zero |
| Osr.ReadNames | osr.py:150-152 | the three strings fail only on a short read and take at least three bytes |
| Osr.ReadIdentity | osr.py:148-152 | a decoded identity has mode 0 and takes at least 8 bytes; a failure is a short read or the error naming a mode byte other than 0 |
| Osr.ReadCounts | osr.py:153-164 | the counts block reads exactly when 23 bytes remain and takes exactly them; otherwise a short read |
| Osr.ReadLife | osr.py:165-169 | a life-graph string that cannot be read is a short read, an absent one (`None.split`) fails with `MissingLifeGraph`; a present one gives the events of `ParseEach` over its non-empty records, or the error of the first bad record, and takes at least one byte |
| Osr.ReadTimes | osr.py:170 | the `<QI` block reads exactly when 12 bytes remain and takes exactly them; otherwise a short read |
| Osr.ReadHeader | osr.py:148-170 | a decoded header has mode 0 and takes at least 44 bytes |
| Osr.ModeError | osr.py:149 | modes 1-3 fail the assertion with their own name `MODES[mode]`; a mode past the table is the IndexError of building the message |
| Osr.IdentityLayout | osr.py:148-152 | fewer than 5 bytes fail; a mode byte other than 0 fails with that mode; otherwise the version is the next four bytes, and the strings take at least three more bytes |
| Osr.CountsLayout | osr.py:153-164 | the counts block reads exactly when 23 bytes remain, unpacks them and consumes exactly them |
| Osr.TimesLayout | osr.py:170 | the `<QI` block reads exactly when 12 bytes remain: eight of timestamp, then four of length, consumed exactly |
| Osr.HeaderParts | osr.py:148-170 | each part of a decoded header is read where the one before it stopped, and the fields hold what was read: mode, version, the three strings, the counts, the life events, the timestamp and the length |
| Osr.HeaderFront | osr.py:148-164 | a header with a mode other than 0 fails with that mode; a decoded header has mode 0 and the version of bytes 1-4, and its counts are the 23 bytes after the three strings |
| Osr.HeaderBack | osr.py:165-170 | a decoded header ends with the 12 bytes of timestamp and payload length, and takes at least 44 bytes |
| Osr.LifeEventsInOrder | osr.py:165-169 | a non-empty life record that does not split into exactly two fields fails `ParseEach`, and so `ReadLife` and the header; otherwise event `i` has record `i`'s converted offset and life, in record order |
| Osr.ParseLifeEvents | osr.py:165-169 | the loop over the life records gives what `ParseEach` gives on the non-empty pieces |
| Osr.ReadLifeFrom | osr.py:165-169 | reads the life-graph string; a missing one fails; then its events |
| Osr.ReadIdentityFrom | osr.py:148-152 | the `<BI` block, the mode check and the three strings, read from `f` |
| Osr.ReadNamesFrom | osr.py:150-152 | three `parse_string` calls in order |
| Osr.ReadCountsFrom | osr.py:153-164 | the 23-byte counts block, read from `f` |
| Osr.ReadTimesFrom | osr.py:170 | the 12-byte timestamp and length block, read from `f` |
| Osr.ReadHeaderFrom | osr.py:148-170 | the whole header, read from `f`, as `ReadHeader` decodes it, leaving exactly the rest |
| Osr.ReadReplayFrom | osr.py:147-182 | the header, then `length` bytes of payload decompressed and decoded into points, as `ReadReplay` states, or its first error |
| Osr.ParsePoints | osr.py:173-182 | the loop over the payload records gives the `Timeline` of the non-empty records' frames, or the first record's error |
| Osr.PointStep | osr.py:178-182 | one record's step, `t += w`, the mirror and the append, turns the points of the frames so far into those of one frame more |
| Osr.Flips | osr.py:172 | mirroring happens exactly when `flip_hr` holds and bit 4 (HardRock) of the mods is set |
| Osr.ReadReplay | osr.py:147-182 | a header that fails is the failure of the whole file; after a decoded header, a payload `lzma.decompress` rejects gives `DecompressionFailure`, a bad frame record's error is the file's error, and otherwise the points are the `Timeline` of the parsed frames and exactly the header and `length` payload bytes are consumed; a decoded file has mode 0 and takes at least 44 bytes |
| Osr.HardRockMirror | osr.py:172-180 | decoding with and without `flip_hr` succeeds alike and gives the same header and points, except that with HardRock set each `y` becomes `384 - y` |
| Osr.PointsPerRecord | osr.py:174-182 | one point per non-empty frame record, in order: point `i` is at `w_0 + ... + w_i`, carrying record `i`'s cursor and buttons |
| Osr.RecordsToPoints | osr.py:175-182 | record `i` parses to frame `i`, and point `i` is built from frame `i` |
| Osr.RankKeyOf | osr.py:195-196 | the key carries the score and the player unchanged, and the timestamp negated, so a later replay has the smaller second component |
| Osr.KeyLess | osr.py:198-199 | tuple `<` is undefined (TypeError) exactly when score and second component tie and only one player is present; it is true exactly when the score is less, or it ties and the second component is less, or both tie and both names are present and the first is less |
| Osr.KeyLessStrictOrder | osr.py:195-199 | the key order on `(score, -timestamp, player)` is irreflexive (a missing player included, since `None == None`), transitive and asymmetric, and of two different comparable keys one is less |
| Osr.Replay.HasMod | osr.py:184-185 | `has_mod(m)` iff every bit of `m` is set in the mods |
| Osr.Replay.Length | osr.py:187-188 | `len` is the number of points, and a replay can be indexed exactly when it has one |
| Osr.Replay.Get | osr.py:190-193 | `r[t]` is point `t` below the length and the last point beyond it; an empty replay raises IndexError (`None`) |
| Osr.Replay.Less | osr.py:195-199 | less by score, then by later timestamp, then by player name; `None` (TypeError) exactly when score and timestamp tie and only one player name is present |
| Osr.Replay.ReadFile | osr.py:147-182 | on success the fields are the decoded header, the points are the decoded points and exactly the replay's bytes are consumed; otherwise the first error |
| Osr.Replay.SetFields | osr.py:148-171 | the attribute assignments: the fields become the decoded header and points |
| Osr.ReadReplayFile | osr.py:202-208 | `read_file(f)` returns a new replay holding the decoded file, leaving the stream just after the payload, or the first error |
| Formatting.Shortmods | osr.py:72-80 | the loop over the bits gives what `ShortmodsOf` gives, the index and type errors included |
| Formatting.ShortmodsOf | parse_osr.py:107-115 | `shortmods(0)` is the empty text |
| Formatting.Visited | osr.py:75-79 | some index is looked up exactly when `n` is non-zero, and the first one is `start` exactly when bit 0 is set |
| Formatting.Lookup | osr.py:76-77 | a concatenation that succeeds looked up only indices inside the table with an entry; no index gives the empty text |
| Formatting.VisitedSpec | osr.py:75-79 | index `i` is looked up exactly when bit `i - 1` of `n` is set |
| Formatting.VisitedIncreasing | osr.py:75-79 | the lookups go in increasing order, lowest bit first |
| Formatting.Entry | osr.py:77 | `s += SHORTMODS[i]`: IndexError exactly when `i` is past the table, TypeError exactly when the entry is `None`, and otherwise the entry's text |
| Formatting.LookupFails | osr.py:77 | the concatenation fails exactly when an entry is past the table or missing, with the error of the first such entry |
| Formatting.ShortmodsFails | render_osr.py:85-93 | over any table, `shortmods` fails exactly when a set bit has no usable entry |
| Formatting.ShortModsUnusable | osr.py:6-37 | in the 30-entry table only bits 2 (NoVideo), 22 (Cinema) and 29 and up have no usable entry |
| Formatting.ShortmodsTableFails | parse_osr.py:30-61 | with the 30-entry table, `shortmods(n)` fails exactly when bit 2, bit 22 or a bit from 29 up is set |
| Formatting.ShortmodsNoVideo | osr.py:10 | with the 30-entry table, `shortmods(4)` raises the TypeError of `s += None` at index 3 |
| Formatting.RenderShortModsUnusable | render_osr.py:39 | in the 12-entry table only bits from 11 up have no usable entry |
| Formatting.RenderShortmodsFails | render_osr.py:85-93 | with the 12-entry table, `shortmods(n)` fails exactly when a bit from 11 up is set |
| Formatting.RenderShortmodsNoVideo | render_osr.py:39 | with the 12-entry table, NoVideo alone gives the empty text |
| Formatting.FilledAgrees | render_osr.py:39 | giving missing entries the empty text changes no lookup that succeeds |
| Formatting.FilledShortmodsFails | osr.py:6-37 | with the 30-entry table given the empty text where it has none, `shortmods(n)` fails only on a bit from 29 up |
| Formatting.FilledShortmodsNoVideo | osr.py:10 | with that table, NoVideo gives the empty text |
| Formatting.FilledShortmodsAgree | osr.py:72-80 | with that table, every mod combination the original table handles gives the same text |
| Formatting.CollectNames | parse_osr.py:96-103 | the loop adding `MODS[i]` to a set gives `NamesAt` of the visited indices |
| Formatting.NamesAt | parse_osr.py:99-101 | the `s.add(MODS[i])` loop fails only with the IndexError of an index past the names; the set holds no more names than there were indices, and none for no index |
| Formatting.NamesAtSpec | parse_osr.py:101 | collecting fails exactly when an index is past the names; otherwise the set holds exactly the names at the indices |
| Formatting.NamesOfBitsFail | render_osr.py:74-82 | (the same code as parse_osr.py:96-104) collecting names fails exactly when a set bit `k` has no name at `k + 1` |
| Formatting.NamesOfBits | parse_osr.py:96-103 | the collected set is exactly the names `names[k + 1]` of the set bits `k` |
| Formatting.Enumerate | parse_osr.py:104 | a listing of a set holds each element exactly once |
| Formatting.NamesToStr | render_osr.py:74-82 | `mods_to_str` over a name table: fails exactly on a set bit without a name; otherwise the comma join of a listing of the names of the set bits, each once; `""` for 0 |
| Formatting.ModsToStr | parse_osr.py:96-104 | with the 30 names of `MODS`: fails exactly when a bit from 29 up is set; otherwise the comma join of the names `MODS[k + 1]` of the set bits, each once; `""` for 0 |
| Formatting.ToBin | parse_osr.py:118-124 | exactly `size` characters; character `i` is `'1'` iff bit `i` of `n` is set, least significant first |
| Formatting.ToBinValue | render_osr.py:96-102 | (the same code as parse_osr.py:118-124) the digits read back are a value below `2^size` that, with `n >> size` above it, is `n` again |
| Formatting.KeysText | parse_osr.py:127-141 | `keys(n)` is always 17 characters |
| Formatting.KeysTextColumns | parse_osr.py:127-141 | `keys(n)` is 17 characters: columns at 0, 3, 6, 9 and 12 separated by blanks, each its label exactly when its button is down by the key-over-mouse rule, blanks otherwise |
| Formatting.FiveColumns | render_osr.py:111-119 | (the same code as parse_osr.py:133-141) four two-character slots and a five-character one joined with blanks sit at 0, 3, 6, 9 and 12 |
| RenderTrack.Trunc | render_osr.py:189 | `int(x)` truncates toward zero: within one below a non-negative value and within one above a negative one |
| RenderTrack.Kept | render_osr.py:187 | the kept frames are never more than the frames |
| RenderTrack.KeptSpec | render_osr.py:187 | a frame is kept exactly when its delta is non-negative |
| RenderTrack.KeptAll | render_osr.py:187 | with no negative delta every frame is kept |
| RenderTrack.KeptPositionsSpec | render_osr.py:182-187 | the kept positions are exactly those of the frames with `w >= 0`, in increasing order |
| RenderTrack.KeptAtPositions | render_osr.py:182-189 | the kept frames are the frames at those positions, so there are as many entries as records with `w >= 0` |
| RenderTrack.Track | render_osr.py:181-189 | one entry per kept frame |
| RenderTrack.TrackSnoc | render_osr.py:187-189 | a frame with a negative delta changes nothing; any other adds `w` to `t` and appends `(t, int(x), int(y))` |
| RenderTrack.TrackAt | render_osr.py:187-189 | entry `i` holds the sum of the first `i + 1` kept deltas and kept frame `i`'s cursor, truncated |
| RenderTrack.SumWMonotone | render_osr.py:187-188 | prefix sums of non-negative deltas are non-negative and never decrease |
| RenderTrack.TrackMonotone | render_osr.py:187-189 | the stored times are non-negative and non-decreasing |
| RenderTrack.TrackMatchesTimeline | render_osr.py:180-189 | with no negative delta the entries are the unmirrored points of `read_file`, cursor truncated |
| RenderTrack.RenderDecode | render_osr.py:181-189 | the loop gives the `Track` of the non-empty records' frames, or the first record's error |
| RenderTrack.EntryStep | render_osr.py:187-189 | one record's step: a negative delta leaves the entries and `t` as they are, any other advances `t` and appends the entry of one frame more |
| RenderTrack.DecodePayload | render_osr.py:180-189 | the decompressed payload decoded into the track, or the decompression failure |

## Left out

- LZMA decompression is the parameter `Env.decompress`; a payload it rejects
  gives `DecompressionFailure`.
- `.decode()` is left out, and strings stay byte strings. Comparing player
  names byte by byte orders valid UTF-8 the way Python orders the decoded
  text, because UTF-8 keeps code point order. Invalid UTF-8, which raises
  `UnicodeDecodeError`, is not modelled.
- `int(...)` and `float(...)` on a record field are the parameters
  `Env.toInt` and `Env.toFloat`.
- Cursor coordinates are exact reals, so `384 - y` is exact. Float rounding,
  NaN and infinities are not modelled.
- `RenderTrack.Trunc` models `int(x)` on a finite float. The OverflowError
  on an infinite coordinate and the ValueError on NaN are not modelled.
- Opening a file by path (`read_file(str)`, osr.py:203-205), `sys.argv`,
  the hard-coded paths and the `print`/`dedent` reports of the scripts are
  I/O and are left out.
- The scripts read the header themselves (parse_osr.py:146-155,
  render_osr.py:125-134). Their read differs from `Replay.read_file`: there is
  no mode check, no flip is computed, and the life graph is kept as the raw
  string and never split, so an absent or malformed life graph does not fail
  there. This header read is not modelled separately.
- The frame loop of parse_osr.py:157-165 decompresses the payload, splits
  each record into exactly four fields and converts them with `int` and
  `float`, each of which can raise, and prints each frame. It decodes the
  records like the render loop of render_osr.py:180-189 but keeps no track.
  It is not modelled separately.
- `multi_render.py`, `multi_image.py` and `audio.py` are pygame and PIL
  presentation; they are not part of this model.
- Osr.Replay.Get: `t` is a natural number, so Python's negative indices,
  which count from the end, are not modelled.
- Osr.Replay.ReadFile: on a failure the contract does not say which fields
  were assigned before the exception. Python leaves those set.
- The `color` slot of `Replay` is never assigned by `read_file`. It is not
  modelled.
- `Replay()` leaves every slot unassigned. The model's constructor starts
  the life events and the points empty, and `read_file` then assigns every
  field.
- Formatting.ModsToStr: the iteration order of a Python set is not
  specified. The text is stated as the comma join of the listing `order`,
  which the method also returns and which holds each name of a set bit
  exactly once. The actual order Python produces is not modelled.
- Formatting.NamesToStr: the same unspecified listing `order` as `ModsToStr`.
- Formatting.Shortmods: `n` is a natural number. On a negative `n` the
  Python loop raises instead of returning. `n >>= 1` reaches -1, whose every
  bit is set, so a lookup past the table (IndexError) always comes, unless
  a missing entry (TypeError) comes first: with the 30-entry table,
  `shortmods(-1)` raises TypeError at `i == 3`, the NoVideo entry. The mods come
  from an unsigned 32-bit field, so `n` is never negative there.
- Formatting.ToBin: `size` is a natural number. On a negative `size` the
  Python loop never ends.
- The mode assertion is modelled as a failure. Under `python -O` it is
  skipped; that case is not modelled.
- `each_bit` is a generator. It is modelled as the sequence it yields.
- An unknown string marker is not an error in the code: `parse_string`
  falls off its end and returns `None`. The model follows the code. Only the
  life graph turns `None` into a failure (`.split` on `None`).
- The code builds no dense per-millisecond timeline. Each frame record gives
  exactly one point at the running sum of the deltas, and so does the model.

## Findings

| source | as written | input that shows it | evidently intended | confidence | as-written member | corrected member |
|---|---|---|---|---|---|---|
| osr.py:72-80 | `shortmods` appends `SHORTMODS[i]`, and the 30-entry table (osr.py:6-37, parse_osr.py:30-61) holds `None` for NoVideo and Cinema, so `s += None` raises TypeError | `shortmods(4)` (NoVideo alone); also any mods with bit 22 (Cinema) set | those mods contribute no abbreviation, as the 12-entry table of render_osr.py:39 writes with `""` | medium (not executed) | Formatting.ShortmodsNoVideo | Formatting.FilledShortmodsFails |

`Formatting.ShortmodsTableFails` states where the as-written table fails.
`Filled(ShortModsTable)` is the corrected table, and `Formatting.Shortmods`
accepts it like any other. For the corrected table:
- `Formatting.FilledShortmodsFails` proves it fails only past bit 28;
- `Formatting.FilledShortmodsNoVideo` proves NoVideo gives the empty text;
- `Formatting.FilledShortmodsAgree` proves that every mod combination the
  original table handles gives the same text.
