# AFS2 archive codec

A Dafny model of `CriAfs2Archive`, the reader and writer of CRI's AFS2
container. An AFS2 block opens with a 16-byte header:

- the signature "AFS2";
- a control word `1 | idW << 16 | posW << 8`;
- the entry count;
- the payload alignment.

Two tables follow the header. The first holds the ids, `idW` bytes each. The
second holds the positions, `posW` bytes each, and ends with one
sentinel field. The pool of payloads comes last. Each payload starts at a
multiple of the alignment, counted in pool length, behind zero padding. With
4-byte positions that is also its offset in the block; with 2-byte positions
it is not (see below).

`Read` rebuilds the entries from the tables. Each entry's position is its
raw position rounded up to the alignment. Its length runs to the next raw
position, or to the sentinel for the last entry. `Write` sorts the entries by
id and writes both tables. It lays out the payloads through the pool and
stores each entry's raw pool offset as that entry's new `Position`.
`GetById` returns the first entry with a given id.

How the model is built:

- **Files.**
  - `wire.dfy`: fixed-width little-endian fields, `uint`/`ushort` casts, and the bitwise packing of the control word.
  - `layout.dfy`: field offsets and align-up.
  - `entry.dfy`: the entry record, the stable sort by id and the lookup.
  - `pool.dfy`: the assumed contract of `VldPool`, as a class.
  - `archive.dfy`: the byte-level specification functions `Decode` and `Encode`, and the class `CriAfs2Archive`. Its `Read` and `Write` are loops over the entries, proved against `Decode` and `Encode`.
  - `properties.dfy`: lemmas that relate the two directions.
- **State.** `Read` updates the object's fields and appends to `entries` in place. `Write` overwrites each entry's `Position` in place. Both are modelled with `modifies` clauses.
- **Errors.** An exception from the source is a `Fail` outcome. Whatever was changed before the throw stays changed: widths already set, entries already appended, bytes already written.

Two behaviours of the code that a reader might not expect are kept as they are:

- The sentinel is always written as a 4-byte `uint`, while the header length counts it as `posW` bytes. With 2-byte positions the pool therefore sits 2 bytes later than every recorded position says (`Properties.ContentStart`).
- A length that comes out negative is not rejected (`Properties.NegativeLengthAccepted`).

## Model

| member | source | states |
|---|---|---|
| Wire.ToU16 | Source/SonicAudioLib/Archive/CriAfs2Archive.cs:41 | `(ushort)x` keeps every value below 2^16 as it is |
| Wire.ToU32 | Source/SonicAudioLib/Archive/CriAfs2Archive.cs:107 | `(uint)x` keeps every value below 2^32 as it is |
| Wire.LittleEndianRoundTrip | Source/SonicAudioLib/Archive/CriAfs2Archive.cs:109-112 | `k` bytes written least significant first read back as the value, when it fits in `k` bytes |
| Wire.PackedSum | Source/SonicAudioLib/Archive/CriAfs2Archive.cs:110 | for widths below 256, the or-ed control word equals `idW * 65536 + posW * 256 + 1` |
| Wire.ControlRoundTrip | Source/SonicAudioLib/Archive/CriAfs2Archive.cs:30-39 | for widths below 256, the decoder's masks and shifts give back type 1, `idW` and `posW` from the written control word |
| Layout.AlignUp | Source/SonicAudioLib/Archive/CriAfs2Archive.cs:84 | the aligned value is at least the input and less than input plus alignment |
| Layout.AlignUpIsMultiple | Source/SonicAudioLib/Archive/CriAfs2Archive.cs:84 | the aligned value is a multiple of the alignment |
| Layout.AlignUpIsLeast | Source/SonicAudioLib/Archive/CriAfs2Archive.cs:84 | no multiple of the alignment between input and aligned value is smaller |
| Layout.PositionOffsetMonotone | Source/SonicAudioLib/Archive/CriAfs2Archive.cs:62 | position fields lie `posW` bytes apart, in index order |
| Layout.PositionsWithin | Source/SonicAudioLib/Archive/CriAfs2Archive.cs:62-77 | the number of loop iterations whose position field fits in the input: every earlier field fits, the next does not |
| Layout.PositionsWithinUnique | Source/SonicAudioLib/Archive/CriAfs2Archive.cs:62-77 | that number is the only one with those two properties |
| Entries.FirstWithId | Source/SonicAudioLib/Archive/CriAfs2Archive.cs:158-161 | `None` exactly when no entry has the id; otherwise the entry at the first index with that id |
| Entries.SortedOrder | Source/SonicAudioLib/Archive/CriAfs2Archive.cs:116 | the visiting order of `OrderBy(Id)`: every index exactly once, ascending by id, ties in list order |
| Entries.SortByIdSpec | Source/SonicAudioLib/Archive/CriAfs2Archive.cs:116 | the entries in emitted order are ascending by id and a permutation of the list |
| Entries.SortedOrderOfAscending | Source/SonicAudioLib/Archive/CriAfs2Archive.cs:116 | a list already strictly ascending by id is emitted as it is |
| Pool.VldPool.constructor | Source/SonicAudioLib/Archive/CriAfs2Archive.cs:114 | a new pool has the given alignment, its length is the header length, and it holds no bytes |
| Pool.VldPool.Put | Source/SonicAudioLib/Archive/CriAfs2Archive.cs:132-133 | pads with zeros to the next multiple of the alignment, then appends the file; the length grows by exactly that |
| Pool.ContentLength | Source/SonicAudioLib/Archive/CriAfs2Archive.cs:131-133 | the pool holds exactly its length minus the header length in bytes |
| Pool.MarksNonDecreasing | Source/SonicAudioLib/Archive/CriAfs2Archive.cs:131-133 | the pool length never decreases from one `Put` to the next |
| Pool.PayloadPlaced | Source/SonicAudioLib/Archive/CriAfs2Archive.cs:131-133 | after any later `Put`s, payload `k` still sits at its aligned offset, behind zero padding |
| Archive.IdFails | Source/SonicAudioLib/Archive/CriAfs2Archive.cs:49-56 | a first id field past the end fails the read with nothing appended |
| Archive.PositionFails | Source/SonicAudioLib/Archive/CriAfs2Archive.cs:62-77 | a position field past the end stops the loop, keeping the entries appended so far (the last one still of length 0) |
| Archive.AlignmentFails | Source/SonicAudioLib/Archive/CriAfs2Archive.cs:84 | a zero alignment stops the first iteration, after its loads, with nothing appended |
| Archive.SentinelFails | Source/SonicAudioLib/Archive/CriAfs2Archive.cs:86-98 | a sentinel past the end keeps every entry but the last, all complete |
| Archive.IndexCompletes | Source/SonicAudioLib/Archive/CriAfs2Archive.cs:45-102 | when every field and the sentinel fit, all `n` entries are decoded and the read succeeds |
| Archive.CompletePrevious | Source/SonicAudioLib/Archive/CriAfs2Archive.cs:79-82 | giving the pending entry its length (next raw position minus its own aligned position) turns the entered list into the decoded one |
| Archive.CriAfs2Archive.constructor | Source/SonicAudioLib/Archive/CriAfs2Archive.cs:163-168 | `Align` is 32, `IdFieldLength` 2, `PositionFieldLength` 4, and there are no entries |
| Archive.CriAfs2Archive.GetById | Source/SonicAudioLib/Archive/CriAfs2Archive.cs:158-161 | `None` exactly when no entry has the id; otherwise the first entry in list order with it |
| Archive.CriAfs2Archive.Read | Source/SonicAudioLib/Archive/CriAfs2Archive.cs:23-103 | the outcome is `Decode`'s, the entries gain exactly what `Decode` appends, and the widths and alignment are set only once their fields were read |
| Archive.CriAfs2Archive.ReadIndex | Source/SonicAudioLib/Archive/CriAfs2Archive.cs:44-102 | the loop appends what `DecodeIndex` gives and ends with its outcome |
| Archive.CriAfs2Archive.ReadEntry | Source/SonicAudioLib/Archive/CriAfs2Archive.cs:47-101 | one iteration keeps the loop invariant, or stops with the outcome and entries that `DecodeIndex` gives |
| Archive.CriAfs2Archive.CompletePending | Source/SonicAudioLib/Archive/CriAfs2Archive.cs:79-82 | overwriting the last entry's length completes the first `i` decoded entries |
| Archive.CriAfs2Archive.LoadFields | Source/SonicAudioLib/Archive/CriAfs2Archive.cs:49-77 | reads id `i` and raw position `i`, or fails on a bad width or a truncated field exactly as `DecodeIndex` does |
| Archive.CriAfs2Archive.LoadSentinel | Source/SonicAudioLib/Archive/CriAfs2Archive.cs:86-98 | reads the sentinel in the position width, or fails as `DecodeIndex` does |
| Archive.CriAfs2Archive.Write | Source/SonicAudioLib/Archive/CriAfs2Archive.cs:105-156 | the bytes emitted, the new entry list and the outcome are `Encode` of the old list, widths and alignment |
| Archive.CriAfs2Archive.WriteRest | Source/SonicAudioLib/Archive/CriAfs2Archive.cs:131-155 | the position loop, sentinel and pool finish the block as `Encode` says |
| Archive.CriAfs2Archive.WriteIds | Source/SonicAudioLib/Archive/CriAfs2Archive.cs:117-129 | emits one 2-byte id per entry in order, or fails on the first entry when the id width is not 2 |
| Archive.CriAfs2Archive.WritePositions | Source/SonicAudioLib/Archive/CriAfs2Archive.cs:131-150 | emits each entry's pool length before its payload as its position field, stores it as the entry's `Position`, and leaves the pool holding every payload; fails on alignment 0 or a bad width with the entries untouched |
| Archive.CriAfs2Archive.PlaceEntry | Source/SonicAudioLib/Archive/CriAfs2Archive.cs:132-149 | one iteration: puts the payload, emits the cast pool length in the field width, and sets that entry's `Position` |
| Properties.EncodeStartsWithHeader | Source/SonicAudioLib/Archive/CriAfs2Archive.cs:109-129 | every block `Write` emits, failed or not, starts with the 16 header bytes; with entries and an id width other than 2 it is nothing else |
| Properties.HeaderReadsBack | Source/SonicAudioLib/Archive/CriAfs2Archive.cs:25-42 | the header's signature, control word, count (cut to 16 bits) and alignment read back as written |
| Properties.HeaderEndsIndex | Source/SonicAudioLib/Archive/CriAfs2Archive.cs:107 | `headerLength` is the end offset of the sentinel field, as the reader computes it |
| Properties.HeaderLengthFits | Source/SonicAudioLib/Archive/CriAfs2Archive.cs:107 | with fewer than 65536 entries and a supported width, the `uint` cast of the header length loses nothing |
| Properties.DecodePassIff | Source/SonicAudioLib/Archive/CriAfs2Archive.cs:23-103 | `Read` succeeds if and only if the input has the signature, type 1, a full header and, with entries, valid widths, a nonzero alignment and every index field in range |
| Properties.DecodeGates | Source/SonicAudioLib/Archive/CriAfs2Archive.cs:25-36 | a bad signature or table type fails with no entries and no widths or alignment set |
| Properties.DecodeWidthsChecked | Source/SonicAudioLib/Archive/CriAfs2Archive.cs:52-77 | with entries, a bad id width fails before anything is read, and a bad position width fails after the first id |
| Properties.AppendedForm | Source/SonicAudioLib/Archive/CriAfs2Archive.cs:79-101 | every appended entry, whatever the outcome, is either complete or the pending last one |
| Properties.AppendedEntry | Source/SonicAudioLib/Archive/CriAfs2Archive.cs:49-84 | every appended entry carries its id field and its raw position rounded up to the alignment |
| Properties.DecodedAligned | Source/SonicAudioLib/Archive/CriAfs2Archive.cs:84 | every position `Read` produces is a multiple of the nonzero alignment it read |
| Properties.PassedEntry | Source/SonicAudioLib/Archive/CriAfs2Archive.cs:79-98 | on success, each length is the next raw position (or the sentinel) minus the entry's aligned position |
| Properties.OneEntryDecode | Source/SonicAudioLib/Archive/CriAfs2Archive.cs:23-101 | any 26-byte block with one entry, 2-byte ids, 4-byte positions and alignment 32 decodes to that entry at its raw position rounded up to 32, with length sentinel minus that position |
| Properties.NegativeLengthAccepted | Source/SonicAudioLib/Archive/CriAfs2Archive.cs:86-98 | a concrete 26-byte block decodes successfully to an entry of length -64 |
| Properties.EncodePasses | Source/SonicAudioLib/Archive/CriAfs2Archive.cs:105-155 | a successful `Write` with entries had id width 2, position width 2 or 4 and nonzero alignment; its block is header, ids, positions, sentinel and pool |
| Properties.WriteRepositions | Source/SonicAudioLib/Archive/CriAfs2Archive.cs:131-149 | after `Write`, the `t`-th entry in id order has the cast pool length before its payload as its `Position`, and nothing else changed |
| Properties.StoredPosition | Source/SonicAudioLib/Archive/CriAfs2Archive.cs:131-149 | without wrap-around that stored position is the pool length itself |
| Properties.WritePositionsOrdered | Source/SonicAudioLib/Archive/CriAfs2Archive.cs:114-149 | the stored positions never decrease along the id order, and the first equals `headerLength` |
| Properties.RepositionAt | Source/SonicAudioLib/Archive/CriAfs2Archive.cs:131-149 | each step of the position loop overwrites a different entry, so each entry keeps the one value assigned to it |
| Properties.RoundTrip | Source/SonicAudioLib/Archive/CriAfs2Archive.cs:105-156 | `Read` of what `Write` emitted (2-byte ids, 4-byte positions, no wrap-around) succeeds with the same widths and alignment and gives, in id order, each id, its payload's aligned offset and its payload's length |
| Properties.PayloadRoundTrip | Source/SonicAudioLib/Archive/CriAfs2Archive.cs:131-155 | in the block, payload `k` in id order sits exactly at that aligned offset, behind zeros from its raw position |
| Properties.ContentStart | Source/SonicAudioLib/Archive/CriAfs2Archive.cs:107-155 | the pool bytes start at `headerLength` for 4-byte positions but 2 bytes later for 2-byte ones, because the sentinel is always 4 bytes |
| Properties.EmptyWrite | Source/SonicAudioLib/Archive/CriAfs2Archive.cs:105-152 | with no entries `Write` succeeds for every width and alignment, emitting exactly the header and a 4-byte sentinel holding `headerLength`, 20 bytes in all |
| Properties.EmptyRoundTrip | Source/SonicAudioLib/Archive/CriAfs2Archive.cs:23-45 | for widths below 256, `Read` takes that block back with the widths and alignment it was written with and no entries |

## Left out

- Byte order: `EndianStream` is not part of this model. Every 16- and 32-bit field is taken to be little-endian.
- Streams: `Seek`, `ReadCString` and `WriteCString` become indexing into a byte sequence holding the whole stream. A read past the end becomes the `Truncated` error, except for the signature: a stream of fewer than 4 bytes fails with `BadSignature`, as a short `ReadCString` cannot give "AFS2"; what `EndianStream` really does at end of stream is not modelled. The block is taken to start at stream offset 0: the code reads the header from the current position but seeks the id and position fields from the beginning of the stream (`SeekOrigin.Begin`), so its index reads are right only for a block at offset 0, and reading from any other offset is not modelled.
- `VldPool`: its source is not part of this model. Its assumed contract is the class in `pool.dfy`: zero padding up to the alignment, then the payload.
- Files and pool I/O: reading a payload through `Put(FilePath)` is not modelled; each entry instead carries the file's bytes. `vldPool.Clear` is not modelled.
- `Helpers.Align`: it is not part of this model. It is taken to return the least multiple of the alignment that is at least the value. What it does for an alignment of 0 is unknown. The model fails with `ZeroAlignment` at the first point where the code would align to 0: after the first iteration's loads in `Read`, and at the first `Put` in `Write`.
- `ArchiveBase` and `EntryBase`: neither is part of this model. The entry list is taken to start empty. `Read` does not clear it. `Position` and `Length` are unbounded integers, standing for C# `long`. A new entry's length is 0.
- Entry identity: entries are values, so aliasing between the list and outside references is not modelled. `Write`'s in-place `Position` update becomes an update at that entry's list index. When the same entry object appears twice in the list, the code keeps only the later `Position` assignment for both places; the model keeps one value per place.
- Exceptions: the types and messages are collapsed into the `Error` variants.
- The two enumerations of `orderedEntries`: both loops of `Write` use one fixed sorted order. This matches the source, because the sort key `Id` is never changed between the loops.
- Wire.ControlRoundTrip: proved only for widths below 256. Wider values lose bits to the masks, which `PackControl` models but no lemma states.
- Properties.RoundTrip: stated only for 2-byte ids, 4-byte positions, fewer than 65536 entries and pool lengths below 2^32. The code gives no round trip with 2-byte positions (see `Properties.ContentStart`). With a wider count or larger pool, the `ushort`/`uint` casts lose bits.
