# PAA texture container and MipMapTool, modelled in Dafny

This project models the core of MipMapTool, a command-line tool for Arma 3
PAA texture files. It models:

- the PAA reader and writer, `TextureFile` and `MipMap` in
  `TextureFile.hpp` and `TextureFile.cpp`;
- the two commands that work on textures: `unpack`, which writes one
  file per mipmap, and the merge, which packs the best mipmap of each
  width from several files into one (`MipMapTool.cpp`).

A PAA file, as the code reads and writes it, has these parts in order:

1. a two-byte format code (`PAAType`);
2. a block of tagged records, each made of:
   - the marker `GGAT`;
   - a four-byte name;
   - a 32-bit length;
   - the value;
3. a palette: a 16-bit entry count, then three bytes per entry;
4. the mipmap records, each made of:
   - a 16-bit width (bit 15 is the compressed flag);
   - a 16-bit height;
   - a 24-bit payload length;
   - the payload;
5. a six-byte zero terminator.

The `SFFO` tag holds a table of sixteen 32-bit mipmap offsets. The
writer reserves that table as 64 zero bytes and fills it in once the
mipmaps are written ("backpatch"). The reader takes the non-zero words
of the table as the mipmap positions. For each position it derives a
size hint from the next offset, used when a record's stored length is
zero.

Modules:

- `ByteStream`:
  - unsigned integer widths and little-endian encoding;
  - bitwise AND/OR on naturals;
  - the error outcomes of a read;
  - overwrite-at-offset (the seek back of the backpatch).
- `MipMaps`:
  - the mipmap value and `getRealSize`;
  - `readMipmap` / `writeMipmap` as specification functions and as methods;
  - the sort by real size that `writeToFile` performs.
- `Tags`:
  - the ordered tag map (`std::map<std::string, std::string>`);
  - the tag-block reader (the loop as a method, against a scanning function);
  - the tag-record writer;
  - the SFFO backpatch on the encoded records;
  - the round trip of the tag block.
- `Textures`: the `PAAType` codes, the texture value with its defaults, and `copyNoMipmap` on values.
- `TextureRead`:
  - `readFromStream`: the format, the tags, the offset table, the size hints, the CGVA/CXAM/GALF scalar tags, the palette and the mipmap loop;
  - the loops as methods proved against specification functions.
- `TextureWrite`: `writeToFile` as the byte string it produces, and the methods for its three loops and the backpatch.
- `TextureLayout`: where things land in the written file:
  - mipmap record positions;
  - the terminator;
  - the reserved block;
  - the two backpatch hazards (no SFFO tag, more than 16 mipmaps).
- `TextureRoundTrip`: writing a texture and reading it back into a fresh `TextureFile`.
- `TextureFiles`: the `TextureFile` class, whose fields the three operations update in place.
- `WidthMaps`: the `std::map<uint16_t, std::shared_ptr<MipMap>>` the merge fills with `insert_or_assign`.
- `MipMapTool`: the unpack loop and the merge.

Integer widths:

- Fixed-width fields are subset types of `int` (`byte`, `u16`, `u32`).
- Every narrowing the source performs is written out:
  - the 24-bit payload length;
  - the 32-bit tag length;
  - the 16-bit palette count;
  - the 32-bit offsets;
  - the unsigned wrap of the size hint.

Where the source has undefined behaviour, the model does one of two things:

- reading past the end of the stream, or reading a 4-byte scalar tag
  whose value is shorter than 3 bytes (so that the read runs past the
  string's terminator), becomes an explicit error result;
- a tag key shorter than three bytes when writing, or `front()`/`back()`
  on an empty vector that the source would reach, becomes a precondition.

The header declares `MipMap::readMipmap(std::istream&)`. The definition
in `TextureFile.cpp` takes an extra `expectedDataSize` argument. The
model follows the definition.

The `type` field has no initialiser in the header. `std::make_shared`
value-initialises it, so a fresh texture has code 0 (`def`), and the
model uses 0.

## Model

| member | source | states |
|---|---|---|
| MipMaps.RealSizeOf | TextureFile.hpp:14-16 | the real size is below 0x8000 |
| MipMaps.MaskedWidth | TextureFile.hpp:14-16 | `width & 0x7fff` is the width modulo 2^15: the compressed flag is dropped |
| MipMaps.CompressedFlagIgnored | TextureFile.hpp:14-16 | setting the compressed flag keeps the width a 16-bit value and leaves the real size unchanged |
| MipMaps.ReadMipmap | TextureFile.cpp:26-51 | the method's result is the decoded record; at a zero width or height it stops after 4 bytes with no data (returns false); otherwise it consumes 7 header bytes plus the payload |
| MipMaps.DecodeMipmap | TextureFile.cpp:26-51 | a successful read ends inside the stream, at least 4 bytes on. It yields a mipmap exactly when width and height are both non-zero, and then it ends right after the 7 header bytes and the payload |
| MipMaps.EndOfChain | TextureFile.cpp:28-30 | a record with zero width or zero height always reads as the end of the chain, after exactly 4 bytes, with no payload |
| MipMaps.ZeroLengthRepair | TextureFile.cpp:35-48 | a zero stored length takes exactly `expectedDataSize` payload bytes (none when the hint is also 0) |
| MipMaps.StoredLength | TextureFile.cpp:35-36 | a non-zero stored length is the payload length, and it is below 2^24 (three bytes read into a zeroed 32-bit word) |
| MipMaps.WriteMipmap | TextureFile.cpp:53-60 | appends width, height, the low 3 bytes of the 32-bit size and the payload; 7 + size bytes when the size fits 32 bits |
| MipMaps.EncodeMipmap | TextureFile.cpp:53-60 | when the payload length fits 32 bits, a record is 7 header bytes followed by the payload's length in bytes |
| MipMaps.EncodedHeader | TextureFile.cpp:53-60 | the written header decodes to the width, the height and the payload size modulo 2^24 |
| MipMaps.ReadWrittenMipmap | TextureFile.cpp:26-60 | a written record with non-zero dimensions and a payload below 2^24 reads back as the same mipmap, followed by the position after it. An empty payload reads back only when the hint is 0, since a zero stored length takes the hint's size instead |
| MipMaps.SortBySize | TextureFile.cpp:219-221 | the mipmaps sorted by decreasing real size, as a permutation of the input |
| MipMaps.InsertBySize | TextureFile.cpp:219-221 | inserting into a sorted list keeps it sorted and adds exactly that mipmap |
| Textures.TypeOf | TextureFile.hpp:23-32 | a code maps to the named type with that code, and to none when no named type has it |
| Textures.TypeCodes | TextureFile.hpp:23-32 | every named type (`def` = 0, `invalid` = 0x8081) is found again from its code, so the codes are distinct |
| Textures.NoMipmaps | TextureFile.cpp:237-248 | the copy has no mipmaps and agrees with the original on everything else |
| Tags.LessTransitive | TextureFile.hpp:49 | the key order of the tag map is transitive |
| Tags.LessTotal | TextureFile.hpp:49 | the key order of the tag map is total |
| Tags.GetFound | TextureFile.hpp:49 | a key is found exactly when an entry has it, and the value found is that entry's |
| Tags.PutGet | TextureFile.cpp:84 | after `tags[name] = value` the key maps to the new value |
| Tags.PutGetOther | TextureFile.cpp:84 | storing one key leaves every other key's value unchanged |
| Tags.PutOrdered | TextureFile.cpp:84 | storing a key keeps the map in strictly increasing key order |
| Tags.Put | TextureFile.cpp:84 | after storing, the map is non-empty and its first key is either the stored key or the old first key |
| Tags.PutAllGet | TextureFile.cpp:65-89 | after the tag loop a key maps to the value of its last record, or to its earlier value when no record names it |
| Tags.CStringStops | TextureFile.cpp:74-77 | the tag name is the longest zero-free prefix of the four name bytes |
| Tags.CStringWhole | TextureFile.cpp:74-77 | a name with no zero byte is read whole |
| Tags.CStringTerminated | TextureFile.cpp:74-77 | a zero-free name followed by a NUL byte reads back as that name |
| Tags.ScanRecordsStops | TextureFile.cpp:65-72 | the tag loop stops, without consuming them, in front of four bytes that are present and are not `GGAT` |
| Tags.ScanTagsOrdered | TextureFile.cpp:65-89 | reading tags into an ordered map leaves it ordered |
| Tags.ReadTags | TextureFile.cpp:65-89 | the tag loop returns the map of the scanned records and the position after the tag block, or the truncation error |
| Tags.NameBytes | TextureFile.cpp:196 | the four name bytes written are the key's first three or four characters, followed by the `c_str` terminator when the key is shorter than four |
| Tags.CStringNameBytes | TextureFile.cpp:196 | the four name bytes written for a zero-free key of 3 or 4 bytes read back as that key |
| Tags.EncodeTagsAppend | TextureFile.cpp:194-210 | the records of a concatenated map are the records of each part, in order |
| Tags.SetSffoGet | TextureFile.cpp:198-204 | replacing the SFFO value changes only the SFFO key, and only if the map holds it |
| Tags.NoSffoUnchanged | TextureFile.cpp:198-204 | without an SFFO key, replacing its value changes nothing |
| Tags.SffoValueAtAppend | TextureFile.cpp:198-204 | the SFFO value's position in the encoded records is found in the part that holds the SFFO key |
| Tags.PatchSffo | TextureFile.cpp:198-204 | writing w over the reserved SFFO value of the encoded records gives the encoding of the map whose SFFO value is w, at an unchanged position |
| Tags.EncodeTagsSize | TextureFile.cpp:194-210 | the encoded records take 12 bytes plus the value length per entry |
| Tags.RecordFields | TextureFile.cpp:66-83 | a written record shows the marker, its name, its length and its value at the offsets the reader uses |
| Tags.EncodedRecords | TextureFile.cpp:65-89 | written records followed by a non-marker word scan back to the same entries, ending right after them |
| Tags.TagsRoundTrip | TextureFile.cpp:65-89 | writing an ordered map with 3- or 4-byte zero-free keys and reading it back gives the same map, with the position just past the block |
| TextureRead.WordsAt | TextureFile.cpp:101-103 | word i of the SFFO value is the little-endian word at byte 4i |
| TextureRead.NonZeroMembers | TextureFile.cpp:105 | an offset is kept exactly when it occurs in the table and is not zero |
| TextureRead.NonZeroAppend | TextureFile.cpp:98-106 | dropping zero words is done piecewise over a concatenation |
| TextureRead.NonZeroKeeps | TextureFile.cpp:105 | non-zero words are all kept and zero words are all dropped |
| TextureRead.DecodeOffsets | TextureFile.cpp:94-108 | the offset loop gives the table's non-zero 32-bit words, in order |
| TextureRead.FirstIndex | TextureFile.cpp:153 | `std::find` gives the first index holding the offset |
| TextureRead.ExpectedSize | TextureFile.cpp:153-156 | if a next offset exists, this offset plus 7 plus the hint lands on it modulo 2^32. For the last offset the hint is 0 |
| TextureRead.HintLands | TextureFile.cpp:156 | the 32-bit hint `next - at - 7`, added back to `at + 7`, gives `next` again modulo 2^32, even when the subtraction wraps |
| TextureRead.ExpectedSizeNext | TextureFile.cpp:153-156 | with distinct offsets, the hint is the next offset minus this one minus 7, modulo 2^32; it is 0 for the last offset |
| TextureRead.ExpectedSizeWraps | TextureFile.cpp:154-156 | when the next offset is less than 7 bytes further on, the unsigned subtraction wraps, and the hint is at least 2^32 - 7 - offset |
| TextureRead.ExpectedSizeRepeated | TextureFile.cpp:153-156 | a repeated offset gets the hint of its first occurrence |
| TextureRead.ReadMipmapAt | TextureFile.cpp:147-169 | a successful mipmap loop yields one mipmap per offset, in table order; the i-th is the record decoded at offset i with its hint |
| TextureRead.ReadMipmapsCount | TextureFile.cpp:147-169 | a successful mipmap loop from the k-th offset yields exactly one mipmap per remaining offset |
| TextureRead.ReadMipmapsStep | TextureFile.cpp:147-169 | one pass of the loop: a failed record read fails the loop, otherwise its mipmap comes before those read from the later offsets |
| TextureRead.ReadMipmaps | TextureFile.cpp:147-169 | the loop appends to the existing mipmaps exactly what the specification reads, or fails as it does |
| TextureRead.ScalarTag | TextureFile.cpp:112-130 | a scalar tag fails exactly when present with fewer than 3 bytes; otherwise it is absent exactly when the key is |
| TextureRead.ScalarTagWritten | TextureFile.cpp:112-130 | a tag whose value starts with the 4 bytes of x reads as x |
| TextureRead.ScalarTagThree | TextureFile.cpp:112-130 | a 3-byte value reads as those three bytes little-endian with a zero high byte, the string's NUL terminator |
| TextureRead.FlagBits | TextureFile.cpp:124-130 | `flags & 1` and `flags & 2` test bits 0 and 1 |
| TextureRead.ApplyTags | TextureFile.cpp:112-130 | CGVA and CXAM replace the colours, and GALF bits 0 and 1 set (never clear) the alpha and transparent flags; nothing else changes; this fails exactly when one of the three is present with fewer than 3 bytes |
| TextureRead.ReadPalette | TextureFile.cpp:135-140 | the palette is 3 bytes per counted entry, read right after the 16-bit count |
| TextureRead.ReadTextureOrdered | TextureFile.cpp:62-170 | reading into an ordered tag map leaves it ordered |
| TextureRead.ReadStream | TextureFile.cpp:62-170 | `readFromStream` computes the specification's result from the stream and the current state |
| TextureRead.ReadTexture | TextureFile.cpp:62-170 | a stream shorter than 2 bytes fails as truncated. On success the format is the first two bytes read little-endian and the palette is whole 3-byte entries. The old mipmaps stay in front, followed by exactly one mipmap per offset in the table |
| TextureWrite.MipmapBlockSize | TextureFile.cpp:223-228 | the mipmap records take at least 7 header bytes each |
| TextureWrite.PaletteBlock | TextureFile.cpp:212-214 | the palette block is 2 bytes longer than the palette |
| TextureWrite.PaletteBlockLayout | TextureFile.cpp:212-214 | the block's first two bytes read back little-endian as the entry count (size / 3, cut to 16 bits), and the palette follows them unchanged |
| TextureWrite.WriteTag | TextureFile.cpp:194-210 | appends one record: the marker, the name, the length and the value, where SFFO's value is 64 zero bytes. The returned position is just after the 12-byte record header, where the value starts |
| TextureWrite.Serialize | TextureFile.cpp:188-235 | the backpatch writes in place: the finished file is exactly as long as the file before the backpatch |
| TextureWrite.PatchFits | TextureFile.cpp:193-234 | the offsets written from the remembered position (4 bytes each) end before the six terminator bytes, whether or not there is an SFFO tag |
| TextureWrite.WriteTags | TextureFile.cpp:194-210 | the tag loop writes the records of the map with the SFFO value replaced by 64 zero bytes, and returns the file position of that value (0 without SFFO) |
| TextureWrite.WriteMipmaps | TextureFile.cpp:223-228 | the mipmap loop writes the records in order and returns the position of each (modulo 2^32) |
| TextureWrite.PatchOffsets | TextureFile.cpp:232-234 | the backpatch overwrites 4 bytes per offset from the remembered position and changes nothing else |
| TextureLayout.RecordAtOffset | TextureFile.cpp:223-228 | the i-th recorded offset points at the i-th mipmap's record in the file as written before the backpatch |
| TextureLayout.ConsecutiveOffsets | TextureFile.cpp:223-228 | each recorded offset is the previous one plus 7 plus the previous payload's length, modulo 2^32 |
| TextureLayout.TerminatorKept | TextureFile.cpp:230-234 | the finished file always ends in the six zero terminator bytes; the backpatch never reaches them |
| TextureLayout.NoSffoPatchesFormat | TextureFile.cpp:232-234 | without an SFFO tag the offsets are written at position 0: the first four bytes are the first offset, and the format code becomes its low 16 bits |
| TextureLayout.ReservedBlock | TextureFile.cpp:198-204 | with SFFO, the remembered position is 2 plus the value's position in the records, and the 64 bytes there are zero before the backpatch |
| TextureLayout.TooManyMipmaps | TextureFile.cpp:223-234 | with more than 16 mipmaps, the 17th offset is written over the 4 bytes after the reserved block |
| TextureLayout.StoredTagsEncoded | TextureFile.cpp:232-234 | with at most 16 mipmaps, the patched records are the encoding of the map whose SFFO value is the offset table padded with zeros |
| TextureLayout.PatchedLayout | TextureFile.cpp:188-235 | with SFFO and at most 16 mipmaps, the file is the format, the stored tags, the palette, the mipmaps and the terminator |
| TextureLayout.LE32Low | TextureFile.cpp:232-234 | the first two bytes of a little-endian word are its low 16 bits |
| TextureRoundTrip.ChainDistinct | TextureFile.cpp:223-228 | in a file below 4 GiB the recorded offsets are pairwise distinct, and all non-zero when the first record does not start the file |
| TextureRoundTrip.ChainHint | TextureFile.cpp:153-156 | the hint of each written offset is the payload size of its own record, and 0 for the last |
| TextureRoundTrip.StoredOffsetTable | TextureFile.cpp:94-108 | the offset table read back from the stored SFFO value is the list of written offsets |
| TextureRoundTrip.TagsRead | TextureFile.cpp:62-89 | after the format code, the written tag block reads back as the stored map, stopping at the palette |
| TextureRoundTrip.ReadSerialized | TextureFile.cpp:62-235 | a written texture read into a fresh object gives the stored map with the scalar tags applied, the format, the palette and the mipmaps |
| TextureRoundTrip.RoundTrip | TextureFile.cpp:62-235 | the round trip fails exactly when CGVA, CXAM or GALF is present with fewer than 3 bytes. Otherwise it returns the format, palette and mipmaps unchanged, the SFFO value holding the offset table, every other tag unchanged, the colours from the tags or the defaults, and the flags from GALF |
| TextureFiles.TextureFile.constructor | TextureFile.hpp:42-51 | a new object has no flags, type 0, colours 0xff802020 and 0xffffffff, and no tags, palette or mipmaps |
| TextureFiles.TextureFile.ReadFromStream | TextureFile.cpp:62-170 | on success the fields become the stream's contents read on top of the old state; on failure they are unchanged; the tag map stays ordered |
| TextureFiles.TextureFile.WriteToFile | TextureFile.cpp:188-235 | produces the serialization, leaving the mipmap list sorted by size as a permutation of the old one and every other field unchanged |
| TextureFiles.TextureFile.CopyNoMipmap | TextureFile.cpp:237-248 | a fresh object with the same metadata, tags and palette and no mipmaps |
| WidthMaps.Assign | MipMapTool.cpp:164-170 | `insert_or_assign`: the width now maps to the new mipmap, every other width keeps its slot, and the keys stay ascending |
| WidthMaps.AssignAll | MipMapTool.cpp:167-169 | the inner loop keeps the map's keys strictly ascending and every key equal to its mipmap's width |
| WidthMaps.Collect | MipMapTool.cpp:166-170 | after both loops the keys are strictly ascending and every key is its mipmap's width |
| WidthMaps.FindBelow | MipMapTool.cpp:164-170 | a width below every key is not in the map |
| WidthMaps.LastWithWidthSpec | MipMapTool.cpp:164-170 | the last mipmap of a width is one of the visited mipmaps with that width, and there is one exactly when some visited mipmap has that width |
| WidthMaps.LastWithWidthAppend | MipMapTool.cpp:164-170 | in a concatenation, a later occurrence of a width replaces an earlier one |
| WidthMaps.AssignAllFind | MipMapTool.cpp:165-169 | after the inner loop a width maps to the last mipmap of that width in the list, or to what it mapped to before |
| WidthMaps.CollectFind | MipMapTool.cpp:164-170 | after both loops each width maps to the last mipmap of that width over all textures in order |
| WidthMaps.FindValues | MipMapTool.cpp:176-180 | a mipmap is among the map's values exactly when its width maps to it |
| WidthMaps.Merged | MipMapTool.cpp:164-180 | the pushed mipmaps have strictly ascending widths. One is pushed exactly when no later visited mipmap has its width, and every visited width is represented |
| MipMapTool.InsertByWidth | MipMapTool.cpp:159-162 | inserting a texture keeps the list sorted by first-mipmap width and adds exactly that texture |
| MipMapTool.SortByWidth | MipMapTool.cpp:159-162 | the textures sorted by the width of their first mipmap, largest first, as a permutation of the input |
| MipMapTool.SingleSorted | MipMapTool.cpp:81-95 | sorting a one-mipmap list leaves it as it was |
| MipMapTool.Unpack | MipMapTool.cpp:81-96 | one file per mipmap, in order; file i is the texture without mipmaps plus mipmap i, serialized. Writable keys are needed only when there is a mipmap to write |
| MipMapTool.UnpackOne | MipMapTool.cpp:82-95 | the loop body for one mipmap: a fresh copy with just that mipmap, and its serialization |
| MipMapTool.CollectMipmaps | MipMapTool.cpp:164-170 | the two loops build the map of every mipmap of every texture, visited in order |
| MipMapTool.Pack | MipMapTool.cpp:172-180 | a fresh copy of the last texture without mipmaps, given the map's mipmaps in ascending width order |
| MipMapTool.MergedAnyOrder | MipMapTool.cpp:164-184 | what `Merged` says of the pushed mipmaps also holds after `writeToFile` reorders them |
| MipMapTool.MergeSorted | MipMapTool.cpp:164-184 | the result keeps the last texture's metadata. Its mipmaps are the last one of each width over all textures, sorted by size. The output is its serialization |
| MipMapTool.Merge | MipMapTool.cpp:159-184 | sorts two or more textures by first-mipmap width and leaves a single texture as it is (it may then have no mipmaps), then merges. The result keeps the metadata of a texture whose first mipmap is narrowest. It holds exactly the last-visited mipmap of each width, and every width is present |

## Left out

- Console output is not modelled. This covers the verbose log, the warnings for a width or height that is not a power of two, and the warnings for a zero payload length. None of them affects the result.
- `readFromFile` / `writeToFile(path)` file handling is not modelled. Streams are byte sequences, a read starts at byte 0, and a write returns the bytes. The `inputPath` fields are not modelled either, because they only name files.
- Argument handling in `MipMapTool.cpp` is not modelled. This covers the `info` mode, the `output` argument, the regular-expression output file names (`_mip<size>`) and the `hasOutput` test. `MipMapTool.Merge` always returns the output bytes.
- `std::shared_ptr` sharing is not modelled. Mipmaps are immutable values in the model. The tool never mutates a mipmap after it is read, so sharing is not observable.
- A failed read is committed differently. A short stream leaves the source's fields partly updated and its stream in a failed state. `TextureFile.ReadFromStream` instead returns `Err(Truncated)` and leaves the object unchanged.
- A scalar tag shorter than 3 bytes is undefined behaviour in the source: the 4-byte read at `data()` goes past the string's NUL terminator. `TextureRead.ScalarTag` reports it as `ShortScalarTag` instead. A 3-byte value is well defined, because the terminator is the fourth byte, and the model reads it that way.
- Tag keys shorter than three characters are undefined behaviour when written (a read past the `c_str` buffer). `TextureWrite.WriteTags` and `TextureFile.WriteToFile` therefore require every key to have at least 3 bytes (`WritableKeys`). A longer key is written as its first four bytes.
- `MipMaps.SortBySize` is a specific stable insertion sort. The source's `std::sort` may order equal-size mipmaps either way. What the rest of the model uses from it is only its contract: sorted, and a permutation.
- `MipMapTool.SortByWidth` likewise guarantees only "sorted and a permutation", because `std::sort` orders ties unspecifiedly. So `MipMapTool.Merge` does not say which texture of the narrowest width supplies the metadata, or which mipmap wins among equal widths across tied textures.
- `MipMapTool.Merge` requires every input to be ordered and to have writable keys, although only the last texture after the sort is written. `MipMapTool.MergeSorted` states the exact requirement on the sorted list.
- `MipMapTool.Merge` requires a non-empty list of textures (`back()`, `MipMapTool.cpp:172`). With two or more textures it also requires each to have at least one mipmap, because the sort compares every element through `front()` (`MipMapTool.cpp:161`). The source has undefined behaviour otherwise. A single texture is never compared, so it may have no mipmaps, and then the merge writes it back without mipmaps. `MipMapTool.Unpack` needs neither: it handles a texture with no mipmaps by writing no files.
- `MipMapTool.Unpack` models the loop for one texture file. The loop over several files repeats it independently.
- `TextureRoundTrip.RoundTrip` has preconditions. The round trip is proved only for:
  - a texture with an SFFO tag and at most 16 mipmaps;
  - 3- or 4-byte zero-free keys, and values below 2^32 bytes;
  - mipmap records with non-zero width and height and a payload below 2^24 bytes (an empty payload is allowed);
  - a palette of whole entries whose count fits 16 bits and is not 0x4747. That count is excluded whatever bytes follow it, because its two bytes read as `GG`, the start of a tag marker;
  - a file below 4 GiB.

  Outside these, the hazard lemmas in `TextureLayout` describe what goes wrong.
- `MipMaps.ReadMipmap` models the definition in `TextureFile.cpp`, with the size hint. The declaration in `TextureFile.hpp` has no hint parameter, and that declaration is not modelled.
- Multi-byte integers are read little-endian. The source reads the format, the palette count, the mipmap header fields, the 3-byte length, the SFFO words and the scalar tags by copying raw bytes into integers (`reinterpret_cast` and `input.read`, e.g. `TextureFile.cpp:28-36`, `TextureFile.cpp:103`, `TextureFile.cpp:115-127`). It writes them the same way (`TextureFile.cpp:191-234`). That matches the model only on a little-endian host.
