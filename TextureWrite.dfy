/**
 * TextureFile::writeToFile, as the bytes it leaves in the file: the
 * format code, the tags in key order with a zero block for SFFO, the
 * palette, the mipmap records, a six-byte terminator, and finally the
 * recorded mipmap offsets written back from the start of the SFFO block.
 */
module TextureWrite {
  import opened ByteStream
  import opened MipMaps
  import opened Tags
  import opened Textures

  /** The dummy end-of-chain record: zero width, height and length. */
  const TERMINATOR_SIZE: nat := 6

  /** The palette: its entry count (size / 3, cut to 16 bits), then every
      palette byte. */
  function PaletteBlock(palette: seq<byte>): (r: seq<byte>)
    ensures |r| == 2 + |palette|
  {
    LE16((|palette| / 3) % 0x1_0000) + palette
  }

  /** The palette block starts with the entry count, read back as a
      little-endian word, and carries the palette unchanged after it. */
  lemma PaletteBlockLayout(palette: seq<byte>)
    ensures var r := PaletteBlock(palette);
      LE(r[..2]) == (|palette| / 3) % 0x1_0000 && r[2..] == palette
  {
    var count := LE16((|palette| / 3) % 0x1_0000);
    DecodeEncode((|palette| / 3) % 0x1_0000, 2);
    assert (count + palette)[..2] == count;
    assert (count + palette)[2..] == palette;
  }

  /** The records of the mipmaps, in list order. */
  function MipmapBlock(ms: seq<MipMap>): seq<byte>
  {
    if ms == [] then [] else MipmapBlock(ms[..|ms| - 1]) + EncodeMipmap(ms[|ms| - 1])
  }

  /** A record is at least its 7 header bytes. */
  lemma {:induction false} MipmapBlockSize(ms: seq<MipMap>)
    ensures |MipmapBlock(ms)| >= RECORD_HEADER_SIZE * |ms|
  {
    if ms != [] {
      MipmapBlockSize(ms[..|ms| - 1]);
    }
  }

  /** `mipmapOffsets`: the output position of each record when the first
      starts at `base`, each cut to 32 bits. */
  function MipmapOffsets(base: nat, ms: seq<MipMap>): (r: seq<u32>)
    ensures |r| == |ms|
  {
    if ms == [] then []
    else MipmapOffsets(base, ms[..|ms| - 1]) + [(base + |MipmapBlock(ms[..|ms| - 1])|) % U32_MODULUS]
  }

  /** The offsets as the backpatch writes them: four little-endian bytes
      each, in order. */
  function OffsetBytes(offsets: seq<u32>): (r: seq<byte>)
    ensures |r| == 4 * |offsets|
  {
    if offsets == [] then [] else OffsetBytes(offsets[..|offsets| - 1]) + LE32(offsets[|offsets| - 1])
  }

  /** The tag map as it goes out before the backpatch: SFFO, whatever its
      value, is written with a length of 64 and 64 zero bytes. */
  function WrittenTags(tags: TagMap): TagMap
  {
    SetSffo(tags, Zeros(OFFSET_BLOCK_SIZE))
  }

  /** The file up to the backpatch. */
  function Unpatched(t: Texture): seq<byte>
    requires WritableKeys(t.tags)
  {
    SetSffoWritable(t.tags, Zeros(OFFSET_BLOCK_SIZE));
    LE16(t.format) + EncodeTags(WrittenTags(t.tags)) + PaletteBlock(t.palette)
      + MipmapBlock(t.mipmaps) + Zeros(TERMINATOR_SIZE)
  }

  /** Where the first mipmap record starts. */
  function MipmapsStart(t: Texture): nat
    requires WritableKeys(t.tags)
  {
    SetSffoWritable(t.tags, Zeros(OFFSET_BLOCK_SIZE));
    2 + |EncodeTags(WrittenTags(t.tags))| + 2 + |t.palette|
  }

  /** The offsets the writer records. */
  function MipmapStarts(t: Texture): seq<u32>
    requires WritableKeys(t.tags)
  {
    MipmapOffsets(MipmapsStart(t), t.mipmaps)
  }

  /** `offsetsOffset`: the position just after the SFFO length field, cut to
      32 bits, or 0 when the map has no SFFO tag. */
  function OffsetsOffset(t: Texture): u32
    requires WritableKeys(t.tags)
  {
    SetSffoWritable(t.tags, Zeros(OFFSET_BLOCK_SIZE));
    match SffoValueAt(WrittenTags(t.tags))
    case None => 0
    case Some(p) => (2 + p) % U32_MODULUS
  }

  /** The backpatch stays inside the file and clear of the terminator,
      whatever the number of mipmaps: every record is at least 7 bytes,
      more than the 4 bytes of its offset. */
  lemma PatchFits(t: Texture)
    requires WritableKeys(t.tags)
    ensures OffsetsOffset(t) + 4 * |t.mipmaps| + TERMINATOR_SIZE <= |Unpatched(t)|
  {
    var w := WrittenTags(t.tags);
    SetSffoWritable(t.tags, Zeros(OFFSET_BLOCK_SIZE));
    var size := |EncodeTags(w)|;
    assert |Unpatched(t)| == 2 + size + 2 + |t.palette| + |MipmapBlock(t.mipmaps)| + TERMINATOR_SIZE;
    MipmapBlockSize(t.mipmaps);
    match SffoValueAt(w)
    case None =>
      assert OffsetsOffset(t) == 0;
    case Some(p) =>
      SffoValueBound(w);
      SetSffoGet(t.tags, Zeros(OFFSET_BLOCK_SIZE), SFFO);
      assert p + OFFSET_BLOCK_SIZE <= size;
      DivModUnique(2 + p, U32_MODULUS, (2 + p) / U32_MODULUS, (2 + p) % U32_MODULUS);
      assert OffsetsOffset(t) == (2 + p) % U32_MODULUS <= 2 + p;
  }

  /** The file writeToFile leaves behind for t, its mipmaps already in the
      order they are written. */
  function Serialize(t: Texture): (r: seq<byte>)
    requires WritableKeys(t.tags)
    ensures |r| == |Unpatched(t)|
  {
    PatchFits(t);
    Overwrite(Unpatched(t), OffsetsOffset(t), OffsetBytes(MipmapStarts(t)))
  }

  // ---- the writer's loops ----

  /** The position of the SFFO value in the output, cut to 32 bits, when
      the records of m follow `start` bytes; 0 without SFFO. */
  function SlotAfter(start: nat, m: TagMap): u32
    requires WritableKeys(m)
  {
    match SffoValueAt(m)
    case None => 0
    case Some(p) => (start + p) % U32_MODULUS
  }

  /** One more entry of the tag loop, as written. */
  lemma WrittenTagsStep(tags: TagMap, i: nat)
    requires Ordered(tags) && WritableKeys(tags) && i < |tags|
    ensures WritableKeys(WrittenTags(tags[..i])) && WritableKeys(WrittenTags(tags[..i + 1]))
    ensures var e := tags[i];
      EncodeTags(WrittenTags(tags[..i + 1]))
      == EncodeTags(WrittenTags(tags[..i])) + TagRecord(e.key, if e.key == SFFO then Zeros(OFFSET_BLOCK_SIZE) else e.value)
    ensures SffoValueAt(WrittenTags(tags[..i + 1]))
            == if tags[i].key == SFFO then Some(|EncodeTags(WrittenTags(tags[..i]))| + TAG_HEADER_SIZE)
               else SffoValueAt(WrittenTags(tags[..i]))
  {
    var z := Zeros(OFFSET_BLOCK_SIZE);
    var e := tags[i];
    var e' := if e.key == SFFO then Entry(SFFO, z) else e;
    assert tags[..i + 1] == tags[..i] + [e];
    assert WritableKeys(tags[..i]);
    SetSffoWritable(tags[..i], z);
    SetSffoAppend(tags[..i], e, z);
    EncodeTagsAppend(WrittenTags(tags[..i]), [e']);
    assert EncodeTags([e']) == TagRecord(e'.key, e'.value) + EncodeTags([]);
    SffoValueAtAppend(WrittenTags(tags[..i]), e');
    if e.key == SFFO {
      OrderedFirst(tags, i);
      SetSffoGet(tags[..i], z, SFFO);
    }
  }

  /** The value an entry goes out with: the zero block for SFFO. */
  function WrittenValue(e: Entry): seq<byte>
  {
    if e.key == SFFO then Zeros(OFFSET_BLOCK_SIZE) else e.value
  }

  /** One more entry of the tag loop: the output grows by that entry's
      record, and `offsetsOffset` moves to just after its length field
      when the entry is SFFO. */
  lemma WrittenStep(output: seq<byte>, tags: TagMap, i: nat)
    requires Ordered(tags) && WritableKeys(tags) && i < |tags|
    ensures WritableKeys(WrittenTags(tags[..i])) && WritableKeys(WrittenTags(tags[..i + 1]))
    ensures output + EncodeTags(WrittenTags(tags[..i + 1]))
            == output + EncodeTags(WrittenTags(tags[..i])) + TagRecord(tags[i].key, WrittenValue(tags[i]))
    ensures SlotAfter(|output|, WrittenTags(tags[..i + 1]))
            == if tags[i].key == SFFO then (|output| + |EncodeTags(WrittenTags(tags[..i]))| + TAG_HEADER_SIZE) % U32_MODULUS
               else SlotAfter(|output|, WrittenTags(tags[..i]))
  {
    WrittenTagsStep(tags, i);
    var before, after := WrittenTags(tags[..i]), WrittenTags(tags[..i + 1]);
    var rec := TagRecord(tags[i].key, WrittenValue(tags[i]));
    assert EncodeTags(after) == EncodeTags(before) + rec;
    assert output + (EncodeTags(before) + rec) == output + EncodeTags(before) + rec;
    if tags[i].key == SFFO {
      var p := |EncodeTags(before)| + TAG_HEADER_SIZE;
      assert SffoValueAt(after) == Some(p);
      assert SlotAfter(|output|, after) == (|output| + p) % U32_MODULUS;
    } else {
      assert SffoValueAt(after) == SffoValueAt(before);
    }
  }

  /** The body of the tag loop for one entry: the marker and the four name
      bytes; then for SFFO a length of 64 and 64 zero bytes, for any other
      tag its length and value. `valueAt` is the output position after the
      length field, where the SFFO block begins. */
  method WriteTag(output: seq<byte>, e: Entry) returns (output': seq<byte>, valueAt: nat)
    requires |e.key| >= 3
    ensures output' == output + TagRecord(e.key, WrittenValue(e))
    ensures valueAt == |output| + TAG_HEADER_SIZE
  {
    output' := output + GGAT + NameBytes(e.key);
    if e.key == SFFO {
      output' := output' + LE32(OFFSET_BLOCK_SIZE);
      valueAt := |output'|;
      output' := output' + Zeros(OFFSET_BLOCK_SIZE);
    } else {
      output' := output' + LE32(|e.value| % U32_MODULUS);
      valueAt := |output'|;
      output' := output' + e.value;
    }
  }

  /** The tag loop of writeToFile: every entry in key order, remembering
      as `offsetsOffset` where the SFFO block begins. On a std::map this
      writes the records of the map with its SFFO value replaced by the
      zero block. */
  method WriteTags(output: seq<byte>, tags: TagMap) returns (output': seq<byte>, offsetsOffset: u32)
    requires Ordered(tags) && WritableKeys(tags)
    ensures WritableKeys(WrittenTags(tags))
    ensures output' == output + EncodeTags(WrittenTags(tags))
    ensures offsetsOffset == SlotAfter(|output|, WrittenTags(tags))
  {
    output', offsetsOffset := output, 0;
    assert tags[..0] == [];
    for i := 0 to |tags|
      invariant WritableKeys(WrittenTags(tags[..i]))
      invariant output' == output + EncodeTags(WrittenTags(tags[..i]))
      invariant offsetsOffset == SlotAfter(|output|, WrittenTags(tags[..i]))
    {
      WrittenStep(output, tags, i);
      var valueAt;
      output', valueAt := WriteTag(output', tags[i]);
      if tags[i].key == SFFO {
        offsetsOffset := valueAt % U32_MODULUS;
      }
    }
    assert tags[..|tags|] == tags;
  }

  /** The mipmap loop of writeToFile: record the output position, then
      write the record. */
  method WriteMipmaps(output: seq<byte>, ms: seq<MipMap>) returns (output': seq<byte>, offsets: seq<u32>)
    ensures output' == output + MipmapBlock(ms)
    ensures offsets == MipmapOffsets(|output|, ms)
  {
    output', offsets := output, [];
    assert ms[..0] == [];
    for i := 0 to |ms|
      invariant output' == output + MipmapBlock(ms[..i])
      invariant offsets == MipmapOffsets(|output|, ms[..i])
    {
      assert ms[..i + 1][..i] == ms[..i];
      offsets := offsets + [|output'| % U32_MODULUS];
      output' := WriteMipmap(output', ms[i]);
    }
    assert ms[..|ms|] == ms;
  }

  /** The backpatch: seek to `at` and write the offsets one after another. */
  method PatchOffsets(output: seq<byte>, at: nat, offsets: seq<u32>) returns (output': seq<byte>)
    requires at + 4 * |offsets| <= |output|
    ensures output' == Overwrite(output, at, OffsetBytes(offsets))
  {
    output' := output;
    assert offsets[..0] == [];
    assert output[..at] + [] + output[at..] == output;
    for i := 0 to |offsets|
      invariant output' == Overwrite(output, at, OffsetBytes(offsets[..i]))
    {
      assert offsets[..i + 1][..i] == offsets[..i];
      OverwriteAdjacent(output, at, OffsetBytes(offsets[..i]), LE32(offsets[i]));
      output' := Overwrite(output', at + 4 * i, LE32(offsets[i]));
    }
    assert offsets[..|offsets|] == offsets;
  }
}
