/**
 * What the file written by writeToFile looks like: where each mipmap
 * record starts, what the SFFO block holds after the backpatch, the
 * terminator, and the two layouts the backpatch gets wrong (no SFFO tag,
 * more than 16 mipmaps).
 */
module TextureLayout {
  import opened ByteStream
  import opened MipMaps
  import opened Tags
  import opened Textures
  import opened TextureWrite

  // ---- the mipmap records ----

  /** The records of two lists laid end to end. */
  lemma {:induction false} MipmapBlockAppend(a: seq<MipMap>, b: seq<MipMap>)
    ensures MipmapBlock(a + b) == MipmapBlock(a) + MipmapBlock(b)
    decreases |b|
  {
    if b == [] {
      assert a + b == a;
    } else {
      var init, last := b[..|b| - 1], b[|b| - 1];
      var record := EncodeMipmap(last);
      assert (a + b)[..|a + b| - 1] == a + init;
      assert MipmapBlock(a + b) == MipmapBlock(a + init) + record;
      MipmapBlockAppend(a, init);
      assert MipmapBlock(b) == MipmapBlock(init) + record;
      ConcatAssoc(MipmapBlock(a), MipmapBlock(init), record);
    }
  }

  lemma ConcatAssoc(x: seq<byte>, y: seq<byte>, z: seq<byte>)
    ensures x + y + z == x + (y + z)
  {
  }

  /** The record of mipmap i sits between the records before it and those
      after it. */
  lemma MipmapBlockSplit(ms: seq<MipMap>, i: nat)
    requires i < |ms|
    ensures MipmapBlock(ms) == MipmapBlock(ms[..i]) + EncodeMipmap(ms[i]) + MipmapBlock(ms[i + 1..])
  {
    var front, back := ms[..i + 1], ms[i + 1..];
    assert MipmapBlock(ms) == MipmapBlock(front) + MipmapBlock(back) by {
      assert ms == front + back;
      MipmapBlockAppend(front, back);
    }
    assert MipmapBlock(front) == MipmapBlock(ms[..i]) + EncodeMipmap(ms[i]) by {
      assert front[..i] == ms[..i];
    }
  }

  /** The offset recorded for mipmap i is the output position after the
      records before it, cut to 32 bits. */
  lemma {:induction false} MipmapOffsetAt(base: nat, ms: seq<MipMap>, i: nat)
    requires i < |ms|
    ensures MipmapOffsets(base, ms)[i] == (base + |MipmapBlock(ms[..i])|) % U32_MODULUS
    decreases |ms|
  {
    var init := ms[..|ms| - 1];
    if i < |ms| - 1 {
      MipmapOffsetAt(base, init, i);
      assert init[..i] == ms[..i];
    }
  }

  lemma ModSmall(a: nat)
    requires a < U32_MODULUS
    ensures a % U32_MODULUS == a
  {
    DivModUnique(a, U32_MODULUS, 0, a);
  }

  lemma ModAdd(a: nat, b: nat)
    ensures (a % U32_MODULUS + b) % U32_MODULUS == (a + b) % U32_MODULUS
  {
    var q := a / U32_MODULUS;
    assert a == q * U32_MODULUS + a % U32_MODULUS;
    DivModUnique(a + b, U32_MODULUS, q + (a % U32_MODULUS + b) / U32_MODULUS, (a % U32_MODULUS + b) % U32_MODULUS);
  }

  /** Consecutive offsets differ by the 7 header bytes and the payload of
      the earlier mipmap, in 32-bit arithmetic. */
  lemma ConsecutiveOffsets(base: nat, ms: seq<MipMap>, i: nat)
    requires i + 1 < |ms| && |ms[i].data| < U32_MODULUS
    ensures MipmapOffsets(base, ms)[i + 1]
            == (MipmapOffsets(base, ms)[i] + RECORD_HEADER_SIZE + |ms[i].data|) % U32_MODULUS
  {
    MipmapOffsetAt(base, ms, i);
    MipmapOffsetAt(base, ms, i + 1);
    assert ms[..i + 1] == ms[..i] + [ms[i]];
    MipmapBlockAppend(ms[..i], [ms[i]]);
    assert MipmapBlock([ms[i]]) == MipmapBlock([]) + EncodeMipmap(ms[i]);
    ModAdd(base + |MipmapBlock(ms[..i])|, RECORD_HEADER_SIZE + |ms[i].data|);
  }

  /** Every recorded offset is where that mipmap's record starts in the
      output, as long as the output stays below 4 GiB. */
  lemma RecordAtOffset(t: Texture, i: nat)
    requires WritableKeys(t.tags) && i < |t.mipmaps| && |Unpatched(t)| < U32_MODULUS
    ensures var at := MipmapStarts(t)[i];
      && at + |EncodeMipmap(t.mipmaps[i])| <= |Unpatched(t)|
      && Unpatched(t)[at..at + |EncodeMipmap(t.mipmaps[i])|] == EncodeMipmap(t.mipmaps[i])
  {
    SetSffoWritable(t.tags, Zeros(OFFSET_BLOCK_SIZE));
    var head := LE16(t.format) + EncodeTags(WrittenTags(t.tags)) + PaletteBlock(t.palette);
    RecordAt(Unpatched(t), head, t.mipmaps, i, MipmapsStart(t), MipmapStarts(t));
  }

  /** RecordAtOffset for any prefix in front of the mipmap records. */
  lemma RecordAt(u: seq<byte>, head: seq<byte>, ms: seq<MipMap>, i: nat, start: nat, starts: seq<u32>)
    requires u == head + MipmapBlock(ms) + Zeros(TERMINATOR_SIZE) && |u| < U32_MODULUS
    requires start == |head| && starts == MipmapOffsets(start, ms) && i < |ms|
    ensures starts[i] + |EncodeMipmap(ms[i])| <= |u|
    ensures u[starts[i]..starts[i] + |EncodeMipmap(ms[i])|] == EncodeMipmap(ms[i])
  {
    var a, e, b := MipmapBlock(ms[..i]), EncodeMipmap(ms[i]), MipmapBlock(ms[i + 1..]);
    var at := start + |a|;
    MipmapBlockSplit(ms, i);
    Located(u, head, a, e, b, Zeros(TERMINATOR_SIZE), at);
    MipmapOffsetAt(start, ms, i);
    ModSmall(at);
    assert starts[i] == at;
  }

  /** The middle piece of a concatenation, found at its position. */
  lemma Located(u: seq<byte>, h: seq<byte>, a: seq<byte>, e: seq<byte>, b: seq<byte>, z: seq<byte>, at: nat)
    requires u == h + (a + e + b) + z && at == |h| + |a|
    ensures at + |e| <= |u| && u[at..at + |e|] == e
  {
    forall k | 0 <= k < |e|
      ensures u[at + k] == e[k]
    {
      assert u[at + k] == (a + e + b)[|a| + k];
    }
  }

  // ---- the backpatch and the terminator ----

  /** The offsets as bytes: offset i is in bytes 4i to 4i + 4. */
  lemma {:induction false} OffsetBytesAt(offsets: seq<u32>, i: nat)
    requires i < |offsets|
    ensures OffsetBytes(offsets)[4 * i..4 * i + 4] == LE32(offsets[i])
    decreases |offsets|
  {
    var init := offsets[..|offsets| - 1];
    if i < |offsets| - 1 {
      OffsetBytesAt(init, i);
      assert OffsetBytes(offsets)[4 * i..4 * i + 4] == OffsetBytes(init)[4 * i..4 * i + 4];
    }
  }

  /** The backpatch never reaches the six terminator bytes: the file
      always ends in six zeros. */
  lemma TerminatorKept(t: Texture)
    requires WritableKeys(t.tags)
    ensures |Serialize(t)| >= TERMINATOR_SIZE
    ensures Serialize(t)[|Serialize(t)| - TERMINATOR_SIZE..] == Zeros(TERMINATOR_SIZE)
  {
    PatchFits(t);
    var u, s := Unpatched(t), Serialize(t);
    assert u[|u| - TERMINATOR_SIZE..] == Zeros(TERMINATOR_SIZE);
    forall k | |s| - TERMINATOR_SIZE <= k < |s|
      ensures s[k] == u[k]
    {
    }
  }

  /** Without an SFFO tag `offsetsOffset` stays 0, so the offsets are
      written over the start of the file: the two format bytes become the
      low half of the first offset. */
  lemma NoSffoPatchesFormat(t: Texture)
    requires WritableKeys(t.tags) && Get(t.tags, SFFO) == None && |t.mipmaps| > 0
    ensures OffsetsOffset(t) == 0
    ensures |Serialize(t)| >= 4 && Serialize(t)[..4] == LE32(MipmapStarts(t)[0])
    ensures LE(Serialize(t)[..2]) == MipmapStarts(t)[0] % 0x1_0000
  {
    var z := Zeros(OFFSET_BLOCK_SIZE);
    SetSffoWritable(t.tags, z);
    SetSffoGet(t.tags, z, SFFO);
    PatchFits(t);
    var s, ob := Serialize(t), OffsetBytes(MipmapStarts(t));
    OffsetBytesAt(MipmapStarts(t), 0);
    assert s[..4] == ob[..4];
    LE32Low(MipmapStarts(t)[0]);
    assert s[..2] == LE32(MipmapStarts(t)[0])[..2];
  }

  /** The first two bytes of a 32-bit word are its low 16 bits. */
  lemma LE32Low(x: u32)
    ensures LE(LE32(x)[..2]) == x % 0x1_0000
  {
    var a := x / 0x100;
    var e := LE32(x);
    assert e == [x % 0x100] + Encode(a, 3);
    assert Encode(a, 3) == [a % 0x100] + Encode(a / 0x100, 2);
    assert e[..2] == [x % 0x100, a % 0x100];
    assert LE(e[..2]) == x % 0x100 + 0x100 * (a % 0x100) by {
      assert e[..2][1..] == [a % 0x100];
      assert LE([a % 0x100]) == a % 0x100 + 0x100 * LE([]);
    }
    assert x == 0x100 * a + x % 0x100;
    assert a == 0x100 * (a / 0x100) + a % 0x100;
    DivModUnique(x, 0x1_0000, a / 0x100, x % 0x100 + 0x100 * (a % 0x100));
  }

  // ---- the SFFO block ----

  /** A write of bytes a position already holds changes nothing, so the
      trailing zero slots of the block need not be written. */
  lemma OverwriteSame(s: seq<byte>, at: nat, a: seq<byte>, z: seq<byte>)
    requires at + |a| + |z| <= |s| && s[at + |a|..at + |a| + |z|] == z
    ensures Overwrite(s, at, a + z) == Overwrite(s, at, a)
  {
    var l, r := Overwrite(s, at, a + z), Overwrite(s, at, a);
    forall k | 0 <= k < |s| ensures l[k] == r[k] {
      if at + |a| <= k < at + |a| + |z| {
        assert z[k - at - |a|] == s[k];
      }
    }
  }

  /** A write inside the first part of a concatenation. */
  lemma OverwritePrefix(a: seq<byte>, b: seq<byte>, at: nat, w: seq<byte>)
    requires at + |w| <= |a|
    ensures Overwrite(a + b, at, w) == Overwrite(a, at, w) + b
  {
    assert (a + b)[..at] == a[..at];
    assert (a + b)[at + |w|..] == a[at + |w|..] + b;
  }

  /** With an SFFO tag, `offsetsOffset` is the file position of the SFFO
      value (2 format bytes, then the value's position among the records),
      and the 64 bytes reserved there are zero before the backpatch. */
  lemma ReservedBlock(t: Texture)
    requires Ordered(t.tags) && WritableKeys(t.tags) && Get(t.tags, SFFO).Some?
    requires |Unpatched(t)| < U32_MODULUS
    ensures SffoValueAt(t.tags).Some?
    ensures OffsetsOffset(t) == 2 + SffoValueAt(t.tags).value
    ensures WritableKeys(WrittenTags(t.tags))
    ensures var e := EncodeTags(WrittenTags(t.tags));
      var p := SffoValueAt(t.tags).value;
      && p + OFFSET_BLOCK_SIZE <= |e|
      && e[p..p + OFFSET_BLOCK_SIZE] == Zeros(OFFSET_BLOCK_SIZE)
    ensures OffsetsOffset(t) + OFFSET_BLOCK_SIZE <= |Unpatched(t)|
    ensures Unpatched(t)[OffsetsOffset(t)..OffsetsOffset(t) + OFFSET_BLOCK_SIZE] == Zeros(OFFSET_BLOCK_SIZE)
  {
    var z := Zeros(OFFSET_BLOCK_SIZE);
    SetSffoWritable(t.tags, z);
    PatchSffo(t.tags, z, z);
    var e := EncodeTags(WrittenTags(t.tags));
    var p := SffoValueAt(t.tags).value;
    assert e[p..p + OFFSET_BLOCK_SIZE] == z by {
      var o := Overwrite(e, p, z);
      assert o == e;
      forall k | p <= k < p + OFFSET_BLOCK_SIZE ensures e[k] == z[k - p] {
        assert o[k] == z[k - p];
      }
    }
    var head := LE16(t.format);
    var rest := PaletteBlock(t.palette) + MipmapBlock(t.mipmaps) + Zeros(TERMINATOR_SIZE);
    assert Unpatched(t) == head + e + rest;
    assert 2 + p < U32_MODULUS;
    ModSmall(2 + p);
    assert (head + e + rest)[2 + p..2 + p + OFFSET_BLOCK_SIZE] == e[p..p + OFFSET_BLOCK_SIZE];
  }

  /** With more than 16 mipmaps the backpatch runs past the 64 reserved
      bytes: the four bytes after the block receive the 17th offset. */
  lemma TooManyMipmaps(t: Texture)
    requires Ordered(t.tags) && WritableKeys(t.tags) && Get(t.tags, SFFO).Some?
    requires |t.mipmaps| > OFFSET_SLOTS && |Unpatched(t)| < U32_MODULUS
    ensures var o := OffsetsOffset(t);
      && o + OFFSET_BLOCK_SIZE + 4 <= |Serialize(t)|
      && Unpatched(t)[o..o + OFFSET_BLOCK_SIZE] == Zeros(OFFSET_BLOCK_SIZE)
      && Serialize(t)[o + OFFSET_BLOCK_SIZE..o + OFFSET_BLOCK_SIZE + 4] == LE32(MipmapStarts(t)[OFFSET_SLOTS])
  {
    ReservedBlock(t);
    PatchFits(t);
    var o, ob := OffsetsOffset(t), OffsetBytes(MipmapStarts(t));
    OffsetBytesAt(MipmapStarts(t), OFFSET_SLOTS);
    var s := Serialize(t);
    forall k | 0 <= k < 4
      ensures s[o + OFFSET_BLOCK_SIZE + k] == LE32(MipmapStarts(t)[OFFSET_SLOTS])[k]
    {
      assert s[o + OFFSET_BLOCK_SIZE + k] == ob[OFFSET_BLOCK_SIZE + k];
      assert ob[4 * OFFSET_SLOTS..4 * OFFSET_SLOTS + 4][k] == ob[OFFSET_BLOCK_SIZE + k];
    }
  }

  /** The SFFO value after the backpatch: the N offsets, then zero words
      up to the 64 reserved bytes. */
  function StoredOffsets(t: Texture): (r: seq<byte>)
    requires WritableKeys(t.tags) && |t.mipmaps| <= OFFSET_SLOTS
    ensures |r| == OFFSET_BLOCK_SIZE
  {
    OffsetBytes(MipmapStarts(t)) + Zeros(OFFSET_BLOCK_SIZE - 4 * |t.mipmaps|)
  }

  /** The tag map as it stands in the finished file. */
  function StoredTags(t: Texture): TagMap
    requires WritableKeys(t.tags) && |t.mipmaps| <= OFFSET_SLOTS
  {
    SetSffo(t.tags, StoredOffsets(t))
  }

  /** The records of the stored map are the records as first written
      with the offsets written over the start of the SFFO value. */
  lemma StoredTagsEncoded(t: Texture)
    requires Ordered(t.tags) && WritableKeys(t.tags) && Get(t.tags, SFFO).Some?
    requires |t.mipmaps| <= OFFSET_SLOTS && |Unpatched(t)| < U32_MODULUS
    ensures WritableKeys(WrittenTags(t.tags)) && WritableKeys(StoredTags(t))
    ensures SffoValueAt(t.tags).Some?
    ensures SffoValueAt(t.tags).value + 4 * |t.mipmaps| <= |EncodeTags(WrittenTags(t.tags))|
    ensures EncodeTags(StoredTags(t))
            == Overwrite(EncodeTags(WrittenTags(t.tags)), SffoValueAt(t.tags).value, OffsetBytes(MipmapStarts(t)))
  {
    var z, w := Zeros(OFFSET_BLOCK_SIZE), StoredOffsets(t);
    var ob := OffsetBytes(MipmapStarts(t));
    SetSffoWritable(t.tags, w);
    ReservedBlock(t);
    var e := EncodeTags(WrittenTags(t.tags));
    var p := SffoValueAt(t.tags).value;
    PatchSffo(t.tags, z, w);
    assert e[p + |ob|..p + |ob| + (OFFSET_BLOCK_SIZE - |ob|)] == Zeros(OFFSET_BLOCK_SIZE - |ob|) by {
      assert e[p + |ob|..p + OFFSET_BLOCK_SIZE] == e[p..p + OFFSET_BLOCK_SIZE][|ob|..];
    }
    OverwriteSame(e, p, ob, Zeros(OFFSET_BLOCK_SIZE - |ob|));
  }

  /** Writing inside the second of five pieces changes only that piece. */
  lemma OverwriteSecond(head: seq<byte>, e: seq<byte>, pal: seq<byte>, ms: seq<byte>, end: seq<byte>, p: nat, w: seq<byte>)
    requires p + |w| <= |e|
    ensures Overwrite(head + e + pal + ms + end, |head| + p, w) == head + Overwrite(e, p, w) + pal + ms + end
  {
    var rest := pal + ms + end;
    assert head + e + pal + ms + end == (head + e) + rest;
    OverwritePrefix(head + e, rest, |head| + p, w);
    OverwriteSuffix(head, e, p, w);
    assert head + Overwrite(e, p, w) + rest == head + Overwrite(e, p, w) + pal + ms + end;
  }

  /** With an SFFO tag and at most 16 mipmaps the backpatch lands inside
      the reserved block: the finished file is the format, the records of
      the map whose SFFO value is the stored offset table, the palette,
      the mipmap records and the terminator. */
  lemma PatchedLayout(t: Texture)
    requires Ordered(t.tags) && WritableKeys(t.tags) && Get(t.tags, SFFO).Some?
    requires |t.mipmaps| <= OFFSET_SLOTS && |Unpatched(t)| < U32_MODULUS
    ensures WritableKeys(StoredTags(t))
    ensures Serialize(t)
            == LE16(t.format) + EncodeTags(StoredTags(t)) + PaletteBlock(t.palette)
               + MipmapBlock(t.mipmaps) + Zeros(TERMINATOR_SIZE)
  {
    StoredTagsEncoded(t);
    ReservedBlock(t);
    OverwriteSecond(LE16(t.format), EncodeTags(WrittenTags(t.tags)), PaletteBlock(t.palette),
                    MipmapBlock(t.mipmaps), Zeros(TERMINATOR_SIZE), SffoValueAt(t.tags).value,
                    OffsetBytes(MipmapStarts(t)));
  }
}
