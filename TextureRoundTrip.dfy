/**
 * Reading back what writeToFile wrote: a file serialized from a texture
 * whose tags carry an SFFO entry and whose (at most 16) mipmaps are real
 * records parses, from a fresh TextureFile, to the same format, palette
 * and mipmaps, to the tag map with the offset table stored in SFFO, and
 * to the colours and flags its CGVA, CXAM and GALF tags say.
 */
module TextureRoundTrip {
  import opened ByteStream
  import opened MipMaps
  import opened Tags
  import opened Textures
  import opened TextureRead
  import opened TextureWrite
  import opened TextureLayout

  // ---- the offsets of a chain of records ----

  /** A mipmap that reads back as itself: both dimensions non-zero (a zero
      one ends the chain) and a payload the 24-bit length field holds. */
  predicate Storable(m: MipMap)
  {
    m.width != 0 && m.height != 0 && |m.data| < 0x100_0000
  }

  /** Every mipmap of the list reads back as itself. */
  ghost predicate AllStorable(ms: seq<MipMap>)
  {
    forall i :: 0 <= i < |ms| ==> Storable(ms[i])
  }

  /** Without wrap-around the i-th offset is the base plus the records
      before it. */
  lemma ChainStart(base: nat, ms: seq<MipMap>, i: nat)
    requires i < |ms| && base + |MipmapBlock(ms)| < U32_MODULUS
    ensures MipmapOffsets(base, ms)[i] == base + |MipmapBlock(ms[..i])|
  {
    MipmapBlockSplit(ms, i);
    MipmapOffsetAt(base, ms, i);
    ModSmall(base + |MipmapBlock(ms[..i])|);
  }

  /** Later records start further on: each record has at least its header. */
  lemma ChainIncreasing(base: nat, ms: seq<MipMap>, i: nat, j: nat)
    requires i < j < |ms| && base + |MipmapBlock(ms)| < U32_MODULUS
    ensures MipmapOffsets(base, ms)[i] < MipmapOffsets(base, ms)[j]
  {
    ChainStart(base, ms, i);
    ChainStart(base, ms, j);
    assert ms[..j] == ms[..i] + ms[i..j];
    MipmapBlockAppend(ms[..i], ms[i..j]);
    MipmapBlockSize(ms[i..j]);
  }

  /** Hence the offsets are distinct, and none is zero when the base is not. */
  lemma ChainDistinct(base: nat, ms: seq<MipMap>)
    requires base + |MipmapBlock(ms)| < U32_MODULUS
    ensures Distinct(MipmapOffsets(base, ms))
    ensures base > 0 ==> forall i :: 0 <= i < |ms| ==> MipmapOffsets(base, ms)[i] != 0
  {
    var offs := MipmapOffsets(base, ms);
    forall i, j | 0 <= i < j < |offs| ensures offs[i] != offs[j] {
      ChainIncreasing(base, ms, i, j);
    }
    forall i | 0 <= i < |ms| ensures offs[i] >= base {
      ChainStart(base, ms, i);
    }
  }

  /** The hint the reader works out for record i is its payload length,
      and 0 for the last record. */
  lemma ChainHint(base: nat, ms: seq<MipMap>, i: nat)
    requires i < |ms| && base + |MipmapBlock(ms)| < U32_MODULUS && |ms[i].data| < U32_MODULUS
    ensures Hints(MipmapOffsets(base, ms))[i] == if i + 1 < |ms| then |ms[i].data| else 0
  {
    var offs := MipmapOffsets(base, ms);
    ChainDistinct(base, ms);
    ExpectedSizeNext(offs, i);
    if i + 1 < |ms| {
      assert offs[i + 1] == offs[i] + RECORD_HEADER_SIZE + |ms[i].data| by {
        ChainStart(base, ms, i);
        ChainStart(base, ms, i + 1);
        assert ms[..i + 1][..i] == ms[..i];
        assert MipmapBlock(ms[..i + 1]) == MipmapBlock(ms[..i]) + EncodeMipmap(ms[i]);
      }
      ModSmall(|ms[i].data|);
    }
  }

  /** One turn of the mipmap loop: a record decoded, then the rest. */
  lemma ReadStep(s: seq<byte>, offs: seq<u32>, hints: seq<u32>, k: nat, m: MipMap, rest: seq<MipMap>)
    requires |hints| == |offs| && k < |offs|
    requires DecodeMipmap(s, offs[k], hints[k]).Ok? && DecodeMipmap(s, offs[k], hints[k]).value.mip == m
    requires ReadMipmapsFrom(s, offs, hints, k + 1) == Ok(rest)
    ensures ReadMipmapsFrom(s, offs, hints, k) == Ok([m] + rest)
  {
  }

  /** Record k, decoded at its recorded offset, is mipmap k, for any hint
      that is 0 when the payload is empty. */
  lemma RecordRead(h: seq<byte>, ms: seq<MipMap>, z: seq<byte>, k: nat, hint: u32)
    requires k < |ms| && |h| + |MipmapBlock(ms)| < U32_MODULUS && Storable(ms[k])
    requires |ms[k].data| == 0 ==> hint == 0
    ensures var d := DecodeMipmap(h + MipmapBlock(ms) + z, MipmapOffsets(|h|, ms)[k], hint);
      d.Ok? && d.value.mip == ms[k]
  {
    var before, after := h + MipmapBlock(ms[..k]), MipmapBlock(ms[k + 1..]) + z;
    assert h + MipmapBlock(ms) + z == before + EncodeMipmap(ms[k]) + after by {
      MipmapBlockSplit(ms, k);
    }
    assert MipmapOffsets(|h|, ms)[k] == |before| by {
      ChainStart(|h|, ms, k);
    }
    ReadWrittenMipmap(before, ms[k], after, hint);
  }

  /** Every offset from the k-th on decodes, with its hint, to the mipmap
      of the same index. */
  ghost predicate DecodesTo(s: seq<byte>, offs: seq<u32>, hints: seq<u32>, ms: seq<MipMap>, k: nat)
    requires |hints| == |offs| == |ms|
  {
    forall i :: k <= i < |ms| ==>
      DecodeMipmap(s, offs[i], hints[i]).Ok? && DecodeMipmap(s, offs[i], hints[i]).value.mip == ms[i]
  }

  /** The mipmap loop, from the k-th offset on, collects what each offset
      decodes to. */
  lemma {:induction false} ReadDecoded(s: seq<byte>, offs: seq<u32>, hints: seq<u32>, ms: seq<MipMap>, k: nat)
    requires |hints| == |offs| == |ms| && k <= |ms| && DecodesTo(s, offs, hints, ms, k)
    ensures ReadMipmapsFrom(s, offs, hints, k) == Ok(ms[k..])
    decreases |ms| - k
  {
    if k < |ms| {
      ReadDecoded(s, offs, hints, ms, k + 1);
      ReadStep(s, offs, hints, k, ms[k], ms[k + 1..]);
      assert [ms[k]] + ms[k + 1..] == ms[k..];
    }
  }

  /** With the hints the reader works out, every record reads back: the
      records follow h, which is `base` bytes long, and `offs` are the
      positions the writer recorded for them. */
  lemma ReadChain(h: seq<byte>, ms: seq<MipMap>, z: seq<byte>, base: nat, offs: seq<u32>)
    requires |h| == base && offs == MipmapOffsets(base, ms)
    requires base + |MipmapBlock(ms)| < U32_MODULUS
    requires AllStorable(ms)
    ensures ReadMipmapsFrom(h + MipmapBlock(ms) + z, offs, Hints(offs), 0) == Ok(ms)
  {
    var hints := Hints(offs);
    forall i | 0 <= i < |ms|
      ensures DecodeMipmap(h + MipmapBlock(ms) + z, offs[i], hints[i]).Ok?
      ensures DecodeMipmap(h + MipmapBlock(ms) + z, offs[i], hints[i]).value.mip == ms[i]
    {
      ChainHint(|h|, ms, i);
      RecordRead(h, ms, z, i, hints[i]);
    }
    ReadDecoded(h + MipmapBlock(ms) + z, offs, hints, ms, 0);
  }

  // ---- the offset table ----

  lemma QuarterSum(a: nat, b: nat)
    ensures (4 * a + b) / 4 == a + b / 4
  {
    DivModUnique(4 * a + b, 4, a + b / 4, b % 4);
  }

  /** Word i of the offset bytes followed by z is offset i. */
  lemma OffsetWord(xs: seq<u32>, z: seq<byte>, i: nat)
    requires i < |xs|
    ensures 4 * i + 4 <= |OffsetBytes(xs) + z|
    ensures LE((OffsetBytes(xs) + z)[4 * i..4 * i + 4]) == xs[i]
  {
    OffsetBytesAt(xs, i);
    assert (OffsetBytes(xs) + z)[4 * i..4 * i + 4] == OffsetBytes(xs)[4 * i..4 * i + 4];
    DecodeEncode(xs[i], 4);
  }

  /** Past the offsets, the words are those of z. */
  lemma TailWord(xs: seq<u32>, z: seq<byte>, j: nat)
    requires j < |z| / 4
    ensures 4 * (|xs| + j) + 4 <= |OffsetBytes(xs) + z|
    ensures LE((OffsetBytes(xs) + z)[4 * (|xs| + j)..4 * (|xs| + j) + 4]) == Words(z)[j]
  {
    WordsAt(z, j);
    assert (OffsetBytes(xs) + z)[4 * (|xs| + j)..4 * (|xs| + j) + 4] == z[4 * j..4 * j + 4];
  }

  /** The words of the offset bytes followed by z: the offsets, then the
      words of z. */
  lemma WordsOfOffsets(xs: seq<u32>, z: seq<byte>)
    ensures Words(OffsetBytes(xs) + z) == xs + Words(z)
  {
    QuarterSum(|xs|, |z|);
    assert |Words(OffsetBytes(xs) + z)| == |xs| + |Words(z)|;
    forall i | 0 <= i < |xs| + |z| / 4
      ensures Words(OffsetBytes(xs) + z)[i] == (xs + Words(z))[i]
    {
      if i < |xs| {
        HeadWord(xs, z, i);
      } else {
        TailWordAt(xs, z, i - |xs|);
      }
    }
  }

  /** A word inside the offset bytes is that offset. */
  lemma HeadWord(xs: seq<u32>, z: seq<byte>, i: nat)
    requires i < |xs|
    ensures i < |Words(OffsetBytes(xs) + z)|
    ensures Words(OffsetBytes(xs) + z)[i] == xs[i]
  {
    var v := OffsetBytes(xs) + z;
    OffsetWord(xs, z, i);
    WordsAt(v, i);
  }

  /** A word after the offset bytes is the matching word of z. */
  lemma TailWordAt(xs: seq<u32>, z: seq<byte>, j: nat)
    requires j < |z| / 4
    ensures |xs| + j < |Words(OffsetBytes(xs) + z)|
    ensures Words(OffsetBytes(xs) + z)[|xs| + j] == Words(z)[j]
  {
    var v := OffsetBytes(xs) + z;
    TailWord(xs, z, j);
    WordsAt(v, |xs| + j);
  }

  /** The words of a zero block are all zero. */
  lemma ZeroWords(n: nat)
    ensures forall i :: 0 <= i < |Words(Zeros(n))| ==> Words(Zeros(n))[i] == 0
  {
    var z := Zeros(n);
    forall i | 0 <= i < |Words(z)| ensures Words(z)[i] == 0 {
      WordsAt(z, i);
      LEZero(z[4 * i..4 * i + 4]);
    }
  }

  /** The words of the stored SFFO value: the recorded offsets, then
      zero words. */
  lemma StoredWords(t: Texture)
    requires WritableKeys(t.tags) && |t.mipmaps| <= OFFSET_SLOTS
    ensures var zs := Words(Zeros(OFFSET_BLOCK_SIZE - 4 * |t.mipmaps|));
      && Words(StoredOffsets(t)) == MipmapStarts(t) + zs
      && forall i :: 0 <= i < |zs| ==> zs[i] == 0
  {
    WordsOfOffsets(MipmapStarts(t), Zeros(OFFSET_BLOCK_SIZE - 4 * |t.mipmaps|));
    ZeroWords(OFFSET_BLOCK_SIZE - 4 * |t.mipmaps|);
  }

  /** Dropping zero words from non-zero words followed by zero words
      leaves the non-zero ones. */
  lemma NonZeroPrefix(xs: seq<u32>, zs: seq<u32>)
    requires forall i :: 0 <= i < |xs| ==> xs[i] != 0
    requires forall i :: 0 <= i < |zs| ==> zs[i] == 0
    ensures NonZero(xs + zs) == xs
  {
    NonZeroAppend(xs, zs);
    NonZeroKeeps(xs);
    NonZeroKeeps(zs);
    assert xs + [] == xs;
  }

  /** The reader's offset table, taken from the SFFO value the file ends
      up with, is exactly the offsets the writer recorded: the recorded
      ones are non-zero, the unused slots zero. */
  lemma StoredOffsetTable(t: Texture)
    requires WritableKeys(t.tags) && Get(t.tags, SFFO).Some?
    requires |t.mipmaps| <= OFFSET_SLOTS && |Unpatched(t)| < U32_MODULUS
    ensures OffsetTable(StoredTags(t)) == MipmapStarts(t)
  {
    SetSffoGet(t.tags, StoredOffsets(t), SFFO);
    StoredWords(t);
    assert MipmapsStart(t) + |MipmapBlock(t.mipmaps)| < U32_MODULUS;
    ChainDistinct(MipmapsStart(t), t.mipmaps);
    NonZeroPrefix(MipmapStarts(t), Words(Zeros(OFFSET_BLOCK_SIZE - 4 * |t.mipmaps|)));
  }

  // ---- the parts of a written file read back ----

  /** Replacing the SFFO value keeps readable keys, and values that fit
      when the new value fits. */
  lemma SetSffoReadable(m: TagMap, v: seq<byte>)
    requires ReadableKeys(m) && ValuesFit(m) && |v| < U32_MODULUS
    ensures ReadableKeys(SetSffo(m, v)) && ValuesFit(SetSffo(m, v))
  {
    SetSffoEntries(m, v);
  }

  /** The format code reads back. */
  lemma FormatRead(fmt: u16, a: seq<byte>, b: seq<byte>, c: seq<byte>, d: seq<byte>)
    ensures ReadBytes(LE16(fmt) + a + b + c + d, 0, 2) == Ok(LE16(fmt))
    ensures LE(LE16(fmt)) == fmt
  {
    var s := LE16(fmt) + a + b + c + d;
    assert s[0] == LE16(fmt)[0] && s[1] == LE16(fmt)[1];
    assert s[0..2] == LE16(fmt);
    DecodeEncode(fmt, 2);
  }

  /** The palette block never starts with the two bytes of "GG" unless it
      has 0x4747 entries. */
  lemma PaletteNotMarker(palette: seq<byte>, rest: seq<byte>)
    requires (|palette| / 3) % 0x1_0000 != 0x4747
    ensures |PaletteBlock(palette) + rest| >= 2
    ensures (PaletteBlock(palette) + rest)[..2] != GGAT[..2]
  {
    var c := (|palette| / 3) % 0x1_0000;
    assert (PaletteBlock(palette) + rest)[..2] == LE16(c);
    DecodeEncode(c, 2);
    assert LE(GGAT[..2]) == 0x4747;
  }

  /** The tag records, followed by a palette block, scan back to the map
      they were written from. */
  lemma TagsRead(fmt: u16, m: TagMap, palette: seq<byte>, a: seq<byte>, b: seq<byte>)
    requires Ordered(m) && WritableKeys(m) && ReadableKeys(m) && ValuesFit(m)
    requires |palette| / 3 < 0x1_0000 && |palette| / 3 != 0x4747 && |a + b| >= 2
    ensures ScanTags(LE16(fmt) + EncodeTags(m) + PaletteBlock(palette) + a + b, 2, [])
            == Ok((m, 2 + |EncodeTags(m)|))
  {
    var e := EncodeTags(m);
    var s := LE16(fmt) + e + PaletteBlock(palette) + a + b;
    var after := PaletteBlock(palette) + (a + b);
    assert s == LE16(fmt) + e + after;
    assert s[2..2 + |e|] == e;
    assert s[2 + |e|..2 + |e| + 4] == after[..4];
    assert (|palette| / 3) % 0x1_0000 == |palette| / 3;
    PaletteNotMarker(palette, a + b);
    assert after[..4][..2] == after[..2];
    TagsRoundTrip(s, 2, m);
  }

  /** The palette block reads back as the palette when its entry count
      fits 16 bits. */
  lemma PaletteRead(pre: seq<byte>, palette: seq<byte>, a: seq<byte>, b: seq<byte>)
    requires |palette| % 3 == 0 && |palette| / 3 < 0x1_0000
    ensures ReadPalette(pre + PaletteBlock(palette) + a + b, |pre|) == Ok((palette, |pre| + 2 + |palette|))
  {
    var s := pre + PaletteBlock(palette) + a + b;
    var c := |palette| / 3;
    assert s == pre + PaletteBlock(palette) + (a + b);
    assert c % 0x1_0000 == c;
    assert s[|pre|..|pre| + 2] == LE16(c);
    DecodeEncode(c, 2);
    assert PaletteBlock(palette) == LE16(c) + palette + [];
    Located(s, pre, LE16(c), palette, [], a + b, |pre| + 2);
  }

  /** readFromStream into a fresh TextureFile, in terms of what each of
      its steps reads. */
  lemma ReadSteps(s: seq<byte>, fmt: u16, m: TagMap, next: nat, palette: seq<byte>, pnext: nat, ms: seq<MipMap>)
    requires ReadBytes(s, 0, 2) == Ok(LE16(fmt)) && LE(LE16(fmt)) == fmt
    requires ScanTags(s, 2, []) == Ok((m, next))
    requires ReadPalette(s, next) == Ok((palette, pnext))
    requires ReadMipmapsFrom(s, OffsetTable(m), Hints(OffsetTable(m)), 0) == Ok(ms)
    ensures var a := ApplyTags(m, EMPTY_TEXTURE.(format := fmt, tags := m));
      ReadTexture(s, EMPTY_TEXTURE)
      == if a.Err? then Err(a.error) else Ok(a.value.(palette := palette, mipmaps := ms))
  {
    assert [] + ms == ms;
  }

  /** The four reads of readFromStream on a file s in the writer's layout. */
  lemma LayoutFormat(s: seq<byte>, fmt: u16, m: TagMap, palette: seq<byte>, ms: seq<MipMap>)
    requires WritableKeys(m) && s == LE16(fmt) + EncodeTags(m) + PaletteBlock(palette) + MipmapBlock(ms) + Zeros(TERMINATOR_SIZE)
    ensures ReadBytes(s, 0, 2) == Ok(LE16(fmt)) && LE(LE16(fmt)) == fmt
  {
    FormatRead(fmt, EncodeTags(m), PaletteBlock(palette), MipmapBlock(ms), Zeros(TERMINATOR_SIZE));
  }

  lemma LayoutTags(s: seq<byte>, fmt: u16, m: TagMap, palette: seq<byte>, ms: seq<MipMap>, next: nat)
    requires Ordered(m) && WritableKeys(m) && ReadableKeys(m) && ValuesFit(m)
    requires |palette| / 3 < 0x1_0000 && |palette| / 3 != 0x4747
    requires s == LE16(fmt) + EncodeTags(m) + PaletteBlock(palette) + MipmapBlock(ms) + Zeros(TERMINATOR_SIZE)
    requires next == 2 + |EncodeTags(m)|
    ensures ScanTags(s, 2, []) == Ok((m, next))
  {
    TagsRead(fmt, m, palette, MipmapBlock(ms), Zeros(TERMINATOR_SIZE));
  }

  lemma LayoutPalette(s: seq<byte>, fmt: u16, m: TagMap, palette: seq<byte>, ms: seq<MipMap>, next: nat)
    requires WritableKeys(m) && |palette| % 3 == 0 && |palette| / 3 < 0x1_0000
    requires s == LE16(fmt) + EncodeTags(m) + PaletteBlock(palette) + MipmapBlock(ms) + Zeros(TERMINATOR_SIZE)
    requires next == 2 + |EncodeTags(m)|
    ensures ReadPalette(s, next) == Ok((palette, next + 2 + |palette|))
  {
    PaletteRead(LE16(fmt) + EncodeTags(m), palette, MipmapBlock(ms), Zeros(TERMINATOR_SIZE));
  }

  lemma LayoutMipmaps(s: seq<byte>, fmt: u16, m: TagMap, palette: seq<byte>, ms: seq<MipMap>, base: nat)
    requires WritableKeys(m) && AllStorable(ms) && base == 2 + |EncodeTags(m)| + 2 + |palette|
    requires base + |MipmapBlock(ms)| < U32_MODULUS
    requires OffsetTable(m) == MipmapOffsets(base, ms)
    requires s == LE16(fmt) + EncodeTags(m) + PaletteBlock(palette) + MipmapBlock(ms) + Zeros(TERMINATOR_SIZE)
    ensures ReadMipmapsFrom(s, OffsetTable(m), Hints(OffsetTable(m)), 0) == Ok(ms)
  {
    ReadChain(LE16(fmt) + EncodeTags(m) + PaletteBlock(palette), ms, Zeros(TERMINATOR_SIZE),
              base, OffsetTable(m));
  }

  /** The four reads together. */
  lemma LayoutReads(s: seq<byte>, fmt: u16, m: TagMap, palette: seq<byte>, ms: seq<MipMap>, base: nat, next: nat)
    requires Ordered(m) && WritableKeys(m) && ReadableKeys(m) && ValuesFit(m)
    requires |palette| % 3 == 0 && |palette| / 3 < 0x1_0000 && |palette| / 3 != 0x4747
    requires AllStorable(ms) && next == 2 + |EncodeTags(m)| && base == next + 2 + |palette|
    requires base + |MipmapBlock(ms)| < U32_MODULUS
    requires OffsetTable(m) == MipmapOffsets(base, ms)
    requires s == LE16(fmt) + EncodeTags(m) + PaletteBlock(palette) + MipmapBlock(ms) + Zeros(TERMINATOR_SIZE)
    ensures ReadBytes(s, 0, 2) == Ok(LE16(fmt)) && LE(LE16(fmt)) == fmt
    ensures ScanTags(s, 2, []) == Ok((m, next))
    ensures ReadPalette(s, next) == Ok((palette, base))
    ensures ReadMipmapsFrom(s, OffsetTable(m), Hints(OffsetTable(m)), 0) == Ok(ms)
  {
    LayoutFormat(s, fmt, m, palette, ms);
    LayoutTags(s, fmt, m, palette, ms, next);
    LayoutPalette(s, fmt, m, palette, ms, next);
    LayoutMipmaps(s, fmt, m, palette, ms, base);
  }

  /** readFromStream into a fresh TextureFile, on a file laid out as the
      writer lays it out whose SFFO value lists the record positions (the
      records start `base` bytes in): the format, the map, the palette and
      the mipmaps come back, and the colours and flags are those the map's
      scalar tags give. */
  lemma ReadLayout(fmt: u16, m: TagMap, palette: seq<byte>, ms: seq<MipMap>, base: nat)
    requires Ordered(m) && WritableKeys(m) && ReadableKeys(m) && ValuesFit(m)
    requires |palette| % 3 == 0 && |palette| / 3 < 0x1_0000 && |palette| / 3 != 0x4747
    requires AllStorable(ms) && base == 2 + |EncodeTags(m)| + 2 + |palette|
    requires base + |MipmapBlock(ms)| < U32_MODULUS
    requires OffsetTable(m) == MipmapOffsets(base, ms)
    ensures var a := ApplyTags(m, EMPTY_TEXTURE.(format := fmt, tags := m));
      ReadTexture(LE16(fmt) + EncodeTags(m) + PaletteBlock(palette) + MipmapBlock(ms) + Zeros(TERMINATOR_SIZE), EMPTY_TEXTURE)
      == if a.Err? then Err(a.error) else Ok(a.value.(palette := palette, mipmaps := ms))
  {
    var s := LE16(fmt) + EncodeTags(m) + PaletteBlock(palette) + MipmapBlock(ms) + Zeros(TERMINATOR_SIZE);
    var next := 2 + |EncodeTags(m)|;
    LayoutReads(s, fmt, m, palette, ms, base, next);
    ReadSteps(s, fmt, m, next, palette, base, ms);
  }

  // ---- the round trip ----

  /** What writeToFile needs of a texture for readFromStream to give it
      back: an SFFO tag to hold the offsets, at most 16 mipmaps so they
      fit its 64 bytes, NUL-free keys of three or four bytes (the reader
      stops a key at its first NUL, and a three-byte key goes out with its
      NUL), values whose length fits 32 bits, mipmaps that are
      not taken for the end of the chain, a palette of whole entries whose
      count fits 16 bits and does not read as the "GG" of a tag marker, and
      a file below 4 GiB so no offset wraps. */
  ghost predicate RoundTrips(t: Texture)
  {
    && Ordered(t.tags) && WritableKeys(t.tags) && ReadableKeys(t.tags) && ValuesFit(t.tags)
    && Get(t.tags, SFFO).Some? && |t.mipmaps| <= OFFSET_SLOTS && AllStorable(t.mipmaps)
    && |t.palette| % 3 == 0 && |t.palette| / 3 < 0x1_0000 && |t.palette| / 3 != 0x4747
    && |Unpatched(t)| < U32_MODULUS
  }

  /** The file written for t, read into a fresh TextureFile, is the stored
      map with the scalar tags applied, t's format, t's palette and t's
      mipmaps. */
  lemma ReadSerialized(t: Texture)
    requires RoundTrips(t)
    ensures WritableKeys(StoredTags(t))
    ensures var m := StoredTags(t);
      var a := ApplyTags(m, EMPTY_TEXTURE.(format := t.format, tags := m));
      ReadTexture(Serialize(t), EMPTY_TEXTURE)
      == if a.Err? then Err(a.error) else Ok(a.value.(palette := t.palette, mipmaps := t.mipmaps))
  {
    var m := StoredTags(t);
    PatchedLayout(t);
    StoredTagsEncoded(t);
    SetSffoOrdered(t.tags, StoredOffsets(t));
    SetSffoReadable(t.tags, StoredOffsets(t));
    StoredOffsetTable(t);
    ReadLayout(t.format, m, t.palette, t.mipmaps, MipmapsStart(t));
  }

  /** writeToFile then readFromStream into a fresh TextureFile: the read
      fails exactly when a CGVA, CXAM or GALF tag is shorter than three
      bytes; otherwise the format, palette and mipmaps come back as they
      were, the tags come back with the offset table as the SFFO value and
      every other tag unchanged, the colours are those of the CGVA and CXAM
      tags or the defaults, and the flags are bits 0 and 1 of GALF. */
  lemma RoundTrip(t: Texture)
    requires RoundTrips(t)
    ensures var r := ReadTexture(Serialize(t), EMPTY_TEXTURE);
      && (r.Ok? <==> ScalarTag(t.tags, CGVA).Ok? && ScalarTag(t.tags, CXAM).Ok? && ScalarTag(t.tags, GALF).Ok?)
      && (r.Ok? ==>
            && r.value.format == t.format && r.value.palette == t.palette && r.value.mipmaps == t.mipmaps
            && r.value.tags == StoredTags(t)
            && Get(r.value.tags, SFFO) == Some(StoredOffsets(t))
            && (forall k :: k != SFFO ==> Get(r.value.tags, k) == Get(t.tags, k))
            && r.value.avgColor == (if Get(t.tags, CGVA).None? then AVG_COLOR_DEFAULT else ScalarWord(Get(t.tags, CGVA).value))
            && r.value.maxColor == (if Get(t.tags, CXAM).None? then MAX_COLOR_DEFAULT else ScalarWord(Get(t.tags, CXAM).value))
            && r.value.isAlpha == (Get(t.tags, GALF).Some? && ScalarWord(Get(t.tags, GALF).value) % 2 == 1)
            && r.value.isTransparent == (Get(t.tags, GALF).Some? && (ScalarWord(Get(t.tags, GALF).value) / 2) % 2 == 1))
  {
    ReadSerialized(t);
    var m := StoredTags(t);
    forall k ensures Get(m, k) == if k == SFFO then Some(StoredOffsets(t)) else Get(t.tags, k) {
      SetSffoGet(t.tags, StoredOffsets(t), k);
    }
  }
}
