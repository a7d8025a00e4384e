/**
 * TextureFile::readFromStream: the format code, the tag block, the
 * offset table and the scalar fields decoded from tags, the palette, and
 * one mipmap read at each offset.
 */
module TextureRead {
  import opened ByteStream
  import opened MipMaps
  import opened Tags
  import opened Textures

  // ---- the offset table ----

  /** The `|v| / 4` little-endian 32-bit words of v, in order; a trailing
      partial word is ignored. */
  function Words(v: seq<byte>): (r: seq<u32>)
    ensures |r| == |v| / 4
    decreases |v|
  {
    if |v| < 4 then [] else [LE(v[..4])] + Words(v[4..])
  }

  /** Word i of v is the four bytes at 4 * i. */
  lemma {:induction false} WordsAt(v: seq<byte>, i: nat)
    requires i < |v| / 4
    ensures Words(v)[i] == LE(v[4 * i..4 * i + 4])
    decreases |v|
  {
    if i > 0 {
      var w := v[4..];
      WordsAt(w, i - 1);
      assert Words(v) == [LE(v[..4])] + Words(w);
      assert Words(v)[i] == Words(w)[i - 1];
      assert w[4 * (i - 1)..4 * (i - 1) + 4] == v[4 * i..4 * i + 4];
    }
  }

  /** The words with the zero words dropped, order kept. */
  function NonZero(ws: seq<u32>): seq<u32>
  {
    if ws == [] then [] else (if ws[0] == 0 then [] else [ws[0]]) + NonZero(ws[1..])
  }

  /** A word is kept exactly when it occurs and is not zero. */
  lemma {:induction false} NonZeroMembers(ws: seq<u32>, x: u32)
    ensures x in NonZero(ws) <==> x in ws && x != 0
  {
    if ws != [] {
      NonZeroMembers(ws[1..], x);
      assert x in ws <==> x == ws[0] || x in ws[1..];
    }
  }

  lemma {:induction false} NonZeroAppend(a: seq<u32>, b: seq<u32>)
    ensures NonZero(a + b) == NonZero(a) + NonZero(b)
  {
    if a == [] {
      assert a + b == b;
    } else {
      assert (a + b)[1..] == a[1..] + b;
      NonZeroAppend(a[1..], b);
    }
  }

  /** Words that are all non-zero are all kept; zero words all go. */
  lemma {:induction false} NonZeroKeeps(ws: seq<u32>)
    ensures (forall i :: 0 <= i < |ws| ==> ws[i] != 0) ==> NonZero(ws) == ws
    ensures (forall i :: 0 <= i < |ws| ==> ws[i] == 0) ==> NonZero(ws) == []
  {
    if ws != [] {
      NonZeroKeeps(ws[1..]);
      assert forall i :: 1 <= i < |ws| ==> ws[1..][i - 1] == ws[i];
      assert [ws[0]] + ws[1..] == ws;
    }
  }

  /** The mipmap offsets: the non-zero words of the SFFO value, or none
      when there is no SFFO tag. */
  function OffsetTable(tags: TagMap): seq<u32>
  {
    match Get(tags, SFFO)
    case None => []
    case Some(v) => NonZero(Words(v))
  }

  /** The words from the i-th on: word i, then the words after it. */
  lemma WordsFrom(v: seq<byte>, i: nat)
    requires 4 * i <= |v|
    ensures 4 * i + 4 <= |v| ==> Words(v[4 * i..]) == [LE(v[4 * i..4 * i + 4])] + Words(v[4 * (i + 1)..])
    ensures 4 * i + 4 > |v| ==> Words(v[4 * i..]) == []
  {
    if 4 * i + 4 <= |v| {
      assert v[4 * i..][..4] == v[4 * i..4 * i + 4];
      assert v[4 * i..][4..] == v[4 * (i + 1)..];
    }
  }

  /** The offset loop: one word per four bytes, zero words skipped. */
  method DecodeOffsets(data: seq<byte>) returns (offsets: seq<u32>)
    ensures offsets == NonZero(Words(data))
  {
    offsets := [];
    var count := |data| / 4;
    assert data[4 * 0..] == data;
    for i := 0 to count
      invariant NonZero(Words(data)) == offsets + NonZero(Words(data[4 * i..]))
    {
      var val: u32 := LE(data[4 * i..4 * i + 4]);
      WordsFrom(data, i);
      NonZeroAppend([val], Words(data[4 * (i + 1)..]));
      if val != 0 {
        offsets := offsets + [val];
      }
    }
    WordsFrom(data, count);
  }

  /** std::find: the first index holding x. */
  function FirstIndex(offsets: seq<u32>, x: u32): (j: nat)
    requires x in offsets
    ensures j < |offsets| && offsets[j] == x
    ensures forall k :: 0 <= k < j ==> offsets[k] != x
  {
    if offsets[0] == x then 0 else 1 + FirstIndex(offsets[1..], x)
  }

  /** The payload size hint for the mipmap at offset i: the following
      offset (after the first occurrence of this offset) minus this offset
      minus the 7 header bytes, in 32-bit unsigned arithmetic; 0 when this
      offset is last. */
  function ExpectedSize(offsets: seq<u32>, i: nat): (r: u32)
    requires i < |offsets|
    ensures var next := FirstIndex(offsets, offsets[i]) + 1;
      next < |offsets| ==> (offsets[i] + RECORD_HEADER_SIZE + r) % U32_MODULUS == offsets[next]
    ensures FirstIndex(offsets, offsets[i]) + 1 == |offsets| ==> r == 0
  {
    var next := FirstIndex(offsets, offsets[i]) + 1;
    if next < |offsets| then
      HintLands(offsets[next], offsets[i]);
      (offsets[next] - offsets[i] - RECORD_HEADER_SIZE) % U32_MODULUS
    else 0
  }

  /** A record of the hinted size placed at `at` ends, in 32-bit
      arithmetic, exactly at `next`. */
  lemma HintLands(next: u32, at: u32)
    ensures (at + RECORD_HEADER_SIZE + (next - at - RECORD_HEADER_SIZE) % U32_MODULUS) % U32_MODULUS == next
  {
    var x := next - at - RECORD_HEADER_SIZE;
    var q := x / U32_MODULUS;
    assert x == U32_MODULUS * q + x % U32_MODULUS;
    DivModUnique(at + RECORD_HEADER_SIZE + x % U32_MODULUS, U32_MODULUS, -q, next);
  }

  ghost predicate Distinct(offsets: seq<u32>)
  {
    forall i, j :: 0 <= i < j < |offsets| ==> offsets[i] != offsets[j]
  }

  /** With distinct offsets the hint is taken from the next offset in the
      table, wrapping modulo 2^32, and is 0 for the last one. */
  lemma ExpectedSizeNext(offsets: seq<u32>, i: nat)
    requires Distinct(offsets) && i < |offsets|
    ensures ExpectedSize(offsets, i)
            == if i + 1 < |offsets| then (offsets[i + 1] - offsets[i] - RECORD_HEADER_SIZE) % U32_MODULUS else 0
  {
    assert FirstIndex(offsets, offsets[i]) == i;
  }

  /** When the next offset is less than 7 bytes past this one (the table
      is not in file order), the unsigned subtraction wraps and the hint
      is at least 4 GiB minus 7 minus this offset. */
  lemma ExpectedSizeWraps(offsets: seq<u32>, i: nat)
    requires Distinct(offsets) && i + 1 < |offsets|
    requires offsets[i + 1] < offsets[i] + RECORD_HEADER_SIZE
    ensures var x := offsets[i + 1] - offsets[i] - RECORD_HEADER_SIZE;
      ExpectedSize(offsets, i) == if x + U32_MODULUS >= 0 then U32_MODULUS + x else 2 * U32_MODULUS + x
    ensures ExpectedSize(offsets, i) >= U32_MODULUS - RECORD_HEADER_SIZE - offsets[i]
  {
    ExpectedSizeNext(offsets, i);
    var x := offsets[i + 1] - offsets[i] - RECORD_HEADER_SIZE;
    if x + U32_MODULUS >= 0 {
      DivModUnique(x, U32_MODULUS, -1, U32_MODULUS + x);
    } else {
      DivModUnique(x, U32_MODULUS, -2, 2 * U32_MODULUS + x);
    }
  }

  /** A repeated offset is read with the hint of its first occurrence, so
      a repeated last offset is given a non-zero hint. */
  lemma ExpectedSizeRepeated(offsets: seq<u32>, i: nat, j: nat)
    requires i < j < |offsets| && offsets[i] == offsets[j]
    ensures ExpectedSize(offsets, j) == ExpectedSize(offsets, i)
  {
  }

  // ---- the mipmaps ----

  /** The hint of every offset, in table order. */
  function Hints(offsets: seq<u32>): (r: seq<u32>)
    ensures |r| == |offsets|
  {
    seq(|offsets|, i requires 0 <= i < |offsets| => ExpectedSize(offsets, i))
  }

  /** The mipmaps read from the k-th offset on: seek to the offset, decode
      one record with its hint and keep the mipmap as filled in, whether or
      not the record was a real mipmap. */
  function ReadMipmapsFrom(s: seq<byte>, offsets: seq<u32>, hints: seq<u32>, k: nat): Result<seq<MipMap>>
    requires |hints| == |offsets|
    decreases |offsets| - k
  {
    if k >= |offsets| then Ok([])
    else
      var r :- DecodeMipmap(s, offsets[k], hints[k]);
      var rest :- ReadMipmapsFrom(s, offsets, hints, k + 1);
      Ok([r.mip] + rest)
  }

  /** What the loop reads: one mipmap per offset from the k-th, in table
      order; the one for offset i is the record decoded at offsets[i] with
      the hint of offset i. */
  lemma {:induction false} ReadMipmapAt(s: seq<byte>, offsets: seq<u32>, hints: seq<u32>, k: nat, i: nat)
    requires |hints| == |offsets| && k <= i < |offsets|
    ensures var r := ReadMipmapsFrom(s, offsets, hints, k);
      r.Ok? ==>
        && |r.value| == |offsets| - k
        && DecodeMipmap(s, offsets[i], hints[i]).Ok?
        && r.value[i - k] == DecodeMipmap(s, offsets[i], hints[i]).value.mip
    decreases |offsets| - k
  {
    var r := ReadMipmapsFrom(s, offsets, hints, k);
    if r.Ok? {
      var rest := ReadMipmapsFrom(s, offsets, hints, k + 1);
      if i > k {
        ReadMipmapAt(s, offsets, hints, k + 1, i);
        assert r.value[i - k] == rest.value[i - (k + 1)];
      } else if k + 1 < |offsets| {
        ReadMipmapAt(s, offsets, hints, k + 1, k + 1);
      }
    }
  }

  /** A successful loop reads one mipmap per offset from the k-th. */
  lemma {:induction false} ReadMipmapsCount(s: seq<byte>, offsets: seq<u32>, hints: seq<u32>, k: nat)
    requires |hints| == |offsets| && k <= |offsets|
    ensures var r := ReadMipmapsFrom(s, offsets, hints, k);
      r.Ok? ==> |r.value| == |offsets| - k
    decreases |offsets| - k
  {
    if k < |offsets| {
      ReadMipmapsCount(s, offsets, hints, k + 1);
    }
  }

  /** A successful read with `before` put in front. */
  function Prefixed(before: seq<MipMap>, r: Result<seq<MipMap>>): Result<seq<MipMap>>
  {
    if r.Ok? then Ok(before + r.value) else r
  }

  lemma PrefixedAssoc(a: seq<MipMap>, b: seq<MipMap>, r: Result<seq<MipMap>>)
    ensures Prefixed(a, Prefixed(b, r)) == Prefixed(a + b, r)
    ensures Prefixed([], r) == r
  {
    if r.Ok? {
      assert a + (b + r.value) == a + b + r.value;
      assert [] + r.value == r.value;
    }
  }

  /** One step of the loop: the k-th record decoded, then the rest. */
  lemma ReadMipmapsStep(s: seq<byte>, offsets: seq<u32>, hints: seq<u32>, k: nat)
    requires |hints| == |offsets| && k < |offsets|
    ensures var d := DecodeMipmap(s, offsets[k], hints[k]);
      ReadMipmapsFrom(s, offsets, hints, k)
        == if d.Err? then Err(d.error) else Prefixed([d.value.mip], ReadMipmapsFrom(s, offsets, hints, k + 1))
  {
  }

  /** The loop over `mipmapOffsets`, appending to `mipmaps`: each hint is
      worked out as its mipmap is read. */
  method ReadMipmaps(input: seq<byte>, offsets: seq<u32>, mipmaps: seq<MipMap>) returns (r: Result<seq<MipMap>>)
    ensures r == Prefixed(mipmaps, ReadMipmapsFrom(input, offsets, Hints(offsets), 0))
  {
    ghost var hints := Hints(offsets);
    var acc := mipmaps;
    PrefixedAssoc(mipmaps, [], ReadMipmapsFrom(input, offsets, hints, 0));
    assert mipmaps + [] == mipmaps;
    for k := 0 to |offsets|
      invariant Prefixed(mipmaps, ReadMipmapsFrom(input, offsets, hints, 0))
                == Prefixed(acc, ReadMipmapsFrom(input, offsets, hints, k))
    {
      var expectedSize := ExpectedSize(offsets, k);
      assert expectedSize == hints[k];
      var newMap := ReadMipmap(input, offsets[k], expectedSize);
      ReadMipmapsStep(input, offsets, hints, k);
      if newMap.Err? {
        return Err(newMap.error);
      }
      PrefixedAssoc(acc, [newMap.value.mip], ReadMipmapsFrom(input, offsets, hints, k + 1));
      acc := acc + [newMap.value.mip];
    }
    assert acc + [] == acc;
    return Ok(acc);
  }

  // ---- the scalar tags ----

  /** The little-endian word at a value's `data()`: its first four bytes,
      the NUL terminator standing in for the fourth when it has three. */
  function ScalarWord(v: seq<byte>): u32
    requires |v| >= 3
  {
    LE((v + [0])[..4])
  }

  /** A 4-byte scalar tag read in place as a little-endian word: absent,
      the word at its value, or an error when the value is shorter than
      three bytes (the read would go past the terminator). */
  function ScalarTag(tags: TagMap, name: seq<byte>): (r: Result<Option<u32>>)
    ensures r.Err? <==> Get(tags, name).Some? && |Get(tags, name).value| < 3
    ensures r.Ok? ==> (r.value.None? <==> Get(tags, name).None?)
  {
    match Get(tags, name)
    case None => Ok(None)
    case Some(v) => if |v| < 3 then Err(ShortScalarTag(name)) else Ok(Some(ScalarWord(v)))
  }

  /** A three-byte scalar value reads with a zero high byte. */
  lemma ScalarTagThree(tags: TagMap, name: seq<byte>, v: seq<byte>)
    requires Get(tags, name) == Some(v) && |v| == 3
    ensures ScalarTag(tags, name) == Ok(Some(v[0] as nat + 0x100 * v[1] as nat + 0x1_0000 * v[2] as nat))
  {
    var w := (v + [0])[..4];
    assert w == [v[0], v[1], v[2], 0];
    assert LE(w[3..]) == 0 by { assert w[3..][1..] == []; }
    assert LE(w[2..]) == v[2] as nat by { assert w[2..][1..] == w[3..]; }
    assert LE(w[1..]) == v[1] as nat + 0x100 * v[2] as nat by { assert w[1..][1..] == w[2..]; }
    assert ScalarWord(v) == LE(w);
  }

  /** A scalar tag whose value starts with the four bytes of x reads as x. */
  lemma ScalarTagWritten(tags: TagMap, name: seq<byte>, x: u32, rest: seq<byte>)
    requires Get(tags, name) == Some(LE32(x) + rest)
    ensures ScalarTag(tags, name) == Ok(Some(x))
  {
    assert (LE32(x) + rest + [0])[..4] == LE32(x);
    DecodeEncode(x, 4);
  }

  /** Bit 0 and bit 1 of a word, as `flags & 1` and `flags & 2` test them. */
  lemma FlagBits(w: nat)
    ensures BitAnd(w, 1) != 0 <==> w % 2 == 1
    ensures BitAnd(w, 2) != 0 <==> (w / 2) % 2 == 1
  {
    BitAndLowMask(w, 1);
    BitAndLowMask(w / 2, 1);
    if w != 0 {
      assert BitAnd(w, 2) == 2 * BitAnd(w / 2, 1);
    }
  }

  /** The CGVA, CXAM and GALF tags applied to t: the colours are replaced
      when their tags are there, and the GALF bits 0 and 1 set (never
      clear) isAlpha and isTransparent. */
  function ApplyTags(tags: TagMap, t: Texture): (r: Result<Texture>)
    ensures r.Ok? <==> ScalarTag(tags, CGVA).Ok? && ScalarTag(tags, CXAM).Ok? && ScalarTag(tags, GALF).Ok?
    ensures r.Ok? ==> r.value.(avgColor := t.avgColor, maxColor := t.maxColor,
                               isAlpha := t.isAlpha, isTransparent := t.isTransparent) == t
    ensures r.Ok? ==> r.value.avgColor == if Get(tags, CGVA).None? then t.avgColor else ScalarWord(Get(tags, CGVA).value)
    ensures r.Ok? ==> r.value.maxColor == if Get(tags, CXAM).None? then t.maxColor else ScalarWord(Get(tags, CXAM).value)
    ensures r.Ok? ==> r.value.isAlpha == (t.isAlpha || (Get(tags, GALF).Some? && ScalarWord(Get(tags, GALF).value) % 2 == 1))
    ensures r.Ok? ==> r.value.isTransparent
                      == (t.isTransparent || (Get(tags, GALF).Some? && (ScalarWord(Get(tags, GALF).value) / 2) % 2 == 1))
  {
    var avg :- ScalarTag(tags, CGVA);
    var max :- ScalarTag(tags, CXAM);
    var flags :- ScalarTag(tags, GALF);
    FlagBits(if flags.Some? then flags.value else 0);
    Ok(t.(avgColor := if avg.Some? then avg.value else t.avgColor,
          maxColor := if max.Some? then max.value else t.maxColor,
          isAlpha := t.isAlpha || (flags.Some? && BitAnd(flags.value, 1) != 0),
          isTransparent := t.isTransparent || (flags.Some? && BitAnd(flags.value, 2) != 0)))
  }

  // ---- the palette and the whole file ----

  /** The palette: a 16-bit entry count, then three bytes per entry. */
  function ReadPalette(s: seq<byte>, pos: nat): (r: Result<(seq<byte>, nat)>)
    ensures r.Ok? ==> |r.value.0| % 3 == 0 && r.value.1 == pos + 2 + |r.value.0| <= |s|
    ensures r.Ok? ==> r.value.0 == s[pos + 2..r.value.1] && |r.value.0| == 3 * LE(s[pos..pos + 2])
  {
    var count :- ReadBytes(s, pos, 2);
    var size := 3 * LE(count);
    var palette :- ReadBytes(s, pos + 2, size);
    Ok((palette, pos + 2 + size))
  }

  /** readFromStream applied to t: the file from its first byte; the
      format code, the tags added to t's tags, the scalar fields, the
      palette replacing t's, and the mipmaps at the offsets appended to
      t's. */
  function ReadTexture(s: seq<byte>, t: Texture): (r: Result<Texture>)
    ensures |s| < 2 ==> r == Err(Truncated)
    ensures r.Ok? ==> r.value.format == LE(s[..2]) && |r.value.palette| % 3 == 0
    ensures r.Ok? ==> |r.value.mipmaps| == |t.mipmaps| + |OffsetTable(r.value.tags)|
    ensures r.Ok? ==> r.value.mipmaps[..|t.mipmaps|] == t.mipmaps
  {
    var format :- ReadBytes(s, 0, 2);
    var (tags, next) :- ScanTags(s, 2, t.tags);
    var withTags :- ApplyTags(tags, t.(format := LE(format), tags := tags));
    var (palette, _) :- ReadPalette(s, next);
    var offsets := OffsetTable(tags);
    var mipmaps :- ReadMipmapsFrom(s, offsets, Hints(offsets), 0);
    ReadMipmapsCount(s, offsets, Hints(offsets), 0);
    var mipmaps' := t.mipmaps + mipmaps;
    assert mipmaps'[..|t.mipmaps|] == t.mipmaps;
    Ok(withTags.(palette := palette, mipmaps := mipmaps'))
  }

  /** Reading adds to an ordered tag map and leaves it ordered. */
  lemma ReadTextureOrdered(s: seq<byte>, t: Texture)
    requires Ordered(t.tags)
    ensures ReadTexture(s, t).Ok? ==> Ordered(ReadTexture(s, t).value.tags)
  {
    ScanTagsOrdered(s, 2, t.tags);
  }

  /** The body of readFromStream, on a texture value: the format code;
      the tags, added to the map; the offset table and the scalar fields
      from the merged map; the palette; then one mipmap per offset,
      appended. */
  method ReadStream(input: seq<byte>, t: Texture) returns (r: Result<Texture>)
    ensures r == ReadTexture(input, t)
  {
    var typeBytes := ReadBytes(input, 0, 2);
    if typeBytes.Err? {
      return Err(typeBytes.error);
    }
    var scanned := ReadTags(input, 2, t.tags);
    if scanned.Err? {
      return Err(scanned.error);
    }
    var (tags, next) := scanned.value;

    var offsets: seq<u32> := [];
    var sffo := Get(tags, SFFO);
    if sffo.Some? {
      offsets := DecodeOffsets(sffo.value);
    }
    assert offsets == OffsetTable(tags);

    var withTags := ApplyTags(tags, t.(format := LE(typeBytes.value), tags := tags));
    if withTags.Err? {
      return Err(withTags.error);
    }
    var palette := ReadPalette(input, next);
    if palette.Err? {
      return Err(palette.error);
    }
    var mipmaps := ReadMipmaps(input, offsets, t.mipmaps);
    if mipmaps.Err? {
      return Err(mipmaps.error);
    }
    r := Ok(withTags.value.(palette := palette.value.0, mipmaps := mipmaps.value));
  }
}
