/**
 * The TextureFile object: its fields, and the three operations on it
 * (read a PAA stream into it, write it out, copy it without mipmaps),
 * each proved against the value-level definitions of the format.
 */
module TextureFiles {
  import opened ByteStream
  import opened MipMaps
  import opened Tags
  import opened Textures
  import opened TextureRead
  import opened TextureWrite

  class TextureFile {
    var isAlpha: bool
    var isTransparent: bool
    var format: u16
    var avgColor: u32
    var maxColor: u32
    var tags: TagMap
    var palette: seq<byte>
    var mipmaps: seq<MipMap>

    /** The fields, as one value. */
    function Value(): Texture
      reads this
    {
      Texture(isAlpha, isTransparent, format, avgColor, maxColor, tags, palette, mipmaps)
    }

    /** The tag map is a std::map: keys strictly increasing. */
    ghost predicate Valid()
      reads this
    {
      Ordered(tags)
    }

    /** A default-constructed TextureFile. */
    constructor ()
      ensures Valid()
      ensures Value() == EMPTY_TEXTURE
    {
      isAlpha, isTransparent := false, false;
      format := Def.Code();
      avgColor, maxColor := AVG_COLOR_DEFAULT, MAX_COLOR_DEFAULT;
      tags, palette, mipmaps := [], [], [];
    }

    /** readFromStream: the stream parsed against the current state (see
        TextureRead.ReadStream), then the fields replaced by the result. A
        truncated stream leaves the object as it was. */
    method ReadFromStream(input: seq<byte>) returns (r: Result<Texture>)
      requires Valid()
      modifies this
      ensures Valid()
      ensures r == ReadTexture(input, old(Value()))
      ensures r.Ok? ==> Value() == r.value
      ensures r.Err? ==> Value() == old(Value())
    {
      r := ReadStream(input, Value());
      if r.Ok? {
        ReadTextureOrdered(input, Value());
        var t := r.value;
        isAlpha, isTransparent, format := t.isAlpha, t.isTransparent, t.format;
        avgColor, maxColor, tags := t.avgColor, t.maxColor, t.tags;
        palette, mipmaps := t.palette, t.mipmaps;
      }
    }

    /** writeToFile: the format code, the tags (SFFO as a 64-byte zero
        block whose position is remembered), the palette, the mipmaps
        sorted by decreasing real size with each one's position recorded,
        the six-byte terminator, and finally the positions written from
        the remembered one. The mipmap list stays sorted afterwards. */
    method WriteToFile() returns (output: seq<byte>)
      requires Valid() && WritableKeys(tags)
      modifies this
      ensures Valid()
      ensures SortedBySize(mipmaps) && multiset(mipmaps) == multiset(old(mipmaps))
      ensures Value() == old(Value()).(mipmaps := mipmaps)
      ensures output == Serialize(Value())
    {
      output := LE16(format);
      var offsetsOffset;
      output, offsetsOffset := WriteTags(output, tags);
      output := output + LE16((|palette| / 3) % 0x1_0000);
      output := output + palette;
      mipmaps := SortBySize(mipmaps);
      ghost var t := Value();
      ghost var head := output;
      assert head == LE16(t.format) + EncodeTags(WrittenTags(t.tags)) + PaletteBlock(t.palette);
      assert |head| == MipmapsStart(t);
      var offsets;
      output, offsets := WriteMipmaps(output, mipmaps);
      assert offsets == MipmapStarts(t);
      output := output + Zeros(TERMINATOR_SIZE);
      assert output == Unpatched(t);
      assert offsetsOffset == OffsetsOffset(t);
      PatchFits(t);
      output := PatchOffsets(output, offsetsOffset, offsets);
    }

    /** copyNoMipmap: a new TextureFile with the same flags, type,
        colours, tags and palette, and no mipmaps. */
    method CopyNoMipmap() returns (copy: TextureFile)
      ensures fresh(copy)
      ensures copy.Value() == NoMipmaps(Value())
      ensures Valid() ==> copy.Valid()
    {
      copy := new TextureFile();
      copy.isAlpha, copy.isTransparent, copy.format := isAlpha, isTransparent, format;
      copy.avgColor, copy.maxColor := avgColor, maxColor;
      copy.tags, copy.palette := tags, palette;
    }
  }
}
