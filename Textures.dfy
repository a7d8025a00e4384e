/**
 * The values a PAA texture file holds: its format code, the four scalar
 * fields decoded from tags, the tag map itself, the palette bytes and the
 * mipmap list, and the defaults a fresh texture starts from.
 */
module Textures {
  import opened ByteStream
  import opened MipMaps
  import opened Tags

  /** The named PAAType format codes. The stored format is a raw 16-bit
      value and need not be one of them. */
  datatype PAAType = Def | DXT1 | DXT3 | DXT5 | ARGB4444 | ARGB1555 | AI88 | Invalid
  {
    /** The enumerator value; `def` is 0 and `invalid` follows `AI88`. */
    function Code(): u16
    {
      match this
      case Def => 0
      case DXT1 => 0xFF01
      case DXT3 => 0xFF03
      case DXT5 => 0xFF05
      case ARGB4444 => 0x4444
      case ARGB1555 => 0x1555
      case AI88 => 0x8080
      case Invalid => 0x8081
    }
  }

  /** The named type with a given code, if there is one. */
  function TypeOf(code: u16): (r: Option<PAAType>)
    ensures r.Some? ==> r.value.Code() == code
    ensures r.None? ==> forall t: PAAType :: t.Code() != code
  {
    if code == 0 then Some(Def)
    else if code == 0xFF01 then Some(DXT1)
    else if code == 0xFF03 then Some(DXT3)
    else if code == 0xFF05 then Some(DXT5)
    else if code == 0x4444 then Some(ARGB4444)
    else if code == 0x1555 then Some(ARGB1555)
    else if code == 0x8080 then Some(AI88)
    else if code == 0x8081 then Some(Invalid)
    else None
  }

  /** Every named type is found again from its code, so no two named
      types share a code. */
  lemma TypeCodes(t: PAAType)
    ensures TypeOf(t.Code()) == Some(t)
  {
    match t
    case Def =>
    case DXT1 =>
    case DXT3 =>
    case DXT5 =>
    case ARGB4444 =>
    case ARGB1555 =>
    case AI88 =>
    case Invalid =>
  }

  const AVG_COLOR_DEFAULT: u32 := 0xff802020
  const MAX_COLOR_DEFAULT: u32 := 0xffffffff

  /** The state of one TextureFile. `format` is the raw PAAType value as
      read or written (two bytes). */
  datatype Texture = Texture(
    isAlpha: bool,
    isTransparent: bool,
    format: u16,
    avgColor: u32,
    maxColor: u32,
    tags: TagMap,
    palette: seq<byte>,
    mipmaps: seq<MipMap>)

  /** A fresh TextureFile: no flags, type `def`, the default colours and
      nothing else. */
  const EMPTY_TEXTURE: Texture :=
    Texture(false, false, Def.Code(), AVG_COLOR_DEFAULT, MAX_COLOR_DEFAULT, [], [], [])

  /** copyNoMipmap: the same metadata, tags and palette, and no mipmaps. */
  function NoMipmaps(t: Texture): (r: Texture)
    ensures r.mipmaps == []
    ensures r.(mipmaps := t.mipmaps) == t
  {
    t.(mipmaps := [])
  }
}
