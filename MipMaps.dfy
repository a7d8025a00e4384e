/**
 * One mipmap of a PAA texture and its on-disk record:
 *   width (LE16, bit 15 = compressed flag) | height (LE16) |
 *   payload length (LE24) | payload.
 * A record whose width or height is zero ends the mipmap chain.
 */
module MipMaps {
  import opened ByteStream

  /** A mipmap is treated as an immutable value; `width` keeps the raw
      16-bit field, compressed flag included. A default-constructed mipmap
      has width 0, height 0 and no data. */
  datatype MipMap = MipMap(width: u16, height: u16, data: seq<byte>)

  const RECORD_HEADER_SIZE: nat := 7
  const COMPRESSED_FLAG: nat := 0x8000

  /** The pixel width: the raw width with the compressed flag masked off
      (`width & 0x7fff`). */
  function RealSizeOf(width: u16): (r: nat)
    ensures r < 0x8000
  {
    MaskedWidth(width);
    BitAnd(width, 0x7fff)
  }

  /** Masking with 0x7fff keeps the low 15 bits: the width modulo 0x8000. */
  lemma MaskedWidth(width: u16)
    ensures BitAnd(width, 0x7fff) == width % 0x8000
  {
    FlagBit();
    BitAndLowMask(width, 15);
  }

  /** The compressed flag is bit 15. */
  lemma FlagBit()
    ensures Pow2(15) == COMPRESSED_FLAG && Pow2(16) == 0x1_0000
  {
    assert Pow2(8) == 0x100;
  }

  function RealSize(m: MipMap): nat
  {
    RealSizeOf(m.width)
  }

  /** Setting the compressed flag never changes the pixel width. */
  lemma CompressedFlagIgnored(width: u16)
    ensures BitOr(width, COMPRESSED_FLAG) < 0x1_0000
    ensures RealSizeOf(BitOr(width, COMPRESSED_FLAG)) == RealSizeOf(width)
  {
    FlagBit();
    BitOrHighBit(width, 15);
    BitOrBelow(width, 15, 16);
    MaskedWidth(width);
  }

  /** What one call of the record decoder produced: whether a real mipmap
      was found (false at the end-of-chain record), the mipmap as filled
      in, and the stream position after the bytes it consumed. */
  datatype MipRead = MipRead(more: bool, mip: MipMap, next: nat)

  /** The record at `pos`. `expectedDataSize` stands in for a zero payload
      length (a damaged record); it is ignored when the stored length is
      non-zero. */
  function DecodeMipmap(s: seq<byte>, pos: nat, expectedDataSize: u32): (r: Result<MipRead>)
    ensures r.Ok? ==> pos + 4 <= r.value.next <= |s|
    ensures r.Ok? ==> (r.value.more <==> r.value.mip.width != 0 && r.value.mip.height != 0)
    ensures r.Ok? && r.value.more ==> r.value.next == pos + RECORD_HEADER_SIZE + |r.value.mip.data|
  {
    if |s| < pos + 4 then Err(Truncated)
    else
      var width, height := LE(s[pos..pos + 2]), LE(s[pos + 2..pos + 4]);
      if width == 0 || height == 0 then Ok(MipRead(false, MipMap(width, height, []), pos + 4))
      else if |s| < pos + 7 then Err(Truncated)
      else
        var stored := LE(s[pos + 4..pos + 7]);
        var length := if stored == 0 then expectedDataSize else stored;
        if |s| < pos + 7 + length then Err(Truncated)
        else Ok(MipRead(true, MipMap(width, height, s[pos + 7..pos + 7 + length]), pos + 7 + length))
  }

  /** The record written for m: the payload length is taken as a 32-bit
      value, of which the low three bytes go into the header and that many
      payload bytes are written. */
  function EncodeMipmap(m: MipMap): (r: seq<byte>)
    ensures |m.data| < U32_MODULUS ==> |r| == RECORD_HEADER_SIZE + |m.data|
  {
    var length := |m.data| % U32_MODULUS;
    LE16(m.width) + LE16(m.height) + Encode(length % 0x100_0000, 3) + m.data[..length]
  }

  /** readMipmap: reads the header field by field, stops after width and
      height at the end-of-chain record, repairs a zero length from the
      expected size, then takes the payload. */
  method ReadMipmap(input: seq<byte>, pos: nat, expectedDataSize: u32) returns (r: Result<MipRead>)
    ensures r == DecodeMipmap(input, pos, expectedDataSize)
    ensures r.Ok? && !r.value.more ==> r.value.next == pos + 4 && r.value.mip.data == []
    ensures r.Ok? && r.value.more ==> r.value.next == pos + 7 + |r.value.mip.data|
  {
    var cursor := pos;
    var w := ReadBytes(input, cursor, 2);
    if w.Err? { return Err(Truncated); }
    cursor := cursor + 2;
    var h := ReadBytes(input, cursor, 2);
    if h.Err? { return Err(Truncated); }
    cursor := cursor + 2;
    var width, height := LE(w.value), LE(h.value);
    if width == 0 || height == 0 {
      return Ok(MipRead(false, MipMap(width, height, []), cursor));
    }
    var l := ReadBytes(input, cursor, 3);
    if l.Err? { return Err(Truncated); }
    cursor := cursor + 3;
    var length: u32 := LE(l.value);
    if length == 0 {
      length := expectedDataSize;
    }
    var payload := ReadBytes(input, cursor, length);
    if payload.Err? { return Err(Truncated); }
    r := Ok(MipRead(true, MipMap(width, height, payload.value), cursor + length));
  }

  /** writeMipmap: appends the record of m to the output. */
  method WriteMipmap(output: seq<byte>, m: MipMap) returns (output': seq<byte>)
    ensures output' == output + EncodeMipmap(m)
    ensures |m.data| < U32_MODULUS ==> |output'| == |output| + RECORD_HEADER_SIZE + |m.data|
  {
    output' := output + LE16(m.width) + LE16(m.height);
    var length := |m.data| % U32_MODULUS;
    output' := output' + Encode(length % 0x100_0000, 3);
    output' := output' + m.data[..length];
  }

  /** The header fields of a written record, read back. */
  lemma EncodedHeader(m: MipMap)
    ensures |EncodeMipmap(m)| >= 7
    ensures LE(EncodeMipmap(m)[..2]) == m.width
    ensures LE(EncodeMipmap(m)[2..4]) == m.height
    ensures LE(EncodeMipmap(m)[4..7]) == |m.data| % 0x100_0000
  {
    var length := |m.data| % U32_MODULUS;
    LengthFieldMod(|m.data|);
    HeaderSlices(LE16(m.width), LE16(m.height), Encode(length % 0x100_0000, 3), m.data[..length]);
    DecodeEncode(m.width, 2);
    DecodeEncode(m.height, 2);
    DecodeEncode(length % 0x100_0000, 3);
  }

  /** Cutting to 32 bits and then to 24 is cutting to 24. */
  lemma LengthFieldMod(n: nat)
    ensures (n % U32_MODULUS) % 0x100_0000 == n % 0x100_0000
  {
    var q1, r1 := n / U32_MODULUS, n % U32_MODULUS;
    var q2, r2 := r1 / 0x100_0000, r1 % 0x100_0000;
    assert n == 0x100_0000 * (0x100 * q1 + q2) + r2;
    DivModUnique(n, 0x100_0000, 0x100 * q1 + q2, r2);
  }

  /** The three header fields sit at bytes 0-1, 2-3 and 4-6. */
  lemma HeaderSlices(a: seq<byte>, b: seq<byte>, c: seq<byte>, d: seq<byte>)
    requires |a| == 2 && |b| == 2 && |c| == 3
    ensures (a + b + c + d)[..2] == a
    ensures (a + b + c + d)[2..4] == b
    ensures (a + b + c + d)[4..7] == c
  {
  }

  /** Reading back a written record restores width, height and payload and
      consumes exactly the record, whatever precedes or follows it. A zero
      payload only survives when no repair hint is given. */
  lemma {:induction false} ReadWrittenMipmap(before: seq<byte>, m: MipMap, after: seq<byte>, expectedDataSize: u32)
    requires m.width != 0 && m.height != 0
    requires |m.data| < 0x100_0000
    requires |m.data| == 0 ==> expectedDataSize == 0
    ensures DecodeMipmap(before + EncodeMipmap(m) + after, |before|, expectedDataSize)
            == Ok(MipRead(true, m, |before| + RECORD_HEADER_SIZE + |m.data|))
  {
    var s := before + EncodeMipmap(m) + after;
    var p := |before|;
    var e := EncodeMipmap(m);
    EncodedHeader(m);
    assert s[p..p + 2] == e[..2];
    assert s[p + 2..p + 4] == e[2..4];
    assert s[p + 4..p + 7] == e[4..7];
    assert e[7..] == m.data;
    assert s[p + 7..p + 7 + |m.data|] == m.data;
  }

  /** The end-of-chain record (the six zero bytes the writer appends, or any
      record with a zero dimension) is reported after its first four bytes,
      with an empty payload. */
  lemma {:induction false} EndOfChain(s: seq<byte>, pos: nat, expectedDataSize: u32)
    requires pos + 4 <= |s|
    requires LE(s[pos..pos + 2]) == 0 || LE(s[pos + 2..pos + 4]) == 0
    ensures DecodeMipmap(s, pos, expectedDataSize).Ok?
    ensures !DecodeMipmap(s, pos, expectedDataSize).value.more
    ensures DecodeMipmap(s, pos, expectedDataSize).value.next == pos + 4
    ensures DecodeMipmap(s, pos, expectedDataSize).value.mip.data == []
  {
  }

  /** Length repair: a zero stored length with a non-zero hint takes exactly
      `expectedDataSize` payload bytes; with a zero hint the payload is empty. */
  lemma ZeroLengthRepair(s: seq<byte>, pos: nat, expectedDataSize: u32)
    requires pos + 7 + expectedDataSize <= |s|
    requires LE(s[pos..pos + 2]) != 0 && LE(s[pos + 2..pos + 4]) != 0
    requires LE(s[pos + 4..pos + 7]) == 0
    ensures DecodeMipmap(s, pos, expectedDataSize)
            == Ok(MipRead(true, MipMap(LE(s[pos..pos + 2]), LE(s[pos + 2..pos + 4]), s[pos + 7..pos + 7 + expectedDataSize]),
                          pos + 7 + expectedDataSize))
  {
  }

  /** The payload length field is three bytes, so a stored length is below
      2^24, and a non-zero stored length is taken as is. */
  lemma StoredLength(s: seq<byte>, pos: nat, expectedDataSize: u32)
    requires DecodeMipmap(s, pos, expectedDataSize).Ok?
    requires DecodeMipmap(s, pos, expectedDataSize).value.more
    requires LE(s[pos + 4..pos + 7]) != 0
    ensures |DecodeMipmap(s, pos, expectedDataSize).value.mip.data| == LE(s[pos + 4..pos + 7]) < 0x100_0000
  {
  }

  // ---- std::sort by real size, descending ----

  ghost predicate SortedBySize(ms: seq<MipMap>)
  {
    forall i, j :: 0 <= i < j < |ms| ==> RealSize(ms[i]) >= RealSize(ms[j])
  }

  /** Places m in front of the first element that is not larger than it. */
  function InsertBySize(m: MipMap, ms: seq<MipMap>): (r: seq<MipMap>)
    requires SortedBySize(ms)
    ensures SortedBySize(r)
    ensures multiset(r) == multiset(ms) + multiset{m}
  {
    if ms == [] || RealSize(ms[0]) <= RealSize(m) then
      InsertedFirst(m, ms);
      [m] + ms
    else
      var rest := InsertBySize(m, ms[1..]);
      InsertedLater(m, ms, rest);
      [ms[0]] + rest
  }

  /** m goes first when it is at least as large as the current first. */
  lemma InsertedFirst(m: MipMap, ms: seq<MipMap>)
    requires SortedBySize(ms) && (ms != [] ==> RealSize(ms[0]) <= RealSize(m))
    ensures SortedBySize([m] + ms)
  {
    var r := [m] + ms;
    forall i, j | 0 <= i < j < |r| ensures RealSize(r[i]) >= RealSize(r[j]) {
      if i == 0 {
        assert r[j] == ms[j - 1];
        assert RealSize(ms[0]) >= RealSize(ms[j - 1]);
      } else {
        assert r[i] == ms[i - 1] && r[j] == ms[j - 1];
      }
    }
  }

  /** m goes after a first element that is larger than it. */
  lemma InsertedLater(m: MipMap, ms: seq<MipMap>, rest: seq<MipMap>)
    requires SortedBySize(ms) && ms != [] && RealSize(ms[0]) > RealSize(m)
    requires SortedBySize(rest) && multiset(rest) == multiset(ms[1..]) + multiset{m}
    ensures SortedBySize([ms[0]] + rest)
    ensures multiset([ms[0]] + rest) == multiset(ms) + multiset{m}
  {
    assert ms == [ms[0]] + ms[1..];
    var r := [ms[0]] + rest;
    forall i, j | 0 <= i < j < |r| ensures RealSize(r[i]) >= RealSize(r[j]) {
      if i == 0 {
        var x := rest[j - 1];
        assert x in multiset(rest);
        assert x == m || x in ms[1..];
      } else {
        assert r[i] == rest[i - 1] && r[j] == rest[j - 1];
      }
    }
  }

  /** The order std::sort leaves the mipmaps in: non-increasing real size.
      Ties may come out in any order; callers rely only on this contract. */
  function SortBySize(ms: seq<MipMap>): (r: seq<MipMap>)
    ensures SortedBySize(r)
    ensures multiset(r) == multiset(ms)
  {
    if ms == [] then []
    else
      assert ms == [ms[0]] + ms[1..];
      InsertBySize(ms[0], SortBySize(ms[1..]))
  }
}
