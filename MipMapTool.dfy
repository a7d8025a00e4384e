/**
 * The two texture-to-texture commands of the tool. `unpack` writes one
 * file per mipmap of a texture; the merge takes the best mipmap of each
 * width across several textures and writes them into one file that keeps
 * the metadata of the texture whose largest mipmap is the smallest.
 */
module MipMapTool {
  import opened ByteStream
  import opened MipMaps
  import opened Tags
  import opened Textures
  import opened TextureWrite
  import opened TextureFiles
  import opened WidthMaps

  // ---- std::sort by the width of the first mipmap, descending ----

  /** mipmaps.front(): every texture to sort has a mipmap. */
  ghost predicate HaveMipmaps(ts: seq<TextureFile>)
    reads ts
  {
    forall i :: 0 <= i < |ts| ==> ts[i].mipmaps != []
  }

  /** The raw width (compressed flag included) of a texture's first mipmap. */
  function FrontWidth(t: TextureFile): u16
    reads t
    requires t.mipmaps != []
  {
    t.mipmaps[0].width
  }

  ghost predicate SortedByWidth(ts: seq<TextureFile>)
    reads ts
    requires HaveMipmaps(ts)
  {
    forall i, j :: 0 <= i < j < |ts| ==> FrontWidth(ts[i]) >= FrontWidth(ts[j])
  }

  /** Places t in front of the first texture whose front width is not
      larger than its own. */
  method InsertByWidth(t: TextureFile, ts: seq<TextureFile>) returns (r: seq<TextureFile>)
    requires t.mipmaps != [] && HaveMipmaps(ts) && SortedByWidth(ts)
    ensures HaveMipmaps(r) && SortedByWidth(r)
    ensures multiset(r) == multiset(ts) + multiset{t}
  {
    var j := 0;
    while j < |ts| && FrontWidth(ts[j]) > FrontWidth(t)
      invariant j <= |ts|
      invariant forall k :: 0 <= k < j ==> FrontWidth(ts[k]) > FrontWidth(t)
    {
      j := j + 1;
    }
    r := ts[..j] + [t] + ts[j..];
    InsertedSorted(t, ts, j);
    assert multiset(r) == multiset(ts) + multiset{t} by {
      assert ts[..j] + ts[j..] == ts;
    }
  }

  /** Putting t at the first position whose texture is not wider keeps the
      list sorted. */
  lemma InsertedSorted(t: TextureFile, ts: seq<TextureFile>, j: nat)
    requires t.mipmaps != [] && HaveMipmaps(ts) && SortedByWidth(ts) && j <= |ts|
    requires forall k :: 0 <= k < j ==> FrontWidth(ts[k]) > FrontWidth(t)
    requires j < |ts| ==> FrontWidth(ts[j]) <= FrontWidth(t)
    ensures HaveMipmaps(ts[..j] + [t] + ts[j..]) && SortedByWidth(ts[..j] + [t] + ts[j..])
  {
    var r := ts[..j] + [t] + ts[j..];
    assert forall k :: 0 <= k < |r| ==> r[k] == (if k < j then ts[k] else if k == j then t else ts[k - 1]);
    forall a, b | 0 <= a < b < |r| ensures FrontWidth(r[a]) >= FrontWidth(r[b]) {
      if b == j {
        assert r[a] == ts[a];
      } else if a == j {
        assert r[b] == ts[b - 1];
        assert FrontWidth(ts[j]) >= FrontWidth(ts[b - 1]);
      }
    }
  }

  /** std::sort of the textures by the width of their first mipmap,
      largest first. Ties may come out in any order: callers rely only on
      this contract. */
  method SortByWidth(ts: seq<TextureFile>) returns (r: seq<TextureFile>)
    requires HaveMipmaps(ts)
    ensures HaveMipmaps(r) && SortedByWidth(r)
    ensures multiset(r) == multiset(ts)
  {
    r := [];
    for i := 0 to |ts|
      invariant HaveMipmaps(r) && SortedByWidth(r)
      invariant multiset(r) == multiset(ts[..i])
    {
      assert ts[..i + 1] == ts[..i] + [ts[i]];
      r := InsertByWidth(ts[i], r);
    }
    assert ts[..|ts|] == ts;
  }

  /** The mipmap lists of the textures, in order. */
  function MipmapLists(ts: seq<TextureFile>): (r: seq<seq<MipMap>>)
    reads ts
    ensures |r| == |ts|
  {
    seq(|ts|, i reads ts requires 0 <= i < |ts| => ts[i].mipmaps)
  }

  /** One texture has exactly the given mipmap after writeToFile sorted its
      single-element list. */
  lemma SingleSorted(s: seq<MipMap>, m: MipMap)
    requires multiset(s) == multiset([m])
    ensures s == [m]
  {
    assert |s| == |multiset(s)| == 1;
    assert s[0] in multiset(s);
  }

  /** unpack: for each mipmap of the texture, a copy without mipmaps that
      gets just that one, written out; `outputs` holds the files in mipmap
      order. The source texture is not changed. A texture without mipmaps
      writes nothing, so only one with mipmaps needs writable keys. */
  method Unpack(tex: TextureFile) returns (outputs: seq<seq<byte>>)
    requires tex.Valid() && (tex.mipmaps != [] ==> WritableKeys(tex.tags))
    ensures |outputs| == |tex.mipmaps|
    ensures forall i :: 0 <= i < |outputs| ==>
      outputs[i] == Serialize(NoMipmaps(tex.Value()).(mipmaps := [tex.mipmaps[i]]))
  {
    var bare, mips := NoMipmaps(tex.Value()), tex.mipmaps;
    outputs := [];
    for i := 0 to |mips|
      invariant |outputs| == i && (|mips| > 0 ==> WritableKeys(bare.tags))
      invariant forall k :: 0 <= k < i ==> outputs[k] == Serialize(bare.(mipmaps := [mips[k]]))
    {
      var file, output := UnpackOne(tex, mips[i]);
      outputs := outputs + [output];
    }
  }

  /** The body of the unpack loop for one mipmap: copyNoMipmap, push the
      mipmap, writeToFile. */
  method UnpackOne(tex: TextureFile, mip: MipMap) returns (file: TextureFile, output: seq<byte>)
    requires tex.Valid() && WritableKeys(tex.tags)
    ensures fresh(file) && unchanged(tex)
    ensures file.Value() == NoMipmaps(tex.Value()).(mipmaps := [mip])
    ensures output == Serialize(NoMipmaps(tex.Value()).(mipmaps := [mip]))
  {
    file := tex.CopyNoMipmap();
    file.mipmaps := file.mipmaps + [mip];
    output := file.WriteToFile();
    SingleSorted(file.mipmaps, mip);
  }

  /** The two loops filling the map: every mipmap of every texture, in
      order, through insert_or_assign keyed by its width. */
  method CollectMipmaps(ts: seq<TextureFile>) returns (slots: WidthMap)
    ensures slots == Collect(MipmapLists(ts))
  {
    ghost var lists := MipmapLists(ts);
    slots := [];
    assert lists[..0] == [];
    for i := 0 to |ts|
      invariant slots == Collect(lists[..i])
    {
      var ms := ts[i].mipmaps;
      assert lists[..i + 1][..i] == lists[..i];
      assert ms[..0] == [];
      for j := 0 to |ms|
        invariant slots == AssignAll(Collect(lists[..i]), ms[..j])
      {
        assert ms[..j + 1][..j] == ms[..j];
        slots := Assign(slots, ms[j].width, ms[j]);
      }
      assert ms[..|ms|] == ms;
    }
    assert lists[..|ts|] == lists;
  }

  /** copyNoMipmap of `last`, then the map's mipmaps pushed in key order. */
  method Pack(last: TextureFile, slots: WidthMap) returns (result: TextureFile)
    ensures fresh(result)
    ensures result.Value() == NoMipmaps(last.Value()).(mipmaps := Values(slots))
    ensures last.Valid() ==> result.Valid()
  {
    result := last.CopyNoMipmap();
    for k := 0 to |slots|
      invariant result.Value() == NoMipmaps(last.Value()).(mipmaps := Values(slots)[..k])
      invariant result.tags == last.tags
    {
      result.mipmaps := result.mipmaps + [slots[k].mip];
    }
    assert Values(slots)[..|slots|] == Values(slots);
  }

  /** What Merged says of the collected mipmaps holds of any reordering of
      them, such as the one writeToFile leaves. */
  lemma MergedAnyOrder(s: seq<MipMap>, lists: seq<seq<MipMap>>)
    requires multiset(s) == multiset(Values(Collect(lists)))
    ensures forall v :: v in s <==> LastWithWidth(Flatten(lists), v.width) == Some(v)
    ensures forall x | x in Flatten(lists) :: exists v :: v in s && v.width == x.width
  {
    Merged(lists);
    assert forall v :: v in s <==> v in multiset(Values(Collect(lists)));
  }

  /** The merge: sort the textures by the width of their first mipmap,
      largest first, then pack them (MergeSorted). `sorted` is the
      vector after the sort, `result` the merged texture as writeToFile
      leaves it (its mipmaps re-sorted by size). A single texture is never
      compared, so it needs no mipmap; two or more are all compared, each
      through its first mipmap. */
  method Merge(textures: seq<TextureFile>) returns (sorted: seq<TextureFile>, result: TextureFile, output: seq<byte>)
    requires textures != [] && (|textures| > 1 ==> HaveMipmaps(textures))
    requires forall i :: 0 <= i < |textures| ==> textures[i].Valid() && WritableKeys(textures[i].tags)
    ensures multiset(sorted) == multiset(textures)
    ensures |textures| == 1 ==> sorted == textures
    ensures |textures| > 1 ==> HaveMipmaps(sorted) && SortedByWidth(sorted)
    ensures fresh(result) && sorted[|sorted| - 1] in textures
    ensures result.Value() == NoMipmaps(sorted[|sorted| - 1].Value()).(mipmaps := result.mipmaps)
    ensures SortedBySize(result.mipmaps)
    ensures multiset(result.mipmaps) == multiset(Values(Collect(MipmapLists(sorted))))
    ensures forall v :: v in result.mipmaps <==> LastWithWidth(Flatten(MipmapLists(sorted)), v.width) == Some(v)
    ensures forall x | x in Flatten(MipmapLists(sorted)) :: exists v :: v in result.mipmaps && v.width == x.width
    ensures output == Serialize(result.Value())
  {
    if |textures| == 1 {
      sorted := textures;
    } else {
      sorted := SortByWidth(textures);
    }
    assert sorted[|sorted| - 1] in multiset(textures);
    result, output := MergeSorted(sorted);
  }

  /** After the sort: collect every mipmap into a map keyed by its raw
      width, later textures replacing earlier ones; copy the last texture
      without mipmaps; give it the collected mipmaps in key order; write it
      out. */
  method MergeSorted(sorted: seq<TextureFile>) returns (result: TextureFile, output: seq<byte>)
    requires sorted != []
    requires sorted[|sorted| - 1].Valid() && WritableKeys(sorted[|sorted| - 1].tags)
    ensures fresh(result)
    ensures result.Value() == NoMipmaps(sorted[|sorted| - 1].Value()).(mipmaps := result.mipmaps)
    ensures SortedBySize(result.mipmaps)
    ensures multiset(result.mipmaps) == multiset(Values(Collect(MipmapLists(sorted))))
    ensures forall v :: v in result.mipmaps <==> LastWithWidth(Flatten(MipmapLists(sorted)), v.width) == Some(v)
    ensures forall x | x in Flatten(MipmapLists(sorted)) :: exists v :: v in result.mipmaps && v.width == x.width
    ensures output == Serialize(result.Value())
  {
    ghost var lists := MipmapLists(sorted);
    var slots := CollectMipmaps(sorted);
    result := Pack(sorted[|sorted| - 1], slots);
    output := result.WriteToFile();
    assert MipmapLists(sorted) == lists;
    MergedAnyOrder(result.mipmaps, lists);
  }
}
