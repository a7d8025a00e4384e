/**
 * The std::map<uint16_t, std::shared_ptr<MipMap>> the merge collects the
 * mipmaps into: one slot per raw width (compressed flag included), kept in
 * ascending key order, filled with insert_or_assign so that the mipmap
 * visited last for a width is the one kept.
 */
module WidthMaps {
  import opened ByteStream
  import opened MipMaps

  datatype Slot = Slot(width: u16, mip: MipMap)

  /** A std::map as its slots in key order. */
  type WidthMap = seq<Slot>

  /** Keys strictly ascending, so each width has at most one slot. */
  ghost predicate Ascending(m: WidthMap)
  {
    forall i, j :: 0 <= i < j < |m| ==> m[i].width < m[j].width
  }

  /** Every slot is keyed by its own mipmap's width. */
  ghost predicate KeyedByWidth(m: WidthMap)
  {
    forall i :: 0 <= i < |m| ==> m[i].width == m[i].mip.width
  }

  /** map::find. */
  function Find(m: WidthMap, w: u16): Option<MipMap>
  {
    if m == [] then None
    else if m[0].width == w then Some(m[0].mip)
    else Find(m[1..], w)
  }

  /** A key that is below every key of m is not found in it. */
  lemma {:induction false} FindBelow(m: WidthMap, w: u16)
    requires forall i :: 0 <= i < |m| ==> w < m[i].width
    ensures Find(m, w) == None
  {
    if m != [] {
      FindBelow(m[1..], w);
    }
  }

  /** map::insert_or_assign(w, v): the slot for w now holds v and every
      other slot is as it was. */
  function Assign(m: WidthMap, w: u16, v: MipMap): (r: WidthMap)
    requires Ascending(m)
    ensures Ascending(r)
    ensures forall i :: 0 <= i < |r| ==> r[i] == Slot(w, v) || r[i] in m
    ensures forall k :: Find(r, k) == if k == w then Some(v) else Find(m, k)
  {
    if m == [] then [Slot(w, v)]
    else if w < m[0].width then
      assert forall k :: Find([Slot(w, v)] + m, k) == if k == w then Some(v) else Find(m, k);
      [Slot(w, v)] + m
    else if w == m[0].width then
      var r := [Slot(w, v)] + m[1..];
      assert forall k :: Find(r, k) == if k == w then Some(v) else Find(m, k);
      r
    else
      var rest := Assign(m[1..], w, v);
      var r := [m[0]] + rest;
      forall i, j | 0 <= i < j < |r| ensures r[i].width < r[j].width {
        if i == 0 {
          assert rest[j - 1] == Slot(w, v) || rest[j - 1] in m[1..];
        }
      }
      assert forall k :: Find(r, k) == if k == w then Some(v) else Find(m, k);
      r
  }

  /** The inner loop of the merge: insert_or_assign of every mipmap of one
      texture, keyed by its width, in list order. */
  function AssignAll(m: WidthMap, ms: seq<MipMap>): (r: WidthMap)
    requires Ascending(m) && KeyedByWidth(m)
    ensures Ascending(r) && KeyedByWidth(r)
  {
    if ms == [] then m
    else
      var prev := AssignAll(m, ms[..|ms| - 1]);
      var v := ms[|ms| - 1];
      var r := Assign(prev, v.width, v);
      assert forall i :: 0 <= i < |r| ==> r[i] == Slot(v.width, v) || r[i] in prev;
      r
  }

  /** The outer loop: the textures in order, each with the inner loop. */
  function Collect(lists: seq<seq<MipMap>>): (r: WidthMap)
    ensures Ascending(r) && KeyedByWidth(r)
  {
    if lists == [] then [] else AssignAll(Collect(lists[..|lists| - 1]), lists[|lists| - 1])
  }

  /** The mipmaps of the map, visited in key order. */
  function Values(m: WidthMap): (r: seq<MipMap>)
    ensures |r| == |m|
  {
    seq(|m|, i requires 0 <= i < |m| => m[i].mip)
  }

  // ---- the reference: the last mipmap of each width ----

  /** Every mipmap visited, in visiting order. */
  function Flatten(lists: seq<seq<MipMap>>): seq<MipMap>
  {
    if lists == [] then [] else Flatten(lists[..|lists| - 1]) + lists[|lists| - 1]
  }

  /** The last mipmap of ms with width w, if any. */
  function LastWithWidth(ms: seq<MipMap>, w: u16): (r: Option<MipMap>)
  {
    if ms == [] then None
    else if ms[|ms| - 1].width == w then Some(ms[|ms| - 1])
    else LastWithWidth(ms[..|ms| - 1], w)
  }

  /** LastWithWidth finds a mipmap of ms of that width, and finds one
      whenever ms holds one. */
  lemma {:induction false} LastWithWidthSpec(ms: seq<MipMap>, w: u16)
    ensures LastWithWidth(ms, w).Some? ==> LastWithWidth(ms, w).value in ms && LastWithWidth(ms, w).value.width == w
    ensures LastWithWidth(ms, w).None? <==> forall x | x in ms :: x.width != w
  {
    if ms != [] {
      var init := ms[..|ms| - 1];
      LastWithWidthSpec(init, w);
      assert ms == init + [ms[|ms| - 1]];
    }
  }

  /** In a concatenation, the last match is the second part's, if it has
      one. */
  lemma {:induction false} LastWithWidthAppend(a: seq<MipMap>, b: seq<MipMap>, w: u16)
    ensures LastWithWidth(a + b, w) == if LastWithWidth(b, w).Some? then LastWithWidth(b, w) else LastWithWidth(a, w)
  {
    if b == [] {
      assert a + b == a;
    } else {
      var init := b[..|b| - 1];
      assert (a + b)[..|a + b| - 1] == a + init;
      LastWithWidthAppend(a, init, w);
    }
  }

  /** insert_or_assign of a list: what a width maps to afterwards is the
      last mipmap of that width in the list, or what it mapped to before
      when the list has none. */
  lemma {:induction false} AssignAllFind(m: WidthMap, ms: seq<MipMap>, w: u16)
    requires Ascending(m) && KeyedByWidth(m)
    ensures Find(AssignAll(m, ms), w) == if LastWithWidth(ms, w).Some? then LastWithWidth(ms, w) else Find(m, w)
  {
    if ms != [] {
      AssignAllFind(m, ms[..|ms| - 1], w);
    }
  }

  /** The whole collection: each width maps to the last mipmap of that width
      over all the textures in order (later textures win). */
  lemma {:induction false} CollectFind(lists: seq<seq<MipMap>>, w: u16)
    ensures Find(Collect(lists), w) == LastWithWidth(Flatten(lists), w)
  {
    if lists != [] {
      var init := lists[..|lists| - 1];
      var last := lists[|lists| - 1];
      CollectFind(init, w);
      AssignAllFind(Collect(init), last, w);
      LastWithWidthAppend(Flatten(init), last, w);
    }
  }

  /** In a map with one slot per key, a mipmap is among the values exactly
      when its width is found with it. */
  lemma {:induction false} FindValues(m: WidthMap, v: MipMap)
    requires Ascending(m) && KeyedByWidth(m)
    ensures v in Values(m) <==> Find(m, v.width) == Some(v)
  {
    if m != [] {
      var rest := m[1..];
      FindValues(rest, v);
      assert Values(m) == [m[0].mip] + Values(rest);
      if m[0].width == v.width {
        FindBelow(rest, v.width);
      }
    }
  }

  /** What the merge pushes into the result, in key order: mipmaps of
      strictly ascending width, and a mipmap is among them exactly when it
      was visited and no later visited mipmap has its width. */
  lemma Merged(lists: seq<seq<MipMap>>)
    ensures var r := Values(Collect(lists));
      forall i, j :: 0 <= i < j < |r| ==> r[i].width < r[j].width
    ensures var r := Values(Collect(lists));
      forall v :: v in r <==> LastWithWidth(Flatten(lists), v.width) == Some(v)
    ensures var r := Values(Collect(lists));
      forall x | x in Flatten(lists) :: exists v :: v in r && v.width == x.width
  {
    var m := Collect(lists);
    var flat := Flatten(lists);
    forall v ensures v in Values(m) <==> LastWithWidth(flat, v.width) == Some(v) {
      FindValues(m, v);
      CollectFind(lists, v.width);
    }
    forall x | x in flat ensures exists v :: v in Values(m) && v.width == x.width {
      LastWithWidthSpec(flat, x.width);
      var v := LastWithWidth(flat, x.width).value;
      FindValues(m, v);
      CollectFind(lists, v.width);
    }
  }
}
