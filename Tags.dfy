/**
 * The tag block of a PAA file: zero or more records
 *   "GGAT" | name (4 bytes) | value length (LE32) | value
 * collected into an ordered map from name to value, as std::map orders
 * std::string keys (byte-wise, unsigned, a proper prefix first).
 */
module Tags {
  import opened ByteStream

  const GGAT: seq<byte> := [0x47, 0x47, 0x41, 0x54]  // record marker "GGAT"
  const SFFO: seq<byte> := [0x53, 0x46, 0x46, 0x4f]  // mipmap offset table
  const CGVA: seq<byte> := [0x43, 0x47, 0x56, 0x41]  // average colour
  const CXAM: seq<byte> := [0x43, 0x58, 0x41, 0x4d]  // maximum colour
  const GALF: seq<byte> := [0x47, 0x41, 0x4c, 0x46]  // flags

  /** The writer always reserves 16 offset slots of 4 bytes each. */
  const OFFSET_SLOTS: nat := 16
  const OFFSET_BLOCK_SIZE: nat := 64
  const TAG_HEADER_SIZE: nat := 12

  datatype Entry = Entry(key: seq<byte>, value: seq<byte>)

  /** A std::map<std::string, std::string> as its entries in key order. */
  type TagMap = seq<Entry>

  /** std::string's operator<: lexicographic on unsigned bytes. */
  predicate Less(a: seq<byte>, b: seq<byte>)
  {
    if a == [] then b != []
    else if b == [] then false
    else if a[0] != b[0] then a[0] < b[0]
    else Less(a[1..], b[1..])
  }

  lemma {:induction false} LessIrreflexive(a: seq<byte>)
    ensures !Less(a, a)
  {
    if a != [] { LessIrreflexive(a[1..]); }
  }

  lemma {:induction false} LessTransitive(a: seq<byte>, b: seq<byte>, c: seq<byte>)
    requires Less(a, b) && Less(b, c)
    ensures Less(a, c)
  {
    if a != [] && b != [] && c != [] && a[0] == b[0] == c[0] {
      LessTransitive(a[1..], b[1..], c[1..]);
    }
  }

  lemma {:induction false} LessTotal(a: seq<byte>, b: seq<byte>)
    ensures a == b || Less(a, b) || Less(b, a)
  {
    if a != [] && b != [] && a[0] == b[0] {
      LessTotal(a[1..], b[1..]);
      if a[1..] == b[1..] {
        assert a == [a[0]] + a[1..] && b == [b[0]] + b[1..];
      }
    }
  }

  lemma {:induction false} LessAsymmetric(a: seq<byte>, b: seq<byte>)
    requires Less(a, b)
    ensures !Less(b, a)
  {
    if a != [] && b != [] && a[0] == b[0] {
      LessAsymmetric(a[1..], b[1..]);
    }
  }

  /** Keys strictly ascending: the map invariant of std::map. */
  ghost predicate Ordered(m: TagMap)
  {
    forall i, j :: 0 <= i < j < |m| ==> Less(m[i].key, m[j].key)
  }

  /** Every key of m is above b. */
  ghost predicate Above(b: seq<byte>, m: TagMap)
  {
    forall j :: 0 <= j < |m| ==> Less(b, m[j].key)
  }

  lemma OrderedTail(m: TagMap)
    requires Ordered(m) && m != []
    ensures Ordered(m[1..]) && Above(m[0].key, m[1..])
  {
    forall i, j | 0 <= i < j < |m[1..]| ensures Less(m[1..][i].key, m[1..][j].key) {
      assert m[1..][i] == m[i + 1] && m[1..][j] == m[j + 1];
    }
  }

  lemma OrderedCons(e: Entry, m: TagMap)
    requires Ordered(m) && Above(e.key, m)
    ensures Ordered([e] + m)
  {
    var l := [e] + m;
    forall i, j | 0 <= i < j < |l| ensures Less(l[i].key, l[j].key) {
      assert l[j] == m[j - 1];
      if i > 0 { assert l[i] == m[i - 1]; }
    }
  }

  /** The value stored under k, if any (`tags.contains(k)`, `tags[k]`). */
  function Get(m: TagMap, k: seq<byte>): Option<seq<byte>>
  {
    if m == [] then None
    else if m[0].key == k then Some(m[0].value)
    else Get(m[1..], k)
  }

  /** A key has a value exactly when some entry carries it, and the value
      found is stored with that key. */
  lemma {:induction false} GetFound(m: TagMap, k: seq<byte>)
    ensures Get(m, k).Some? <==> exists i :: 0 <= i < |m| && m[i].key == k
    ensures Get(m, k).Some? ==> Entry(k, Get(m, k).value) in m
  {
    if m != [] {
      GetFound(m[1..], k);
      if m[0].key != k {
        forall i | 0 <= i < |m| && m[i].key == k ensures exists j :: 0 <= j < |m[1..]| && m[1..][j].key == k {
          assert m[1..][i - 1] == m[i];
        }
        if Get(m, k).Some? {
          assert Entry(k, Get(m, k).value) in m[1..];
        }
      }
    }
  }

  /** A key below every key of m is not in m. */
  lemma {:induction false} GetAbove(m: TagMap, k: seq<byte>)
    requires Above(k, m)
    ensures Get(m, k) == None
  {
    if m != [] {
      LessIrreflexive(k);
      assert Above(k, m[1..]) by {
        forall j | 0 <= j < |m[1..]| ensures Less(k, m[1..][j].key) { assert m[1..][j] == m[j + 1]; }
      }
      GetAbove(m[1..], k);
    }
  }

  /** `tags[k] = v`: walks the entries in key order and replaces the value
      of k where it is found, or inserts k before the first larger key. The
      first key afterwards is k or the old first key. */
  function Put(m: TagMap, k: seq<byte>, v: seq<byte>): (r: TagMap)
    ensures r != [] && (r[0].key == k || (m != [] && r[0].key == m[0].key))
  {
    if m == [] then [Entry(k, v)]
    else if m[0].key == k then [Entry(k, v)] + m[1..]
    else if Less(k, m[0].key) then [Entry(k, v)] + m
    else [m[0]] + Put(m[1..], k, v)
  }

  /** Insertion keeps the keys strictly ascending. */
  lemma {:induction false} PutOrdered(m: TagMap, k: seq<byte>, v: seq<byte>)
    requires Ordered(m)
    ensures Ordered(Put(m, k, v))
  {
    if m == [] {
    } else if m[0].key == k {
      OrderedTail(m);
      OrderedCons(Entry(k, v), m[1..]);
    } else if Less(k, m[0].key) {
      forall j | 0 <= j < |m| ensures Less(k, m[j].key) {
        if j > 0 { LessTransitive(k, m[0].key, m[j].key); }
      }
      OrderedCons(Entry(k, v), m);
    } else {
      LessTotal(k, m[0].key);
      OrderedTail(m);
      PutOrdered(m[1..], k, v);
      var rest := Put(m[1..], k, v);
      forall j | 0 <= j < |rest| ensures Less(m[0].key, rest[j].key) {
        if rest[0].key == k {
          if j > 0 { LessTransitive(m[0].key, k, rest[j].key); }
        } else {
          if j > 0 { LessTransitive(m[0].key, rest[0].key, rest[j].key); }
        }
      }
      OrderedCons(m[0], rest);
    }
  }

  /** After `tags[k] = v`, k holds v. */
  lemma {:induction false} PutGet(m: TagMap, k: seq<byte>, v: seq<byte>)
    ensures Get(Put(m, k, v), k) == Some(v)
  {
    if m != [] && m[0].key != k && !Less(k, m[0].key) {
      PutGet(m[1..], k, v);
    }
  }

  /** `tags[k] = v` leaves every other key as it was. */
  lemma {:induction false} PutGetOther(m: TagMap, k: seq<byte>, v: seq<byte>, k': seq<byte>)
    requires k' != k
    ensures Get(Put(m, k, v), k') == Get(m, k')
  {
    if m != [] && m[0].key != k && !Less(k, m[0].key) {
      PutGetOther(m[1..], k, v, k');
    }
  }

  /** Putting a key above every existing key appends it. */
  lemma {:induction false} PutAbove(m: TagMap, k: seq<byte>, v: seq<byte>)
    requires forall i :: 0 <= i < |m| ==> Less(m[i].key, k)
    ensures Put(m, k, v) == m + [Entry(k, v)]
  {
    if m != [] {
      LessAsymmetric(m[0].key, k);
      LessIrreflexive(k);
      PutAbove(m[1..], k, v);
      assert [m[0]] + (m[1..] + [Entry(k, v)]) == m + [Entry(k, v)];
    }
  }

  /** The map after `tags[name] = value` for each record, in order. */
  function PutAll(acc: TagMap, recs: seq<Entry>): TagMap
  {
    if recs == [] then acc
    else
      var last := recs[|recs| - 1];
      Put(PutAll(acc, recs[..|recs| - 1]), last.key, last.value)
  }

  /** The value of the last record for k, if any. */
  function LastFor(recs: seq<Entry>, k: seq<byte>): Option<seq<byte>>
  {
    if recs == [] then None
    else if recs[|recs| - 1].key == k then Some(recs[|recs| - 1].value)
    else LastFor(recs[..|recs| - 1], k)
  }

  /** A later record for the same name overwrites an earlier one: each key
      ends up with the value of its last record, or keeps its old value. */
  lemma {:induction false} PutAllGet(acc: TagMap, recs: seq<Entry>, k: seq<byte>)
    ensures Get(PutAll(acc, recs), k) == if LastFor(recs, k).Some? then LastFor(recs, k) else Get(acc, k)
  {
    if recs != [] {
      var last := recs[|recs| - 1];
      PutAllGet(acc, recs[..|recs| - 1], k);
      if last.key == k {
        PutGet(PutAll(acc, recs[..|recs| - 1]), k, last.value);
      } else {
        PutGetOther(PutAll(acc, recs[..|recs| - 1]), last.key, last.value, k);
      }
    }
  }

  lemma {:induction false} PutAllOrdered(acc: TagMap, recs: seq<Entry>)
    requires Ordered(acc)
    ensures Ordered(PutAll(acc, recs))
  {
    if recs != [] {
      var last := recs[|recs| - 1];
      PutAllOrdered(acc, recs[..|recs| - 1]);
      PutOrdered(PutAll(acc, recs[..|recs| - 1]), last.key, last.value);
    }
  }

  /** Inserting the entries of an ordered map, in order, into an empty map
      rebuilds it. */
  lemma {:induction false} PutAllRebuilds(m: TagMap, n: nat)
    requires Ordered(m) && n <= |m|
    ensures PutAll([], m[..n]) == m[..n]
  {
    if n > 0 {
      assert m[..n][..n - 1] == m[..n - 1];
      PutAllRebuilds(m, n - 1);
      var init := m[..n - 1];
      forall j | 0 <= j < |init| ensures Less(init[j].key, m[n - 1].key) {
        assert init[j] == m[j];
      }
      PutAbove(init, m[n - 1].key, m[n - 1].value);
      assert m[..n - 1] + [m[n - 1]] == m[..n];
    }
  }

  /** `std::string_view` over a NUL-terminated 5-byte buffer: the tag name
      ends at its first zero byte. */
  function CString(s: seq<byte>): seq<byte>
  {
    if s == [] || s[0] == 0 then [] else [s[0]] + CString(s[1..])
  }

  /** The name read is the longest zero-free prefix. */
  lemma {:induction false} CStringStops(s: seq<byte>)
    ensures |CString(s)| <= |s| && CString(s) == s[..|CString(s)|]
    ensures forall i :: 0 <= i < |CString(s)| ==> s[i] != 0
    ensures |CString(s)| < |s| ==> s[|CString(s)|] == 0
  {
    if s != [] && s[0] != 0 {
      CStringStops(s[1..]);
      forall i | 0 <= i < |CString(s)| ensures s[i] != 0 {
        if i > 0 { assert s[i] == s[1..][i - 1]; }
      }
    }
  }

  /** A name with no zero byte is read whole. */
  lemma {:induction false} CStringWhole(k: seq<byte>)
    requires 0 !in k
    ensures CString(k) == k
  {
    if k != [] {
      assert k[0] in k;
      assert 0 !in k[1..] by {
        forall i | 0 <= i < |k[1..]| ensures k[1..][i] != 0 { assert k[1..][i] == k[i + 1]; }
      }
      CStringWhole(k[1..]);
      assert k == [k[0]] + k[1..];
    }
  }

  /** The records of the tag block from `pos`, in stream order, added to
      `recs`: each is marker, name, length and value; the scan stops,
      without consuming them, at the first four bytes that are not the
      marker. */
  function ScanRecords(s: seq<byte>, pos: nat, recs: seq<Entry>): Result<(seq<Entry>, nat)>
    decreases |s| - pos
  {
    if |s| < pos + 4 then Err(Truncated)
    else if s[pos..pos + 4] != GGAT then Ok((recs, pos))
    else if |s| < pos + TAG_HEADER_SIZE then Err(Truncated)
    else
      var name := CString(s[pos + 4..pos + 8]);
      var length := LE(s[pos + 8..pos + 12]);
      if |s| < pos + TAG_HEADER_SIZE + length then Err(Truncated)
      else ScanRecords(s, pos + TAG_HEADER_SIZE + length, recs + [Entry(name, s[pos + 12..pos + 12 + length])])
  }

  /** The tag loop of readFromStream: the records are put into `tags` one
      after another; the result is the map and the position of the first
      byte after the tag block. */
  function ScanTags(s: seq<byte>, pos: nat, tags: TagMap): Result<(TagMap, nat)>
  {
    var (recs, next) :- ScanRecords(s, pos, []);
    Ok((PutAll(tags, recs), next))
  }

  /** The scan ends at or after its start, in front of four bytes that are
      there and are not the record marker. */
  lemma {:induction false} ScanRecordsStops(s: seq<byte>, pos: nat, recs: seq<Entry>)
    ensures var r := ScanRecords(s, pos, recs);
      r.Ok? ==> pos <= r.value.1 && r.value.1 + 4 <= |s| && s[r.value.1..r.value.1 + 4] != GGAT
    decreases |s| - pos
  {
    if |s| >= pos + TAG_HEADER_SIZE && s[pos..pos + 4] == GGAT {
      var length := LE(s[pos + 8..pos + 12]);
      var next := pos + TAG_HEADER_SIZE + length;
      if |s| >= next {
        var e := Entry(CString(s[pos + 4..pos + 8]), s[pos + 12..next]);
        ScanStep(s, pos, recs, length, e);
        ScanRecordsStops(s, next, recs + [e]);
      }
    }
  }

  /** One record header that fits, scanned: its entry is collected and the
      scan goes on after its value. */
  lemma ScanStep(s: seq<byte>, pos: nat, recs: seq<Entry>, length: nat, e: Entry)
    requires pos + TAG_HEADER_SIZE <= |s| && s[pos..pos + 4] == GGAT
    requires length == LE(s[pos + 8..pos + 12]) && pos + TAG_HEADER_SIZE + length <= |s|
    requires e == Entry(CString(s[pos + 4..pos + 8]), s[pos + TAG_HEADER_SIZE..pos + TAG_HEADER_SIZE + length])
    ensures ScanRecords(s, pos, recs) == ScanRecords(s, pos + TAG_HEADER_SIZE + length, recs + [e])
  {
  }

  lemma ScanTagsOf(s: seq<byte>, pos: nat, tags: TagMap, recs: seq<Entry>, next: nat)
    requires ScanRecords(s, pos, []) == Ok((recs, next))
    ensures ScanTags(s, pos, tags) == Ok((PutAll(tags, recs), next))
  {
  }

  /** The scanned map is a std::map: its keys stay strictly ascending. */
  lemma ScanTagsOrdered(s: seq<byte>, pos: nat, tags: TagMap)
    requires Ordered(tags)
    ensures ScanTags(s, pos, tags).Ok? ==> Ordered(ScanTags(s, pos, tags).value.0)
  {
    var r := ScanRecords(s, pos, []);
    if r.Ok? {
      PutAllOrdered(tags, r.value.0);
    }
  }

  /** The `while (true)` tag loop: reads records until the marker check
      fails, then steps back over the four bytes it peeked. */
  method ReadTags(input: seq<byte>, start: nat, tags: TagMap) returns (r: Result<(TagMap, nat)>)
    ensures r == ScanTags(input, start, tags)
  {
    var pos, acc := start, tags;
    ghost var recs: seq<Entry> := [];
    while true
      invariant ScanRecords(input, pos, recs) == ScanRecords(input, start, [])
      invariant acc == PutAll(tags, recs)
      decreases |input| - pos
    {
      if |input| < pos + 4 { return Err(Truncated); }
      var signature := input[pos..pos + 4];
      if signature != GGAT {
        return Ok((acc, pos));
      }
      if |input| < pos + TAG_HEADER_SIZE { return Err(Truncated); }
      var name := CString(input[pos + 4..pos + 8]);
      var length := LE(input[pos + 8..pos + 12]);
      if |input| < pos + TAG_HEADER_SIZE + length { return Err(Truncated); }
      var value := input[pos + TAG_HEADER_SIZE..pos + TAG_HEADER_SIZE + length];
      acc := Put(acc, name, value);
      ghost var before := recs;
      recs := recs + [Entry(name, value)];
      assert recs[..|recs| - 1] == before;
      ScanStep(input, pos, before, length, Entry(name, value));
      pos := pos + TAG_HEADER_SIZE + length;
    }
  }

  // ---- writing ----

  /** The four name bytes the writer emits: `key.c_str()`, i.e. the key
      and its terminating NUL, cut to four bytes. */
  function NameBytes(key: seq<byte>): (r: seq<byte>)
    requires |key| >= 3
    ensures |r| == 4
    ensures |key| >= 4 ==> r == key[..4]
    ensures |key| == 3 ==> r == key + [0]
  {
    (key + [0])[..4]
  }

  /** A zero-free key followed by a NUL is read as the key. */
  lemma {:induction false} CStringTerminated(k: seq<byte>)
    requires 0 !in k
    ensures CString(k + [0]) == k
  {
    if k != [] {
      assert k[0] in k;
      assert (k + [0])[1..] == k[1..] + [0];
      assert 0 !in k[1..] by {
        forall i | 0 <= i < |k[1..]| ensures k[1..][i] != 0 { assert k[1..][i] == k[i + 1]; }
      }
      CStringTerminated(k[1..]);
      assert k == [k[0]] + k[1..];
    }
  }

  /** The name bytes written for a zero-free key of three or four bytes
      read back as that key: a four-byte key whole, a three-byte key up to
      the NUL that `c_str` supplies. */
  lemma CStringNameBytes(key: seq<byte>)
    requires 3 <= |key| <= 4 && 0 !in key
    ensures CString(NameBytes(key)) == key
  {
    if |key| == 4 {
      assert key[..4] == key;
      CStringWhole(key);
    } else {
      CStringTerminated(key);
    }
  }

  /** Keys the writer can emit: c_str() must supply four readable bytes. */
  ghost predicate WritableKeys(m: TagMap)
  {
    forall i :: 0 <= i < |m| ==> |m[i].key| >= 3
  }

  /** One record: marker, name, the value length taken as 32 bits, and the
      whole value. */
  function TagRecord(key: seq<byte>, value: seq<byte>): (r: seq<byte>)
    requires |key| >= 3
    ensures |r| == TAG_HEADER_SIZE + |value|
  {
    GGAT + NameBytes(key) + LE32(|value| % U32_MODULUS) + value
  }

  /** The records of all entries, in map order. */
  function EncodeTags(m: TagMap): (r: seq<byte>)
    requires WritableKeys(m)
  {
    if m == [] then [] else TagRecord(m[0].key, m[0].value) + EncodeTags(m[1..])
  }

  /** The records of two maps laid end to end are the records of each. */
  lemma {:induction false} EncodeTagsAppend(a: TagMap, b: TagMap)
    requires WritableKeys(a) && WritableKeys(b)
    ensures WritableKeys(a + b)
    ensures EncodeTags(a + b) == EncodeTags(a) + EncodeTags(b)
  {
    if a == [] {
      assert a + b == b;
    } else {
      var t := a[1..];
      assert (a + b)[0] == a[0];
      assert (a + b)[1..] == t + b;
      assert WritableKeys(t);
      EncodeTagsAppend(t, b);
      var r := TagRecord(a[0].key, a[0].value);
      assert EncodeTags(a + b) == r + EncodeTags(t + b);
      assert EncodeTags(a) == r + EncodeTags(t);
      assert r + (EncodeTags(t) + EncodeTags(b)) == r + EncodeTags(t) + EncodeTags(b);
    }
  }

  /** The map with the SFFO value replaced by v (other entries unchanged). */
  function SetSffo(m: TagMap, v: seq<byte>): TagMap
  {
    if m == [] then []
    else [if m[0].key == SFFO then Entry(SFFO, v) else m[0]] + SetSffo(m[1..], v)
  }

  /** Replacing the SFFO value keeps every key and every other value. */
  lemma {:induction false} SetSffoEntries(m: TagMap, v: seq<byte>)
    ensures |SetSffo(m, v)| == |m|
    ensures forall i :: 0 <= i < |m| ==> SetSffo(m, v)[i].key == m[i].key
    ensures forall i :: 0 <= i < |m| ==>
      SetSffo(m, v)[i].value == if m[i].key == SFFO then v else m[i].value
  {
    if m != [] {
      SetSffoEntries(m[1..], v);
      forall i | 1 <= i < |m| ensures SetSffo(m, v)[i] == SetSffo(m[1..], v)[i - 1] { }
    }
  }

  /** The keys of the written map are the keys of the map. */
  lemma SetSffoWritable(m: TagMap, v: seq<byte>)
    requires WritableKeys(m)
    ensures WritableKeys(SetSffo(m, v))
  {
    SetSffoEntries(m, v);
  }

  /** Without an SFFO entry there is nothing to replace. */
  lemma {:induction false} NoSffoUnchanged(m: TagMap, v: seq<byte>)
    requires Get(m, SFFO) == None
    ensures SetSffo(m, v) == m
  {
    if m != [] {
      NoSffoUnchanged(m[1..], v);
    }
  }

  /** Where, inside EncodeTags(m), the value of the SFFO record starts:
      writeToFile remembers this position for its backpatch. */
  function SffoValueAt(m: TagMap): (r: Option<nat>)
    requires WritableKeys(m)
    ensures r.Some? <==> Get(m, SFFO).Some?
  {
    if m == [] then None
    else if m[0].key == SFFO then Some(TAG_HEADER_SIZE)
    else match SffoValueAt(m[1..]) {
      case None => None
      case Some(p) => Some(|TagRecord(m[0].key, m[0].value)| + p)
    }
  }

  /** Looking a key up after the SFFO value was replaced. */
  lemma {:induction false} SetSffoGet(m: TagMap, v: seq<byte>, k: seq<byte>)
    ensures Get(SetSffo(m, v), k) == if k == SFFO && Get(m, SFFO).Some? then Some(v) else Get(m, k)
  {
    if m != [] {
      SetSffoGet(m[1..], v, k);
    }
  }

  /** Replacing the SFFO value keeps the keys, hence their order. */
  lemma SetSffoOrdered(m: TagMap, v: seq<byte>)
    requires Ordered(m)
    ensures Ordered(SetSffo(m, v))
  {
    SetSffoEntries(m, v);
  }

  lemma {:induction false} SetSffoAppend(a: TagMap, e: Entry, v: seq<byte>)
    ensures SetSffo(a + [e], v) == SetSffo(a, v) + [if e.key == SFFO then Entry(SFFO, v) else e]
  {
    if a == [] {
      assert a + [e] == [e];
    } else {
      assert (a + [e])[1..] == a[1..] + [e];
      SetSffoAppend(a[1..], e, v);
    }
  }

  /** The SFFO value position after one more record: unchanged when an
      SFFO record came before, else just past the new record's header when
      the new record is SFFO. */
  lemma {:induction false} SffoValueAtAppend(a: TagMap, e: Entry)
    requires WritableKeys(a) && |e.key| >= 3
    ensures WritableKeys(a + [e])
    ensures SffoValueAt(a + [e])
            == if SffoValueAt(a).Some? then SffoValueAt(a)
               else if e.key == SFFO then Some(|EncodeTags(a)| + TAG_HEADER_SIZE)
               else None
  {
    if a == [] {
      assert a + [e] == [e];
    } else {
      assert (a + [e])[1..] == a[1..] + [e];
      assert WritableKeys(a[1..]) by {
        forall i | 0 <= i < |a[1..]| ensures a[1..][i] == a[i + 1] { }
      }
      SffoValueAtAppend(a[1..], e);
    }
  }

  /** The SFFO value lies inside the records. */
  lemma {:induction false} SffoValueBound(m: TagMap)
    requires WritableKeys(m) && Get(m, SFFO).Some?
    ensures SffoValueAt(m).value + |Get(m, SFFO).value| <= |EncodeTags(m)|
  {
    if m[0].key != SFFO {
      assert WritableKeys(m[1..]) by {
        forall i | 0 <= i < |m[1..]| ensures m[1..][i] == m[i + 1] { }
      }
      SffoValueBound(m[1..]);
    }
  }

  /** In an ordered map no key occurs before its own entry. */
  lemma OrderedFirst(m: TagMap, i: nat)
    requires Ordered(m) && i < |m|
    ensures Get(m[..i], m[i].key) == None
  {
    GetFound(m[..i], m[i].key);
    if Get(m[..i], m[i].key).Some? {
      var j :| 0 <= j < i && m[..i][j].key == m[i].key;
      assert Less(m[j].key, m[i].key);
      LessIrreflexive(m[i].key);
    }
  }

  /** What the backpatch relies on: writing w over the SFFO value of the
      encoded map gives the encoding of the map whose SFFO value is w, and
      the SFFO position does not depend on that value. */
  ghost predicate PatchesSffo(m: TagMap, v: seq<byte>, w: seq<byte>)
    requires WritableKeys(m) && Get(m, SFFO).Some?
  {
    SetSffoWritable(m, v);
    SetSffoWritable(m, w);
    && SffoValueAt(SetSffo(m, v)) == SffoValueAt(m)
    && SffoValueAt(m).value + |w| <= |EncodeTags(SetSffo(m, v))|
    && EncodeTags(SetSffo(m, w)) == Overwrite(EncodeTags(SetSffo(m, v)), SffoValueAt(m).value, w)
  }

  /** The backpatch when the SFFO record comes first. */
  lemma PatchSffoFirst(m: TagMap, v: seq<byte>, w: seq<byte>)
    requires WritableKeys(m) && m != [] && m[0].key == SFFO && Get(m[1..], SFFO) == None && |v| == |w|
    ensures PatchesSffo(m, v, w)
  {
    var rest := m[1..];
    assert WritableKeys(rest) by {
      forall i | 0 <= i < |rest| ensures rest[i] == m[i + 1] { }
    }
    NoSffoUnchanged(rest, v);
    NoSffoUnchanged(rest, w);
    SetSffoWritable(m, v);
    SetSffoWritable(m, w);
    var tail := EncodeTags(rest);
    var head := GGAT + NameBytes(SFFO) + LE32(|v| % U32_MODULUS);
    assert EncodeTags(SetSffo(m, v)) == head + v + tail;
    assert EncodeTags(SetSffo(m, w)) == head + w + tail;
    OverwriteMiddle(head, v, w, tail);
  }

  /** The backpatch when another record comes first: everything moves by
      that record. */
  lemma PatchSffoLater(m: TagMap, v: seq<byte>, w: seq<byte>)
    requires WritableKeys(m) && m != [] && m[0].key != SFFO && |v| == |w|
    requires WritableKeys(m[1..]) && Get(m[1..], SFFO).Some? && PatchesSffo(m[1..], v, w)
    ensures PatchesSffo(m, v, w)
  {
    var e, rest := m[0], m[1..];
    SetSffoWritable(m, v);
    SetSffoWritable(m, w);
    SetSffoWritable(rest, v);
    SetSffoWritable(rest, w);
    var rec := TagRecord(e.key, e.value);
    var p := SffoValueAt(rest).value;
    assert SffoValueAt(SetSffo(m, v)) == Some(|rec| + p);
    assert EncodeTags(SetSffo(m, v)) == rec + EncodeTags(SetSffo(rest, v));
    assert EncodeTags(SetSffo(m, w)) == rec + EncodeTags(SetSffo(rest, w));
    OverwriteSuffix(rec, EncodeTags(SetSffo(rest, v)), p, w);
  }

  /** Backpatching a value of the same length over the SFFO value of an
      encoded map is encoding the map with the new value. */
  lemma {:induction false} PatchSffo(m: TagMap, v: seq<byte>, w: seq<byte>)
    requires Ordered(m) && WritableKeys(m) && Get(m, SFFO).Some? && |v| == |w|
    ensures PatchesSffo(m, v, w)
  {
    OrderedTail(m);
    assert WritableKeys(m[1..]) by {
      forall i | 0 <= i < |m[1..]| ensures m[1..][i] == m[i + 1] { }
    }
    if m[0].key == SFFO {
      GetAbove(m[1..], SFFO);
      PatchSffoFirst(m, v, w);
    } else {
      PatchSffo(m[1..], v, w);
      PatchSffoLater(m, v, w);
    }
  }

  lemma OverwriteMiddle(a: seq<byte>, v: seq<byte>, w: seq<byte>, b: seq<byte>)
    requires |v| == |w|
    ensures Overwrite(a + v + b, |a|, w) == a + w + b
  {
    assert (a + v + b)[..|a|] == a;
    assert (a + v + b)[|a| + |w|..] == b;
  }

  lemma OverwriteSuffix(a: seq<byte>, b: seq<byte>, at: nat, w: seq<byte>)
    requires at + |w| <= |b|
    ensures Overwrite(a + b, |a| + at, w) == a + Overwrite(b, at, w)
  {
    assert (a + b)[..|a| + at] == a + b[..at];
    assert (a + b)[|a| + at + |w|..] == b[at + |w|..];
  }

  // ---- reading back what was written ----

  /** Keys that survive the NUL-terminated read: three or four bytes, none
      zero (a three-byte key goes out with its NUL as the fourth byte). */
  ghost predicate ReadableKeys(m: TagMap)
  {
    forall i :: 0 <= i < |m| ==> 3 <= |m[i].key| <= 4 && 0 !in m[i].key
  }

  /** Values whose length the 32-bit length field holds. */
  ghost predicate ValuesFit(m: TagMap)
  {
    forall i :: 0 <= i < |m| ==> |m[i].value| < U32_MODULUS
  }

  /** A byte string laid out at pos splits at any point into its parts. */
  lemma SliceSplit(s: seq<byte>, pos: nat, a: seq<byte>, b: seq<byte>)
    requires pos + |a| + |b| <= |s| && s[pos..pos + |a| + |b|] == a + b
    ensures s[pos..pos + |a|] == a
    ensures s[pos + |a|..pos + |a| + |b|] == b
  {
    assert s[pos..pos + |a|] == s[pos..pos + |a| + |b|][..|a|];
    assert s[pos + |a|..pos + |a| + |b|] == s[pos..pos + |a| + |b|][|a|..];
  }

  /** The fields of a written record with a readable key, read back. */
  lemma RecordFields(s: seq<byte>, pos: nat, key: seq<byte>, value: seq<byte>)
    requires 3 <= |key| <= 4 && 0 !in key && |value| < U32_MODULUS
    requires pos + TAG_HEADER_SIZE + |value| <= |s|
    requires s[pos..pos + TAG_HEADER_SIZE + |value|] == TagRecord(key, value)
    ensures s[pos..pos + 4] == GGAT
    ensures CString(s[pos + 4..pos + 8]) == key
    ensures LE(s[pos + 8..pos + 12]) == |value|
    ensures s[pos + 12..pos + 12 + |value|] == value
  {
    var name := NameBytes(key);
    assert TagRecord(key, value) == GGAT + name + LE32(|value|) + value;
    SliceSplit(s, pos, GGAT + name + LE32(|value|), value);
    SliceSplit(s, pos, GGAT + name, LE32(|value|));
    SliceSplit(s, pos, GGAT, name);
    CStringNameBytes(key);
    DecodeEncode(|value|, 4);
  }

  /** One written record, scanned: it is collected whole and the cursor
      moves past it. */
  lemma ScanRecord(s: seq<byte>, pos: nat, recs: seq<Entry>, e: Entry, next: nat)
    requires 3 <= |e.key| <= 4 && 0 !in e.key && |e.value| < U32_MODULUS
    requires next == pos + TAG_HEADER_SIZE + |e.value| && next <= |s|
    requires s[pos..next] == TagRecord(e.key, e.value)
    ensures ScanRecords(s, pos, recs) == ScanRecords(s, next, recs + [e])
  {
    RecordFields(s, pos, e.key, e.value);
    assert Entry(e.key, e.value) == e;
  }

  /** The bytes the records of m take: a header and the value each. */
  function RecordsSize(m: TagMap): nat
  {
    if m == [] then 0 else TAG_HEADER_SIZE + |m[0].value| + RecordsSize(m[1..])
  }

  lemma {:induction false} EncodeTagsSize(m: TagMap)
    requires WritableKeys(m)
    ensures |EncodeTags(m)| == RecordsSize(m)
  {
    if m != [] {
      assert WritableKeys(m[1..]) by {
        forall i | 0 <= i < |m[1..]| ensures m[1..][i] == m[i + 1] { }
      }
      EncodeTagsSize(m[1..]);
    }
  }

  /** The records of m lie in s one after another from pos, each with a
      key and a value that survive the read. */
  ghost predicate Written(s: seq<byte>, pos: nat, m: TagMap)
    decreases |m|
  {
    if m == [] then true
    else
      var next := pos + TAG_HEADER_SIZE + |m[0].value|;
      && 3 <= |m[0].key| <= 4 && 0 !in m[0].key && |m[0].value| < U32_MODULUS
      && next <= |s| && s[pos..next] == TagRecord(m[0].key, m[0].value)
      && Written(s, next, m[1..])
  }

  /** The encoded records of m, with readable keys, are laid out record by
      record. */
  lemma {:induction false} EncodedWritten(s: seq<byte>, pos: nat, m: TagMap)
    requires WritableKeys(m) && ReadableKeys(m) && ValuesFit(m)
    requires pos + |EncodeTags(m)| <= |s| && s[pos..pos + |EncodeTags(m)|] == EncodeTags(m)
    ensures Written(s, pos, m)
    decreases |m|
  {
    if m != [] {
      var rest := m[1..];
      assert WritableKeys(rest) && ReadableKeys(rest) && ValuesFit(rest) by {
        forall i | 0 <= i < |rest| ensures rest[i] == m[i + 1] { }
      }
      SliceSplit(s, pos, TagRecord(m[0].key, m[0].value), EncodeTags(rest));
      EncodedWritten(s, pos + TAG_HEADER_SIZE + |m[0].value|, rest);
    }
  }

  /** Scanning the records of m collects exactly the entries of m, in
      order, and leaves the cursor just past them. */
  lemma {:induction false} ScanEncodedTags(s: seq<byte>, pos: nat, recs: seq<Entry>, m: TagMap, end: nat, all: seq<Entry>)
    requires Written(s, pos, m) && end == pos + RecordsSize(m) && all == recs + m
    requires end + 4 <= |s| && s[end..end + 4] != GGAT
    ensures ScanRecords(s, pos, recs) == Ok((all, end))
    decreases |m|
  {
    if m == [] {
      assert all == recs;
    } else {
      var e, t := m[0], m[1..];
      var next := pos + TAG_HEADER_SIZE + |e.value|;
      ScanRecord(s, pos, recs, e, next);
      assert all == recs + [e] + t;
      ScanEncodedTags(s, next, recs + [e], t, end, all);
    }
  }

  /** The records of m, followed by anything that is not a record marker,
      are collected back as exactly the entries of m. */
  lemma EncodedRecords(s: seq<byte>, pos: nat, m: TagMap)
    requires WritableKeys(m) && ReadableKeys(m) && ValuesFit(m)
    requires pos + |EncodeTags(m)| + 4 <= |s| && s[pos..pos + |EncodeTags(m)|] == EncodeTags(m)
    requires s[pos + |EncodeTags(m)|..pos + |EncodeTags(m)| + 4] != GGAT
    ensures ScanRecords(s, pos, []) == Ok((m, pos + |EncodeTags(m)|))
  {
    EncodedWritten(s, pos, m);
    EncodeTagsSize(m);
    assert [] + m == m;
    ScanEncodedTags(s, pos, [], m, pos + |EncodeTags(m)|, m);
  }

  /** The tag block round trip: the records of an ordered map with
      readable keys, followed by anything that is not a record marker, are
      read back into that same map, and the scan stops right after them. */
  lemma TagsRoundTrip(s: seq<byte>, pos: nat, m: TagMap)
    requires Ordered(m) && WritableKeys(m) && ReadableKeys(m) && ValuesFit(m)
    requires pos + |EncodeTags(m)| + 4 <= |s| && s[pos..pos + |EncodeTags(m)|] == EncodeTags(m)
    requires s[pos + |EncodeTags(m)|..pos + |EncodeTags(m)| + 4] != GGAT
    ensures ScanTags(s, pos, []) == Ok((m, pos + |EncodeTags(m)|))
  {
    EncodedRecords(s, pos, m);
    ScanTagsOf(s, pos, [], m, pos + |EncodeTags(m)|);
    PutAllRebuilds(m, |m|);
    assert m[..|m|] == m;
  }
}
