/** The C client's query builder (`struct vrt_builder` and `vrt_make_query`):
    a count word, the end-offset table, the tag table and the data area are
    filled in place in the caller's buffer, one tag at a time, and the
    unused tail of the last value is zeroed. */
module Query {
  import opened Bytes
  import opened Wire
  import Blob

  /** Where the count word goes: after the 12-byte frame from draft 5 on. */
  function Start(variant: int): nat {
    if variant >= 5 then 12 else 0
  }

  /** What precedes the count word: the frame from draft 5 on. */
  function Preamble(variant: int): (p: seq<byte>)
    ensures |p| == Start(variant)
  {
    if variant >= 5 then Frame(QUERY_LEN as u32) else []
  }

  /** Tag keys strictly increase, as the builder asserts on every addition. */
  predicate Increasing(tvs: seq<TagValue>) {
    forall i :: 0 < i < |tvs| ==> tvs[i - 1].key < tvs[i].key
  }

  lemma {:induction false} IncreasingDistinct(tvs: seq<TagValue>)
    requires Increasing(tvs)
    ensures Blob.DistinctKeys(tvs)
    ensures forall i, j :: 0 <= i < j < |tvs| ==> tvs[i].key < tvs[j].key
  {
    forall i, j | 0 <= i < j < |tvs|
      ensures tvs[i].key < tvs[j].key
    {
      var k := i + 1;
      while k < j
        invariant i < k <= j
        invariant tvs[i].key < tvs[k].key
      {
        k := k + 1;
      }
    }
  }

  /** A write right after `lo..pos` extends that range by the written bytes. */
  lemma {:induction false} PutExtends(s: seq<byte>, lo: nat, pos: nat, d: seq<byte>)
    requires lo <= pos && pos + |d| <= |s|
    ensures Put(s, pos, d)[lo..pos + |d|] == s[lo..pos] + d
  {
    var r := Put(s, pos, d);
    assert forall i :: lo <= i < pos ==> r[i] == s[i];
    assert forall i :: pos <= i < pos + |d| ==> r[i] == d[i - pos];
  }

  lemma {:induction false} WordsOne(w: u32)
    ensures Words([w]) == Word(w)
  {
    assert [w][1..] == [];
  }

  lemma {:induction false} KeysSnoc(tags: seq<TagValue>, t: TagValue)
    ensures Keys(tags + [t]) == Keys(tags) + [t.key]
  {
  }

  lemma {:induction false} ValuesSnoc(tags: seq<TagValue>, t: TagValue)
    ensures Values(tags + [t]) == Values(tags) + t.value
  {
    ValuesAppend(tags, [t]);
    assert [t][1..] == [];
  }

  /** One more tag adds the end of the values before it to the offset table. */
  lemma {:induction false} EndsSnoc(tags: seq<TagValue>, t: TagValue)
    requires |tags| > 0
    ensures Ends(tags + [t]) == Ends(tags) + [Wrap32(|Values(tags)|)]
  {
    assert (tags + [t])[..|tags|] == tags;
  }

  /** Byte `i` of a buffer that held `base` once a builder for `n` tags
      whose count word sits at `start` has written the end-offset bytes `eb`,
      the key bytes `kb` and the value bytes `v`: each at its place in the
      layout, every other byte still `base[i]`. */
  function Lay(base: seq<byte>, start: nat, n: u32, eb: seq<byte>, kb: seq<byte>, v: seq<byte>, i: nat): byte
    requires i < |base|
  {
    if start <= i < start + 4 then Word(n)[i - start]
    else if start + 4 <= i < start + 4 + |eb| then eb[i - start - 4]
    else if start + 4 * n <= i < start + 4 * n + |kb| then kb[i - start - 4 * n]
    else if start + 8 * n <= i < start + 8 * n + |v| then v[i - start - 8 * n]
    else base[i]
  }

  /** The whole buffer after `tags` were added over `base`: the count, the end
      offset of every tag that has a successor, every key and the values. */
  function Render(base: seq<byte>, start: nat, n: u32, tags: seq<TagValue>): (r: seq<byte>)
    ensures |r| == |base|
  {
    seq(|base|, i requires 0 <= i < |base| => Lay(base, start, n, Words(Ends(tags)), Words(Keys(tags)), Values(tags), i))
  }

  /** The bytes `vrt_query_add_tag` writes: the previous tag's end offset
      word `ow` (when there is a previous tag), the new key word `kw` and the
      new value. */
  function AddWrites(s: seq<byte>, start: nat, n: nat, c: nat, off: nat, ow: seq<byte>, kw: seq<byte>, data: seq<byte>): (r: seq<byte>)
    requires c < n && |ow| == 4 && |kw| == 4 && start + 8 * n + off + |data| <= |s|
    ensures |r| == |s|
  {
    var s1 := if c > 0 then Put(s, start + 4 + 4 * (c - 1), ow) else s;
    var s2 := Put(s1, start + 4 * n + 4 * c, kw);
    Put(s2, start + 8 * n + off, data)
  }

  /** One byte of the buffer after the writes of `vrt_query_add_tag`: it is
      the byte of the layout whose three tables each grew by what was written. */
  lemma {:induction false} LayAdd(s: seq<byte>, base: seq<byte>, start: nat, n: u32, c: nat, eb: seq<byte>, kb: seq<byte>, v: seq<byte>,
               ow: seq<byte>, kw: seq<byte>, data: seq<byte>, i: nat)
    requires c < n && |ow| == 4 && |kw| == 4 && |kb| == 4 * c && (if c == 0 then eb == [] else |eb| == 4 * (c - 1))
    requires |s| == |base| && start + 8 * n + |v| + |data| <= |s| && i < |s|
    requires s[i] == Lay(base, start, n, eb, kb, v, i)
    ensures AddWrites(s, start, n, c, |v|, ow, kw, data)[i] == Lay(base, start, n, if c == 0 then eb else eb + ow, kb + kw, v + data, i)
  {
  }

  /** The three tables of the layout after one more tag. */
  lemma {:induction false} TablesSnoc(tags: seq<TagValue>, t: TagValue)
    requires |Values(tags)| < TWO32
    ensures Words(Ends(tags + [t])) == if tags == [] then [] else Words(Ends(tags)) + Word(|Values(tags)|)
    ensures Words(Keys(tags + [t])) == Words(Keys(tags)) + Word(t.key)
    ensures Values(tags + [t]) == Values(tags) + t.value
  {
    ValuesSnoc(tags, t);
    KeysSnoc(tags, t);
    WordsAppend(Keys(tags), [t.key]);
    WordsOne(t.key);
    if tags != [] {
      EndsSnoc(tags, t);
      WordsAppend(Ends(tags), [|Values(tags)| as u32]);
      WordsOne(|Values(tags)|);
    }
  }

  /** `vrt_query_add_tag` turns the layout of `tags` into the layout of
      `tags` with the new tag appended. */
  lemma {:induction false} RenderAdd(base: seq<byte>, start: nat, n: u32, tags: seq<TagValue>, tag: u32, data: seq<byte>)
    requires |tags| < n
    requires start + 8 * n + |Values(tags)| + |data| <= |base| && start + 8 * n + |Values(tags)| + |data| < TWO32
    ensures AddWrites(Render(base, start, n, tags), start, n, |tags|, |Values(tags)|, Word(|Values(tags)|), Word(tag), data)
         == Render(base, start, n, tags + [TagValue(tag, data)])
  {
    var t' := tags + [TagValue(tag, data)];
    var s := Render(base, start, n, tags);
    var eb := Words(Ends(tags));
    var v := Values(tags);
    TablesSnoc(tags, TagValue(tag, data));
    forall i | 0 <= i < |base|
      ensures AddWrites(s, start, n, |tags|, |v|, Word(|v|), Word(tag), data)[i] == Render(base, start, n, t')[i]
    {
      LayAdd(s, base, start, n, |tags|, eb, Words(Keys(tags)), v, Word(|v|), Word(tag), data, i);
    }
  }

  /** `tvs` with `k` zero bytes appended to the value of the last tag. */
  function PadLast(tvs: seq<TagValue>, k: nat): (r: seq<TagValue>)
    requires |tvs| > 0
    ensures |r| == |tvs|
  {
    var last := tvs[|tvs| - 1];
    tvs[..|tvs| - 1] + [TagValue(last.key, last.value + Zeros(k))]
  }

  /** Growing the last value grows the concatenated values at their end. */
  lemma {:induction false} ValuesGrowLast(init: seq<TagValue>, key: u32, v: seq<byte>, z: seq<byte>)
    ensures Values(init + [TagValue(key, v + z)]) == Values(init + [TagValue(key, v)]) + z
  {
    ValuesSnoc(init, TagValue(key, v + z));
    ValuesSnoc(init, TagValue(key, v));
  }

  lemma {:induction false} PadLastValues(tvs: seq<TagValue>, k: nat)
    requires |tvs| > 0
    ensures Values(PadLast(tvs, k)) == Values(tvs) + Zeros(k)
  {
    var last := tvs[|tvs| - 1];
    ValuesGrowLast(tvs[..|tvs| - 1], last.key, last.value, Zeros(k));
    SnocLast(tvs);
  }

  lemma {:induction false} PadLastKeys(tvs: seq<TagValue>, k: nat)
    requires |tvs| > 0
    ensures Keys(PadLast(tvs, k)) == Keys(tvs)
  {
  }

  lemma {:induction false} PadLastEnds(tvs: seq<TagValue>, k: nat)
    requires |tvs| > 0
    ensures Ends(PadLast(tvs, k)) == Ends(tvs)
  {
    var init := tvs[..|tvs| - 1];
    assert PadLast(tvs, k)[..|tvs| - 1] == init;
  }

  /** One byte of the area after `vrt_query_finish` zeroed the rest of it:
      the byte of the header words, the values and the zeros at that offset. */
  lemma {:induction false} LayEncodes(s: seq<byte>, base: seq<byte>, start: nat, n: u32, eb: seq<byte>, kb: seq<byte>, v: seq<byte>, k: nat, j: nat)
    requires 1 <= n && |eb| == 4 * (n - 1) && |kb| == 4 * n
    requires |s| == |base| && start + 8 * n + |v| + k <= |s| && j < 8 * n + |v| + k
    requires s[start + j] == Lay(base, start, n, eb, kb, v, start + j)
    ensures Put(s, start + 8 * n + |v|, Zeros(k))[start + j] == (Word(n) + eb + kb + (v + Zeros(k)))[j]
  {
  }

  /** Once every tag is added and the rest of the area is zeroed, the bytes
      from `start` to the end of the area are the encoded message whose last
      value has absorbed the zeros. */
  lemma {:induction false} RenderEncodes(base: seq<byte>, start: nat, n: u32, tags: seq<TagValue>, k: nat)
    requires 1 <= n && |tags| == n
    requires start + 8 * n + |Values(tags)| + k <= |base| && start + 8 * n + |Values(tags)| + k < TWO32
    ensures Encodable(PadLast(tags, k))
    ensures Put(Render(base, start, n, tags), start + 8 * n + |Values(tags)|, Zeros(k))[start..start + 8 * n + |Values(tags)| + k]
         == Encode(PadLast(tags, k))
  {
    var v := Values(tags);
    var t' := PadLast(tags, k);
    PadLastValues(tags, k);
    PadLastEnds(tags, k);
    PadLastKeys(tags, k);
    var s := Render(base, start, n, tags);
    var r := Put(s, start + 8 * n + |v|, Zeros(k));
    var e := Word(n) + Words(Ends(tags)) + Words(Keys(tags)) + (v + Zeros(k));
    assert Encode(t') == e by {
      WordsAppend([n] + Ends(tags), Keys(tags));
      WordsAppend([n], Ends(tags));
      WordsOne(n);
    }
    forall j | 0 <= j < |e|
      ensures r[start + j] == e[j]
    {
      LayEncodes(s, base, start, n, Words(Ends(tags)), Words(Keys(tags)), v, k, j);
    }
  }

  /** Outside the area from `start` to `hi` the builder leaves the buffer alone. */
  lemma {:induction false} RenderFrame(base: seq<byte>, start: nat, n: u32, tags: seq<TagValue>, hi: nat)
    requires 1 <= n && |tags| <= n
    requires start + 8 * n + |Values(tags)| <= hi <= |base|
    ensures Render(base, start, n, tags)[..start] == base[..start]
    ensures Render(base, start, n, tags)[hi..] == base[hi..]
  {
    var r := Render(base, start, n, tags);
    assert |Words(Ends(tags))| <= 4 * n && |Words(Keys(tags))| <= 4 * n;
    assert forall i :: 0 <= i < start ==> r[i] == base[i];
    assert forall i :: hi <= i < |base| ==> r[i] == base[i];
  }

  /** Before any tag, only the count word is laid out. */
  lemma {:induction false} RenderEmpty(base: seq<byte>, start: nat, n: u32)
    requires start + 4 <= |base|
    requires base[start..start + 4] == Word(n)
    ensures Render(base, start, n, []) == base
  {
    assert Values([]) == [] && Words(Ends([])) == [] && Words(Keys([])) == [];
    forall i | 0 <= i < |base|
      ensures Render(base, start, n, [])[i] == base[i]
    {
      if start <= i < start + 4 {
        assert base[i] == base[start..start + 4][i - start];
      }
    }
  }

  /** Two adjacent writes are one write of both. */
  lemma {:induction false} PutAdjacent(s: seq<byte>, a: seq<byte>, b: seq<byte>)
    requires |a| + |b| <= |s|
    ensures |a| == 0 ==> Put(s, 0, b) == Put(s, 0, a + b)
    ensures Put(Put(s, 0, a), |a|, b) == Put(s, 0, a + b)
  {
    assert a + b == b || |a| > 0;
    var r := Put(Put(s, 0, a), |a|, b);
    assert forall i :: 0 <= i < |s| ==> r[i] == Put(s, 0, a + b)[i];
  }

  /** Inside a write, the buffer holds the written bytes. */
  lemma {:induction false} PutAt(s: seq<byte>, pos: nat, d: seq<byte>, lo: nat, hi: nat)
    requires pos <= lo <= hi <= pos + |d| <= |s|
    ensures Put(s, pos, d)[lo..hi] == d[lo - pos..hi - pos]
  {
  }

  /** A write inside `lo..hi` leaves everything before `lo` and from `hi` on alone. */
  lemma {:induction false} PutInside(s: seq<byte>, pos: nat, d: seq<byte>, lo: nat, hi: nat)
    requires lo <= pos && pos + |d| <= hi <= |s|
    ensures Put(s, pos, d)[..lo] == s[..lo] && Put(s, pos, d)[hi..] == s[hi..]
  {
    var r := Put(s, pos, d);
    assert forall i :: 0 <= i < lo ==> r[i] == s[i];
    assert forall i :: hi <= i < |s| ==> r[i] == s[i];
  }

  /** The three writes of `vrt_query_add_tag`: the end offset of the
      previous tag into its slot of the offset table (when there is a
      previous tag), the key into slot `c` of the tag table and the value at
      offset `off` of the data area. */
  method WriteTag(a: array<byte>, start: nat, n: nat, c: nat, off: nat, ow: seq<byte>, kw: seq<byte>, data: seq<byte>)
    requires c < n && |ow| == 4 && |kw| == 4 && start + 8 * n + off + |data| <= a.Length
    modifies a
    ensures a[..] == AddWrites(old(a[..]), start, n, c, off, ow, kw, data)
  {
    if c > 0 {
      Write(a, start + 4 + 4 * (c - 1), ow);
    }
    Write(a, start + 4 * n + 4 * c, kw);
    Write(a, start + 8 * n + off, data);
  }

  /** The builder's invariant on the buffer contents `s`: the header of `n`
      tags and the data written so far fit below `maxSize`, which fits the
      buffer, and `s` is `base` overlaid with the layout of `tags`. */
  ghost predicate Inv(s: seq<byte>, base: seq<byte>, start: nat, n: nat, offset: nat, maxSize: nat, tags: seq<TagValue>)
  {
    && 1 <= n < TWO32 && |tags| <= n && offset == |Values(tags)|
    && start + 8 * n + offset <= maxSize <= |s| && maxSize < TWO32
    && Aligned(tags) && Increasing(tags)
    && |base| == |s| && s == Render(base, start, n, tags)
  }

  /** Adding a tag in key order keeps the invariant, with the tag appended. */
  lemma {:induction false} InvAdd(s: seq<byte>, base: seq<byte>, start: nat, n: nat, offset: nat, maxSize: nat, tags: seq<TagValue>, tag: u32, data: seq<byte>)
    requires Inv(s, base, start, n, offset, maxSize, tags) && |tags| < n
    requires |data| % 4 == 0 && start + 8 * n + offset + |data| <= maxSize
    requires |tags| > 0 ==> tags[|tags| - 1].key < tag
    ensures offset < TWO32
    ensures Inv(AddWrites(s, start, n, |tags|, offset, Word(offset), Word(tag), data),
                base, start, n, offset + |data|, maxSize, tags + [TagValue(tag, data)])
  {
    var t' := tags + [TagValue(tag, data)];
    assert Aligned(t') && Increasing(t') by {
      forall i | 0 <= i < |tags|
        ensures t'[i] == tags[i]
      {
      }
    }
    RenderAdd(base, start, n, tags, tag, data);
    ValuesSnoc(tags, TagValue(tag, data));
  }

  /** With every tag added, zeroing the rest of the area up to `maxSize`
      leaves the encoded message there, its last value padded, and the
      buffer outside the area as it was before the builder started. */
  lemma {:induction false} InvFinish(s: seq<byte>, base: seq<byte>, start: nat, n: nat, offset: nat, maxSize: nat, tags: seq<TagValue>, p: nat, k: nat)
    requires Inv(s, base, start, n, offset, maxSize, tags) && |tags| == n
    requires p == start + 8 * n + offset && k == maxSize - p
    ensures Encodable(PadLast(tags, k))
    ensures Put(s, p, Zeros(k))[start..maxSize] == Encode(PadLast(tags, k))
    ensures Put(s, p, Zeros(k))[..start] == base[..start]
    ensures Put(s, p, Zeros(k))[maxSize..] == base[maxSize..]
  {
    RenderEncodes(base, start, n, tags, k);
    RenderFrame(base, start, n, tags, maxSize);
    PutInside(s, p, Zeros(k), start, maxSize);
  }

  /** The query builder. Positions in `buffer` stand for the C pointers:
      `sizePos` for `size_ptr`, `tagPos` for `tag_ptr`, `dataPos` for
      `data_ptr`; `start` is where the count word goes. */
  class Builder {
    var variant: int
    var maxSize: nat
    var numTags: nat
    var currentTag: nat
    var buffer: array<byte>
    var start: nat
    var sizePos: nat
    var tagPos: nat
    var dataPos: nat
    var offset: nat
    /** The tags added so far. */
    ghost var tags: seq<TagValue>
    /** The buffer as it was once the count word was written: every byte the
        builder has not written since is still this. */
    ghost var base: seq<byte>

    ghost predicate Valid()
      reads this, buffer
    {
      && currentTag == |tags|
      && start == Start(variant) && sizePos == start + 4 && tagPos == start + 4 * numTags && dataPos == start + 8 * numTags
      && Inv(buffer[..], base, start, numTags, offset, maxSize, tags)
    }

    /** `vrt_query_init` (with `max_size`, which the caller sets first): the
        frame when the variant is draft 5 or later, then the count word. */
    constructor Init(buffer: array<byte>, maxSize: nat, numTags: nat, variant: int)
      requires 1 <= numTags
      requires Start(variant) + 8 * numTags <= maxSize <= buffer.Length && maxSize < TWO32
      modifies buffer
      ensures Valid() && tags == [] && offset == 0 && base == buffer[..]
      ensures this.buffer == buffer && this.maxSize == maxSize && this.numTags == numTags && this.variant == variant
      ensures buffer[..] == Put(old(buffer[..]), 0, Preamble(variant) + Word(numTags))
    {
      this.buffer := buffer;
      this.maxSize := maxSize;
      this.numTags := numTags;
      this.currentTag := 0;
      this.variant := variant;
      var pos := 0;
      ghost var s0 := buffer[..];
      if variant >= 5 {
        Write(buffer, 0, Frame(QUERY_LEN as u32));
        pos := 12;
      }
      Write(buffer, pos, Word(numTags));
      PutAdjacent(s0, Preamble(variant), Word(numTags));
      PutAt(s0, 0, Preamble(variant) + Word(numTags), pos, pos + 4);
      this.start := pos;
      this.sizePos := pos + 4;
      this.tagPos := pos + 4 * numTags;
      this.dataPos := pos + 8 * numTags;
      this.offset := 0;
      this.tags := [];
      this.base := buffer[..];
      RenderEmpty(buffer[..], pos, numTags);
    }

    /** `vrt_query_add_tag`: the previous tag's end offset, the new key and
        the new value are written; the layout now holds one more tag. */
    method AddTag(tag: u32, data: seq<byte>)
      requires Valid()
      requires currentTag < numTags
      requires |data| % 4 == 0
      requires dataPos + offset + |data| <= maxSize
      requires currentTag > 0 ==> tags[currentTag - 1].key < tag
      modifies this`currentTag, this`offset, this`tags, buffer
      ensures Valid()
      ensures tags == old(tags) + [TagValue(tag, data)]
      ensures currentTag == old(currentTag) + 1 && offset == old(offset) + |data|
      ensures buffer[..] == AddWrites(old(buffer[..]), start, numTags, old(currentTag), old(offset), Word(old(offset)), Word(tag), data)
    {
      InvAdd(buffer[..], base, start, numTags, offset, maxSize, tags, tag, data);
      WriteTag(buffer, start, numTags, currentTag, offset, Word(offset), Word(tag), data);
      tags := tags + [TagValue(tag, data)];
      currentTag := currentTag + 1;
      offset := offset + |data|;
    }

    /** `vrt_query_finish`: every tag added, the rest of the area up to
        `maxSize` is zeroed, which makes the bytes from `start` to
        `maxSize` the encoded message, its last value padded with zeros. */
    method Finish()
      requires Valid() && currentTag == numTags
      modifies buffer
      ensures Encodable(PadLast(tags, maxSize - dataPos - offset))
      ensures buffer[..] == Put(old(buffer[..]), dataPos + offset, Zeros(maxSize - dataPos - offset))
      ensures buffer[start..maxSize] == Encode(PadLast(tags, maxSize - dataPos - offset))
      ensures buffer[..start] == base[..start] && buffer[maxSize..] == base[maxSize..]
    {
      ghost var s := buffer[..];
      var k := maxSize - dataPos - offset;
      InvFinish(s, base, start, numTags, offset, maxSize, tags, dataPos + offset, k);
      Write(buffer, dataPos + offset, Zeros(k));
      ghost var r := buffer[..];
      assert r == Put(s, dataPos + offset, Zeros(k));
      assert r[start..maxSize] == Encode(PadLast(tags, k));
      assert buffer[start..maxSize] == r[start..maxSize];
    }
  }

  /** The VER value of a draft-5 query. */
  const QUERY_VERSION: u32 := 0x0800_0003

  /** How many tags the query has: VER, NONC and PAD from draft 5 on,
      NONC and PAD before. */
  function NumTags(variant: int): nat {
    if variant >= 5 then 3 else 2
  }

  /** How many nonce bytes the query carries. */
  function NonceLen(variant: int): nat {
    if variant >= 5 then 32 else NONCE_SIZE
  }

  /** The tags `vrt_make_query` adds, in key order, PAD still empty. */
  function QueryTags(nonce: seq<byte>, variant: int): (r: seq<TagValue>)
    requires NonceLen(variant) <= |nonce|
    ensures |r| == NumTags(variant) && Aligned(r) && Increasing(r)
    ensures |Values(r)| == NonceLen(variant) + (if variant >= 5 then 4 else 0)
  {
    var nonc := TagValue(TAG_NONC, nonce[..NonceLen(variant)]);
    var pad := TagValue(TAG_PAD, []);
    ValuesSnoc([nonc], pad);
    ValuesSnoc([], nonc);
    if variant >= 5 then
      var ver := TagValue(TAG_VER, Word(QUERY_VERSION));
      ValuesSnoc([ver, nonc], pad);
      ValuesSnoc([ver], nonc);
      ValuesSnoc([], ver);
      [ver, nonc, pad]
    else
      [nonc, pad]
  }

  /** How many zero bytes PAD carries: what is left of 1024 bytes after the
      header and the other values. */
  function PadLen(variant: int): nat {
    if variant >= 5 then QUERY_LEN - 8 * 3 - 36 else QUERY_LEN - 8 * 2 - 64
  }

  /** The query message: PAD grows until the message is `QUERY_LEN` bytes. */
  function QueryMessage(nonce: seq<byte>, variant: int): (m: seq<TagValue>)
    requires NonceLen(variant) <= |nonce|
    ensures Encodable(m) && |Encode(m)| == QUERY_LEN
  {
    var tags := QueryTags(nonce, variant);
    PadLastValues(tags, PadLen(variant));
    PadLast(tags, PadLen(variant))
  }

  /** The query message tag by tag: from draft 5 on VER, then NONC with the
      nonce, then PAD with the zeros that fill the message to 1024 bytes. */
  lemma {:induction false} QueryMessageShape(nonce: seq<byte>, variant: int)
    requires NonceLen(variant) <= |nonce|
    ensures QueryMessage(nonce, variant)
         == (if variant >= 5 then [TagValue(TAG_VER, Word(QUERY_VERSION))] else [])
          + [TagValue(TAG_NONC, nonce[..NonceLen(variant)]), TagValue(TAG_PAD, Zeros(PadLen(variant)))]
  {
    var k := PadLen(variant);
    assert [] + Zeros(k) == Zeros(k);
  }

  /** The query's tags: the version from draft 5 on, then the nonce and
      the padding, with increasing keys, encoding to 1024 bytes. */
  lemma {:induction false} QueryMessageTags(nonce: seq<byte>, variant: int)
    requires NonceLen(variant) <= |nonce|
    ensures var m := QueryMessage(nonce, variant); var n := |m|;
      && n >= 2 && Encodable(m) && Aligned(m) && Blob.DistinctKeys(m) && |Encode(m)| == QUERY_LEN
      && m[n - 2] == TagValue(TAG_NONC, nonce[..NonceLen(variant)])
      && m[n - 1] == TagValue(TAG_PAD, Zeros(PadLen(variant)))
      && (variant >= 5 ==> m[0] == TagValue(TAG_VER, Word(QUERY_VERSION)))
  {
    var m := QueryMessage(nonce, variant);
    var pre := if variant >= 5 then [TagValue(TAG_VER, Word(QUERY_VERSION))] else [];
    var nonc := TagValue(TAG_NONC, nonce[..NonceLen(variant)]);
    var pad := TagValue(TAG_PAD, Zeros(PadLen(variant)));
    QueryMessageShape(nonce, variant);
    assert m == pre + [nonc, pad];
    assert m[|m| - 2] == nonc && m[|m| - 1] == pad;
    assert Aligned(m) by {
      forall i | 0 <= i < |m|
        ensures |m[i].value| % 4 == 0
      {
        if i < |pre| {
          assert m[i] == pre[i];
        }
      }
    }
    assert Increasing(m) by {
      forall i | 0 < i < |m|
        ensures m[i - 1].key < m[i].key
      {
        if i == |m| - 1 {
          assert m[i - 1] == nonc;
        } else {
          assert m[i - 1] == pre[0];
        }
      }
    }
    IncreasingDistinct(m);
  }

  /** The query is 1024 bytes, and reading it back yields the nonce, the
      padding and, from draft 5 on, the version. */
  lemma {:induction false} QueryMessageReads(nonce: seq<byte>, variant: int)
    requires NonceLen(variant) <= |nonce|
    ensures |Encode(QueryMessage(nonce, variant))| == QUERY_LEN
    ensures Blob.TagLookup(Encode(QueryMessage(nonce, variant)), TAG_NONC) == Ok(nonce[..NonceLen(variant)])
    ensures Blob.TagLookup(Encode(QueryMessage(nonce, variant)), TAG_PAD) == Ok(Zeros(PadLen(variant)))
    ensures variant >= 5 ==> Blob.TagLookup(Encode(QueryMessage(nonce, variant)), TAG_VER) == Ok(Word(QUERY_VERSION))
  {
    var m := QueryMessage(nonce, variant);
    QueryMessageTags(nonce, variant);
    Blob.LookupAt(m, |m| - 2);
    Blob.LookupAt(m, |m| - 1);
    if variant >= 5 {
      Blob.LookupAt(m, 0);
    }
  }

  /** The bytes the builder leaves in `z`, assembled from what it promises:
      the preamble and count word written over `z`, the message from the
      count word to `maxSize`, and `z` from there on. */
  lemma {:induction false} Assembled(z: seq<byte>, r: seq<byte>, pre: seq<byte>, w: seq<byte>, base: seq<byte>,
                  start: nat, maxSize: nat, msg: seq<byte>)
    requires |w| == 4 && |pre| == start && start + 4 <= maxSize <= |z| == |r|
    requires base == Put(z, 0, pre + w)
    requires r[..start] == base[..start] && r[start..maxSize] == msg && r[maxSize..] == base[maxSize..]
    ensures r[..maxSize] == pre + msg
    ensures r[maxSize..] == z[maxSize..]
  {
    assert r[..start] == pre by {
      assert forall i :: 0 <= i < start ==> base[i] == pre[i];
    }
    assert r[..maxSize] == r[..start] + r[start..maxSize];
    assert forall i :: maxSize <= i < |r| ==> r[i] == base[i] == z[i];
  }

  /** What the builder leaves once it has finished the query. */
  lemma {:induction false} Finished(z: seq<byte>, r: seq<byte>, nonce: seq<byte>, variant: int, base: seq<byte>,
                 start: nat, maxSize: nat, dataPos: nat, offset: nat, tags: seq<TagValue>)
    requires NonceLen(variant) <= |nonce| && tags == QueryTags(nonce, variant)
    requires start == Start(variant) && maxSize == start + QUERY_LEN <= |z| == |r|
    requires dataPos == start + 8 * NumTags(variant) && offset == |Values(tags)|
    requires base == Put(z, 0, Preamble(variant) + Word(NumTags(variant)))
    requires Encodable(PadLast(tags, maxSize - dataPos - offset))
    requires r[..start] == base[..start] && r[maxSize..] == base[maxSize..]
    requires r[start..maxSize] == Encode(PadLast(tags, maxSize - dataPos - offset))
    ensures r[..maxSize] == Preamble(variant) + Encode(QueryMessage(nonce, variant))
    ensures r[maxSize..] == z[maxSize..]
  {
    assert maxSize - dataPos - offset == PadLen(variant);
    Assembled(z, r, Preamble(variant), Word(NumTags(variant)), base, start, maxSize, Encode(QueryMessage(nonce, variant)));
  }

  /** After the `memset` of the first `outLen` bytes, whatever lies between
      `maxSize` and `outLen` is zero and the rest is untouched. */
  lemma {:induction false} ZeroedTail(o: seq<byte>, r: seq<byte>, outLen: nat, maxSize: nat)
    requires maxSize <= outLen <= |o| == |r|
    requires r[maxSize..] == Put(o, 0, Zeros(outLen))[maxSize..]
    ensures r[maxSize..outLen] == Zeros(outLen - maxSize)
    ensures r[outLen..] == o[outLen..]
  {
    var z := Put(o, 0, Zeros(outLen));
    assert forall i :: maxSize <= i < |r| ==> r[i] == z[i];
  }

  /** The tag additions of `vrt_make_query`: VER (from draft 5 on), then,
      once the nonce is known to be long enough, NONC and an empty PAD. */
  method AddQueryTags(b: Builder, nonce: seq<byte>, variant: int) returns (ok: bool)
    requires b.Valid() && b.tags == [] && b.variant == variant && b.numTags == NumTags(variant)
    requires Start(variant) + QUERY_LEN <= b.maxSize
    modifies b`currentTag, b`offset, b`tags, b.buffer
    ensures b.Valid()
    ensures ok == (NonceLen(variant) <= |nonce|)
    ensures ok ==> b.tags == QueryTags(nonce, variant)
    ensures !ok ==> b.tags == if variant >= 5 then [TagValue(TAG_VER, Word(QUERY_VERSION))] else []
  {
    if variant >= 5 {
      var ver := TagValue(TAG_VER, Word(QUERY_VERSION));
      b.AddTag(TAG_VER, Word(QUERY_VERSION));
      if |nonce| < 32 {
        return false;
      }
      var nonc := TagValue(TAG_NONC, nonce[..32]);
      b.AddTag(TAG_NONC, nonce[..32]);
      assert b.tags == [ver, nonc] && b.offset == 36;
      b.AddTag(TAG_PAD, []);
    } else {
      if |nonce| < NONCE_SIZE {
        return false;
      }
      var nonc := TagValue(TAG_NONC, nonce[..NONCE_SIZE]);
      b.AddTag(TAG_NONC, nonce[..NONCE_SIZE]);
      assert b.tags == [nonc] && b.offset == 64;
      b.AddTag(TAG_PAD, []);
    }
    return true;
  }

  /** The builder part of `vrt_make_query`, once the buffer is zeroed and
      known to be large enough: lay out the frame and count word, add the
      tags (failing on a short nonce after VER is in place) and finish. */
  method BuildQuery(out: array<byte>, nonce: seq<byte>, variant: int) returns (ok: bool)
    requires Start(variant) + QUERY_LEN <= out.Length
    modifies out
    ensures ok == (NonceLen(variant) <= |nonce|)
    ensures !ok ==>
      out[..] == Render(Put(old(out[..]), 0, Preamble(variant) + Word(NumTags(variant))), Start(variant), NumTags(variant),
                        if variant >= 5 then [TagValue(TAG_VER, Word(QUERY_VERSION))] else [])
    ensures ok ==> out[..Start(variant) + QUERY_LEN] == Preamble(variant) + Encode(QueryMessage(nonce, variant))
    ensures ok ==> out[Start(variant) + QUERY_LEN..] == old(out[Start(variant) + QUERY_LEN..])
  {
    ghost var z := out[..];
    var b: Builder;
    if variant >= 5 {
      b := new Builder.Init(out, 12 + QUERY_LEN, 3, variant);
    } else {
      b := new Builder.Init(out, QUERY_LEN, 2, variant);
    }
    ok := AddQueryTags(b, nonce, variant);
    if !ok {
      return;
    }
    b.Finish();
    Finished(z, out[..], nonce, variant, b.base, b.start, b.maxSize, b.dataPos, b.offset, b.tags);
  }

  /** `vrt_make_query`: zero the caller's buffer of `outLen` bytes, check its
      size, lay out the query (VER, NONC, PAD from draft 5 on, behind the
      frame; NONC, PAD before) and report its length. A nonce shorter than
      the query needs is caught only after the builder has started, so the
      buffer then holds a partial layout. */
  method MakeQuery(nonce: seq<byte>, out: array<byte>, outLen: u32, variant: int) returns (status: Status, len: u32)
    requires |nonce| < TWO32 && outLen <= out.Length
    modifies out
    ensures outLen < Start(variant) + QUERY_LEN ==>
      status == WrongSize && len == outLen && out[..] == Put(old(out[..]), 0, Zeros(outLen))
    ensures Start(variant) + QUERY_LEN <= outLen && |nonce| < NonceLen(variant) ==>
      && status == WrongSize && len == outLen
      && out[..] == Render(Put(Put(old(out[..]), 0, Zeros(outLen)), 0, Preamble(variant) + Word(NumTags(variant))),
                           Start(variant), NumTags(variant),
                           if variant >= 5 then [TagValue(TAG_VER, Word(QUERY_VERSION))] else [])
    ensures Start(variant) + QUERY_LEN <= outLen && NonceLen(variant) <= |nonce| ==>
      && status == Success && len == Start(variant) + QUERY_LEN
      && out[..len] == Preamble(variant) + Encode(QueryMessage(nonce, variant))
      && out[len..outLen] == Zeros(outLen - len)
      && out[outLen..] == old(out[outLen..])
  {
    ghost var o := out[..];
    Write(out, 0, Zeros(outLen));
    if variant >= 5 {
      if outLen < QUERY_PACKET_LEN as u32 {
        return WrongSize, outLen;
      }
    } else {
      if outLen < QUERY_LEN as u32 {
        return WrongSize, outLen;
      }
    }
    var ok := BuildQuery(out, nonce, variant);
    if !ok {
      return WrongSize, outLen;
    }
    len := if variant >= 5 then QUERY_PACKET_LEN as u32 else QUERY_LEN as u32;
    ZeroedTail(o, out[..], outLen, len);
    status := Success;
  }

  /** The extent `vrt_make_query` gives the builder as written: from draft 5
      on it is 12 + QUERY_PACKET_LEN, which counts the frame twice. */
  function FinishEndAsWritten(variant: int): (e: nat)
    ensures variant >= 5 ==> e == Start(variant) + QUERY_LEN + 12
    ensures variant < 5 ==> e == Start(variant) + QUERY_LEN
  {
    if variant >= 5 then 12 + QUERY_PACKET_LEN else QUERY_LEN
  }

  /** A caller buffer of exactly QUERY_PACKET_LEN bytes passes the size guard,
      yet the final `memset` of the builder as written runs to byte 1048, twelve
      bytes past its end. */
  lemma {:induction false} FinishOverrunsAsWritten(variant: int)
    requires variant >= 5
    ensures var outLen := QUERY_PACKET_LEN;
      !(outLen < QUERY_PACKET_LEN) && FinishEndAsWritten(variant) == outLen + 12
  {
  }

  /** The guards `vrt_query_add_tag` asserts, as written: the tag index may
      equal the tag count, and the data bound leaves out the data already
      written. */
  predicate AddTagGuardAsWritten(start: nat, n: nat, c: nat, offset: nat, size: nat, maxSize: nat) {
    c <= n && size % 4 == 0 && start + 8 * n + size <= maxSize
  }

  /** Where `vrt_query_add_tag` writes the key of tag `c`. */
  function KeySlot(start: nat, n: nat, c: nat): (p: nat)
    ensures p >= start + 4 * n
  {
    start + 4 * n + 4 * c
  }

  /** Both guards admit a write past the layout: a tag beyond the count puts
      its key word on the first data byte, and a second value that fits on its
      own is accepted even when it ends past `maxSize`. `Builder.AddTag`
      requires the corrected bounds. */
  lemma {:induction false} AddTagGuardAdmitsAsWritten()
    ensures AddTagGuardAsWritten(0, 2, 2, 0, 0, QUERY_LEN) && KeySlot(0, 2, 2) == 0 + 8 * 2
    ensures AddTagGuardAsWritten(0, 2, 1, 64, 1000, QUERY_LEN) && 0 + 8 * 2 + 64 + 1000 > QUERY_LEN
  {
  }
}
