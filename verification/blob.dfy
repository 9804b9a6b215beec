/** `vrt_blob_t` and its bounds-checked readers, and the linear tag-table
    lookup `vrt_get_tag`. A blob is the byte string it views; its size is a
    32-bit count. */
module Blob {
  import opened Bytes
  import opened Wire

  type Blob = b: seq<byte> | |b| < TWO32

  /** `vrt_blob_init`: a blob must hold whole words. */
  function Init(data: seq<byte>): (r: Result<Blob>)
    requires |data| < TWO32
    ensures r.Ok? <==> |data| % 4 == 0
    ensures r.Ok? ==> r.value == data
    ensures r.Err? ==> r.code == Malformed
  {
    if |data| % 4 != 0 then Err(Malformed) else Ok(data)
  }

  /** `vrt_blob_r32`: word `i`, if the whole word lies inside the blob. */
  function R32(b: Blob, i: u32): (r: Result<u32>)
    ensures r.Ok? <==> 4 * i + 4 <= |b|
    ensures r.Err? ==> r.code == Malformed
  {
    if i >= |b| / 4 then Err(Malformed)
    else Ok(U32At(b, 4 * i))
  }

  /** The word `vrt_blob_r32` gives is the little-endian reading of bytes
      `4i..4i+3`. */
  lemma {:induction false} R32Reads(b: Blob, i: u32)
    ensures R32(b, i).Ok? ==> Word(R32(b, i).value) == b[4 * i..4 * i + 4]
  {
    if R32(b, i).Ok? {
      U32AtIs(b, 4 * i);
      WordOfU32(b[4 * i..4 * i + 4]);
    }
  }

  /** `vrt_blob_r64`: words `i` and `i+1` as the low and high halves. */
  function R64(b: Blob, i: u32): (r: Result<u64>)
    ensures r.Ok? <==> 4 * i + 8 <= |b|
    ensures r.Err? ==> r.code == Malformed
  {
    match R32(b, i)
    case Err(c) => Err(c)
    case Ok(lo) =>
      match R32(b, Wrap32(i + 1))
      case Err(c) => Err(c)
      case Ok(hi) => Ok(lo + hi * TWO32)
  }

  /** The word `vrt_blob_r64` gives is the little-endian reading of bytes
      `4i..4i+7`. */
  lemma {:induction false} R64Reads(b: Blob, i: u32)
    ensures R64(b, i).Ok? ==> Word64(R64(b, i).value) == b[4 * i..4 * i + 8]
  {
    if R64(b, i).Ok? {
      var lo := R32(b, i).value;
      var hi := R32(b, Wrap32(i + 1)).value;
      R32Reads(b, i);
      R32Reads(b, Wrap32(i + 1));
      Word64Halves(lo, hi);
      assert b[4 * i..4 * i + 8] == b[4 * i..4 * i + 4] + b[4 * i + 4..4 * i + 8];
    }
  }

  /** `vrt_blob_slice`: `size` bytes from word `off`. The 32-bit end is
      compared with the exact end, so a wrapped end is refused rather than
      read as a small one: the slice is accepted exactly when it fits. */
  function Slice(b: Blob, off: u32, size: u32): (r: Result<Blob>)
    ensures r.Ok? <==> 4 * off + size <= |b|
    ensures r.Ok? ==> r.value == b[4 * off..4 * off + size]
    ensures r.Err? ==> r.code == Malformed
  {
    var end32 := Wrap32(4 * off + size);
    var end64 := Wrap64(4 * off + size);
    if end64 != end32 then Err(Malformed)
    else if end32 > |b| then Err(Malformed)
    else Ok(b[4 * off..4 * off + size])
  }

  /** The slice of tag `i`, once its key word matched: from offset word
      `i` (0 for the first tag) to offset word `i+1`, or to the end of the
      blob for the last tag, counted after the 8n-byte header. All the
      arithmetic is 32-bit, as in the C code. */
  function TagEntry(b: Blob, n: u32, i: nat): (r: Result<Blob>)
    requires i < n && i + n < |b| / 4
  {
    var offset: u32 := if i == 0 then 0 else R32(b, i).value;
    var tagEnd: u32 := if i == n - 1 then Wrap32(|b| - Wrap32(8 * n)) else R32(b, i + 1).value;
    Slice(b, Wrap32(2 * n + offset / 4), Wrap32(tagEnd - offset))
  }

  /** A tag entry is MALFORMED or a part of the blob. */
  lemma {:induction false} EntryWithin(b: Blob, n: u32, i: nat)
    requires i < n && i + n < |b| / 4
    ensures TagEntry(b, n, i).Ok? ==> Within(TagEntry(b, n, i).value, b)
    ensures TagEntry(b, n, i).Err? ==> TagEntry(b, n, i).code == Malformed
  {
    var offset: u32 := if i == 0 then 0 else R32(b, i).value;
    var tagEnd: u32 := if i == n - 1 then Wrap32(|b| - Wrap32(8 * n)) else R32(b, i + 1).value;
    TagEntryIs(b, n, i, offset, tagEnd);
    var r := TagEntry(b, n, i);
    if r.Ok? {
      var p := 4 * Wrap32(2 * n + offset / 4);
      assert b[p..][..|r.value|] == r.value;
    }
  }

  /** `s` is a contiguous part of `b` (a slice never points outside its parent). */
  ghost predicate Within(s: seq<byte>, b: seq<byte>) {
    exists p :: 0 <= p <= |b| - |s| && b[p..][..|s|] == s
  }

  /** Key word `j` of a table of `n` tags. */
  function KeyWord(b: Blob, n: u32, j: nat): Result<u32> {
    R32(b, Wrap32(n + j))
  }

  /** The scan of `vrt_get_tag` from tag `i` on: key word `n+i` is read
      (a read past the blob is MALFORMED); the first match gives its entry. */
  function TagLookupFrom(b: Blob, n: u32, tag: u32, i: nat): (r: Result<Blob>)
    requires i <= n
    requires i == 0 || i + n <= |b| / 4
    decreases n - i
  {
    if i == n then Err(TagNotFound)
    else
      assert Wrap32(i + n) == i + n;
      match KeyWord(b, n, i)
      case Err(c) => Err(c)
      case Ok(t) =>
        if t == tag then TagEntry(b, n, i)
        else TagLookupFrom(b, n, tag, i + 1)
  }

  /** `vrt_get_tag` as a function of the blob: the tag count is word 0. */
  function TagLookup(b: Blob, tag: u32): Result<Blob>
  {
    match R32(b, 0)
    case Err(c) => Err(c)
    case Ok(n) => TagLookupFrom(b, n, tag, 0)
  }

  lemma {:induction false} LookupFromSound(b: Blob, n: u32, tag: u32, i: nat)
    requires i <= n
    requires i == 0 || i + n <= |b| / 4
    ensures var r := TagLookupFrom(b, n, tag, i);
      (r == Err(TagNotFound) ==>
         n + n <= |b| / 4 && forall j :: i <= j < n ==> KeyWord(b, n, j) != Ok(tag)) &&
      (r.Ok? ==> Within(r.value, b) && exists j :: i <= j < n && KeyWord(b, n, j) == Ok(tag)) &&
      (r.Err? ==> r.code in {TagNotFound, Malformed})
    decreases n - i
  {
    if i < n {
      assert Wrap32(i + n) == i + n;
      match KeyWord(b, n, i)
      case Err(c) =>
      case Ok(t) =>
        if t == tag {
          EntryWithin(b, n, i);
        } else {
          LookupFromSound(b, n, tag, i + 1);
        }
    }
  }

  /** What `vrt_get_tag` promises: TAG_NOT_FOUND only after reading all n
      key words without a match; a result only for a tag whose key word
      matched, and then a part of the input; otherwise MALFORMED. */
  lemma {:induction false} LookupSound(b: Blob, tag: u32)
    ensures var r := TagLookup(b, tag);
      (r == Err(TagNotFound) ==>
         4 <= |b| && var n := R32(b, 0).value;
         n + n <= |b| / 4 && forall j :: 0 <= j < n ==> KeyWord(b, n, j) != Ok(tag)) &&
      (r.Ok? ==>
         4 <= |b| && Within(r.value, b) &&
         var n := R32(b, 0).value;
         exists j :: 0 <= j < n && KeyWord(b, n, j) == Ok(tag)) &&
      (r.Err? ==> r.code in {TagNotFound, Malformed})
  {
    if R32(b, 0).Ok? {
      LookupFromSound(b, R32(b, 0).value, tag, 0);
    }
  }

  /** A lookup fails only with TAG_NOT_FOUND or MALFORMED. */
  lemma {:induction false} LookupCodes()
    ensures forall b: Blob, tag: u32 :: TagLookup(b, tag).Err? ==> TagLookup(b, tag).code in {TagNotFound, Malformed}
  {
    forall b: Blob, tag: u32 {
      LookupSound(b, tag);
    }
  }

  /** `vrt_get_tag`: the scan loop over the tag words. */
  method GetTag(b: Blob, tag: u32) returns (r: Result<Blob>)
    ensures r == TagLookup(b, tag)
  {
    var nr := R32(b, 0);
    if nr.Err? {
      return Err(nr.code);
    }
    var n := nr.value;
    var i: nat := 0;
    while i < n
      invariant i <= n
      invariant i == 0 || i + n <= |b| / 4
      invariant TagLookup(b, tag) == TagLookupFrom(b, n, tag, i)
    {
      assert Wrap32(i + n) == i + n;
      var tr := KeyWord(b, n, i);
      if tr.Err? {
        return Err(tr.code);
      }
      if tr.value == tag {
        return TagEntry(b, n, i);
      }
      i := i + 1;
    }
    return Err(TagNotFound);
  }

  /** Header word `i` of a serialised message reads back as `h[i]`. */
  lemma {:induction false} ReadHeader(h: seq<u32>, rest: seq<byte>, i: nat)
    requires |Words(h) + rest| < TWO32 && i < |h|
    ensures R32(Words(h) + rest, i) == Ok(h[i])
  {
    var b := Words(h) + rest;
    assert b[4 * i..4 * i + 4] == Word(h[i]) by {
      WordsAt(h, i);
      assert b[4 * i..4 * i + 4] == Words(h)[4 * i..4 * i + 4];
    }
    R32Reads(b, i);
    WordInjective(R32(b, i).value, h[i]);
  }

  predicate DistinctKeys(tvs: seq<TagValue>) {
    forall i, j :: 0 <= i < j < |tvs| ==> tvs[i].key != tvs[j].key
  }

  /** Looking up tag `k` of a serialised message finds its value. */
  lemma {:induction false} EntryEncoded(tvs: seq<TagValue>, k: nat)
    requires Encodable(tvs) && Aligned(tvs) && k < |tvs|
    ensures |Encode(tvs)| < TWO32
    ensures k + |tvs| < |Encode(tvs)| / 4
    ensures TagEntry(Encode(tvs), |tvs|, k) == Ok(tvs[k].value)
  {
    var b := Encode(tvs);
    var h := Header(tvs);
    var n := |tvs|;
    var v := tvs[k].value;
    assert b == Words(h) + Values(tvs);
    ValueAt(tvs, k);
    AlignedValues(tvs[..k]);
    var off := |Values(tvs[..k])|;
    OffsetWord(tvs, k);
    EndWord(tvs, k);
    SliceRight(Words(h), Values(tvs), 8 * n + off, 8 * n + off + |v|);
    EntryAt(b, n, k, off, v);
  }

  /** The entry of tag `k` is `v` when the offset words frame `v` in the data area. */
  lemma {:induction false} EntryAt(b: Blob, n: u32, k: nat, off: nat, v: seq<byte>)
    requires k < n && 8 * n + off + |v| <= |b| && off % 4 == 0
    requires (if k == 0 then 0 else R32(b, k).value) == off
    requires (if k == n - 1 then Wrap32(|b| - Wrap32(8 * n)) else R32(b, k + 1).value) == off + |v|
    requires b[8 * n + off..8 * n + off + |v|] == v
    ensures k + n < |b| / 4
    ensures TagEntry(b, n, k) == Ok(v)
  {
    var start := 2 * n + off / 4;
    assert 4 * start == 8 * n + off;
    assert Wrap32(start) == start;
    assert Wrap32(off + |v| - off) == |v|;
    TagEntryIs(b, n, k, off, off + |v|);
    assert Wrap32(4 * start + |v|) == 4 * start + |v|;
    assert Wrap64(4 * start + |v|) == 4 * start + |v|;
  }

  /** The start offset `vrt_get_tag` computes for tag `k` of a serialised message. */
  lemma {:induction false} OffsetWord(tvs: seq<TagValue>, k: nat)
    requires Encodable(tvs) && k < |tvs|
    ensures |Encode(tvs)| == 8 * |tvs| + |Values(tvs)|
    ensures (if k == 0 then 0 else R32(Encode(tvs), k).value) == |Values(tvs[..k])|
  {
    if k > 0 {
      HeaderEnd(tvs, k);
      ReadHeader(Header(tvs), Values(tvs), k);
    }
  }

  /** Header word `n+j` is the key of tag `j`. */
  lemma {:induction false} HeaderKey(tvs: seq<TagValue>, j: nat)
    requires Encodable(tvs) && j < |tvs|
    ensures |Header(tvs)| == 2 * |tvs| && Header(tvs)[|tvs| + j] == tvs[j].key
  {
    var es := Ends(tvs);
    assert Header(tvs) == [|tvs| as u32] + es + Keys(tvs);
    assert |[|tvs| as u32] + es| == |tvs|;
  }

  /** Header word `k`, for 0 < k < n, is the end of the value of tag `k-1`. */
  lemma {:induction false} HeaderEnd(tvs: seq<TagValue>, k: nat)
    requires Encodable(tvs) && 0 < k < |tvs|
    ensures |Header(tvs)| == 2 * |tvs| && Header(tvs)[k] == |Values(tvs[..k])|
  {
    var es := Ends(tvs);
    assert Header(tvs) == [|tvs| as u32] + es + Keys(tvs);
    EndsAt(tvs, k);
    PrefixValues(tvs, k);
  }

  /** The end offset `vrt_get_tag` computes for tag `k` of a serialised message. */
  lemma {:induction false} EndWord(tvs: seq<TagValue>, k: nat)
    requires Encodable(tvs) && k < |tvs|
    ensures |Encode(tvs)| == 8 * |tvs| + |Values(tvs)|
    ensures (if k == |tvs| - 1 then Wrap32(|Encode(tvs)| - Wrap32(8 * |tvs|))
             else R32(Encode(tvs), k + 1).value) == |Values(tvs[..k + 1])|
  {
    if k < |tvs| - 1 {
      HeaderEnd(tvs, k + 1);
      ReadHeader(Header(tvs), Values(tvs), k + 1);
    } else {
      assert tvs[..k + 1] == tvs;
    }
  }

  lemma {:induction false} TagEntryIs(b: Blob, n: u32, i: nat, offset: u32, tagEnd: u32)
    requires i < n && i + n < |b| / 4
    requires offset == if i == 0 then 0 else R32(b, i).value
    requires tagEnd == if i == n - 1 then Wrap32(|b| - Wrap32(8 * n)) else R32(b, i + 1).value
    ensures TagEntry(b, n, i) == Slice(b, Wrap32(2 * n + offset / 4), Wrap32(tagEnd - offset))
  {
  }

  lemma {:induction false} AlignedValues(tvs: seq<TagValue>)
    requires Aligned(tvs)
    ensures |Values(tvs)| % 4 == 0
  {
    if tvs != [] {
      assert Aligned(tvs[1..]);
      AlignedValues(tvs[1..]);
    }
  }

  /** Key word `j` of a serialised message is the key of tag `j`. */
  lemma {:induction false} KeyWordEncoded(tvs: seq<TagValue>, j: nat)
    requires Encodable(tvs) && j < |tvs|
    ensures |Encode(tvs)| == 8 * |tvs| + |Values(tvs)|
    ensures KeyWord(Encode(tvs), |tvs|, j) == Ok(tvs[j].key)
  {
    HeaderKey(tvs, j);
    KeyWordAt(Header(tvs), Values(tvs), |tvs|, j);
  }

  /** Key word `j` of a message with `n` tags is header word `n+j`. */
  lemma {:induction false} KeyWordAt(h: seq<u32>, rest: seq<byte>, n: nat, j: nat)
    requires |Words(h) + rest| < TWO32 && n + j < |h|
    ensures KeyWord(Words(h) + rest, n, j) == Ok(h[n + j])
  {
    assert Wrap32(n + j) == n + j;
    ReadHeader(h, rest, n + j);
  }

  /** A scan that reads key words `i..k-1` without a match and then matches
      at `k` returns the entry of `k`. */
  lemma {:induction false} FoundFrom(b: Blob, n: u32, tag: u32, k: nat, i: nat)
    requires i <= k < n && n + n <= |b| / 4
    requires forall j :: i <= j < k ==> KeyWord(b, n, j).Ok? && KeyWord(b, n, j) != Ok(tag)
    requires KeyWord(b, n, k) == Ok(tag)
    ensures TagLookupFrom(b, n, tag, i) == TagEntry(b, n, k)
    decreases k - i
  {
    assert Wrap32(i + n) == i + n;
    var w := KeyWord(b, n, i);
    if i < k {
      assert w.Ok? && w.value != tag;
      assert TagLookupFrom(b, n, tag, i) == TagLookupFrom(b, n, tag, i + 1);
      FoundFrom(b, n, tag, k, i + 1);
    } else {
      assert w == Ok(tag);
    }
  }

  /** A scan that reads key words `i..n-1` without a match is TAG_NOT_FOUND. */
  lemma {:induction false} MissingFrom(b: Blob, n: u32, tag: u32, i: nat)
    requires i <= n && n + n <= |b| / 4
    requires forall j :: i <= j < n ==> KeyWord(b, n, j).Ok? && KeyWord(b, n, j) != Ok(tag)
    ensures TagLookupFrom(b, n, tag, i) == Err(TagNotFound)
    decreases n - i
  {
    if i < n {
      assert Wrap32(i + n) == i + n;
      MissingFrom(b, n, tag, i + 1);
    }
  }

  /** Reading entry `k`'s key back from an encoded message yields its value. */
  lemma {:induction false} LookupAt(tvs: seq<TagValue>, k: nat)
    requires Encodable(tvs) && Aligned(tvs) && DistinctKeys(tvs) && k < |tvs|
    ensures TagLookup(Encode(tvs), tvs[k].key) == Ok(tvs[k].value)
  {
    LookupEncoded(tvs, tvs[k].key);
  }

  /** Round trip: `vrt_get_tag` on a serialised message returns the value
      stored under the tag, and TAG_NOT_FOUND for a tag not in it. */
  lemma {:induction false} LookupEncoded(tvs: seq<TagValue>, tag: u32)
    requires Encodable(tvs) && Aligned(tvs) && DistinctKeys(tvs)
    ensures |Encode(tvs)| < TWO32
    ensures forall k :: 0 <= k < |tvs| && tvs[k].key == tag ==>
      TagLookup(Encode(tvs), tag) == Ok(tvs[k].value)
    ensures (forall k :: 0 <= k < |tvs| ==> tvs[k].key != tag) ==>
      TagLookup(Encode(tvs), tag) == Err(TagNotFound)
  {
    var b := Encode(tvs);
    var n := |tvs|;
    ReadHeader(Header(tvs), Values(tvs), 0);
    assert R32(b, 0) == Ok(n as u32);
    forall j | 0 <= j < n
      ensures KeyWord(b, n, j) == Ok(tvs[j].key)
    {
      KeyWordEncoded(tvs, j);
    }
    if n > 0 {
      assert |b| == 8 * n + |Values(tvs)|;
    }
    forall k | 0 <= k < n && tvs[k].key == tag
      ensures TagLookup(b, tag) == Ok(tvs[k].value)
    {
      EntryEncoded(tvs, k);
      FoundFrom(b, n, tag, k, 0);
    }
    if forall k :: 0 <= k < n ==> tvs[k].key != tag {
      MissingFrom(b, n, tag, 0);
    }
  }
}
