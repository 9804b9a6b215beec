/** The Roughtime message layout shared by every implementation: a
    little-endian count, N-1 cumulative end offsets, N tag words, then the
    values; the return codes of the C client; the tag words and the
    signature context strings. */
module Wire {
  import opened Bytes

  /** `vrt_ret_t`: the C client's return codes. */
  datatype Status =
    | Success
    | TagNotFound
    | Malformed
    | WrongSize
    | NullArgument
    | Tree
    | BoundsError
    | PubkError
    | DeleError

  /** A return code together with the value an out-parameter receives on success. */
  datatype Result<+T> = Ok(value: T) | Err(code: Status)
  {
    predicate IsFailure() { Err? }

    function PropagateFailure<U>(): Result<U>
      requires Err?
    {
      Err(code)
    }

    function Extract(): T
      requires Ok?
    {
      value
    }
  }

  // Tag words: the four ASCII characters of the name read as a little-endian word.
  const TAG_PAD: u32 := 0xff44_4150   // "PAD\xff"
  const TAG_VER: u32 := 0x0052_4556   // "VER\0"
  const TAG_SIG: u32 := 0x0047_4953   // "SIG\0"
  const TAG_NONC: u32 := 0x434e_4f4e
  const TAG_MIDP: u32 := 0x5044_494d
  const TAG_RADI: u32 := 0x4944_4152
  const TAG_ROOT: u32 := 0x544f_4f52
  const TAG_PATH: u32 := 0x4854_4150
  const TAG_SREP: u32 := 0x5045_5253
  const TAG_CERT: u32 := 0x5452_4543
  const TAG_INDX: u32 := 0x5844_4e49
  const TAG_PUBK: u32 := 0x4b42_5550
  const TAG_MINT: u32 := 0x544e_494d
  const TAG_MAXT: u32 := 0x5458_414d
  const TAG_DELE: u32 := 0x454c_4544
  /** The esp32 header's "PAD\0" (its query builder still writes "PAD\xff"). */
  const TAG_PAD_ZERO: u32 := 0x0044_4150

  /** "ROUGHTIM", the frame magic of draft 5 and later. */
  const MAGIC: seq<byte> := [0x52, 0x4f, 0x55, 0x47, 0x48, 0x54, 0x49, 0x4d]

  /** Context strings, each including its terminating zero byte. */
  const OLD_CONTEXT_CERT: string := "RoughTime v1 delegation signature--\0"
  const CONTEXT_CERT: string := "RoughTime v1 delegation signature\0"
  const CONTEXT_RESP: string := "RoughTime v1 response signature\0"

  const ED25519_SIG_SIZE: nat := 64
  const CERT_DELE_SIZE: nat := 72
  const NONCE_SIZE: nat := 64
  const NODESIZE_MAX: nat := 64
  const NODESIZE_ALTERNATE: nat := 32
  const MAX_SREP_SIZE: nat := 36 + NODESIZE_MAX
  const QUERY_LEN: nat := 1024
  const QUERY_PACKET_LEN: nat := 12 + QUERY_LEN

  /** A sequence of 32-bit words laid out little-endian. */
  function Words(ws: seq<u32>): (s: seq<byte>)
    ensures |s| == 4 * |ws|
  {
    if ws == [] then [] else Word(ws[0]) + Words(ws[1..])
  }

  lemma {:induction false} WordsAppend(a: seq<u32>, b: seq<u32>)
    ensures Words(a + b) == Words(a) + Words(b)
  {
    if a == [] {
      assert a + b == b;
    } else {
      assert (a + b)[1..] == a[1..] + b;
      WordsAppend(a[1..], b);
    }
  }

  /** Word `i` of a word layout reads back as `ws[i]`. */
  lemma {:induction false} WordsAt(ws: seq<u32>, i: nat)
    requires i < |ws|
    ensures Words(ws)[4 * i..4 * i + 4] == Word(ws[i])
  {
    if i > 0 {
      WordsAt(ws[1..], i - 1);
      assert Words(ws)[4 * i..4 * i + 4] == Words(ws[1..])[4 * (i - 1)..4 * (i - 1) + 4];
    }
  }

  /** One tag of a message: its key word and its value bytes. */
  datatype TagValue = TagValue(key: u32, value: seq<byte>)

  function Keys(tvs: seq<TagValue>): (ks: seq<u32>)
    ensures |ks| == |tvs| && forall i :: 0 <= i < |tvs| ==> ks[i] == tvs[i].key
  {
    seq(|tvs|, i requires 0 <= i < |tvs| => tvs[i].key)
  }

  /** The concatenated values of a tag list. */
  function Values(tvs: seq<TagValue>): seq<byte>
  {
    if tvs == [] then [] else tvs[0].value + Values(tvs[1..])
  }

  lemma {:induction false} ValuesAppend(a: seq<TagValue>, b: seq<TagValue>)
    ensures Values(a + b) == Values(a) + Values(b)
  {
    if a == [] {
      assert a + b == b;
    } else {
      assert (a + b)[1..] == a[1..] + b;
      ValuesAppend(a[1..], b);
    }
  }

  /** The value of tag `k` sits at offset |Values(tvs[..k])| of the data area. */
  lemma {:induction false} ValueAt(tvs: seq<TagValue>, k: nat)
    requires k < |tvs|
    ensures |Values(tvs[..k])| + |tvs[k].value| == |Values(tvs[..k + 1])| <= |Values(tvs)|
    ensures Values(tvs)[|Values(tvs[..k])|..|Values(tvs[..k + 1])|] == tvs[k].value
  {
    assert tvs == tvs[..k + 1] + tvs[k + 1..];
    ValuesAppend(tvs[..k + 1], tvs[k + 1..]);
    assert tvs[..k + 1] == tvs[..k] + [tvs[k]];
    ValuesAppend(tvs[..k], [tvs[k]]);
    assert Values([tvs[k]]) == tvs[k].value by {
      assert [tvs[k]][1..] == [];
    }
  }

  /** Every value length is a multiple of four (what `RoughtimeTag` and the builder assert). */
  predicate Aligned(tvs: seq<TagValue>) {
    forall i :: 0 <= i < |tvs| ==> |tvs[i].value| % 4 == 0
  }

  /** The message fits the 32-bit counters the layout uses. */
  predicate Encodable(tvs: seq<TagValue>) {
    8 * |tvs| + |Values(tvs)| < TWO32
  }

  lemma {:induction false} PrefixValues(tvs: seq<TagValue>, k: nat)
    requires k <= |tvs|
    ensures |Values(tvs[..k])| <= |Values(tvs)|
  {
    assert tvs == tvs[..k] + tvs[k..];
    ValuesAppend(tvs[..k], tvs[k..]);
  }

  /** Offset table: slot i holds the end of the value of tag i, for all tags but the last. */
  function Ends(tvs: seq<TagValue>): (es: seq<u32>)
    ensures |es| == if |tvs| == 0 then 0 else |tvs| - 1
  {
    if |tvs| <= 1 then [] else Ends(tvs[..|tvs| - 1]) + [Wrap32(|Values(tvs[..|tvs| - 1])|)]
  }

  lemma {:induction false} EndsAt(tvs: seq<TagValue>, k: nat)
    requires 0 < k < |tvs|
    ensures Ends(tvs)[k - 1] == Wrap32(|Values(tvs[..k])|)
  {
    var init := tvs[..|tvs| - 1];
    if k < |tvs| - 1 {
      EndsAt(init, k);
      assert init[..k] == tvs[..k];
    }
  }

  /** The header words: count, end offsets, keys. */
  function Header(tvs: seq<TagValue>): (h: seq<u32>)
    ensures |h| == if |tvs| == 0 then 1 else 2 * |tvs|
  {
    [Wrap32(|tvs|)] + Ends(tvs) + Keys(tvs)
  }

  /** The serialised message; its words are exact when it is `Encodable`. */
  function Encode(tvs: seq<TagValue>): (s: seq<byte>)
    ensures |tvs| > 0 ==> |s| == 8 * |tvs| + |Values(tvs)|
  {
    Words(Header(tvs)) + Values(tvs)
  }

  /** The 12-byte draft-5 frame: magic and the body length. */
  function Frame(len: u32): (s: seq<byte>)
    ensures |s| == 12 && s[..8] == MAGIC
  {
    MAGIC + Word(len)
  }
}
