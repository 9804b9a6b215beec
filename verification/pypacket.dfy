/** `RoughtimePacket` of the MicroPython client (pyroughtime.py): a packet
    holds its tags sorted by key word, serialises them in the common layout
    (`get_value_bytes`), pads a query to 1024 bytes and parses a received
    message, unpacking SREP, CERT and DELE recursively. A raised exception
    is `None` or `false`. */
module PyPacket {
  import opened Bytes
  import opened Wire
  import opened PyTag
  import Blob
  import Query

  /** A tag of a packet: a leaf (`RoughtimeTag`), or a nested packet
      (`RoughtimePacket` under a key) with the tags parsed from the bytes it
      was received as. */
  datatype Tag =
    | Leaf(key: u32, value: seq<byte>)
    | Parent(key: u32, tags: seq<Tag>, received: seq<byte>)

  /** `get_value_bytes` of a tag: a leaf's value, a nested packet serialised anew from its tags. */
  function ValueOf(t: Tag): seq<byte>
    decreases t
  {
    match t
    case Leaf(_, v) => v
    case Parent(_, ts, _) => Encode(Entries(ts))
  }

  /** The key and value of every tag, in order. */
  function Entries(ts: seq<Tag>): (r: seq<TagValue>)
    decreases ts
    ensures |r| == |ts| && forall i {:trigger r[i]} :: 0 <= i < |ts| ==> r[i] == TagValue(ts[i].key, ValueOf(ts[i]))
  {
    if ts == [] then [] else [TagValue(ts[0].key, ValueOf(ts[0]))] + Entries(ts[1..])
  }

  /** Keys strictly ascending (so also distinct). */
  predicate Sorted(ts: seq<Tag>) {
    forall i, j :: 0 <= i < j < |ts| ==> ts[i].key < ts[j].key
  }

  predicate HasKey(ts: seq<Tag>, k: u32) {
    exists i :: 0 <= i < |ts| && ts[i].key == k
  }

  /** `self.tags.append(tag); self.tags.sort(key=...)` on a sorted list:
      the tag goes in front of the first larger key. */
  function Insert(ts: seq<Tag>, t: Tag): (r: seq<Tag>)
    ensures |r| == |ts| + 1 && multiset(r) == multiset(ts) + multiset{t}
  {
    if ts == [] then [t]
    else if t.key < ts[0].key then [t] + ts
    else
      assert ts == [ts[0]] + ts[1..];
      [ts[0]] + Insert(ts[1..], t)
  }

  /** A tag with a new key keeps a sorted list sorted. */
  lemma {:induction false} InsertSorted(ts: seq<Tag>, t: Tag)
    requires Sorted(ts) && !HasKey(ts, t.key)
    ensures Sorted(Insert(ts, t))
  {
    if ts != [] && t.key >= ts[0].key {
      var rest := ts[1..];
      forall i | 0 <= i < |rest|
        ensures rest[i].key != t.key
      {
        assert ts[i + 1] == rest[i];
      }
      InsertSorted(rest, t);
      var tail := Insert(rest, t);
      assert ts[0].key != t.key by {
        assert ts[0].key == t.key ==> HasKey(ts, t.key);
      }
      InsertMembers(rest, t);
      forall j | 0 <= j < |tail|
        ensures ts[0].key < tail[j].key
      {
        assert tail[j] in tail;
        if tail[j] != t {
          var i :| 0 <= i < |rest| && rest[i] == tail[j];
          assert ts[i + 1] == tail[j];
        }
      }
      SortedCons(ts[0], tail);
    }
  }

  /** A tag below every key of a sorted list can go in front of it. */
  lemma {:induction false} SortedCons(h: Tag, tail: seq<Tag>)
    requires Sorted(tail) && forall j :: 0 <= j < |tail| ==> h.key < tail[j].key
    ensures Sorted([h] + tail)
  {
    var r := [h] + tail;
    forall i, j | 0 <= i < j < |r|
      ensures r[i].key < r[j].key
    {
      assert r[j] == tail[j - 1];
      if i > 0 {
        assert r[i] == tail[i - 1];
      }
    }
  }

  /** The tags after an insertion are the old ones and the new one. */
  lemma {:induction false} InsertMembers(ts: seq<Tag>, t: Tag)
    ensures forall u :: u in Insert(ts, t) <==> u in ts || u == t
  {
    forall u
      ensures u in Insert(ts, t) <==> u in ts || u == t
    {
      calc {
        u in Insert(ts, t);
        u in multiset(Insert(ts, t));
        u in multiset(ts) + multiset{t};
      }
    }
  }

  /** Inserting a key larger than every other appends it. */
  lemma {:induction false} InsertLast(ts: seq<Tag>, t: Tag)
    requires forall i :: 0 <= i < |ts| ==> ts[i].key < t.key
    ensures Insert(ts, t) == ts + [t]
  {
    if ts != [] {
      InsertLast(ts[1..], t);
      assert ts == [ts[0]] + ts[1..];
    }
  }

  /** Inserting a tag adds its value's bytes to the data area. */
  lemma {:induction false} InsertValues(ts: seq<Tag>, t: Tag)
    ensures |Values(Entries(Insert(ts, t)))| == |Values(Entries(ts))| + |ValueOf(t)|
  {
    if ts != [] && t.key >= ts[0].key {
      InsertValues(ts[1..], t);
      assert Entries([ts[0]] + Insert(ts[1..], t)) == [Entries(ts)[0]] + Entries(Insert(ts[1..], t));
      assert Entries(ts) == [Entries(ts)[0]] + Entries(ts[1..]);
      ValuesAppend([Entries(ts)[0]], Entries(Insert(ts[1..], t)));
      ValuesAppend([Entries(ts)[0]], Entries(ts[1..]));
    } else if ts != [] {
      assert Entries([t] + ts) == [TagValue(t.key, ValueOf(t))] + Entries(ts);
      ValuesAppend([TagValue(t.key, ValueOf(t))], Entries(ts));
    }
  }

  /** The first tag with key `k`. */
  function Find(ts: seq<Tag>, k: u32): (r: Option<Tag>)
    ensures r.Some? <==> HasKey(ts, k)
    ensures r.Some? ==> r.value in ts && r.value.key == k
  {
    if ts == [] then None
    else if ts[0].key == k then Some(ts[0])
    else
      assert HasKey(ts, k) ==> HasKey(ts[1..], k) by {
        if HasKey(ts, k) {
          var i :| 0 <= i < |ts| && ts[i].key == k;
          assert ts[1..][i - 1].key == k;
        }
      }
      Find(ts[1..], k)
  }

  const TAG_DTAI: u32 := 0x4941_5444
  const TAG_DUT1: u32 := 0x3154_5544
  const TAG_LEAP: u32 := 0x5041_454c

  /** Keys the parser keeps as leaves (`leaf_tags`). */
  const LEAF_TAGS: set<u32> := {TAG_SIG, TAG_INDX, TAG_PATH, TAG_ROOT, TAG_MIDP, TAG_RADI,
    TAG_PAD_ZERO, TAG_PAD, TAG_NONC, TAG_MINT, TAG_MAXT, TAG_PUBK, TAG_VER,
    TAG_DTAI, TAG_DUT1, TAG_LEAP}
  /** Keys the parser unpacks recursively (`parent_tags`). */
  const PARENT_TAGS: set<u32> := {TAG_SREP, TAG_CERT, TAG_DELE}

  /** "ROUGHTIM" read as a little-endian 64-bit word. */
  const MAGIC_WORD: u64 := 0x4d49_5448_4755_4f52

  /** `unpack_uint32(buf, 4 * i)`. */
  function WordAt(p: seq<byte>, i: nat): u32
    requires 4 * i + 4 <= |p|
  {
    U32(p[4 * i..4 * i + 4])
  }

  /** A tag as the parser can produce it: a leaf under a leaf key with an
      aligned value, or a nested packet under a parent key. */
  predicate Known(t: Tag) {
    match t
    case Leaf(k, v) => k in LEAF_TAGS && |v| % 4 == 0
    case Parent(k, _, _) => k in PARENT_TAGS
  }

  /** `RoughtimePacket(key, packet)`: the tags parsed from a received
      message, or none where the constructor raises. A message whose first
      eight bytes are the magic must carry its exact body length behind it. */
  function Parse(p: seq<byte>): (r: Option<seq<Tag>>)
    decreases |p|, 2
    ensures r.Some? ==> |p| % 4 == 0 && 8 <= |p|
    ensures r.Some? && U64(p[..8]) == MAGIC_WORD ==> 12 <= |p| && WordAt(p, 2) == |p| - 12
  {
    if |p| % 4 != 0 || |p| < 8 then None
    else if U64(p[..8]) == MAGIC_WORD then
      if |p| < 12 || |p| - 12 != WordAt(p, 2) then None
      else ParseBody(p[12..])
    else ParseBody(p)
  }

  /** The unframed body: the tag count, then the tags one by one. */
  function ParseBody(p: seq<byte>): (r: Option<seq<Tag>>)
    decreases |p|, 1
    ensures r.Some? ==> 4 <= |p| && 8 * WordAt(p, 0) <= |p| && |r.value| == WordAt(p, 0)
  {
    if |p| < 4 then None
    else
      var n := WordAt(p, 0);
      if 8 * n > |p| then None else ParseFrom(p, n, 0, [])
  }

  /** Iteration `i` of the parser's loop and the ones after it, with the
      tags gathered so far in `acc`. */
  function ParseFrom(p: seq<byte>, n: nat, i: nat, acc: seq<Tag>): (r: Option<seq<Tag>>)
    requires 8 * n <= |p| && i <= n
    decreases |p|, 0, n - i
    ensures r.Some? ==> |r.value| == |acc| + n - i
  {
    if i == n then Some(acc)
    else
      match Slot(p, n, i)
      case None => None
      case Some(kv) =>
        match Accept(acc, kv.0, kv.1)
        case None => None
        case Some(t) => ParseFrom(p, n, i + 1, Insert(acc, t))
  }

  /** The key and value of tag `i`: its value runs from its offset (the
      header's end for the first tag) to the next tag's offset (the end of
      the message for the last); an offset past the end raises, and a value
      whose end comes before its start is empty. */
  function Slot(p: seq<byte>, n: nat, i: nat): (r: Option<(u32, seq<byte>)>)
    requires 8 * n <= |p| && i < n
    ensures r.Some? ==> |r.value.1| + 8 <= |p|
  {
    var h: nat := 8 * n;
    var offset := if i == 0 then h else WordAt(p, i) + h;
    var end := if i == n - 1 then |p| else WordAt(p, i + 1) + h;
    if offset > |p| || end > |p| then None
    else Some((WordAt(p, n + i), if offset <= end then p[offset..end] else []))
  }

  /** The tag a key and value become: a repeated key, a leaf value that is
      not a whole number of words, a nested packet that does not parse and
      an unknown key all raise. */
  function Accept(acc: seq<Tag>, key: u32, value: seq<byte>): (r: Option<Tag>)
    decreases |value|, 3
    ensures r.Some? ==> r.value.key == key && !HasKey(acc, key) && Known(r.value)
  {
    if HasKey(acc, key) then None
    else if key in LEAF_TAGS then
      if |value| % 4 != 0 then None else Some(Leaf(key, value))
    else if key in PARENT_TAGS then
      match Parse(value)
      case None => None
      case Some(ts) => Some(Parent(key, ts, value))
    else None
  }

  class Packet {
    /** The key this packet has inside its parent (NUL words at the top). */
    var key: u32
    var tags: seq<Tag>
    /** `self.packet`: the bytes it was parsed from, `get_received()`. */
    var received: Option<seq<byte>>

    /** The tags stay sorted by key word: every change goes through `AddTag`. */
    predicate Valid()
      reads this
    {
      Sorted(tags)
    }

    /** `RoughtimePacket(key)` without a packet to parse. */
    constructor Empty(key: u32)
      ensures Valid() && this.key == key && tags == [] && received == None
    {
      this.key := key;
      tags := [];
      received := None;
    }

    /** The parsing part of `RoughtimePacket(key, packet)`, on a packet
        made with no tags: the received bytes are kept, then the tags are
        read one by one, a nested packet by a packet of its own. `false`
        where the constructor raises. */
    method Load(data: seq<byte>) returns (ok: bool)
      requires tags == []
      modifies this`tags, this`received
      decreases |data|, 2
      ensures received == Some(data)
      ensures ok == Parse(data).Some?
      ensures ok ==> tags == Parse(data).value && Valid()
    {
      received := Some(data);
      if |data| % 4 != 0 || |data| < 8 {
        return false;
      }
      var body := data;
      if U64(data[..8]) == MAGIC_WORD {
        if |data| < 12 || |data| - 12 != WordAt(data, 2) {
          return false;
        }
        body := data[12..];
      }
      assert Parse(data) == ParseBody(body);
      ok := LoadBody(body);
    }

    /** The tag loop of the constructor, on the unframed body. */
    method LoadBody(body: seq<byte>) returns (ok: bool)
      requires tags == []
      modifies this`tags
      decreases |body|, 1
      ensures ok == ParseBody(body).Some?
      ensures ok ==> tags == ParseBody(body).value && Valid()
    {
      if |body| < 4 {
        return false;
      }
      var n: nat := WordAt(body, 0);
      var h: nat := 8 * n;
      if h > |body| {
        return false;
      }
      assert ParseBody(body) == ParseFrom(body, n, 0, []);
      var i := 0;
      while i < n
        invariant i <= n && Valid()
        invariant ParseFrom(body, n, i, tags) == ParseBody(body)
        decreases n - i
      {
        var t := ReadTag(body, n, i);
        if t.None? {
          return false;
        }
        assert ParseFrom(body, n, i, tags) == ParseFrom(body, n, i + 1, Insert(tags, t.value));
        var added := AddTag(t.value);
        i := i + 1;
      }
      assert ParseFrom(body, n, i, tags) == Some(tags);
      return true;
    }

    /** The body of one iteration of the constructor's loop: the key and
        value of tag `i`, and the leaf or nested packet they become; none
        where the constructor raises. */
    method ReadTag(body: seq<byte>, n: nat, i: nat) returns (r: Option<Tag>)
      requires 8 * n <= |body| && i < n
      decreases |body|, 0
      ensures Slot(body, n, i).None? ==> r.None?
      ensures Slot(body, n, i).Some? ==> r == Accept(tags, Slot(body, n, i).value.0, Slot(body, n, i).value.1)
    {
      var slot := ReadSlot(body, n, i);
      if slot.None? {
        return None;
      }
      r := Classify(slot.value.0, slot.value.1);
    }

    /** The offsets of tag `i` (an offset past the end raises), its key and
        its value. */
    method ReadSlot(body: seq<byte>, n: nat, i: nat) returns (r: Option<(u32, seq<byte>)>)
      requires 8 * n <= |body| && i < n
      ensures r == Slot(body, n, i)
    {
      var h: nat := 8 * n;
      var offset := if i == 0 then h else WordAt(body, i) + h;
      if offset > |body| {
        return None;
      }
      var end := if i == n - 1 then |body| else WordAt(body, i + 1) + h;
      if end > |body| {
        return None;
      }
      var key := WordAt(body, n + i);
      var value := if offset <= end then body[offset..end] else [];
      return Some((key, value));
    }

    /** The duplicate check, and the leaf or nested packet a key and value
        become. */
    method Classify(key: u32, value: seq<byte>) returns (r: Option<Tag>)
      decreases |value|, 3
      ensures r == Accept(tags, key, value)
    {
      var dup := Contains(key);
      if dup {
        return None;
      }
      if key in LEAF_TAGS {
        if |value| % 4 != 0 {
          return None;
        }
        return Some(Leaf(key, value));
      } else if key in PARENT_TAGS {
        var child := new Packet.Empty(key);
        var parsed := child.Load(value);
        if !parsed {
          return None;
        }
        return Some(Parent(key, child.tags, value));
      }
      return None;
    }

    /** `contains_tag`, for a key already padded to four characters. */
    method Contains(k: u32) returns (b: bool)
      ensures b == HasKey(tags, k)
    {
      var i := 0;
      while i < |tags|
        invariant i <= |tags| && forall j :: 0 <= j < i ==> tags[j].key != k
      {
        if tags[i].key == k {
          return true;
        }
        i := i + 1;
      }
      return false;
    }

    /** `get_tag`, for a key already padded to four characters: the tag
        with that key, or none. */
    method GetTag(k: u32) returns (r: Option<Tag>)
      ensures r == Find(tags, k)
    {
      var i := 0;
      while i < |tags|
        invariant i <= |tags| && Find(tags, k) == Find(tags[i..], k)
      {
        if tags[i].key == k {
          return Some(tags[i]);
        }
        assert tags[i..][1..] == tags[i + 1..];
        i := i + 1;
      }
      return None;
    }

    /** `add_tag`: a tag whose key is already present raises and changes
        nothing; any other is added and the tags are sorted again. */
    method AddTag(t: Tag) returns (ok: bool)
      requires Valid()
      modifies this`tags
      ensures Valid()
      ensures ok == !HasKey(old(tags), t.key)
      ensures ok ==> tags == Insert(old(tags), t) && multiset(tags) == multiset(old(tags)) + multiset{t}
      ensures !ok ==> tags == old(tags)
    {
      var i := 0;
      while i < |tags|
        invariant i <= |tags| && forall j :: 0 <= j < i ==> tags[j].key != t.key
      {
        if tags[i].key == t.key {
          return false;
        }
        i := i + 1;
      }
      InsertSorted(tags, t);
      tags := Insert(tags, t);
      return true;
    }

    /** `get_value_bytes`: the tag count, the running end offset of every
        tag but the last, the keys and the values; behind the 12-byte frame
        when `header` is set. `struct.pack('<I', ...)` raises on a count, an
        offset or a framed length that does not fit 32 bits. */
    method GetValueBytes(header: bool) returns (out: Option<seq<byte>>)
      ensures out.Some? <==> Packs(Entries(tags)) && (header ==> |Encode(Entries(tags))| < TWO32)
      ensures out.Some? ==> out.value == (if header then Frame(|Encode(Entries(tags))|) else []) + Encode(Entries(tags))
    {
      var tvs := Entries(tags);
      var n := |tags|;
      if n >= TWO32 {
        return None;
      }
      var offsets := OffsetTable(tvs);
      if offsets.None? {
        return None;
      }
      var keys := KeyTable(tvs);
      var values := ValueArea(tvs);
      var bytes := Word(n) + offsets.value + keys + values;
      EncodeWords(tvs);
      if header {
        if |bytes| >= TWO32 {
          return None;
        }
        bytes := Frame(|bytes|) + bytes;
      }
      return Some(bytes);
    }

    /** `add_padding`: a packet shorter than 1024 bytes gets a PAD\xff tag
        of 1016 minus its length in zeros (none when that is negative),
        which makes a packet with tags exactly 1024 bytes when it was at
        most 1016; an empty packet only reaches 1020. A present PAD\xff,
        or a packet `get_value_bytes` cannot serialise, raises. */
    method AddPadding() returns (ok: bool)
      requires Valid()
      modifies this`tags
      ensures Valid()
      ensures var tvs := Entries(old(tags)); var n := |Encode(tvs)|;
        && (!Packs(tvs) ==> !ok && tags == old(tags))
        && (Packs(tvs) && n >= 1024 ==> ok && tags == old(tags))
        && (Packs(tvs) && n < 1024 ==> ok == !HasKey(old(tags), TAG_PAD))
        && (!ok ==> tags == old(tags))
        && (ok && n < 1024 ==> HasKey(tags, TAG_PAD) && multiset(old(tags)) <= multiset(tags))
        && (ok && n < 1024 ==> tags == Insert(old(tags), Leaf(TAG_PAD, Zeros(if 1016 - n > 0 then 1016 - n else 0))))
        && (ok && old(tags) != [] && n <= 1016 ==> |Encode(Entries(tags))| == 1024)
        && (ok && old(tags) != [] && n < 1024 ==> |Encode(Entries(tags))| >= 1024)
        && (ok && old(tags) == [] ==> |Encode(Entries(tags))| == 1020)
    {
      var bytes := GetValueBytes(false);
      if bytes.None? {
        return false;
      }
      var packetLen := |bytes.value|;
      if packetLen >= 1024 {
        return true;
      }
      var padLen := if 1016 - packetLen > 0 then 1016 - packetLen else 0;
      var pad := Leaf(TAG_PAD, Zeros(padLen));
      InsertValues(tags, pad);
      ok := AddTag(pad);
      if ok {
        assert pad in multiset(tags);
        assert pad in tags;
      }
    }
  }

  /** The first loop of `get_value_bytes`: the running end offset of every
      tag but the last, each packed as a 32-bit word. */
  method OffsetTable(tvs: seq<TagValue>) returns (r: Option<seq<byte>>)
    ensures r.Some? <==> forall k :: 0 < k < |tvs| ==> |Values(tvs[..k])| < TWO32
    ensures r.Some? ==> r.value == Words(Ends(tvs))
  {
    var bytes := [];
    var offset := 0;
    var i := 0;
    while i + 1 < |tvs|
      invariant i <= |tvs| && (|tvs| > 0 ==> i < |tvs|)
      invariant offset == |Values(tvs[..i])| < TWO32
      invariant forall k :: 0 < k <= i ==> |Values(tvs[..k])| < TWO32
      invariant bytes == Words(Ends(tvs)[..i])
    {
      ValuesStep(tvs, i);
      offset := offset + |tvs[i].value|;
      if offset >= TWO32 {
        return None;
      }
      EndsStep(tvs, i + 1);
      bytes := bytes + Word(offset);
      i := i + 1;
    }
    assert Ends(tvs)[..i] == Ends(tvs);
    return Some(bytes);
  }

  /** The second loop of `get_value_bytes`: every key as a word. */
  method KeyTable(tvs: seq<TagValue>) returns (bytes: seq<byte>)
    ensures bytes == Words(Keys(tvs))
  {
    bytes := [];
    var i := 0;
    while i < |tvs|
      invariant i <= |tvs| && bytes == Words(Keys(tvs)[..i])
    {
      KeysStep(tvs, i);
      bytes := bytes + Word(tvs[i].key);
      i := i + 1;
    }
    assert Keys(tvs)[..i] == Keys(tvs);
  }

  /** The third loop of `get_value_bytes`: the values, back to back. */
  method ValueArea(tvs: seq<TagValue>) returns (bytes: seq<byte>)
    ensures bytes == Values(tvs)
  {
    bytes := [];
    var i := 0;
    while i < |tvs|
      invariant i <= |tvs| && bytes == Values(tvs[..i])
    {
      ValuesStep(tvs, i);
      bytes := bytes + tvs[i].value;
      i := i + 1;
    }
    assert tvs[..i] == tvs;
  }

  /** What `get_value_bytes` can pack: a count and end offsets below 2^32. */
  predicate Packs(tvs: seq<TagValue>) {
    |tvs| < TWO32 && forall k :: 0 < k < |tvs| ==> |Values(tvs[..k])| < TWO32
  }

  /** One more end offset in the table. */
  lemma {:induction false} EndsStep(tvs: seq<TagValue>, k: nat)
    requires 0 < k < |tvs| && |Values(tvs[..k])| < TWO32
    ensures Words(Ends(tvs)[..k]) == Words(Ends(tvs)[..k - 1]) + Word(|Values(tvs[..k])|)
  {
    EndsAt(tvs, k);
    assert Ends(tvs)[..k] == Ends(tvs)[..k - 1] + [Ends(tvs)[k - 1]];
    WordsAppend(Ends(tvs)[..k - 1], [Ends(tvs)[k - 1]]);
    Query.WordsOne(Ends(tvs)[k - 1]);
  }

  /** One more key in the table. */
  lemma {:induction false} KeysStep(tvs: seq<TagValue>, i: nat)
    requires i < |tvs|
    ensures Words(Keys(tvs)[..i + 1]) == Words(Keys(tvs)[..i]) + Word(tvs[i].key)
  {
    assert Keys(tvs)[..i + 1] == Keys(tvs)[..i] + [tvs[i].key];
    WordsAppend(Keys(tvs)[..i], [tvs[i].key]);
    Query.WordsOne(tvs[i].key);
  }

  /** The serialised message word by word: count, offsets, keys, values. */
  lemma {:induction false} EncodeWords(tvs: seq<TagValue>)
    requires |tvs| < TWO32
    ensures Encode(tvs) == Word(|tvs|) + Words(Ends(tvs)) + Words(Keys(tvs)) + Values(tvs)
  {
    WordsAppend([Wrap32(|tvs|)], Ends(tvs));
    WordsAppend([Wrap32(|tvs|)] + Ends(tvs), Keys(tvs));
    Query.WordsOne(|tvs|);
  }

  /** The value bytes of one more tag extend the data area. */
  lemma {:induction false} ValuesStep(tvs: seq<TagValue>, i: nat)
    requires i < |tvs|
    ensures Values(tvs[..i + 1]) == Values(tvs[..i]) + tvs[i].value
  {
    assert tvs[..i + 1] == tvs[..i] + [tvs[i]];
    ValuesAppend(tvs[..i], [tvs[i]]);
    assert Values([tvs[i]]) == tvs[i].value by {
      assert [tvs[i]][1..] == [];
    }
  }

  /** A packet tree the serialiser and the parser agree on: at least one
      tag, keys sorted, 32-bit counters, aligned values, leaf and parent
      keys where the parser expects them, and every nested packet received
      as its own serialisation. */
  predicate WF(ts: seq<Tag>)
    decreases ts
  {
    && 0 < |ts| && Sorted(ts) && Encodable(Entries(ts)) && Aligned(Entries(ts))
    && forall i {:trigger TagWF(ts[i])} :: 0 <= i < |ts| ==> TagWF(ts[i])
  }

  predicate TagWF(t: Tag)
    decreases t
  {
    match t
    case Leaf(k, _) => k in LEAF_TAGS
    case Parent(k, cs, received) => k in PARENT_TAGS && WF(cs) && received == Encode(Entries(cs))
  }

  /** The first word of a serialisation is a tag count below 2^29, never
      the low half of the magic. */
  lemma {:induction false} NotMagic(s: seq<byte>)
    requires |s| == 8 && U32(s[..4]) < 0x4755_4f52
    ensures U64(s) != MAGIC_WORD
  {
    var lo := U32(s[..4]);
    var hi := U32(s[4..]);
    if hi < 0x4d49_5448 {
      assert TWO32 * hi <= TWO32 * 0x4d49_5447;
    } else if hi > 0x4d49_5448 {
      assert TWO32 * hi >= TWO32 * 0x4d49_5449;
    }
  }

  /** `unpack_uint32` reads the word the C reader reads. */
  lemma {:induction false} WordAtRead(b: Blob.Blob, i: nat)
    requires 4 * i + 4 <= |b|
    ensures i < TWO32 && Blob.R32(b, i) == Ok(WordAt(b, i))
  {
    var r := Blob.R32(b, i);
    Blob.R32Reads(b, i);
    assert Word(r.value) == b[4 * i..4 * i + 4];
  }

  /** Entry `i` of a serialisation: the offsets and the key the parser reads for it. */
  lemma {:induction false} EncodedEntry(tvs: seq<TagValue>, i: nat)
    requires Encodable(tvs) && i < |tvs|
    ensures var p := Encode(tvs); var n := |tvs|;
      && 8 * n <= |p|
      && (if i == 0 then 8 * n else WordAt(p, i) + 8 * n) == 8 * n + |Values(tvs[..i])|
      && (if i == n - 1 then |p| else WordAt(p, i + 1) + 8 * n) == 8 * n + |Values(tvs[..i + 1])|
      && WordAt(p, n + i) == tvs[i].key
  {
    var p := Encode(tvs);
    var n := |tvs|;
    Blob.OffsetWord(tvs, i);
    Blob.EndWord(tvs, i);
    Blob.KeyWordEncoded(tvs, i);
    assert Wrap32(n + i) == n + i;
    WordAtRead(p, n + i);
    if i > 0 {
      WordAtRead(p, i);
    }
    if i < n - 1 {
      WordAtRead(p, i + 1);
    } else {
      assert tvs[..i + 1] == tvs;
    }
  }

  /** Entry `i` of a serialisation: the value between its offsets. */
  lemma {:induction false} EncodedValue(tvs: seq<TagValue>, i: nat)
    requires Encodable(tvs) && i < |tvs|
    ensures var p := Encode(tvs); var n := |tvs|;
      && |Values(tvs[..i])| + |tvs[i].value| == |Values(tvs[..i + 1])|
      && 8 * n + |Values(tvs[..i + 1])| <= |p|
      && p[8 * n + |Values(tvs[..i])|..8 * n + |Values(tvs[..i + 1])|] == tvs[i].value
  {
    var n := |tvs|;
    ValueAt(tvs, i);
    assert |Words(Header(tvs))| == 8 * n;
    SliceRight(Words(Header(tvs)), Values(tvs), 8 * n + |Values(tvs[..i])|, 8 * n + |Values(tvs[..i + 1])|);
  }

  /** The parser finds entry `i` of a serialisation under its key, with its value. */
  lemma {:induction false} SlotOf(tvs: seq<TagValue>, i: nat)
    requires Encodable(tvs) && i < |tvs|
    ensures 8 * |tvs| <= |Encode(tvs)|
    ensures Slot(Encode(tvs), |tvs|, i) == Some((tvs[i].key, tvs[i].value))
  {
    var p := Encode(tvs);
    var n := |tvs|;
    EncodedEntry(tvs, i);
    EncodedValue(tvs, i);
    var a := 8 * n + |Values(tvs[..i])|;
    var b := 8 * n + |Values(tvs[..i + 1])|;
    SlotAt(p, n, i, a, b);
    assert WordAt(p, n + i) == tvs[i].key && p[a..b] == tvs[i].value;
  }

  /** Tag `i` whose offsets are `a` and `b`, in order and within the message. */
  lemma {:induction false} SlotAt(p: seq<byte>, n: nat, i: nat, a: nat, b: nat)
    requires 8 * n <= |p| && i < n
    requires (if i == 0 then 8 * n else WordAt(p, i) + 8 * n) == a
    requires (if i == n - 1 then |p| else WordAt(p, i + 1) + 8 * n) == b
    requires a <= b <= |p|
    ensures Slot(p, n, i) == Some((WordAt(p, n + i), p[a..b]))
  {
  }

  /** The parser reads back the tags of a serialisation from tag `i` on,
      given the ones before it. */
  lemma {:induction false} ParseFromEncoded(ts: seq<Tag>, i: nat)
    requires WF(ts) && i <= |ts|
    decreases ts, 0, |ts| - i
    ensures 8 * |ts| <= |Encode(Entries(ts))|
    ensures ParseFrom(Encode(Entries(ts)), |ts|, i, ts[..i]) == Some(ts)
  {
    if i == |ts| {
      assert ts[..i] == ts;
    } else {
      ParseFromEncoded(ts, i + 1);
      TagKnown(ts, i);
      if ts[i].Parent? {
        TagParses(ts[i]);
      }
      SortedFresh(ts, i);
      EntryParses(ts, i);
    }
  }

  /** Tag `i` of a serialisation is read back as itself. */
  lemma {:induction false} EntryParses(ts: seq<Tag>, i: nat)
    requires Encodable(Entries(ts)) && i < |ts|
    requires Known(ts[i]) && !HasKey(ts[..i], ts[i].key)
    requires ts[i].Parent? ==> ts[i].received == ValueOf(ts[i]) && Parse(ts[i].received) == Some(ts[i].tags)
    requires forall j :: 0 <= j < i ==> ts[j].key < ts[i].key
    ensures 8 * |ts| <= |Encode(Entries(ts))|
    ensures ParseFrom(Encode(Entries(ts)), |ts|, i, ts[..i]) == ParseFrom(Encode(Entries(ts)), |ts|, i + 1, ts[..i + 1])
  {
    var p := Encode(Entries(ts));
    var n := |ts|;
    var t := ts[i];
    SlotEncoded(ts, i);
    AcceptKnown(ts[..i], t);
    InsertLast(ts[..i], t);
    assert ParseFrom(p, n, i, ts[..i]) == ParseFrom(p, n, i + 1, Insert(ts[..i], t));
  }

  /** The parser finds tag `i` of a serialisation under its key, with its value. */
  lemma {:induction false} SlotEncoded(ts: seq<Tag>, i: nat)
    requires Encodable(Entries(ts)) && i < |ts|
    ensures 8 * |ts| <= |Encode(Entries(ts))|
    ensures Slot(Encode(Entries(ts)), |ts|, i) == Some((ts[i].key, ValueOf(ts[i])))
    ensures ts[..i] + [ts[i]] == ts[..i + 1]
  {
    var tvs := Entries(ts);
    SlotOf(tvs, i);
    assert tvs[i] == TagValue(ts[i].key, ValueOf(ts[i]));
    assert ts[..i] + [ts[i]] == ts[..i + 1];
  }

  /** A new tag the parser knows is accepted as itself. */
  lemma {:induction false} AcceptKnown(acc: seq<Tag>, t: Tag)
    requires Known(t) && !HasKey(acc, t.key)
    requires t.Parent? ==> t.received == ValueOf(t) && Parse(t.received) == Some(t.tags)
    ensures Accept(acc, t.key, ValueOf(t)) == Some(t)
  {
  }

  /** In a sorted list no tag's key appears before it. */
  lemma {:induction false} SortedFresh(ts: seq<Tag>, i: nat)
    requires Sorted(ts) && i < |ts|
    ensures !HasKey(ts[..i], ts[i].key)
  {
    forall j | 0 <= j < i
      ensures ts[..i][j].key != ts[i].key
    {
      assert ts[..i][j] == ts[j];
    }
  }

  /** A tag of a well-formed packet is one the parser can produce. */
  lemma {:induction false} TagKnown(ts: seq<Tag>, i: nat)
    requires WF(ts) && i < |ts|
    ensures Known(ts[i]) && TagWF(ts[i])
  {
    var tvs := Entries(ts);
    assert TagWF(ts[i]);
    assert tvs[i] == TagValue(ts[i].key, ValueOf(ts[i]));
    assert |tvs[i].value| % 4 == 0;
  }

  /** A nested packet is parsed back from the bytes it was received as. */
  lemma {:induction false} TagParses(t: Tag)
    requires t.Parent? && TagWF(t)
    decreases t
    ensures Parse(t.received) == Some(t.tags)
  {
    ParseEncoded(t.tags);
  }

  /** Parsing inverts `get_value_bytes()`: the constructor reads back every
      well-formed packet tree, nested packets included. */
  lemma {:induction false} ParseEncoded(ts: seq<Tag>)
    requires WF(ts)
    decreases ts, 1
    ensures ParseBody(Encode(Entries(ts))) == Some(ts)
    ensures Parse(Encode(Entries(ts))) == Some(ts)
  {
    var tvs := Entries(ts);
    var p := Encode(tvs);
    var n := |ts|;
    Blob.AlignedValues(tvs);
    assert |p| % 4 == 0;
    Blob.ReadHeader(Header(tvs), Values(tvs), 0);
    WordAtRead(p, 0);
    assert WordAt(p, 0) == n;
    assert p[..8][..4] == p[0..4];
    NotMagic(p[..8]);
    ParseFromEncoded(ts, 0);
    assert ts[..0] == [];
  }

  lemma {:induction false} MagicWord()
    ensures U64(MAGIC) == MAGIC_WORD
  {
    assert MAGIC[..4] == [0x52, 0x4f, 0x55, 0x47] && MAGIC[4..] == [0x48, 0x54, 0x49, 0x4d];
  }

  lemma {:induction false} Aligned12(k: nat)
    requires k % 4 == 0
    ensures (12 + k) % 4 == 0
  {
  }

  /** A framed message parses as its body when the frame's length is exact. */
  lemma {:induction false} FramedBody(e: seq<byte>)
    requires |e| < TWO32 && |e| % 4 == 0
    ensures Parse(Frame(|e|) + e) == ParseBody(e)
  {
    var p := Frame(|e|) + e;
    assert p[..8] == MAGIC;
    MagicWord();
    Aligned12(|e|);
    assert p[8..12] == Word(|e|);
    assert WordAt(p, 2) == |e|;
    assert p[12..] == e;
  }

  /** With `get_value_bytes(True)` framing, the same tags come back. */
  lemma {:induction false} FramedParse(ts: seq<Tag>)
    requires WF(ts)
    ensures |Encode(Entries(ts))| < TWO32
    ensures Parse(Frame(|Encode(Entries(ts))|) + Encode(Entries(ts))) == Some(ts)
  {
    var tvs := Entries(ts);
    Blob.AlignedValues(tvs);
    FramedBody(Encode(tvs));
    ParseEncoded(ts);
  }

  /** An empty packet serialises to four bytes, which the constructor
      cannot read back (`unpack_uint64` needs eight). */
  lemma {:induction false} EmptyUnparsable()
    ensures Encode(Entries([])) == [0, 0, 0, 0] && Parse(Encode(Entries([]))).None?
  {
    assert Header([]) == [0];
    Query.WordsOne(0);
  }
}
