/** `RoughtimeTag` of the MicroPython client (pyroughtime.py): a key of
    four characters and a value whose length is a multiple of four. A key is
    handled as its 32-bit little-endian word; `KeyStr` and `KeyBytes` are the
    string form the client prints and compares. A raised exception is
    `None`. */
module PyTag {
  import opened Bytes

  /** The eight little-endian bytes of a 64-bit word read back give the bytes. */
  lemma {:induction false} WordOfU64(s: seq<byte>)
    requires |s| == 8
    ensures Word64(U64(s)) == s
  {
    var lo := U32(s[..4]);
    var hi := U32(s[4..]);
    Word64Halves(lo, hi);
    WordOfU32(s[..4]);
    WordOfU32(s[4..]);
    assert s == s[..4] + s[4..];
  }

  /** `to_int`: a value of four bytes is an unsigned 32-bit integer, one of
      eight bytes an unsigned 64-bit integer (`struct.unpack('<I'/'<Q')`);
      any other length raises ValueError. The integer is the one whose
      encoding (`uint32_to_bytes`, `uint64_to_bytes`) is the value. */
  function ToInt(v: seq<byte>): (r: Option<u64>)
    ensures r.Some? <==> |v| == 4 || |v| == 8
    ensures |v| == 4 ==> r.value < TWO32 && Word(r.value) == v
    ensures |v| == 8 ==> Word64(r.value) == v
  {
    if |v| == 4 then
      WordOfU32(v);
      Some(U32(v))
    else if |v| == 8 then
      WordOfU64(v);
      Some(U64(v))
    else None
  }

  /** `tag_uint32_to_str`: the four characters of a key word, lowest byte first. */
  function KeyStr(w: u32): (s: string)
    ensures |s| == 4 && forall i :: 0 <= i < 4 ==> s[i] as int == Word(w)[i]
  {
    var b := Word(w);
    [b[0] as char, b[1] as char, b[2] as char, b[3] as char]
  }

  /** A key string the client can encode: four characters below 256. */
  predicate IsKey(s: string) {
    |s| == 4 && forall i :: 0 <= i < 4 ==> s[i] as int < 0x100
  }

  /** `tag_str_to_uint32`: the bytes of the four characters (`struct.pack('BBBB', ...)`). */
  function KeyBytes(s: string): (b: seq<byte>)
    requires IsKey(s)
    ensures |b| == 4 && forall i :: 0 <= i < 4 ==> b[i] == s[i] as int
  {
    Ascii(s)
  }

  /** The word of a key string, as `add_tag` sorts by it (`struct.unpack('<I', ...)`). */
  function KeyWord(s: string): u32
    requires IsKey(s)
  {
    U32(KeyBytes(s))
  }

  /** `tag_uint32_to_str` inverts `tag_str_to_uint32` read little-endian,
      in both directions. */
  lemma {:induction false} KeyRoundTrip(w: u32, s: string)
    requires IsKey(s)
    ensures IsKey(KeyStr(w)) && KeyWord(KeyStr(w)) == w
    ensures KeyStr(KeyWord(s)) == s
  {
    var b := KeyBytes(KeyStr(w));
    assert b == Word(w);
    WordOfU32(KeyBytes(s));
  }

  /** Two keys are the same string exactly when they are the same word, so
      comparing `get_tag_str()` compares words. */
  lemma {:induction false} KeyStrInjective(w1: u32, w2: u32)
    ensures KeyStr(w1) == KeyStr(w2) <==> w1 == w2
  {
    if KeyStr(w1) == KeyStr(w2) {
      assert Word(w1) == Word(w2) by {
        assert forall i :: 0 <= i < 4 ==> Word(w1)[i] == KeyStr(w1)[i] as int;
      }
      WordInjective(w1, w2);
    }
  }

  /** The key normalisation of `RoughtimeTag.__init__`, `get_tag` and
      `contains_tag`: longer than four characters raises, shorter ones are
      padded with NUL characters until they have four. */
  method PadKey(key: string) returns (r: Option<string>)
    ensures r.Some? <==> |key| <= 4
    ensures r.Some? ==>
      && |r.value| == 4 && r.value[..|key|] == key
      && forall i :: |key| <= i < 4 ==> r.value[i] == '\0'
  {
    if |key| > 4 {
      return None;
    }
    var k := key;
    while |k| < 4
      invariant |key| <= |k| <= 4 && k[..|key|] == key
      invariant forall i :: |key| <= i < |k| ==> k[i] == '\0'
    {
      k := k + "\0";
    }
    return Some(k);
  }
}
