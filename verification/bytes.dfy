/** Bytes, little-endian words and the fixed-width unsigned integers of the
    C implementations. Everything on the wire is little-endian. */
module Bytes {

  type byte = x: int | 0 <= x < 0x100
  type u32 = x: int | 0 <= x < 0x1_0000_0000
  type u64 = x: int | 0 <= x < 0x1_0000_0000_0000_0000

  /** A value that may be missing: Python's `None`, C's `NULL`, a raised
      exception where the caller only learns that something failed. */
  datatype Option<+T> = None | Some(value: T)

  const TWO32: int := 0x1_0000_0000
  const TWO64: int := 0x1_0000_0000_0000_0000

  /** A C `uint32_t` result: the value modulo 2^32. */
  function Wrap32(x: int): (r: u32)
    ensures 0 <= x < TWO32 ==> r == x
    ensures TWO32 <= x < 2 * TWO32 ==> r == x - TWO32
    ensures -TWO32 <= x < 0 ==> r == x + TWO32
  {
    x % TWO32
  }

  /** A C `uint64_t` result: the value modulo 2^64. */
  function Wrap64(x: int): (r: u64)
    ensures 0 <= x < TWO64 ==> r == x
  {
    x % TWO64
  }

  /** Four little-endian bytes read as a 32-bit word. */
  function U32(s: seq<byte>): (r: u32)
    requires |s| == 4
  {
    s[0] as int + 0x100 * (s[1] as int) + 0x1_0000 * (s[2] as int) + 0x100_0000 * (s[3] as int)
  }

  /** The word at byte `p` of a longer sequence. */
  function U32At(s: seq<byte>, p: nat): (r: u32)
    requires p + 4 <= |s|
  {
    s[p] as int + 0x100 * (s[p + 1] as int) + 0x1_0000 * (s[p + 2] as int) + 0x100_0000 * (s[p + 3] as int)
  }

  /** Reading in place is reading the four bytes cut out. */
  lemma {:induction false} U32AtIs(s: seq<byte>, p: nat)
    requires p + 4 <= |s|
    ensures U32At(s, p) == U32(s[p..p + 4])
  {
    var w := s[p..p + 4];
    assert w[0] == s[p] && w[1] == s[p + 1] && w[2] == s[p + 2] && w[3] == s[p + 3];
  }

  /** Eight little-endian bytes read as a 64-bit word (low word first). */
  function U64(s: seq<byte>): (r: u64)
    requires |s| == 8
  {
    U32(s[..4]) + TWO32 * U32(s[4..])
  }

  /** The four little-endian bytes of a 32-bit word. */
  function Word(x: u32): (s: seq<byte>)
    ensures |s| == 4 && U32(s) == x
  {
    var q1 := x / 0x100;
    var q2 := q1 / 0x100;
    var q3 := q2 / 0x100;
    assert x == x % 0x100 + 0x100 * q1;
    assert q1 == q1 % 0x100 + 0x100 * q2;
    assert q2 == q2 % 0x100 + 0x100 * q3;
    assert q3 < 0x100;
    [x % 0x100, q1 % 0x100, q2 % 0x100, q3]
  }

  /** The eight little-endian bytes of a 64-bit word. */
  function Word64(x: u64): (s: seq<byte>)
    ensures |s| == 8 && U64(s) == x
  {
    var s := Word(x % TWO32) + Word(x / TWO32);
    assert s[..4] == Word(x % TWO32) && s[4..] == Word(x / TWO32);
    s
  }

  /** A 64-bit word is its low 32-bit half plus its high half shifted by 32. */
  lemma {:induction false} Word64Halves(lo: u32, hi: u32)
    ensures lo + hi * TWO32 < TWO64
    ensures Word64(lo + hi * TWO32) == Word(lo) + Word(hi)
  {
    var x := lo + hi * TWO32;
    assert x % TWO32 == lo && x / TWO32 == hi;
  }

  lemma {:induction false} WordOfU32(s: seq<byte>)
    requires |s| == 4
    ensures Word(U32(s)) == s
  {
    var x := U32(s);
    var q1: int := s[1] as int + 0x100 * (s[2] as int) + 0x1_0000 * (s[3] as int);
    var q2: int := s[2] as int + 0x100 * (s[3] as int);
    assert x == s[0] as int + 0x100 * q1;
    assert x / 0x100 == q1 && q1 % 0x100 == s[1];
    assert q1 / 0x100 == q2 && q2 % 0x100 == s[2];
    assert q2 / 0x100 == s[3];
  }

  /** Different words have different bytes. */
  lemma {:induction false} WordInjective(x: u32, y: u32)
    requires Word(x) == Word(y)
    ensures x == y
  {
    assert U32(Word(x)) == x && U32(Word(y)) == y;
  }

  /** A slice of the second half of a concatenation. */
  lemma {:induction false} SliceRight<T>(a: seq<T>, c: seq<T>, i: nat, j: nat)
    requires |a| <= i <= j <= |a| + |c|
    ensures (a + c)[i..j] == c[i - |a|..j - |a|]
  {
  }

  /** A non-empty sequence is its front followed by its last element. */
  lemma {:induction false} SnocLast<T>(s: seq<T>)
    requires |s| > 0
    ensures s[..|s| - 1] + [s[|s| - 1]] == s
  {
  }

  /** `n` zero bytes, as `memset(.., 0, n)` writes them. */
  function Zeros(n: nat): (z: seq<byte>)
    ensures |z| == n && forall i :: 0 <= i < n ==> z[i] == 0
  {
    seq(n, _ => 0)
  }

  /** `s` with the bytes `d` written at position `pos`, as `memcpy(s + pos, d, |d|)`. */
  function Put(s: seq<byte>, pos: nat, d: seq<byte>): (r: seq<byte>)
    requires pos + |d| <= |s|
    ensures |r| == |s|
  {
    seq(|s|, i requires 0 <= i < |s| => if pos <= i < pos + |d| then d[i - pos] else s[i])
  }

  /** A byte writer writes `d` into `a` at `pos` and nothing else (`memcpy`, `memset`). */
  method Write(a: array<byte>, pos: nat, d: seq<byte>)
    requires pos + |d| <= a.Length
    modifies a
    ensures a[..] == Put(old(a[..]), pos, d)
  {
    forall k | 0 <= k < |d| {
      a[pos + k] := d[k];
    }
    assert forall i :: 0 <= i < a.Length ==> a[..][i] == Put(old(a[..]), pos, d)[i];
  }

  /** The bytes of a string of ASCII characters (tag names and context strings). */
  function Ascii(s: string): (r: seq<byte>)
    ensures |r| == |s| && forall i :: 0 <= i < |s| && s[i] as int < 0x100 ==> r[i] == s[i] as int
  {
    seq(|s|, i requires 0 <= i < |s| => (s[i] as int) % 0x100)
  }
}
