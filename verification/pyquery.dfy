/** The checks `RoughtimeClient.query` of the MicroPython client
    (pyroughtime.py) applies to a reply after the delegation signature: the
    midpoint must lie within the delegation's validity, and the nonce must
    be bound into the signed Merkle root by PATH and INDX. The client always
    hashes with SHA-512, cut to the node size (32 bytes for the new protocol
    versions, 64 for the old one). A raised `RoughtimeError` is a verdict
    other than `TreeOk`. */
module PyQuery {
  import opened Bytes
  import opened Crypto
  import Merkle
  import Response
  import Blob
  import opened Wire

  /** How the Merkle check of `query` ends. */
  datatype Verdict =
    | TreeOk
    | PathNotWhole   // 'PATH length not a multiple of ...'
    | PathTooLong    // 'Too many paths in Merkle tree.'
    | IndexLeft      // 'INDX not zero after traversing PATH.'
    | RootMismatch   // 'Final Merkle tree value not equal to ROOT.'

  /** `node_size`: 32 bytes when the client speaks the new protocol, 64 otherwise. */
  function NodeSize(newver: bool): (ns: nat)
    ensures ns == 32 || ns == 64
  {
    if newver then 32 else 64
  }

  /** The client's hashing as a tree scheme: SHA-512 cut to the node size. */
  function Scheme(newver: bool): (t: Merkle.Scheme)
    ensures t.Valid() && t.nodeSize == NodeSize(newver) && !t.short
  {
    Merkle.Scheme(NodeSize(newver), false)
  }

  /** `hashlib.sha512(b'\x00' + nonce).digest()[:node_size]`: the leaf of
      the whole nonce. */
  function NonceLeaf(p: Primitives, newver: bool, nonce: seq<byte>): (h: seq<byte>)
    ensures |h| == NodeSize(newver)
  {
    p.sha512([Merkle.LEAF_LABEL] + nonce)[..NodeSize(newver)]
  }

  /** `indx >> i`. */
  function Shift(index: nat, i: nat): nat {
    if i == 0 then index else Shift(index / 2, i - 1)
  }

  /** `indx & 1` after `i` shifts is bit `i` of the original index, the bit
      the C clients test with `index & (1UL << i)`. */
  lemma {:induction false} ShiftBit(index: nat, i: nat)
    ensures Merkle.Bit(index, i) <==> Shift(index, i) % 2 == 1
  {
    if i > 0 {
      ShiftBit(index / 2, i - 1);
    }
  }

  /** One more `indx >>= 1` is one more shift. */
  lemma {:induction false} ShiftStep(index: nat, i: nat)
    ensures Shift(index, i + 1) == Shift(index, i) / 2
  {
    if i > 0 {
      ShiftStep(index / 2, i - 1);
    }
  }

  /** An index is exhausted after `i` shifts exactly when it is below 2^i. */
  lemma {:induction false} ShiftZero(index: nat, i: nat)
    ensures Shift(index, i) == 0 <==> index < Merkle.Pow2(i)
  {
    if i > 0 {
      ShiftZero(index / 2, i - 1);
    }
  }

  /** The outcome of the Merkle check: PATH must be whole nodes, at most 32
      of them, INDX must have no bit left above them, and folding them into
      the nonce's leaf, on the sides INDX gives, must give ROOT. */
  function TreeVerdict(p: Primitives, newver: bool, nonce: seq<byte>, path: seq<byte>, index: nat, root: seq<byte>): (v: Verdict)
  {
    var ns := NodeSize(newver);
    var k := |path| / ns;
    if |path| % ns != 0 then PathNotWhole
    else if k > Merkle.MAX_PATH_NODES then PathTooLong
    else if Shift(index, k) != 0 then IndexLeft
    else
      assert k * ns <= |path|;
      if Merkle.Fold(p, Scheme(newver), NonceLeaf(p, newver, nonce), path, index, k) != root then RootMismatch
      else TreeOk
  }

  /** Whole nodes: `k` nodes take `k * ns` bytes. */
  lemma {:induction false} WholeNodes(len: nat, ns: nat)
    requires ns == 32 || ns == 64
    requires len % ns == 0
    ensures (len / ns) * ns == len
  {
  }

  /** The Merkle loop of `query`: while PATH is not empty, hash its first
      node with the current hash (on the left when the low bit of INDX is
      set), drop that node and shift INDX; then INDX must be zero and the
      hash must be ROOT. */
  method CheckTree(p: Primitives, newver: bool, nonce: seq<byte>, path: seq<byte>, index: nat, root: seq<byte>)
    returns (v: Verdict)
    ensures v == TreeVerdict(p, newver, nonce, path, index, root)
  {
    var ns := NodeSize(newver);
    var t := Scheme(newver);
    var curr := p.sha512([Merkle.LEAF_LABEL] + nonce)[..ns];
    ghost var leaf := curr;
    if |path| % ns != 0 {
      return PathNotWhole;
    }
    var pathlen := |path| / ns;
    if pathlen > Merkle.MAX_PATH_NODES {
      return PathTooLong;
    }
    WholeNodes(|path|, ns);
    var rest := path;
    var ix := index;
    ghost var i: nat := 0;
    while |rest| > 0
      invariant i <= pathlen && |rest| == (pathlen - i) * ns && rest == path[i * ns..]
      invariant ix == Shift(index, i)
      invariant curr == Merkle.Fold(p, t, leaf, path, index, i)
      decreases |rest|
    {
      var node := rest[..ns];
      assert node == path[i * ns..(i + 1) * ns];
      ShiftBit(index, i);
      if ix % 2 == 0 {
        curr := p.sha512([Merkle.NODE_LABEL] + curr + node)[..ns];
      } else {
        curr := p.sha512([Merkle.NODE_LABEL] + node + curr)[..ns];
      }
      rest := rest[ns..];
      ShiftStep(index, i);
      ix := ix / 2;
      i := i + 1;
    }
    assert i == pathlen;
    if ix != 0 {
      return IndexLeft;
    }
    if curr != root {
      return RootMismatch;
    }
    return TreeOk;
  }

  /** The validity check of `query`: the midpoint may equal either end of
      the delegation's validity (`mint > midp or maxt < midp` raises). */
  predicate MidpInside(mint: nat, midp: nat, maxt: nat) {
    mint <= midp <= maxt
  }

  /** Where the client accepts a tree, the C clients' root for the same
      hash function is ROOT, and the other way round when PATH is whole
      nodes, at most 32, and INDX has no bits above them. The nonce the
      client sends has exactly the node size. */
  lemma {:induction false} TreeAgreesWithC(p: Primitives, newver: bool, nonce: seq<byte>, path: seq<byte>, index: nat, root: seq<byte>)
    requires |nonce| == NodeSize(newver)
    ensures TreeVerdict(p, newver, nonce, path, index, root) == TreeOk <==>
      && |path| % NodeSize(newver) == 0 && |path| / NodeSize(newver) <= Merkle.MAX_PATH_NODES
      && index < Merkle.Pow2(|path| / NodeSize(newver))
      && Merkle.Root(p, Scheme(newver), nonce, path, index) == root
  {
    var ns := NodeSize(newver);
    var k := |path| / ns;
    assert nonce[..ns] == nonce;
    assert NonceLeaf(p, newver, nonce) == Merkle.Leaf(p, Scheme(newver), nonce);
    ShiftZero(index, k);
    if |path| % ns == 0 && k <= Merkle.MAX_PATH_NODES {
      WholeNodes(|path|, ns);
      Merkle.DepthStep(|path|, ns, k);
      assert Merkle.Depth(|path|, ns) == k;
    }
  }

  /** INDX bits above the path: with an empty PATH and INDX = 1 the client
      refuses a reply whose ROOT is the nonce's own leaf, which the C
      clients accept. */
  lemma {:induction false} LeftoverIndexRefused(p: Primitives, newver: bool, nonce: seq<byte>)
    requires |nonce| == NodeSize(newver)
    ensures TreeVerdict(p, newver, nonce, [], 1, NonceLeaf(p, newver, nonce)) == IndexLeft
    ensures Merkle.Root(p, Scheme(newver), nonce, [], 1) == NonceLeaf(p, newver, nonce)
  {
    assert nonce[..NodeSize(newver)] == nonce;
    assert Shift(1, 0) == 1;
  }

  /** A PATH of more than 32 whole nodes is refused by the client, while the
      C clients fold its first 32 nodes and ignore the rest. */
  lemma {:induction false} LongPathRefused(p: Primitives, newver: bool, nonce: seq<byte>, path: seq<byte>, index: nat, root: seq<byte>)
    requires |path| % NodeSize(newver) == 0 && |path| > Merkle.MAX_PATH_NODES * NodeSize(newver)
    ensures TreeVerdict(p, newver, nonce, path, index, root) == PathTooLong
    ensures Merkle.Depth(|path|, NodeSize(newver)) == Merkle.MAX_PATH_NODES
  {
    var ns := NodeSize(newver);
    WholeNodes(|path|, ns);
    assert |path| / ns > Merkle.MAX_PATH_NODES;
  }

  /** The bounds of the client against those of `vrt_verify_bounds`: what the
      C clients accept (MINT < MIDP < MAXT) the client accepts too, and the
      client also accepts a midpoint equal to MINT or MAXT, which the C
      clients refuse. */
  lemma {:induction false} BoundsInclusive(srep: Blob.Blob, dele: Blob.Blob, midp0: u64, radi0: u32)
    requires Response.Read64(srep, TAG_MIDP).Ok? && Response.Read32(srep, TAG_RADI).Ok?
    requires Response.Read64(dele, TAG_MINT).Ok? && Response.Read64(dele, TAG_MAXT).Ok?
    ensures var mint, midp, maxt := Response.Read64(dele, TAG_MINT).value, Response.Read64(srep, TAG_MIDP).value,
                                    Response.Read64(dele, TAG_MAXT).value;
      && (Response.VerifyBounds(srep, dele, midp0, radi0).status == Success ==> MidpInside(mint, midp, maxt))
      && (MidpInside(mint, midp, maxt) && midp != mint && midp != maxt ==>
            Response.VerifyBounds(srep, dele, midp0, radi0).status == Success)
      && (midp == mint || midp == maxt ==> Response.VerifyBounds(srep, dele, midp0, radi0).status != Success)
  {
  }
}
