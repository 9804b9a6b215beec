/** The nonce binding of a Roughtime response (`vrt_verify_nonce` and
    `vrt_hash_leaf`/`vrt_hash_node` in both C clients): the server signs
    the root of a Merkle tree whose leaves are the nonces of a batch of
    requests; the client rebuilds the root from its own nonce, the sibling
    nodes in PATH and the leaf position in INDX. */
module Merkle {
  import opened Bytes
  import opened Wire
  import opened Crypto
  import Blob

  /** Domain separation labels of leaves and inner nodes. */
  const LEAF_LABEL: byte := 0x00
  const NODE_LABEL: byte := 0x01

  /** One INDX bit per level: at most 32 path nodes are folded. */
  const MAX_PATH_NODES: nat := 32

  /** How a client hashes its tree: the node size (32 bytes from draft 5
      on, 64 before) and whether SHA-512/256 replaces SHA-512 (draft 7). A
      node is the first `nodeSize` bytes of the digest. */
  datatype Scheme = Scheme(nodeSize: nat, short: bool)
  {
    predicate Valid() {
      (nodeSize == 32 || nodeSize == 64) && (short ==> nodeSize == 32)
    }
  }

  function Node(p: Primitives, t: Scheme, m: seq<byte>): (h: seq<byte>)
    requires t.Valid()
    ensures |h| == t.nodeSize
  {
    Digest(p, t.short, m)[..t.nodeSize]
  }

  /** The leaf of a nonce: its first `nodeSize` bytes behind the leaf label. */
  function Leaf(p: Primitives, t: Scheme, nonce: seq<byte>): (h: seq<byte>)
    requires t.Valid() && t.nodeSize <= |nonce|
    ensures |h| == t.nodeSize
  {
    Node(p, t, [LEAF_LABEL] + nonce[..t.nodeSize])
  }

  /** An inner node over its two children. */
  function Parent(p: Primitives, t: Scheme, left: seq<byte>, right: seq<byte>): (h: seq<byte>)
    requires t.Valid()
    ensures |h| == t.nodeSize
  {
    Node(p, t, [NODE_LABEL] + left + right)
  }

  function Pow2(i: nat): (r: nat)
    ensures r >= 1
  {
    if i == 0 then 1 else 2 * Pow2(i - 1)
  }

  /** Bit `i` of the index (`index & (1UL << i)`): set when the path node of
      level `i` is the left sibling. */
  predicate Bit(index: nat, i: nat) {
    if i == 0 then index % 2 == 1 else Bit(index / 2, i - 1)
  }

  /** The hash after folding the first `k` path nodes into `h`, level by level. */
  function Fold(p: Primitives, t: Scheme, h: seq<byte>, path: seq<byte>, index: nat, k: nat): (r: seq<byte>)
    requires t.Valid() && k * t.nodeSize <= |path|
    ensures k > 0 ==> |r| == t.nodeSize
  {
    if k == 0 then h
    else
      var g := Fold(p, t, h, path, index, k - 1);
      var c := path[(k - 1) * t.nodeSize..k * t.nodeSize];
      if Bit(index, k - 1) then Parent(p, t, c, g) else Parent(p, t, g, c)
  }

  /** How many path nodes the C clients fold: every whole node, at most 32. */
  function Depth(pathLen: nat, nodeSize: nat): (d: nat)
    requires nodeSize > 0
    ensures d <= MAX_PATH_NODES && d * nodeSize <= pathLen
    ensures d < MAX_PATH_NODES ==> pathLen < (d + 1) * nodeSize
  {
    if pathLen / nodeSize < MAX_PATH_NODES then pathLen / nodeSize else MAX_PATH_NODES
  }

  /** The root the C clients compute from the nonce, PATH and INDX. */
  function Root(p: Primitives, t: Scheme, nonce: seq<byte>, path: seq<byte>, index: nat): (r: seq<byte>)
    requires t.Valid() && t.nodeSize <= |nonce|
    ensures |r| == t.nodeSize
  {
    Fold(p, t, Leaf(p, t, nonce), path, index, Depth(|path|, t.nodeSize))
  }

  /** The outcome of `vrt_verify_nonce`: the ROOT of SREP is looked up, SREP
      may hold at most MAX_SREP_SIZE bytes, INDX must hold a word, ROOT must
      be one node, and it must equal the root rebuilt from the nonce. */
  function NonceStatus(p: Primitives, t: Scheme, srep: Blob.Blob, indx: Blob.Blob, path: Blob.Blob, nonce: seq<byte>): (s: Status)
    requires t.Valid() && t.nodeSize <= |nonce|
    ensures s == Success <==>
      && |srep| <= MAX_SREP_SIZE && 4 <= |indx|
      && Blob.TagLookup(srep, TAG_ROOT) == Ok(Root(p, t, nonce, path, Blob.R32(indx, 0).value))
    ensures s in {Success, TagNotFound, Malformed, WrongSize, Tree}
  {
    match Blob.TagLookup(srep, TAG_ROOT)
    case Err(c) =>
      Blob.LookupSound(srep, TAG_ROOT);
      c
    case Ok(root) =>
      if |srep| > MAX_SREP_SIZE then WrongSize
      else
        match Blob.R32(indx, 0)
        case Err(c) => c
        case Ok(index) =>
          if |root| != t.nodeSize then WrongSize
          else if root == Root(p, t, nonce, path, index) then Success
          else Tree
  }

  /** Whole path nodes fit a bound exactly when fewer of them than the
      depth have been folded. */
  lemma {:induction false} DepthStep(pathLen: nat, ns: nat, k: nat)
    requires (ns == 32 || ns == 64) && k <= MAX_PATH_NODES && k * ns <= pathLen
    ensures k <= Depth(pathLen, ns)
  {
    if ns == 32 {
      assert k * 32 <= pathLen;
    } else {
      assert k * 64 <= pathLen;
    }
  }

  lemma {:induction false} DepthStop(pathLen: nat, ns: nat, k: nat)
    requires (ns == 32 || ns == 64) && k <= Depth(pathLen, ns) && pathLen < (k + 1) * ns
    ensures k == Depth(pathLen, ns)
  {
    if ns == 32 {
      assert pathLen < (k + 1) * 32;
    } else {
      assert pathLen < (k + 1) * 64;
    }
  }

  /** One round of the loop of `vrt_verify_nonce`: the slice at word
      `offset` is path node `i`, the fold grows by it, and the next node
      starts `ns / 4` words further on. */
  lemma {:induction false} LoopStep(p: Primitives, t: Scheme, h: seq<byte>, path: seq<byte>, index: nat, i: nat, offset: nat,
                 g: seq<byte>, c: seq<byte>)
    requires t.Valid() && i < MAX_PATH_NODES && 4 * offset == i * t.nodeSize
    requires 4 * offset + t.nodeSize <= |path| && c == path[4 * offset..4 * offset + t.nodeSize]
    requires g == Fold(p, t, h, path, index, i)
    ensures (i + 1) * t.nodeSize <= |path| && 4 * (offset + t.nodeSize / 4) == (i + 1) * t.nodeSize
    ensures i + 1 <= Depth(|path|, t.nodeSize)
    ensures Fold(p, t, h, path, index, i + 1) == if Bit(index, i) then Parent(p, t, c, g) else Parent(p, t, g, c)
  {
    var ns := t.nodeSize;
    assert (i + 1) * ns == 4 * offset + ns;
    DepthStep(|path|, ns, i + 1);
  }

  /** `vrt_hash_node`: the parent of `left` and `right` into the hash buffer. */
  method HashNode(p: Primitives, t: Scheme, hash: array<byte>, left: seq<byte>, right: seq<byte>)
    requires t.Valid() && hash.Length == 64
    modifies hash
    ensures hash[..t.nodeSize] == Parent(p, t, left, right)
  {
    Write(hash, 0, Digest(p, t.short, [NODE_LABEL] + left + right));
    assert hash[..t.nodeSize] == Digest(p, t.short, [NODE_LABEL] + left + right)[..t.nodeSize];
  }

  /** The loop of `vrt_verify_nonce`: each whole path node found is hashed
      into the buffer, on the side INDX says, until the path runs out or 32
      levels are done. */
  method FoldPath(p: Primitives, t: Scheme, hash: array<byte>, path: Blob.Blob, index: u32)
    requires t.Valid() && hash.Length == 64
    modifies hash
    ensures hash[..t.nodeSize] == Fold(p, t, old(hash[..t.nodeSize]), path, index, Depth(|path|, t.nodeSize))
  {
    ghost var h := hash[..t.nodeSize];
    var ns := t.nodeSize;
    var offset: u32 := 0;
    var i: nat := 0;
    while i < MAX_PATH_NODES
      invariant i <= Depth(|path|, ns) && 4 * offset == i * ns
      invariant hash[..ns] == Fold(p, t, h, path, index, i)
    {
      var chunk := Blob.Slice(path, offset, ns);
      if chunk.Err? {
        DepthStop(|path|, ns, i);
        break;
      }
      ghost var g := hash[..ns];
      if Bit(index, i) {
        HashNode(p, t, hash, chunk.value, hash[..ns]);
      } else {
        HashNode(p, t, hash, hash[..ns], chunk.value);
      }
      LoopStep(p, t, h, path, index, i, offset, g, chunk.value);
      offset := offset + ns / 4;
      i := i + 1;
    }
  }

  /** `vrt_verify_nonce`: ROOT from SREP, the SREP size, the leaf hash of
      the nonce, INDX, the fold of PATH, then the comparison. */
  method VerifyNonce(p: Primitives, t: Scheme, srep: Blob.Blob, indx: Blob.Blob, path: Blob.Blob, nonce: seq<byte>)
    returns (status: Status)
    requires t.Valid() && t.nodeSize <= |nonce|
    ensures status == NonceStatus(p, t, srep, indx, path, nonce)
  {
    var root := Blob.GetTag(srep, TAG_ROOT);
    if root.Err? {
      return root.code;
    }
    var hash := new byte[64](_ => 0);
    if |srep| > MAX_SREP_SIZE {
      return WrongSize;
    }
    var ns := t.nodeSize;
    Write(hash, 0, Digest(p, t.short, [LEAF_LABEL] + nonce[..ns]));
    assert hash[..ns] == Leaf(p, t, nonce);
    var ir := Blob.R32(indx, 0);
    if ir.Err? {
      return ir.code;
    }
    FoldPath(p, t, hash, path, ir.value);
    if |root.value| != ns {
      return WrongSize;
    }
    status := if root.value == hash[..ns] then Success else Tree;
  }

  /** The folded hash depends only on the first `k` path nodes and the low
      `k` INDX bits: whatever PATH holds past 32 nodes, a trailing partial
      node, and INDX bits above the depth are ignored. */
  lemma {:induction false} FoldAgree(p: Primitives, t: Scheme, h: seq<byte>, path1: seq<byte>, path2: seq<byte>,
                                     index1: nat, index2: nat, k: nat)
    requires t.Valid() && k * t.nodeSize <= |path1| && k * t.nodeSize <= |path2|
    requires path1[..k * t.nodeSize] == path2[..k * t.nodeSize]
    requires forall j :: 0 <= j < k ==> (Bit(index1, j) <==> Bit(index2, j))
    ensures Fold(p, t, h, path1, index1, k) == Fold(p, t, h, path2, index2, k)
  {
    if k > 0 {
      var ns := t.nodeSize;
      assert (k - 1) * ns + ns == k * ns;
      assert path1[..(k - 1) * ns] == path1[..k * ns][..(k - 1) * ns];
      assert path2[..(k - 1) * ns] == path2[..k * ns][..(k - 1) * ns];
      FoldAgree(p, t, h, path1, path2, index1, index2, k - 1);
      assert path1[(k - 1) * ns..k * ns] == path1[..k * ns][(k - 1) * ns..k * ns];
      assert path2[(k - 1) * ns..k * ns] == path2[..k * ns][(k - 1) * ns..k * ns];
    }
  }

  /** Removing the top bit of an index below 2^(d+1) leaves the lower bits alone. */
  lemma {:induction false} BitsBelow(i: nat, d: nat, j: nat)
    requires Pow2(d) <= i && j < d
    ensures Bit(i, j) <==> Bit(i - Pow2(d), j)
  {
    if j > 0 {
      assert (i - Pow2(d)) / 2 == i / 2 - Pow2(d - 1);
      BitsBelow(i / 2, d - 1, j - 1);
    }
  }

  /** The top bit of an index below 2^(d+1) says which half it lies in. */
  lemma {:induction false} TopBit(i: nat, d: nat)
    requires i < 2 * Pow2(d)
    ensures Bit(i, d) <==> Pow2(d) <= i
  {
    if d > 0 {
      TopBit(i / 2, d - 1);
    }
  }

  /** Every node of a list has node size. */
  predicate Nodes(leaves: seq<seq<byte>>, ns: nat) {
    forall j :: 0 <= j < |leaves| ==> |leaves[j]| == ns
  }

  /** The root of a complete tree over 2^d leaves, as a server builds it. */
  function TreeRoot(p: Primitives, t: Scheme, leaves: seq<seq<byte>>, d: nat): (r: seq<byte>)
    requires t.Valid() && |leaves| == Pow2(d) && Nodes(leaves, t.nodeSize)
    ensures |r| == t.nodeSize
  {
    if d == 0 then leaves[0]
    else
      var h := Pow2(d - 1);
      Parent(p, t, TreeRoot(p, t, leaves[..h], d - 1), TreeRoot(p, t, leaves[h..], d - 1))
  }

  /** The PATH a server sends for leaf `i`: the sibling of each node on the
      way up, lowest first. */
  function AuditPath(p: Primitives, t: Scheme, leaves: seq<seq<byte>>, d: nat, i: nat): (path: seq<byte>)
    requires t.Valid() && |leaves| == Pow2(d) && Nodes(leaves, t.nodeSize) && i < Pow2(d)
    ensures |path| == d * t.nodeSize
  {
    if d == 0 then []
    else
      var h := Pow2(d - 1);
      if i < h then AuditPath(p, t, leaves[..h], d - 1, i) + TreeRoot(p, t, leaves[h..], d - 1)
      else AuditPath(p, t, leaves[h..], d - 1, i - h) + TreeRoot(p, t, leaves[..h], d - 1)
  }

  /** Folding a path that ends in `sib`: the last level hashes `sib` with
      the fold of the rest. */
  lemma {:induction false} FoldLast(p: Primitives, t: Scheme, h: seq<byte>, sub: seq<byte>, sib: seq<byte>, index: nat, k: nat)
    requires t.Valid() && |sub| == k * t.nodeSize && |sib| == t.nodeSize
    ensures (k + 1) * t.nodeSize == |sub + sib|
    ensures var g := Fold(p, t, h, sub, index, k);
      Fold(p, t, h, sub + sib, index, k + 1) == if Bit(index, k) then Parent(p, t, sib, g) else Parent(p, t, g, sib)
  {
    var ns := t.nodeSize;
    assert (sub + sib)[..k * ns] == sub[..k * ns];
    FoldAgree(p, t, h, sub + sib, sub, index, index, k);
    assert (sub + sib)[k * ns..(k + 1) * ns] == sib;
  }

  /** Completeness of the nonce binding: folding the audit path of leaf `i`
      with INDX = i rebuilds the root of the tree. */
  lemma {:induction false} AuditPathFolds(p: Primitives, t: Scheme, leaves: seq<seq<byte>>, d: nat, i: nat)
    requires t.Valid() && |leaves| == Pow2(d) && Nodes(leaves, t.nodeSize) && i < Pow2(d)
    ensures Fold(p, t, leaves[i], AuditPath(p, t, leaves, d, i), i, d) == TreeRoot(p, t, leaves, d)
  {
    if d > 0 {
      var k := d - 1;
      var h := Pow2(k);
      var left, right := leaves[..h], leaves[h..];
      TopBit(i, k);
      if i < h {
        var sub, sib := AuditPath(p, t, left, k, i), TreeRoot(p, t, right, k);
        assert AuditPath(p, t, leaves, d, i) == sub + sib;
        AuditPathFolds(p, t, left, k, i);
        assert left[i] == leaves[i];
        FoldLast(p, t, leaves[i], sub, sib, i, k);
        assert Fold(p, t, leaves[i], sub + sib, i, d) == Parent(p, t, TreeRoot(p, t, left, k), sib);
      } else {
        var sub, sib := AuditPath(p, t, right, k, i - h), TreeRoot(p, t, left, k);
        assert AuditPath(p, t, leaves, d, i) == sub + sib;
        forall j | 0 <= j < k
          ensures Bit(i, j) <==> Bit(i - h, j)
        {
          BitsBelow(i, k, j);
        }
        FoldAgree(p, t, leaves[i], sub, sub, i, i - h, k);
        AuditPathFolds(p, t, right, k, i - h);
        assert right[i - h] == leaves[i];
        FoldLast(p, t, leaves[i], sub, sib, i, k);
        assert Fold(p, t, leaves[i], sub + sib, i, d) == Parent(p, t, sib, TreeRoot(p, t, right, k));
      }
    }
  }

  /** An honest server's reply is accepted: when INDX holds leaf position
      `i`, PATH its audit path in a tree of depth at most 32, and the leaf is
      that of the nonce, the root the client rebuilds is the tree's root. */
  lemma {:induction false} RootOfAuditPath(p: Primitives, t: Scheme, leaves: seq<seq<byte>>, d: nat, i: nat, nonce: seq<byte>)
    requires t.Valid() && t.nodeSize <= |nonce| && d <= MAX_PATH_NODES
    requires |leaves| == Pow2(d) && Nodes(leaves, t.nodeSize) && i < Pow2(d)
    requires leaves[i] == Leaf(p, t, nonce)
    ensures Root(p, t, nonce, AuditPath(p, t, leaves, d, i), i) == TreeRoot(p, t, leaves, d)
  {
    var path := AuditPath(p, t, leaves, d, i);
    DepthStep(|path|, t.nodeSize, d);
    DepthStop(|path|, t.nodeSize, d);
    AuditPathFolds(p, t, leaves, d, i);
  }
}
