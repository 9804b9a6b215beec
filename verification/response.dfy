/** Verification of a Roughtime response by the main C client
    (`vrt_parse_response` and the checks it chains): framing, tag
    extraction, the delegation signature, the nonce binding, the validity
    bounds of the delegation and the response signature. The first check
    that fails decides the return code. */
module Response {
  import opened Bytes
  import opened Wire
  import opened Crypto
  import Blob
  import Merkle

  /** The context signed with DELE: the draft-7 string from variant 7 on,
      the older one with two dashes before. */
  function DeleContext(variant: int): (c: seq<byte>)
    ensures |c| == if variant >= 7 then 34 else 36
  {
    Ascii(if variant >= 7 then CONTEXT_CERT else OLD_CONTEXT_CERT)
  }

  /** The context signed with SREP. */
  function RespContext(): (c: seq<byte>)
    ensures |c| == 32
  {
    Ascii(CONTEXT_RESP)
  }

  /** `vrt_verify_dele`: the certificate's SIG must be a signature and DELE
      must be 72 bytes; the long-term key must have signed context ‖ DELE. */
  function VerifyDele(p: Primitives, certSig: seq<byte>, dele: seq<byte>, pk: seq<byte>, context: seq<byte>): (s: Status)
    ensures s == Success <==>
      |certSig| == ED25519_SIG_SIZE && |dele| == CERT_DELE_SIZE && Opens(p, certSig, context + dele, pk)
    ensures s == WrongSize <==> |certSig| != ED25519_SIG_SIZE || |dele| != CERT_DELE_SIZE
    ensures s in {Success, WrongSize, DeleError}
  {
    if |certSig| != ED25519_SIG_SIZE then WrongSize
    else if |dele| != CERT_DELE_SIZE then WrongSize
    else
      assert certSig + context + dele == certSig + (context + dele);
      if p.signOpen(certSig + context + dele, pk) then Success else DeleError
  }

  /** `vrt_verify_pubk`: the response SIG must be a signature and SREP at
      most MAX_SREP_SIZE bytes; the delegated key must have signed the
      response context ‖ SREP. */
  function VerifyPubk(p: Primitives, sig: seq<byte>, srep: seq<byte>, pubk: seq<byte>): (s: Status)
    ensures s == Success <==>
      |sig| == ED25519_SIG_SIZE && |srep| <= MAX_SREP_SIZE && Opens(p, sig, RespContext() + srep, pubk)
    ensures s == WrongSize <==> |sig| != ED25519_SIG_SIZE || |srep| > MAX_SREP_SIZE
    ensures s in {Success, WrongSize, PubkError}
  {
    if |sig| != ED25519_SIG_SIZE then WrongSize
    else if |srep| > MAX_SREP_SIZE then WrongSize
    else
      assert sig + RespContext() + srep == sig + (RespContext() + srep);
      if p.signOpen(sig + RespContext() + srep, pubk) then Success else PubkError
  }

  /** A 64-bit value stored under `tag`. */
  function Read64(b: Blob.Blob, tag: u32): Result<u64> {
    match Blob.TagLookup(b, tag)
    case Err(c) => Err(c)
    case Ok(v) => Blob.R64(v, 0)
  }

  /** A 32-bit value stored under `tag`. */
  function Read32(b: Blob.Blob, tag: u32): Result<u32> {
    match Blob.TagLookup(b, tag)
    case Err(c) => Err(c)
    case Ok(v) => Blob.R32(v, 0)
  }

  /** A return code and what the midpoint and radius out-parameters hold
      afterwards (they start as `midp0` and `radi0`). */
  datatype Reply = Reply(status: Status, midp: u64, radi: u32)

  /** The four tags `vrt_verify_bounds` looks up before reading any of them. */
  function BoundTags(srep: Blob.Blob, dele: Blob.Blob): Result<(Blob.Blob, Blob.Blob, Blob.Blob, Blob.Blob)> {
    var midp :- Blob.TagLookup(srep, TAG_MIDP);
    var radi :- Blob.TagLookup(srep, TAG_RADI);
    var mint :- Blob.TagLookup(dele, TAG_MINT);
    var maxt :- Blob.TagLookup(dele, TAG_MAXT);
    Ok((midp, radi, mint, maxt))
  }

  /** `vrt_verify_bounds`: MIDP and RADI from SREP, MINT and MAXT from DELE;
      the midpoint must lie strictly inside the delegation's validity. The
      out-parameters are written as they are read, and zeroed when the
      midpoint is out of bounds. */
  function VerifyBounds(srep: Blob.Blob, dele: Blob.Blob, midp0: u64, radi0: u32): (r: Reply)
    ensures r.status == Success ==>
      && Read64(srep, TAG_MIDP) == Ok(r.midp) && Read32(srep, TAG_RADI) == Ok(r.radi)
      && Read64(dele, TAG_MINT).Ok? && Read64(dele, TAG_MAXT).Ok?
      && Read64(dele, TAG_MINT).value < r.midp < Read64(dele, TAG_MAXT).value
    ensures (&& Read64(srep, TAG_MIDP).Ok? && Read32(srep, TAG_RADI).Ok?
             && Read64(dele, TAG_MINT).Ok? && Read64(dele, TAG_MAXT).Ok?) ==>
      (r.status == Success <==>
         Read64(dele, TAG_MINT).value < Read64(srep, TAG_MIDP).value < Read64(dele, TAG_MAXT).value)
    ensures r.status == BoundsError ==> r.midp == 0 && r.radi == 0
    ensures r.status in {Success, BoundsError, TagNotFound, Malformed}
  {
    Blob.LookupSound(srep, TAG_MIDP);
    Blob.LookupSound(srep, TAG_RADI);
    Blob.LookupSound(dele, TAG_MINT);
    Blob.LookupSound(dele, TAG_MAXT);
    match BoundTags(srep, dele)
    case Err(c) => Reply(c, midp0, radi0)
    case Ok((midp, radi, mint, maxt)) =>
      match Blob.R64(midp, 0)
      case Err(c) => Reply(c, midp0, radi0)
      case Ok(m) =>
        match Blob.R32(radi, 0)
        case Err(c) => Reply(c, m, radi0)
        case Ok(rd) =>
          match Blob.R64(mint, 0)
          case Err(c) => Reply(c, m, rd)
          case Ok(lo) =>
            match Blob.R64(maxt, 0)
            case Err(c) => Reply(c, m, rd)
            case Ok(hi) =>
              if lo < m && hi > m then Reply(Success, m, rd) else Reply(BoundsError, 0, 0)
  }

  const MJD_UNIX_EPOCH: nat := 40587
  const MICROS_PER_DAY: nat := 86_400_000_000
  const TWO40: nat := 0x100_0000_0000

  /** From draft 5 on, MIDP holds a Modified Julian Date in its top 24 bits
      and the microseconds of that day in its low 40; the client converts it
      to microseconds since 1970-01-01 in unsigned 64-bit arithmetic. */
  function MjdToUnixMicros(m: u64): (r: u64) {
    Wrap64(Wrap64(Wrap64(m / TWO40 - MJD_UNIX_EPOCH) * MICROS_PER_DAY) + m % TWO40)
  }

  /** The conversion is exact for every day from 1970 on whose result fits 64 bits. */
  lemma {:induction false} MjdConverts(day: nat, us: nat)
    requires MJD_UNIX_EPOCH <= day < 0x100_0000 && us < TWO40
    requires (day - MJD_UNIX_EPOCH) * MICROS_PER_DAY + us < TWO64
    ensures day * TWO40 + us < TWO64
    ensures MjdToUnixMicros(day * TWO40 + us) == (day - MJD_UNIX_EPOCH) * MICROS_PER_DAY + us
  {
    var m := day * TWO40 + us;
    assert m / TWO40 == day && m % TWO40 == us;
    assert (day - MJD_UNIX_EPOCH) * MICROS_PER_DAY < TWO64;
  }

  /** A day before 1970 wraps around: the day before the epoch converts to
      2^64 minus one day of microseconds. */
  lemma {:induction false} MjdBeforeEpochWraps()
    ensures MjdToUnixMicros((MJD_UNIX_EPOCH - 1) * TWO40) == TWO64 - MICROS_PER_DAY
  {
    var m := (MJD_UNIX_EPOCH - 1) * TWO40;
    assert m / TWO40 == MJD_UNIX_EPOCH - 1 && m % TWO40 == 0;
    assert Wrap64(m / TWO40 - MJD_UNIX_EPOCH) == TWO64 - 1;
    assert (TWO64 - 1) * MICROS_PER_DAY == (MICROS_PER_DAY - 1) * TWO64 + (TWO64 - MICROS_PER_DAY);
  }

  /** The draft-5 framing check: at least the 12-byte frame, the magic,
      and a declared length no larger than what follows (a shorter one is
      accepted, and all that follows is parsed). Earlier drafts have no frame. */
  function Unframe(reply: Blob.Blob, variant: int): (r: Result<Blob.Blob>)
    ensures variant < 5 ==> r == Ok(reply)
    ensures variant >= 5 ==>
      (r.Ok? <==> 12 <= |reply| && reply[..8] == MAGIC && U32(reply[8..12]) <= |reply| - 12)
    ensures variant >= 5 && r.Ok? ==> r.value == reply[12..]
    ensures r.Err? ==> (r.code == WrongSize <==> |reply| < 12) && r.code in {WrongSize, Malformed}
  {
    if variant >= 5 then
      if |reply| < 12 then Err(WrongSize)
      else if reply[..8] != MAGIC then Err(Malformed)
      else if |reply| - 12 < U32(reply[8..12]) then Err(Malformed)
      else Ok(reply[12..])
    else Ok(reply)
  }

  /** The tags `vrt_parse_response` extracts, in the order it looks them up:
      SREP, SIG and CERT from the message, SIG and DELE from CERT, PUBK from
      DELE, INDX and PATH from the message. */
  datatype Fields = Fields(srep: Blob.Blob, sig: Blob.Blob, cert: Blob.Blob, certSig: Blob.Blob,
                           dele: Blob.Blob, pubk: Blob.Blob, indx: Blob.Blob, path: Blob.Blob)

  function ExtractFields(body: Blob.Blob): (r: Result<Fields>)
    ensures r.Err? ==> r.code in {TagNotFound, Malformed}
  {
    Blob.LookupCodes();
    var parent :- Blob.Init(body);
    var srep :- Blob.TagLookup(parent, TAG_SREP);
    var sig :- Blob.TagLookup(parent, TAG_SIG);
    var cert :- Blob.TagLookup(parent, TAG_CERT);
    var certSig :- Blob.TagLookup(cert, TAG_SIG);
    var dele :- Blob.TagLookup(cert, TAG_DELE);
    var pubk :- Blob.TagLookup(dele, TAG_PUBK);
    var indx :- Blob.TagLookup(parent, TAG_INDX);
    var path :- Blob.TagLookup(parent, TAG_PATH);
    Ok(Fields(srep, sig, cert, certSig, dele, pubk, indx, path))
  }

  /** The Merkle tree of a variant: 32-byte nodes from draft 5 on, SHA-512/256 from draft 7 on. */
  function TreeScheme(variant: int): (t: Merkle.Scheme)
    ensures t.Valid() && t.nodeSize <= NONCE_SIZE
  {
    Merkle.Scheme(if variant >= 5 then NODESIZE_ALTERNATE else NODESIZE_MAX, variant >= 7)
  }

  /** The checks after extraction, in the order of the C client: PUBK
      size, delegation, nonce, bounds, response signature; then the MJD
      conversion from draft 5 on. */
  function Gates(p: Primitives, nonce: seq<byte>, f: Fields, pk: seq<byte>, midp0: u64, radi0: u32, variant: int): (r: Reply)
    requires NONCE_SIZE <= |nonce|
    ensures r.status == Success <==> Authentic(p, nonce, f, pk, variant)
    ensures Authentic(p, nonce, f, pk, variant) ==>
      r.midp == Midpoint(f, variant) && r.radi == Read32(f.srep, TAG_RADI).value
    ensures r.status == BoundsError ==> r.midp == 0 && r.radi == 0
    ensures r.status != NullArgument
  {
    if |f.pubk| != 32 then Reply(Malformed, midp0, radi0)
    else
      var d := VerifyDele(p, f.certSig, f.dele, pk, DeleContext(variant));
      if d != Success then Reply(d, midp0, radi0)
      else
        var n := Merkle.NonceStatus(p, TreeScheme(variant), f.srep, f.indx, f.path, nonce);
        if n != Success then Reply(n, midp0, radi0)
        else
          var b := VerifyBounds(f.srep, f.dele, midp0, radi0);
          if b.status != Success then b
          else
            var s := VerifyPubk(p, f.sig, f.srep, f.pubk);
            if s != Success then Reply(s, b.midp, b.radi)
            else Reply(Success, if variant >= 5 then MjdToUnixMicros(b.midp) else b.midp, b.radi)
  }

  /** `vrt_parse_response` on an unframed message. */
  function ParseBody(p: Primitives, nonce: seq<byte>, body: Blob.Blob, pk: seq<byte>, midp0: u64, radi0: u32, variant: int): (r: Reply)
    ensures r.status == Success <==>
      NONCE_SIZE <= |nonce| && ExtractFields(body).Ok? && Authentic(p, nonce, ExtractFields(body).value, pk, variant)
    ensures r.status == BoundsError ==> r.midp == 0 && r.radi == 0
    ensures r.status != NullArgument
  {
    if |nonce| < NONCE_SIZE then Reply(WrongSize, midp0, radi0)
    else
      match ExtractFields(body)
      case Err(c) => Reply(c, midp0, radi0)
      case Ok(f) => Gates(p, nonce, f, pk, midp0, radi0, variant)
  }

  /** Every check of `vrt_parse_response` holds for the extracted tags:
      PUBK is a key, the long-term key signed DELE, the nonce is a leaf of
      the tree whose root SREP carries, the midpoint lies strictly between
      MINT and MAXT, and the delegated key signed SREP. */
  predicate Authentic(p: Primitives, nonce: seq<byte>, f: Fields, pk: seq<byte>, variant: int)
    requires NONCE_SIZE <= |nonce|
  {
    && |f.pubk| == 32
    && |f.certSig| == ED25519_SIG_SIZE && |f.dele| == CERT_DELE_SIZE
    && Opens(p, f.certSig, DeleContext(variant) + f.dele, pk)
    && |f.srep| <= MAX_SREP_SIZE && 4 <= |f.indx|
    && Blob.TagLookup(f.srep, TAG_ROOT)
         == Ok(Merkle.Root(p, TreeScheme(variant), nonce, f.path, Blob.R32(f.indx, 0).value))
    && Read64(f.srep, TAG_MIDP).Ok? && Read32(f.srep, TAG_RADI).Ok?
    && Read64(f.dele, TAG_MINT).Ok? && Read64(f.dele, TAG_MAXT).Ok?
    && Read64(f.dele, TAG_MINT).value < Read64(f.srep, TAG_MIDP).value < Read64(f.dele, TAG_MAXT).value
    && |f.sig| == ED25519_SIG_SIZE && Opens(p, f.sig, RespContext() + f.srep, f.pubk)
  }

  /** The reply is framed, the nonce long enough, the tags present and authentic. */
  predicate Accepts(p: Primitives, nonce: seq<byte>, reply: Blob.Blob, pk: seq<byte>, variant: int) {
    && Unframe(reply, variant).Ok?
    && NONCE_SIZE <= |nonce|
    && ExtractFields(Unframe(reply, variant).value).Ok?
    && Authentic(p, nonce, ExtractFields(Unframe(reply, variant).value).value, pk, variant)
  }

  /** The time an accepted reply reports: MIDP, converted from MJD form from draft 5 on. */
  function Midpoint(f: Fields, variant: int): u64
    requires Read64(f.srep, TAG_MIDP).Ok?
  {
    var m := Read64(f.srep, TAG_MIDP).value;
    if variant >= 5 then MjdToUnixMicros(m) else m
  }

  /** `vrt_parse_response`: success exactly when every check holds, and then
      the out-parameters hold the reported midpoint and radius; a midpoint
      out of bounds zeroes them. */
  function ParseResponse(p: Primitives, nonce: seq<byte>, reply: Blob.Blob, pk: seq<byte>, midp0: u64, radi0: u32, variant: int): (r: Reply)
    ensures r.status == Success <==> Accepts(p, nonce, reply, pk, variant)
    ensures Accepts(p, nonce, reply, pk, variant) ==>
      var f := ExtractFields(Unframe(reply, variant).value).value;
      r.midp == Midpoint(f, variant) && r.radi == Read32(f.srep, TAG_RADI).value
    ensures r.status == BoundsError ==> r.midp == 0 && r.radi == 0
    ensures r.status != NullArgument
  {
    match Unframe(reply, variant)
    case Err(c) => Reply(c, midp0, radi0)
    case Ok(body) => ParseBody(p, nonce, body, pk, midp0, radi0, variant)
  }

  /** A reply signed by the long-term key's delegate but whose DELE the
      long-term key did not sign is refused as a bad delegation, whatever
      else is wrong with it, and the out-parameters are left alone. */
  lemma {:induction false} ForgedDelegationRefused(p: Primitives, nonce: seq<byte>, reply: Blob.Blob, pk: seq<byte>, midp0: u64, radi0: u32, variant: int)
    requires Unframe(reply, variant).Ok? && NONCE_SIZE <= |nonce|
    requires ExtractFields(Unframe(reply, variant).value).Ok?
    requires var f := ExtractFields(Unframe(reply, variant).value).value;
      |f.pubk| == 32 && |f.certSig| == ED25519_SIG_SIZE && |f.dele| == CERT_DELE_SIZE
      && !Opens(p, f.certSig, DeleContext(variant) + f.dele, pk)
    ensures ParseResponse(p, nonce, reply, pk, midp0, radi0, variant) == Reply(DeleError, midp0, radi0)
  {
  }

  /** A validly delegated reply whose ROOT is not the root rebuilt from the
      nonce sent (a reply to another request, or a replay) is refused as a
      tree mismatch before its timestamps are read. */
  lemma {:induction false} ForeignNonceRefused(p: Primitives, nonce: seq<byte>, reply: Blob.Blob, pk: seq<byte>, midp0: u64, radi0: u32, variant: int)
    requires Unframe(reply, variant).Ok? && NONCE_SIZE <= |nonce|
    requires ExtractFields(Unframe(reply, variant).value).Ok?
    requires var f := ExtractFields(Unframe(reply, variant).value).value;
      && |f.pubk| == 32 && |f.certSig| == ED25519_SIG_SIZE && |f.dele| == CERT_DELE_SIZE
      && Opens(p, f.certSig, DeleContext(variant) + f.dele, pk)
      && |f.srep| <= MAX_SREP_SIZE && 4 <= |f.indx|
      && Blob.TagLookup(f.srep, TAG_ROOT).Ok?
      && |Blob.TagLookup(f.srep, TAG_ROOT).value| == TreeScheme(variant).nodeSize
      && Blob.TagLookup(f.srep, TAG_ROOT).value
         != Merkle.Root(p, TreeScheme(variant), nonce, f.path, Blob.R32(f.indx, 0).value)
    ensures ParseResponse(p, nonce, reply, pk, midp0, radi0, variant) == Reply(Tree, midp0, radi0)
  {
  }

  /** Framing from draft 5 on: the frame is stripped and the whole rest is
      parsed whenever the declared length does not exceed it. */
  lemma {:induction false} FramedReply(p: Primitives, nonce: seq<byte>, body: seq<byte>, len: u32, pk: seq<byte>, midp0: u64, radi0: u32, variant: int)
    requires variant >= 5 && 12 + |body| < TWO32 && len <= |body|
    ensures ParseResponse(p, nonce, Frame(len) + body, pk, midp0, radi0, variant)
         == ParseBody(p, nonce, body, pk, midp0, radi0, variant)
  {
    var reply := Frame(len) + body;
    assert reply[..8] == MAGIC && reply[8..12] == Word(len) && reply[12..] == body;
  }

  /** A tag list, serialised, that the C client's lookups read back. */
  predicate WellFormed(tvs: seq<TagValue>) {
    Encodable(tvs) && Aligned(tvs) && Blob.DistinctKeys(tvs)
  }

  /** Serialising a response (a message holding SREP, SIG, CERT, INDX and
      PATH, CERT holding SIG and DELE, DELE holding PUBK) and extracting its
      tags gives back exactly those values. */
  lemma {:induction false} EncodedFieldsExtract(top: seq<TagValue>, certTags: seq<TagValue>, deleTags: seq<TagValue>, f: Fields)
    requires WellFormed(top) && WellFormed(certTags) && WellFormed(deleTags)
    requires f.cert == Encode(certTags) && f.dele == Encode(deleTags)
    requires TagValue(TAG_SREP, f.srep) in top && TagValue(TAG_SIG, f.sig) in top
    requires TagValue(TAG_CERT, f.cert) in top
    requires TagValue(TAG_INDX, f.indx) in top && TagValue(TAG_PATH, f.path) in top
    requires TagValue(TAG_SIG, f.certSig) in certTags && TagValue(TAG_DELE, f.dele) in certTags
    requires TagValue(TAG_PUBK, f.pubk) in deleTags
    ensures |Encode(top)| < TWO32 && ExtractFields(Encode(top)) == Ok(f)
  {
    Found(top, TAG_SREP, f.srep);
    Found(top, TAG_SIG, f.sig);
    Found(top, TAG_CERT, f.cert);
    Found(top, TAG_INDX, f.indx);
    Found(top, TAG_PATH, f.path);
    Found(certTags, TAG_SIG, f.certSig);
    Found(certTags, TAG_DELE, f.dele);
    Found(deleTags, TAG_PUBK, f.pubk);
  }

  lemma {:induction false} Found(tvs: seq<TagValue>, tag: u32, v: seq<byte>)
    requires WellFormed(tvs) && TagValue(tag, v) in tvs
    ensures |Encode(tvs)| < TWO32 && |Encode(tvs)| % 4 == 0
    ensures Blob.TagLookup(Encode(tvs), tag) == Ok(v)
  {
    var k :| 0 <= k < |tvs| && tvs[k] == TagValue(tag, v);
    Blob.LookupAt(tvs, k);
    Blob.AlignedValues(tvs);
    assert |Encode(tvs)| == 8 * |tvs| + |Values(tvs)|;
  }
}
