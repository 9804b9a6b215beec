/** The esp32 port of the C client (examples/esp32/roughtime/vrt.c). Its
    blob reader and tag lookup are the main client's; it differs in the
    query builder (a fixed 1036-byte extent from the start of the buffer),
    in the framing check (the declared length must match exactly), in the
    order of the response checks, in its hash (always SHA-512, truncated to
    the node size) and in leaving MIDP as the server sent it. Its variants
    are RT_PRE_IETF (0) and RT_IETF_DRAFT_05 (1). */
module Esp32 {
  import opened Bytes
  import opened Wire
  import opened Crypto
  import Blob
  import Merkle
  import Query
  import Response

  /** RT_MAX_PACKET_SIZE: the builder always fills this many bytes. */
  const MAX_PACKET_SIZE: nat := 12 + QUERY_LEN

  /** The layout of an esp32 variant is the main client's layout for draft
      5 (framed, VER NONC PAD) or for the original protocol (NONC PAD). */
  function Layout(variant: int): (v: int)
    ensures Query.Start(v) == (if variant >= 1 then 12 else 0)
  {
    if variant >= 1 then 5 else 0
  }

  /** The message `rt_query_make` lays out: PAD grows until the buffer's
      first MAX_PACKET_SIZE bytes are filled. */
  function QueryMessage(nonce: seq<byte>, variant: int): (m: seq<TagValue>)
    requires Query.NonceLen(Layout(variant)) <= |nonce|
    ensures Encodable(m) && Query.Start(Layout(variant)) + |Encode(m)| == MAX_PACKET_SIZE
  {
    var lv := Layout(variant);
    var tags := Query.QueryTags(nonce, lv);
    var k := MAX_PACKET_SIZE - Query.Start(lv) - 8 * Query.NumTags(lv) - |Values(tags)|;
    Query.PadLastValues(tags, k);
    Query.PadLast(tags, k)
  }

  /** `vrt_make_query` with `rt_query_make`: the nonce length and the
      buffer length are not checked (the caller must supply at least the
      nonce bytes read and MAX_PACKET_SIZE bytes of buffer) and the result
      is always success. */
  method MakeQuery(nonce: seq<byte>, out: array<byte>, variant: int) returns (status: Status)
    requires Query.NonceLen(Layout(variant)) <= |nonce| && MAX_PACKET_SIZE <= out.Length
    modifies out
    ensures status == Success
    ensures out[..MAX_PACKET_SIZE] == Query.Preamble(Layout(variant)) + Encode(QueryMessage(nonce, variant))
    ensures out[MAX_PACKET_SIZE..] == old(out[MAX_PACKET_SIZE..])
  {
    ghost var z := out[..];
    var lv := Layout(variant);
    var b := new Query.Builder.Init(out, MAX_PACKET_SIZE, Query.NumTags(lv), lv);
    var ok := Query.AddQueryTags(b, nonce, lv);
    b.Finish();
    assert b.maxSize - b.dataPos - b.offset
        == MAX_PACKET_SIZE - Query.Start(lv) - 8 * Query.NumTags(lv) - |Values(Query.QueryTags(nonce, lv))|;
    Query.Assembled(z, out[..], Query.Preamble(lv), Word(Query.NumTags(lv)), b.base, b.start, MAX_PACKET_SIZE,
                    Encode(QueryMessage(nonce, variant)));
    status := Success;
  }

  /** The draft-5 query of the esp32 port is byte for byte the main
      client's draft-5 query. */
  lemma {:induction false} FramedQueryMatchesMain(nonce: seq<byte>, variant: int)
    requires variant >= 1 && 32 <= |nonce|
    ensures QueryMessage(nonce, variant) == Query.QueryMessage(nonce, 5)
  {
  }

  /** The original-protocol query of the esp32 port is 1036 bytes, twelve
      more than the main client's, all of them extra padding. */
  lemma {:induction false} PlainQueryLonger(nonce: seq<byte>, variant: int)
    requires variant < 1 && NONCE_SIZE <= |nonce|
    ensures |Encode(QueryMessage(nonce, variant))| == QUERY_LEN + 12
    ensures Blob.TagLookup(Encode(QueryMessage(nonce, variant)), TAG_PAD) == Ok(Zeros(Query.PadLen(0) + 12))
    ensures Blob.TagLookup(Encode(QueryMessage(nonce, variant)), TAG_NONC) == Ok(nonce[..NONCE_SIZE])
  {
    var m := QueryMessage(nonce, variant);
    var tags := Query.QueryTags(nonce, 0);
    assert m == [TagValue(TAG_NONC, nonce[..NONCE_SIZE]), TagValue(TAG_PAD, [] + Zeros(Query.PadLen(0) + 12))];
    assert [] + Zeros(Query.PadLen(0) + 12) == Zeros(Query.PadLen(0) + 12);
    Query.IncreasingDistinct(tags);
    Blob.LookupAt(m, 0);
    Blob.LookupAt(m, 1);
  }

  /** The framing check of the esp32 port: the declared length must be
      exactly what follows the frame. */
  function Unframe(reply: Blob.Blob, variant: int): (r: Result<Blob.Blob>)
    ensures variant < 1 ==> r == Ok(reply)
    ensures variant >= 1 ==>
      (r.Ok? <==> 12 <= |reply| && reply[..8] == MAGIC && U32(reply[8..12]) == |reply| - 12)
    ensures variant >= 1 && r.Ok? ==> r.value == reply[12..]
    ensures r.Err? ==> (r.code == WrongSize <==> |reply| < 12) && r.code in {WrongSize, Malformed}
  {
    if variant >= 1 then
      if |reply| < 12 then Err(WrongSize)
      else if reply[..8] != MAGIC then Err(Malformed)
      else if |reply| - 12 != U32(reply[8..12]) then Err(Malformed)
      else Ok(reply[12..])
    else Ok(reply)
  }

  /** The Merkle tree of a variant: 32-byte nodes for draft 5, SHA-512 throughout. */
  function TreeScheme(variant: int): (t: Merkle.Scheme)
    ensures t.Valid() && t.nodeSize <= NONCE_SIZE && !t.short
  {
    Merkle.Scheme(if variant >= 1 then NODESIZE_ALTERNATE else NODESIZE_MAX, false)
  }

  /** Every check of the esp32 port holds for the extracted tags. */
  predicate Authentic(p: Primitives, nonce: seq<byte>, f: Response.Fields, pk: seq<byte>, variant: int)
    requires NONCE_SIZE <= |nonce|
  {
    && |f.certSig| == ED25519_SIG_SIZE && |f.dele| == CERT_DELE_SIZE
    && Opens(p, f.certSig, Ascii(OLD_CONTEXT_CERT) + f.dele, pk)
    && |f.pubk| == 32
    && |f.sig| == ED25519_SIG_SIZE && |f.srep| <= MAX_SREP_SIZE
    && Opens(p, f.sig, Response.RespContext() + f.srep, f.pubk)
    && 4 <= |f.indx|
    && Blob.TagLookup(f.srep, TAG_ROOT)
         == Ok(Merkle.Root(p, TreeScheme(variant), nonce, f.path, Blob.R32(f.indx, 0).value))
    && Response.Read64(f.srep, TAG_MIDP).Ok? && Response.Read32(f.srep, TAG_RADI).Ok?
    && Response.Read64(f.dele, TAG_MINT).Ok? && Response.Read64(f.dele, TAG_MAXT).Ok?
    && Response.Read64(f.dele, TAG_MINT).value < Response.Read64(f.srep, TAG_MIDP).value
         < Response.Read64(f.dele, TAG_MAXT).value
  }

  /** The checks after extraction in the esp32 order: delegation (always
      with the older context), PUBK size, response signature, nonce, bounds.
      MIDP is reported unconverted. */
  function Gates(p: Primitives, nonce: seq<byte>, f: Response.Fields, pk: seq<byte>, midp0: u64, radi0: u32, variant: int): (r: Response.Reply)
    requires NONCE_SIZE <= |nonce|
    ensures r.status == Success <==> Authentic(p, nonce, f, pk, variant)
    ensures Authentic(p, nonce, f, pk, variant) ==>
      r.midp == Response.Read64(f.srep, TAG_MIDP).value && r.radi == Response.Read32(f.srep, TAG_RADI).value
    ensures r.status == BoundsError ==> r.midp == 0 && r.radi == 0
    ensures r.status != NullArgument
  {
    var d := Response.VerifyDele(p, f.certSig, f.dele, pk, Ascii(OLD_CONTEXT_CERT));
    if d != Success then Response.Reply(d, midp0, radi0)
    else if |f.pubk| != 32 then Response.Reply(Malformed, midp0, radi0)
    else
      var s := Response.VerifyPubk(p, f.sig, f.srep, f.pubk);
      if s != Success then Response.Reply(s, midp0, radi0)
      else
        var n := Merkle.NonceStatus(p, TreeScheme(variant), f.srep, f.indx, f.path, nonce);
        if n != Success then Response.Reply(n, midp0, radi0)
        else Response.VerifyBounds(f.srep, f.dele, midp0, radi0)
  }

  /** The reply is framed, the nonce long enough, the tags present and authentic. */
  predicate Accepts(p: Primitives, nonce: seq<byte>, reply: Blob.Blob, pk: seq<byte>, variant: int) {
    && Unframe(reply, variant).Ok?
    && NONCE_SIZE <= |nonce|
    && Response.ExtractFields(Unframe(reply, variant).value).Ok?
    && Authentic(p, nonce, Response.ExtractFields(Unframe(reply, variant).value).value, pk, variant)
  }

  /** `vrt_parse_response` of the esp32 port. */
  function ParseResponse(p: Primitives, nonce: seq<byte>, reply: Blob.Blob, pk: seq<byte>, midp0: u64, radi0: u32, variant: int): (r: Response.Reply)
    ensures r.status == Success <==> Accepts(p, nonce, reply, pk, variant)
    ensures Accepts(p, nonce, reply, pk, variant) ==>
      var f := Response.ExtractFields(Unframe(reply, variant).value).value;
      r.midp == Response.Read64(f.srep, TAG_MIDP).value && r.radi == Response.Read32(f.srep, TAG_RADI).value
    ensures r.status == BoundsError ==> r.midp == 0 && r.radi == 0
    ensures r.status != NullArgument
  {
    match Unframe(reply, variant)
    case Err(c) => Response.Reply(c, midp0, radi0)
    case Ok(body) =>
      if |nonce| < NONCE_SIZE then Response.Reply(WrongSize, midp0, radi0)
      else
        match Response.ExtractFields(body)
        case Err(c) => Response.Reply(c, midp0, radi0)
        case Ok(f) => Gates(p, nonce, f, pk, midp0, radi0, variant)
  }

  /** The main client for draft 5 (or the original protocol) accepts every
      reply the esp32 port accepts, with the same radius; it reports the
      midpoint converted from MJD form where the port reports it raw. */
  lemma {:induction false} MainAcceptsWhatPortAccepts(p: Primitives, nonce: seq<byte>, reply: Blob.Blob, pk: seq<byte>, midp0: u64, radi0: u32, variant: int)
    requires ParseResponse(p, nonce, reply, pk, midp0, radi0, variant).status == Success
    ensures var main := Response.ParseResponse(p, nonce, reply, pk, midp0, radi0, Layout(variant));
      var port := ParseResponse(p, nonce, reply, pk, midp0, radi0, variant);
      && main.status == Success && main.radi == port.radi
      && main.midp == (if variant >= 1 then Response.MjdToUnixMicros(port.midp) else port.midp)
  {
    var f := Response.ExtractFields(Unframe(reply, variant).value).value;
    assert Response.TreeScheme(Layout(variant)) == TreeScheme(variant);
    assert Response.DeleContext(Layout(variant)) == Ascii(OLD_CONTEXT_CERT);
    assert Response.Unframe(reply, Layout(variant)) == Unframe(reply, variant);
    assert Response.Authentic(p, nonce, f, pk, Layout(variant));
  }

  /** Conversely, a framed reply whose declared length is shorter than what
      follows passes the main client's framing and fails the port's. */
  lemma {:induction false} ShortDeclaredLength()
    ensures var reply := Frame(0) + [0, 0, 0, 0];
      Response.Unframe(reply, 5) == Ok([0, 0, 0, 0]) && Unframe(reply, 1) == Err(Malformed)
  {
    var reply := Frame(0) + [0, 0, 0, 0];
    assert reply[..8] == MAGIC && reply[8..12] == Word(0) && reply[12..] == [0, 0, 0, 0];
  }
}
