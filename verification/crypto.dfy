/** The cryptographic primitives the clients call and this model does not
    contain (tweetnacl's `crypto_sign_open`, `crypto_hash_sha512` and
    `crypto_hash_sha512256`): they are parameters, so every property proved
    holds whatever functions they are. */
module Crypto {
  import opened Bytes

  type Digest512 = s: seq<byte> | |s| == 64 witness seq(64, _ => 0)
  type Digest256 = s: seq<byte> | |s| == 32 witness seq(32, _ => 0)

  /** `signOpen(sm, pk)` is `crypto_sign_open` returning 0: `sm` is an
      Ed25519 signature followed by the message it signs under `pk`. */
  datatype Primitives = Primitives(
    signOpen: (seq<byte>, seq<byte>) -> bool,
    sha512: seq<byte> -> Digest512,
    sha512256: seq<byte> -> Digest256)

  /** SHA-512/256 when `short`, SHA-512 otherwise. */
  function Digest(p: Primitives, short: bool, m: seq<byte>): (d: seq<byte>)
    ensures |d| == if short then 32 else 64
  {
    if short then p.sha512256(m) else p.sha512(m)
  }

  /** `sig` opens under `key` as a signature on `msg` (NaCl's signed-message form). */
  predicate Opens(p: Primitives, sig: seq<byte>, msg: seq<byte>, key: seq<byte>) {
    p.signOpen(sig + msg, key)
  }
}
