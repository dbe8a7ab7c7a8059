/** The library primitives the cookie code calls but does not implement: the
    AES-128 block cipher, PBKDF2-HMAC-SHA1, AES-128-GCM opening and
    `String::from_utf8_lossy`. They are carried as function values so that
    every operation of the model is stated for all possible primitives; the
    few facts the proofs rely on are collected in `Valid`. */
module Crypto {
  import opened Wrappers
  import opened Utf8

  /** One AES block, and an AES-128 key, are 16 bytes. */
  type Block = b: bytes | |b| == 16 witness seq(16, _ => 0)
  type Key = Block

  datatype Primitives = Primitives(
    /** The AES-128 forward block transformation. */
    encryptBlock: (Key, Block) -> Block,
    /** The AES-128 inverse block transformation. */
    decryptBlock: (Key, Block) -> Block,
    /** PBKDF2 with HMAC-SHA1 (section 5.2 of RFC 8018): password, salt,
        iteration count; always asked for a 16-byte derived key here. */
    pbkdf2: (bytes, bytes, nat) -> Key,
    /** AES-128-GCM authenticated decryption: key, 12-byte nonce, ciphertext
        with its 16-byte tag; `None` when authentication fails. */
    gcmOpen: (Key, bytes, bytes) -> Option<bytes>,
    /** `String::from_utf8_lossy`. */
    lossy: bytes -> string)

  /** What the proofs assume of the primitives: the block cipher is a
      permutation whose inverse is `decryptBlock`, lossy decoding gives back
      the text of any well-formed UTF-8 encoding, and it yields the empty
      string exactly for empty input (every invalid byte becomes U+FFFD). */
  ghost predicate Valid(p: Primitives) {
    && (forall k: Key, b: Block :: p.decryptBlock(k, p.encryptBlock(k, b)) == b)
    && (forall k: Key, b: Block :: p.encryptBlock(k, p.decryptBlock(k, b)) == b)
    && (forall s: string :: p.lossy(Encode(s)) == s)
    && (forall b: bytes :: |p.lossy(b)| == 0 <==> |b| == 0)
  }
}
