/** Cipher block chaining (section 6.2 of NIST SP 800-38A) over the abstract
    AES-128 block cipher, and the `Cbc<Aes128, Pkcs7>` operations built on it:
    `encrypt_aes128_cbc_pkcs7` and the `decrypt_vec` the decryptors call. */
module Cbc {
  import opened Wrappers
  import opened Utf8
  import opened Crypto
  import Pkcs7

  datatype BlockModeError = BlockModeError

  /** Byte-wise exclusive or of two blocks. */
  function Xor(a: Block, b: Block): (r: Block)
    ensures forall i | 0 <= i < 16 :: r[i] == a[i] ^ b[i]
  {
    seq(16, i requires 0 <= i < 16 => a[i] ^ b[i])
  }

  lemma XorCancel(a: Block, b: Block)
    ensures Xor(Xor(a, b), b) == a
  {
    assert forall i | 0 <= i < 16 :: Xor(Xor(a, b), b)[i] == a[i];
  }

  /** CBC encryption of whole blocks: C_i = E(k, P_i xor C_{i-1}), C_0 = iv. */
  function EncryptBlocks(e: (Key, Block) -> Block, k: Key, iv: Block, data: bytes): (r: bytes)
    requires |data| % 16 == 0
    ensures |r| == |data|
    decreases |data|
  {
    if |data| == 0 then []
    else
      var c := e(k, Xor(data[..16], iv));
      c + EncryptBlocks(e, k, c, data[16..])
  }

  /** CBC decryption of whole blocks: P_i = D(k, C_i) xor C_{i-1}, C_0 = iv. */
  function DecryptBlocks(d: (Key, Block) -> Block, k: Key, iv: Block, data: bytes): (r: bytes)
    requires |data| % 16 == 0
    ensures |r| == |data|
    decreases |data|
  {
    if |data| == 0 then []
    else
      var c: Block := data[..16];
      Xor(d(k, c), iv) + DecryptBlocks(d, k, c, data[16..])
  }

  /** Block-level CBC decryption inverts CBC encryption under the same key and IV. */
  lemma {:induction false} DecryptEncryptBlocks(p: Primitives, k: Key, iv: Block, data: bytes)
    requires Valid(p)
    requires |data| % 16 == 0
    ensures DecryptBlocks(p.decryptBlock, k, iv, EncryptBlocks(p.encryptBlock, k, iv, data)) == data
    decreases |data|
  {
    if |data| > 0 {
      var c := p.encryptBlock(k, Xor(data[..16], iv));
      var rest := EncryptBlocks(p.encryptBlock, k, c, data[16..]);
      var ct: bytes := c + rest;
      assert ct[..16] == c && ct[16..] == rest;
      XorCancel(data[..16], iv);
      DecryptEncryptBlocks(p, k, c, data[16..]);
      assert data == data[..16] + data[16..];
    }
  }

  /** Block-level CBC encryption inverts CBC decryption under the same key and IV. */
  lemma {:induction false} EncryptDecryptBlocks(p: Primitives, k: Key, iv: Block, data: bytes)
    requires Valid(p)
    requires |data| % 16 == 0
    ensures EncryptBlocks(p.encryptBlock, k, iv, DecryptBlocks(p.decryptBlock, k, iv, data)) == data
    decreases |data|
  {
    if |data| > 0 {
      var c: Block := data[..16];
      var x := Xor(p.decryptBlock(k, c), iv);
      var rest := DecryptBlocks(p.decryptBlock, k, c, data[16..]);
      var pt: bytes := x + rest;
      assert pt[..16] == x && pt[16..] == rest;
      XorCancel(p.decryptBlock(k, c), iv);
      EncryptDecryptBlocks(p, k, c, data[16..]);
      assert data == data[..16] + data[16..];
    }
  }

  /** `encrypt_aes128_cbc_pkcs7(key, iv, plaintext)`: pad, then chain. */
  function EncryptCbcPkcs7(p: Primitives, key: Key, iv: Block, plaintext: bytes): (r: bytes)
    ensures |r| == 16 * (|plaintext| / 16 + 1)
  {
    EncryptBlocks(p.encryptBlock, key, iv, Pkcs7.Pad(plaintext))
  }

  /** `Cbc::<Aes128, Pkcs7>::decrypt_vec`: rejects input that is not a whole
      number of blocks, chains, then removes the padding. */
  function DecryptCbcPkcs7(p: Primitives, key: Key, iv: Block, data: bytes): (r: Result<bytes, BlockModeError>)
    ensures r.Ok? ==> |data| > 0 && |data| % 16 == 0
    ensures r.Ok? ==> |data| - 16 <= |r.value| < |data|
  {
    if |data| % 16 != 0 then Err(BlockModeError)
    else
      match Pkcs7.Unpad(DecryptBlocks(p.decryptBlock, key, iv, data))
      case Ok(m) => Ok(m)
      case Err(_) => Err(BlockModeError)
  }

  /** Decrypting an encryption gives back the plaintext, for every plaintext
      including the empty one. */
  lemma DecryptEncrypt(p: Primitives, key: Key, iv: Block, plaintext: bytes)
    requires Valid(p)
    ensures DecryptCbcPkcs7(p, key, iv, EncryptCbcPkcs7(p, key, iv, plaintext)) == Ok(plaintext)
  {
    var padded := Pkcs7.Pad(plaintext);
    DecryptEncryptBlocks(p, key, iv, padded);
    Pkcs7.UnpadPad(plaintext);
  }

  /** A ciphertext that decrypts is the encryption of what it decrypts to:
      nothing else decrypts to the same plaintext under the same key and IV. */
  lemma EncryptDecrypt(p: Primitives, key: Key, iv: Block, data: bytes)
    requires Valid(p)
    requires DecryptCbcPkcs7(p, key, iv, data).Ok?
    ensures EncryptCbcPkcs7(p, key, iv, DecryptCbcPkcs7(p, key, iv, data).value) == data
  {
    var blocks := DecryptBlocks(p.decryptBlock, key, iv, data);
    Pkcs7.PadUnpad(blocks);
    EncryptDecryptBlocks(p, key, iv, data);
  }
}
