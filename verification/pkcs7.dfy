/** PKCS#7 padding for a 16-byte block cipher (section 6.3 of RFC 5652), as the
    `Pkcs7` padding of the `block_modes` crate applies and removes it. */
module Pkcs7 {
  import opened Wrappers
  import opened Utf8

  const BlockSize: nat := 16

  datatype UnpadError = UnpadError

  /** `k` copies of the byte `k`: the padding string of length `k`. */
  function Padding(k: nat): (r: bytes)
    requires 1 <= k <= BlockSize
    ensures |r| == k
    ensures forall i | 0 <= i < k :: r[i] as int == k
  {
    seq(k, _ => ByteOf(k))
  }

  /** Number of padding bytes added to a message of length `n`. */
  function PadLength(n: nat): (k: nat)
    ensures 1 <= k <= BlockSize
    ensures (n + k) % BlockSize == 0
  {
    BlockSize - n % BlockSize
  }

  /** Pads `p` up to the next multiple of the block size, always adding at
      least one byte, each equal to the number of bytes added. */
  function Pad(p: bytes): (r: bytes)
    ensures |r| == BlockSize * (|p| / BlockSize + 1)
    ensures r[..|p|] == p
    ensures 1 <= |r| - |p| <= BlockSize
    ensures forall i | |p| <= i < |r| :: r[i] as int == |r| - |p|
  {
    p + Padding(PadLength(|p|))
  }

  /** Removes PKCS#7 padding; fails on empty input, on a last byte of 0 or
      above the block size, and when the trailing bytes disagree with it. */
  function Unpad(d: bytes): (r: Result<bytes, UnpadError>)
    ensures r.Ok? ==> 1 <= |d| - |r.value| <= BlockSize
                      && d == r.value + Padding(|d| - |r.value|)
    ensures forall m: bytes, k: nat | 1 <= k <= BlockSize && d == m + Padding(k) :: r == Ok(m)
  {
    if |d| == 0 then Err(UnpadError)
    else
      var k := d[|d| - 1] as int;
      if k == 0 || k > BlockSize || k > |d| then Err(UnpadError)
      else if exists i | |d| - k <= i < |d| - 1 :: d[i] as int != k then Err(UnpadError)
      else
        var t := d[|d| - k..];
        assert forall i | 0 <= i < k :: t[i] == d[|d| - k + i];
        PaddingOf(t, k);
        assert d == d[..|d| - k] + t;
        Ok(d[..|d| - k])
  }

  /** A string of `k` bytes each equal to `k` is the padding of length `k`. */
  lemma PaddingOf(t: bytes, k: nat)
    requires 1 <= k <= BlockSize && |t| == k
    requires forall i | 0 <= i < k :: t[i] as int == k
    ensures t == Padding(k)
  {
    var pad := Padding(k);
    forall i | 0 <= i < k
      ensures t[i] == pad[i]
    {
      BytesAgree(t[i], pad[i]);
    }
  }

  lemma BytesAgree(x: byte, y: byte)
    requires x as int == y as int
    ensures x == y
  {
  }

  /** Unpadding undoes padding. */
  lemma UnpadPad(p: bytes)
    ensures Unpad(Pad(p)) == Ok(p)
  {
    assert Pad(p) == p + Padding(PadLength(|p|));
  }

  /** On whole blocks, padding undoes a successful unpadding: padded messages
      and block-aligned well-padded inputs correspond one to one. */
  lemma PadUnpad(d: bytes)
    requires |d| % BlockSize == 0
    requires Unpad(d).Ok?
    ensures Pad(Unpad(d).value) == d
  {
    var m := Unpad(d).value;
    var k := |d| - |m|;
    PadLengthOf(|m|, k);
    assert Pad(m) == m + Padding(k);
  }

  /** The only padding length that fills the last block is `PadLength`. */
  lemma PadLengthOf(n: nat, k: nat)
    requires 1 <= k <= BlockSize && (n + k) % BlockSize == 0
    ensures PadLength(n) == k
  {
  }
}
