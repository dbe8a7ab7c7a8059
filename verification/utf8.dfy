/** Bytes and the UTF-8 encoding of Rust `&str` values (`str::as_bytes`). */
module Utf8 {

  type byte = bv8
  type bytes = seq<byte>

  /** The byte holding `n`, counted up from zero so that the solver never
      has to invert a bit-vector conversion. */
  function ByteOf(n: nat): (b: byte)
    requires n < 0x100
    ensures b as int == n
    decreases n
  {
    if n == 0 then 0 else ByteOf(n - 1) + 1
  }

  /** True when every character is 7-bit ASCII. */
  predicate IsAscii(s: string) {
    forall i | 0 <= i < |s| :: s[i] as int < 0x80
  }

  /** A byte-string literal such as `b"v10"`: one byte per ASCII character. */
  function Ascii(s: string): (r: bytes)
    requires IsAscii(s)
    ensures |r| == |s|
    ensures forall i | 0 <= i < |s| :: r[i] as int == s[i] as int
  {
    seq(|s|, i requires 0 <= i < |s| => ByteOf(s[i] as int))
  }

  /** The UTF-8 encoding of one Unicode scalar value (section 3 of RFC 3629). */
  function EncodeChar(c: char): (r: bytes)
    ensures 1 <= |r| <= 4
    ensures |r| == 1 <==> c as int < 0x80
    ensures |r| == 1 ==> r[0] as int == c as int
  {
    var cp := c as int;
    if cp < 0x80 then [ByteOf(cp)]
    else if cp < 0x800 then Encode2(cp)
    else if cp < 0x1_0000 then Encode3(cp)
    else Encode4(cp)
  }

  function Encode2(cp: int): (r: bytes)
    requires 0x80 <= cp < 0x800
    ensures |r| == 2
  {
    [Lead(0xC0, cp / 0x40, 0x20), Tail(cp)]
  }

  function Encode3(cp: int): (r: bytes)
    requires 0x800 <= cp < 0x1_0000
    ensures |r| == 3
  {
    [Lead(0xE0, cp / 0x1000, 0x10), Tail(cp / 0x40), Tail(cp)]
  }

  function Encode4(cp: int): (r: bytes)
    requires 0x1_0000 <= cp < 0x11_0000
    ensures |r| == 4
  {
    [Lead(0xF0, cp / 0x4_0000, 0x08), Tail(cp / 0x1000), Tail(cp / 0x40), Tail(cp)]
  }

  /** A leading byte: marker bits `mark` followed by the top bits `v < room`. */
  function Lead(mark: int, v: int, room: int): (b: byte)
    requires 0xC0 <= mark && 0 <= v < room && mark + room <= 0x100
    ensures b as int >= 0xC0
  {
    ByteOf(mark + v)
  }

  /** A continuation byte `10xxxxxx` holding the low six bits of `v`. */
  function Tail(v: int): byte
    requires v >= 0
  {
    ByteOf(0x80 + v % 0x40)
  }

  /** `s.as_bytes()`: the UTF-8 encoding of a whole string. */
  function Encode(s: string): (r: bytes)
    ensures |s| <= |r| <= 4 * |s|
  {
    if s == [] then [] else EncodeChar(s[0]) + Encode(s[1..])
  }

  /** Encoding distributes over concatenation. */
  lemma {:induction false} EncodeAppend(s: string, t: string)
    ensures Encode(s + t) == Encode(s) + Encode(t)
  {
    if s == [] {
      assert s + t == t;
    } else {
      assert (s + t)[1..] == s[1..] + t;
      EncodeAppend(s[1..], t);
    }
  }

  /** On ASCII text the encoding is the byte-string literal. */
  lemma {:induction false} EncodeAscii(s: string)
    requires IsAscii(s)
    ensures Encode(s) == Ascii(s)
  {
    if s != [] {
      EncodeAscii(s[1..]);
      assert Ascii(s) == Ascii(s[..1]) + Ascii(s[1..]);
    }
  }
}
