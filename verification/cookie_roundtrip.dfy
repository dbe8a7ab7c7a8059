/** Round trips between the encryption helper of `encrypt.rs` and the
    decryptors of `lib.rs`, as the crate's tests exercise them, and the
    converse: every value a decryptor returns comes from such an envelope. */
module CookieRoundTrip {
  import opened Wrappers
  import opened Utf8
  import opened Crypto
  import opened Cbc
  import opened ChromeCookie
  import Strings

  /** An envelope as Chrome stores it: the version tag followed by the
      AES-128-CBC/PKCS#7 encryption of the plaintext under the all-space IV. */
  function Envelope(p: Primitives, tag: bytes, key: Key, plaintext: bytes): (ev: bytes)
    requires |tag| == 3
    ensures HasTag(ev, tag)
    ensures ev[3..] == EncryptCbcPkcs7(p, key, Iv, plaintext)
  {
    var ct := EncryptCbcPkcs7(p, key, Iv, plaintext);
    assert (tag + ct)[..3] == tag && (tag + ct)[3..] == ct;
    tag + ct
  }

  /** The legacy decryptor gives back any non-empty text sealed under the
      1003-iteration key with the `v10` tag. */
  lemma LegacyRoundTrip(p: Primitives, password: string, s: string)
    requires Valid(p)
    requires |s| > 0
    ensures DecryptMacosLegacy(p, Envelope(p, V10, LegacyKey(p, password), Encode(s)), password) == Ok(Some(s))
  {
    DecryptEncrypt(p, LegacyKey(p, password), Iv, Encode(s));
  }

  /** An envelope sealing the empty plaintext decrypts to no value, not an error. */
  lemma LegacyEmptyIsNone(p: Primitives, password: string)
    requires Valid(p)
    ensures DecryptMacosLegacy(p, Envelope(p, V10, LegacyKey(p, password), []), password) == Ok(None)
  {
    DecryptEncrypt(p, LegacyKey(p, password), Iv, []);
  }

  /** The legacy decryptor knows only `v10`: a `v11` envelope is passed over. */
  lemma LegacyPassesOverV11(p: Primitives, password: string, payload: bytes)
    ensures DecryptMacosLegacy(p, V11 + payload, password) == Ok(None)
  {
    assert V11[2] != V10[2];
    assert |V11 + payload| <= 3 || (V11 + payload)[..3] == V11;
  }

  /** The Linux decryptor gives back a non-empty text sealed under the
      one-iteration key with either tag, after dropping any trailing NUL and
      backtick characters that were sealed with it. */
  lemma LinuxRoundTrip(p: Primitives, password: string, tag: bytes, s: string, trailer: string)
    requires Valid(p)
    requires tag == V10 || tag == V11
    requires |s| > 0 && !IsCookiePad(s[|s| - 1])
    requires forall i | 0 <= i < |trailer| :: IsCookiePad(trailer[i])
    ensures DecryptLinux(p, Envelope(p, tag, DeriveLinuxKey(p, password), Encode(s + trailer)), password)
            == Ok(Some(s))
  {
    DecryptEncrypt(p, DeriveLinuxKey(p, password), Iv, Encode(s + trailer));
    Strings.TrimEndSuffix(s, trailer, IsCookiePad);
  }

  /** The two Linux tags are interchangeable. */
  lemma LinuxTagsAgree(p: Primitives, password: string, payload: bytes)
    ensures DecryptLinux(p, V10 + payload, password) == DecryptLinux(p, V11 + payload, password)
  {
    assert (V10 + payload)[3..] == payload == (V11 + payload)[3..];
    assert |V10 + payload| <= 3 || (V10 + payload)[..3] == V10;
    assert |V11 + payload| <= 3 || (V11 + payload)[..3] == V11;
  }

  /** The scenario of `test_decrypt_chrome_cookie_linux_v10`. */
  lemma LinuxTestScenario(p: Primitives)
    requires Valid(p)
    ensures DecryptLinux(p, Envelope(p, V10, DeriveLinuxKey(p, "peanuts"), Encode("test chrome cookie v10")), "peanuts")
            == Ok(Some("test chrome cookie v10"))
  {
    var s := "test chrome cookie v10";
    assert s + "" == s;
    LinuxRoundTrip(p, "peanuts", V10, s, "");
  }

  /** Every value the legacy decryptor returns is the lossy decoding of a
      plaintext that, sealed under the legacy key with `v10`, is the input. */
  lemma LegacyDecryptSound(p: Primitives, ev: bytes, password: string)
    requires Valid(p)
    requires DecryptMacosLegacy(p, ev, password).Ok? && DecryptMacosLegacy(p, ev, password).value.Some?
    ensures exists m: bytes ::
      && ev == Envelope(p, V10, LegacyKey(p, password), m)
      && DecryptMacosLegacy(p, ev, password).value.value == p.lossy(m)
  {
    var m := DecryptCbcPkcs7(p, LegacyKey(p, password), Iv, ev[3..]).value;
    EncryptDecrypt(p, LegacyKey(p, password), Iv, ev[3..]);
    assert ev == ev[..3] + ev[3..];
    assert ev == Envelope(p, V10, LegacyKey(p, password), m);
  }

  /** Every value the Linux decryptor returns is the trimmed lossy decoding of
      a plaintext that, sealed under the Linux key with one of the tags, is
      the input. */
  lemma LinuxDecryptSound(p: Primitives, ev: bytes, password: string)
    requires Valid(p)
    requires DecryptLinux(p, ev, password).Ok? && DecryptLinux(p, ev, password).value.Some?
    ensures exists tag: bytes, m: bytes ::
      && (tag == V10 || tag == V11)
      && ev == Envelope(p, tag, DeriveLinuxKey(p, password), m)
      && DecryptLinux(p, ev, password).value.value == Strings.TrimEndWhere(p.lossy(m), IsCookiePad)
  {
    var key := DeriveLinuxKey(p, password);
    var m := DecryptCbcPkcs7(p, key, Iv, ev[3..]).value;
    EncryptDecrypt(p, key, Iv, ev[3..]);
    var tag := ev[..3];
    assert ev == tag + ev[3..];
    assert ev == Envelope(p, tag, key, m);
  }

  /** Both decryptors read the password only through their derived key. */
  lemma DecryptorsUseOnlyTheKey(p: Primitives, ev: bytes, pw1: string, pw2: string)
    ensures LegacyKey(p, pw1) == LegacyKey(p, pw2) ==>
              DecryptMacosLegacy(p, ev, pw1) == DecryptMacosLegacy(p, ev, pw2)
    ensures DeriveLinuxKey(p, pw1) == DeriveLinuxKey(p, pw2) ==>
              DecryptLinux(p, ev, pw1) == DecryptLinux(p, ev, pw2)
  {
  }
}
