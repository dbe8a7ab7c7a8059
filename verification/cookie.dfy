/** The Chrome cookie decryptors of `crates/chrome_cookie/src/lib.rs`: envelope
    classification by version tag, key derivation parameters, CBC decryption,
    the master-key blob slicing, and the per-row logic of the batch readers.
    Keychain, file, JSON, base64 and SQLite access are outside the model:
    their results arrive as parameters. */
module ChromeCookie {
  import opened Wrappers
  import opened Utf8
  import opened Crypto
  import opened Cbc
  import Strings

  /** `ChromeCookieError`; the wrapped library errors carry no detail here. */
  datatype CookieError =
    | CommandFailed(message: string)
    | DecryptionFailed(message: string)
    | Utf8Error
    | IoError
    | AesGcmError
    | SqliteError
    | UnsupportedPlatform
    | JsonErr(message: string)

  /** The build target that `#[cfg(target_os)]` selects between. */
  datatype Platform = MacOS | Linux | OtherPlatform

  // The byte-string literals of the source, byte by byte (`AsciiConstants` spells them out).
  /** `b"saltysalt"`. */
  const Salt: bytes := [0x73, 0x61, 0x6c, 0x74, 0x79, 0x73, 0x61, 0x6c, 0x74]
  /** `b"v10"`. */
  const V10: bytes := [0x76, 0x31, 0x30]
  /** `b"v11"`. */
  const V11: bytes := [0x76, 0x31, 0x31]
  /** `b"DPAPI"`. */
  const Dpapi: bytes := [0x44, 0x50, 0x41, 0x50, 0x49]
  /** Sixteen ASCII spaces, the fixed CBC initialisation vector. */
  const Iv: Block := [0x20, 0x20, 0x20, 0x20, 0x20, 0x20, 0x20, 0x20, 0x20, 0x20, 0x20, 0x20, 0x20, 0x20, 0x20, 0x20]
  const LegacyIterations: nat := 1003
  const LinuxIterations: nat := 1

  /** The byte constants spell the source's ASCII literals. */
  lemma AsciiConstants()
    ensures V10 == Ascii("v10") && V11 == Ascii("v11") && Dpapi == Ascii("DPAPI")
    ensures Salt == Ascii("saltysalt") && Iv == Ascii("                ")
  {
    AsciiTags();
    AsciiSalt();
    AsciiIv();
  }

  lemma AsciiTags()
    ensures V10 == Ascii("v10") && V11 == Ascii("v11") && Dpapi == Ascii("DPAPI")
  {
  }

  lemma AsciiSalt()
    ensures Salt == Ascii("saltysalt")
  {
  }

  lemma AsciiIv()
    ensures Iv == Ascii("                ")
  {
  }

  /** The message both CBC decryptors report when `decrypt_vec` fails. */
  const CbcFailure: CookieError := DecryptionFailed("AES-CBC decrypt failed")
  /** The message `get_master_key` reports when GCM authentication fails. */
  const GcmFailure: CookieError := DecryptionFailed("AES-GCM decryption error")

  /** An envelope carries the three-byte version tag `tag` and at least one
      byte after it. */
  predicate HasTag(ev: bytes, tag: bytes)
    requires |tag| == 3
  {
    |ev| > 3 && ev[..3] == tag
  }

  /** The legacy macOS key: PBKDF2(password, "saltysalt", 1003), 16 bytes. */
  function LegacyKey(p: Primitives, password: string): Key {
    p.pbkdf2(Encode(password), Salt, LegacyIterations)
  }

  /** `derive_linux_key`: PBKDF2(password, "saltysalt", 1), 16 bytes. */
  function DeriveLinuxKey(p: Primitives, password: string): Key {
    p.pbkdf2(Encode(password), Salt, LinuxIterations)
  }

  /** The legacy macOS key is PBKDF2 over the UTF-8 bytes of the password
      with the salt "saltysalt" and 1003 iterations. */
  lemma LegacyKeyDerivation(p: Primitives, password: string)
    ensures LegacyKey(p, password) == p.pbkdf2(Encode(password), Ascii("saltysalt"), 1003)
  {
    AsciiSalt();
  }

  /** The Linux key takes the same salt and a single iteration. */
  lemma LinuxKeyDerivation(p: Primitives, password: string)
    ensures DeriveLinuxKey(p, password) == p.pbkdf2(Encode(password), Ascii("saltysalt"), 1)
  {
    AsciiSalt();
  }

  /** The characters Linux decryption strips from the end of a value. */
  predicate IsCookiePad(c: char) {
    c == '\0' || c == '`'
  }

  /** `decrypt_chrome_cookie_macos_legacy`. */
  function DecryptMacosLegacy(p: Primitives, ev: bytes, password: string): (r: Result<Option<string>, CookieError>)
    ensures !HasTag(ev, V10) ==> r == Ok(None)
    ensures HasTag(ev, V10) ==>
      match DecryptCbcPkcs7(p, LegacyKey(p, password), Iv, ev[3..])
      case Err(_) => r == Err(CbcFailure)
      case Ok(plain) => r == (if |p.lossy(plain)| == 0 then Ok(None) else Ok(Some(p.lossy(plain))))
    ensures r.Err? ==> r.error == CbcFailure
    ensures r.Ok? && r.value.Some? ==> HasTag(ev, V10) && |r.value.value| > 0
  {
    if !HasTag(ev, V10) then Ok(None)
    else
      var key := LegacyKey(p, password);
      match DecryptCbcPkcs7(p, key, Iv, ev[3..])
      case Err(_) => Err(CbcFailure)
      case Ok(decrypted) =>
        var cookie := p.lossy(decrypted);
        if |cookie| == 0 then Ok(None) else Ok(Some(cookie))
  }

  /** `decrypt_chrome_cookie_linux`. */
  function DecryptLinux(p: Primitives, ev: bytes, password: string): (r: Result<Option<string>, CookieError>)
    ensures !HasTag(ev, V10) && !HasTag(ev, V11) ==> r == Ok(None)
    ensures HasTag(ev, V10) || HasTag(ev, V11) ==>
      match DecryptCbcPkcs7(p, DeriveLinuxKey(p, password), Iv, ev[3..])
      case Err(_) => r == Err(CbcFailure)
      case Ok(plain) =>
        var cleaned := Strings.TrimEndWhere(p.lossy(plain), IsCookiePad);
        r == (if |cleaned| == 0 then Ok(None) else Ok(Some(cleaned)))
    ensures r.Err? ==> r.error == CbcFailure
    ensures r.Ok? && r.value.Some? ==>
      && (HasTag(ev, V10) || HasTag(ev, V11))
      && |r.value.value| > 0
      && !IsCookiePad(r.value.value[|r.value.value| - 1])
  {
    var key := DeriveLinuxKey(p, password);
    if |ev| <= 3 then Ok(None)
    else if ev[..3] != V10 && ev[..3] != V11 then Ok(None)
    else
      match DecryptCbcPkcs7(p, key, Iv, ev[3..])
      case Err(_) => Err(CbcFailure)
      case Ok(decrypted) =>
        var cleaned := Strings.TrimEndWhere(p.lossy(decrypted), IsCookiePad);
        if |cleaned| == 0 then Ok(None) else Ok(Some(cleaned))
  }

  /** `decrypt_chrome_cookie`: the legacy path on macOS, the Linux path on
      Linux, and no other platform. */
  function DecryptChromeCookie(platform: Platform, p: Primitives, ev: bytes, password: string): (r: Result<Option<string>, CookieError>)
    ensures platform == MacOS ==> r == DecryptMacosLegacy(p, ev, password)
    ensures platform == Linux ==> r == DecryptLinux(p, ev, password)
    ensures platform == OtherPlatform ==> r == Err(UnsupportedPlatform)
  {
    match platform
    case MacOS => DecryptMacosLegacy(p, ev, password)
    case Linux => DecryptLinux(p, ev, password)
    case OtherPlatform => Err(UnsupportedPlatform)
  }

  /** `get_cookie_value` after its query: `row` is the first matching
      `encrypted_value`, if any; the legacy decryptor is used on every platform. */
  function GetCookieValue(p: Primitives, row: Option<bytes>, password: string): (r: Result<Option<string>, CookieError>)
    ensures row.None? ==> r == Ok(None)
    ensures row.Some? ==> r == DecryptMacosLegacy(p, row.value, password)
  {
    match row
    case None => Ok(None)
    case Some(ev) => DecryptMacosLegacy(p, ev, password)
  }

  // ----- get_master_key -----

  predicate StartsWithDpapi(blob: bytes) {
    |blob| >= 5 && blob[..5] == Dpapi
  }

  /** The key blob with a leading `DPAPI` marker removed, when there is one. */
  function StripDpapi(blob: bytes): (r: bytes)
    ensures StartsWithDpapi(blob) ==> r == blob[5..]
    ensures !StartsWithDpapi(blob) ==> r == blob
  {
    if StartsWithDpapi(blob) then blob[5..] else blob
  }

  /** The GCM opening `get_master_key` performs on a blob: nonce = bytes
      [3, 15) and ciphertext-with-tag = bytes [15, ..) of the stripped blob,
      under the legacy key. */
  function OpenMasterBlob(p: Primitives, password: string, blob: bytes): Option<bytes>
    requires |StripDpapi(blob)| >= 15
  {
    var b := StripDpapi(blob);
    p.gcmOpen(LegacyKey(p, password), b[3..15], b[15..])
  }

  /** What `get_master_key` needs not to panic: the stripped blob reaches the
      end of the nonce, and an authenticated plaintext has 16 bytes to copy. */
  predicate MasterBlobSliceable(p: Primitives, password: string, blob: bytes) {
    && |StripDpapi(blob)| >= 15
    && (OpenMasterBlob(p, password, blob).Some? ==> |OpenMasterBlob(p, password, blob).value| >= 16)
  }

  /** `get_master_key` after it has the password and the base64-decoded
      `os_crypt.encrypted_key` blob. */
  function GetMasterKey(p: Primitives, password: string, blob: bytes): (r: Result<Key, CookieError>)
    requires MasterBlobSliceable(p, password, blob)
    ensures r.Ok? <==> OpenMasterBlob(p, password, blob).Some?
    ensures r.Ok? ==> r.value == OpenMasterBlob(p, password, blob).value[..16]
    ensures r.Err? ==> r.error == GcmFailure
  {
    var b := StripDpapi(blob);
    var key := LegacyKey(p, password);
    var nonce := b[3..15];
    var ciphertext := b[15..];
    match p.gcmOpen(key, nonce, ciphertext)
    case None => Err(GcmFailure)
    case Some(plain) => Ok(plain[..16])
  }

  /** A `DPAPI` marker in front of an unmarked blob changes nothing. */
  lemma MasterKeyIgnoresDpapiMarker(p: Primitives, password: string, blob: bytes)
    requires !StartsWithDpapi(blob)
    requires MasterBlobSliceable(p, password, blob)
    ensures MasterBlobSliceable(p, password, Dpapi + blob)
    ensures GetMasterKey(p, password, Dpapi + blob) == GetMasterKey(p, password, blob)
  {
    StripMarked(blob);
  }

  /** The three bytes after the marker (the key's version tag) are never read. */
  lemma MasterKeyIgnoresVersionBytes(p: Primitives, password: string, t1: bytes, t2: bytes, rest: bytes)
    requires |t1| == 3 && |t2| == 3 && |rest| >= 12
    requires MasterBlobSliceable(p, password, Dpapi + t1 + rest)
    ensures MasterBlobSliceable(p, password, Dpapi + t2 + rest)
    ensures GetMasterKey(p, password, Dpapi + t2 + rest) == GetMasterKey(p, password, Dpapi + t1 + rest)
  {
    BytesAssoc(Dpapi, t1, rest);
    BytesAssoc(Dpapi, t2, rest);
    StripMarked(t1 + rest);
    StripMarked(t2 + rest);
    VersionSlices(t1, rest);
    VersionSlices(t2, rest);
    MasterKeyFromSlices(p, password, Dpapi + t1 + rest, Dpapi + t2 + rest);
  }

  lemma BytesAssoc(a: bytes, b: bytes, c: bytes)
    ensures a + b + c == a + (b + c)
  {
  }

  lemma VersionSlices(t: bytes, rest: bytes)
    requires |t| == 3 && |rest| >= 12
    ensures |t + rest| >= 15 && (t + rest)[3..15] == rest[..12] && (t + rest)[15..] == rest[12..]
  {
  }

  /** Only the nonce and ciphertext slices of the stripped blob matter. */
  lemma MasterKeyFromSlices(p: Primitives, password: string, blob1: bytes, blob2: bytes)
    requires MasterBlobSliceable(p, password, blob1) && |StripDpapi(blob2)| >= 15
    requires StripDpapi(blob1)[3..15] == StripDpapi(blob2)[3..15]
    requires StripDpapi(blob1)[15..] == StripDpapi(blob2)[15..]
    ensures MasterBlobSliceable(p, password, blob2)
    ensures GetMasterKey(p, password, blob2) == GetMasterKey(p, password, blob1)
  {
    assert OpenMasterBlob(p, password, blob2) == OpenMasterBlob(p, password, blob1);
  }

  lemma StripMarked(b: bytes)
    ensures StripDpapi(Dpapi + b) == b
  {
    assert (Dpapi + b)[..5] == Dpapi;
    assert (Dpapi + b)[5..] == b;
  }

  // ----- get_cookies / get_cookies_for_host -----

  /** One query result row: `name` and `encrypted_value`. */
  type Row = (string, bytes)
  type Decryptor = bytes -> Result<Option<string>, CookieError>

  /** The value a batch reader computes for one blob: decrypt blobs longer
      than three bytes and propagate a failure with `?`; fall back to the
      lossily decoded raw blob when it is too short or decrypts to nothing. */
  function RowValue(decrypt: Decryptor, lossy: bytes -> string, blob: bytes): (r: Result<string, CookieError>)
    ensures r.Err? <==> |blob| > 3 && decrypt(blob).Err?
    ensures r.Err? ==> r.error == decrypt(blob).error
    ensures r.Ok? && (|blob| <= 3 || decrypt(blob) == Ok(None)) ==> r.value == lossy(blob)
    ensures |blob| > 3 && decrypt(blob).Ok? && decrypt(blob).value.Some? ==> r == Ok(decrypt(blob).value.value)
  {
    if |blob| > 3 then
      match decrypt(blob)
      case Err(e) => Err(e)
      case Ok(Some(v)) => Ok(v)
      case Ok(None) => Ok(lossy(blob))
    else
      Ok(lossy(blob))
  }

  /** The outcome of a batch over `rows`: every row's `(name, value)` in row
      order, or the error of the first row whose decryption fails. */
  ghost predicate BatchOutcome(decrypt: Decryptor, lossy: bytes -> string, rows: seq<Row>,
                               r: Result<seq<(string, string)>, CookieError>) {
    && (r.Ok? <==> forall i | 0 <= i < |rows| :: RowValue(decrypt, lossy, rows[i].1).Ok?)
    && (r.Ok? ==> |r.value| == |rows|
                  && forall i | 0 <= i < |rows| ::
                       r.value[i] == (rows[i].0, RowValue(decrypt, lossy, rows[i].1).value))
    && (r.Err? ==> exists i | 0 <= i < |rows| ::
                     && (forall j | 0 <= j < i :: RowValue(decrypt, lossy, rows[j].1).Ok?)
                     && RowValue(decrypt, lossy, rows[i].1).Err?
                     && r.error == RowValue(decrypt, lossy, rows[i].1).error)
  }

  /** The row loop shared by `get_cookies` and `get_cookies_for_host`. */
  method ReadRows(decrypt: Decryptor, lossy: bytes -> string, rows: seq<Row>)
    returns (r: Result<seq<(string, string)>, CookieError>)
    ensures BatchOutcome(decrypt, lossy, rows, r)
  {
    var result: seq<(string, string)> := [];
    var i := 0;
    while i < |rows|
      invariant 0 <= i <= |rows|
      invariant |result| == i
      invariant forall j | 0 <= j < i :: RowValue(decrypt, lossy, rows[j].1).Ok?
      invariant forall j | 0 <= j < i :: result[j] == (rows[j].0, RowValue(decrypt, lossy, rows[j].1).value)
    {
      var (name, blob) := rows[i];
      var val := RowValue(decrypt, lossy, blob);
      if val.Err? {
        return Err(val.error);
      }
      result := result + [(name, val.value)];
      i := i + 1;
    }
    return Ok(result);
  }

  /** `get_cookies` after its query: the platform decryptor on every row. */
  method GetCookies(platform: Platform, p: Primitives, rows: seq<Row>, password: string)
    returns (r: Result<seq<(string, string)>, CookieError>)
    ensures BatchOutcome(blob => DecryptChromeCookie(platform, p, blob, password), p.lossy, rows, r)
  {
    r := ReadRows(blob => DecryptChromeCookie(platform, p, blob, password), p.lossy, rows);
  }

  /** `get_cookies_for_host` after its query: the legacy decryptor on every
      platform. */
  method GetCookiesForHost(p: Primitives, rows: seq<Row>, password: string)
    returns (r: Result<seq<(string, string)>, CookieError>)
    ensures BatchOutcome(blob => DecryptMacosLegacy(p, blob, password), p.lossy, rows, r)
  {
    r := ReadRows(blob => DecryptMacosLegacy(p, blob, password), p.lossy, rows);
  }
}
