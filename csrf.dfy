/**
 * The CSRF token helpers: `csrf_exists` and `csrf_get` look the token up in
 * the request's cookies (passed in rather than read from `$_COOKIE`), and
 * `csrf_create` encrypts 16 random bytes, hex-encoded.
 */
module CsrfToken {
  import opened Wrappers
  import opened CipherCodec

  /** The cookie the token travels in. */
  const CsrfCookie := "xsrf-token"

  /** `csrf_exists()`: whether the request carries a token cookie; exactly when `csrf_get()` reads one. */
  function CsrfExists(cookies: map<string, string>): (exists_: bool)
    ensures exists_ <==> CsrfGet(cookies).Some?
  {
    CsrfCookie in cookies
  }

  /** `csrf_get()`: the token cookie, or `null` when there is none. */
  function CsrfGet(cookies: map<string, string>): (token: Option<string>)
    ensures token.Some? ==> CsrfCookie in cookies && token.value == cookies[CsrfCookie]
    ensures token.None? ==> CsrfCookie !in cookies
  {
    if CsrfCookie in cookies then Some(cookies[CsrfCookie]) else None
  }

  /** Once the cookie holds `token`, the request has a token and it is `token`; other cookies do not matter. */
  lemma CsrfGetAfterSet(cookies: map<string, string>, token: string, other: string, value: string)
    requires other != CsrfCookie
    ensures CsrfExists(cookies[CsrfCookie := token]) && CsrfGet(cookies[CsrfCookie := token]) == Some(token)
    ensures CsrfGet(cookies[other := value]) == CsrfGet(cookies)
  {
  }

  /** With no cookies at all there is no token. */
  lemma NoCookiesNoToken()
    ensures !CsrfExists(map[]) && CsrfGet(map[]) == None
  {
  }

  /**
   * `csrf_create($key)`, with the 16 random bytes and the 24-byte nonce
   * passed in: the encryption of their 32-digit hex encoding.
   */
  function CsrfCreate(p: Primitives, key: Bytes, random: Bytes, nonce: Bytes): (r: Result<string, SodiumError>)
    requires |random| == 16 && |nonce| == NonceBytes
    ensures r.Err? <==> |key| != KeyBytes
  {
    Encrypt(p, GenerateRandom(16, random).value, key, nonce)
  }

  /**
   * A created token decrypts under the same key to 32 lower-case hex digits,
   * which decode back to the random bytes it was made from.
   */
  lemma CsrfCreateDecrypts(p: Primitives, key: Bytes, random: Bytes, nonce: Bytes)
    requires Sound(p) && |key| == KeyBytes
    requires |random| == 16 && |nonce| == NonceBytes
    ensures var plain := Decrypt(p, CsrfCreate(p, key, random, nonce).value, key);
            && plain.Ok?
            && |plain.value| == 32
            && (forall i :: 0 <= i < 32 ==> IsHexDigit(plain.value[i]))
            && Hex2Bin(plain.value) == Some(random)
  {
    DecryptEncrypt(p, GenerateRandom(16, random).value, key, nonce);
  }
}
