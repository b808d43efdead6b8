/**
 * Ciphertext framing of `encrypt`/`decrypt` and the hex encoding of
 * `generate_random`. libsodium's secretbox and PHP's base64 are not modelled
 * bit for bit: they are supplied as a record of functions, and what the
 * framing relies on (sealing adds a 16-byte tag, open undoes seal, decode
 * undoes encode) is the predicate `Sound`, required by the lemmas that need it.
 */
module CipherCodec {
  import opened Wrappers

  newtype byte = x: int | 0 <= x < 256

  /** A PHP binary string. */
  type Bytes = seq<byte>

  /** `SODIUM_CRYPTO_SECRETBOX_NONCEBYTES`. */
  const NonceBytes: nat := 24

  /** `SODIUM_CRYPTO_SECRETBOX_KEYBYTES`. */
  const KeyBytes: nat := 32

  /** `SODIUM_CRYPTO_SECRETBOX_MACBYTES`: the authentication tag a sealed message carries. */
  const MacBytes: nat := 16

  /**
   * The foreign primitives: `sodium_crypto_secretbox` (`seal`),
   * `sodium_crypto_secretbox_open` (`open`, `None` for PHP's `false`),
   * `base64_encode` and the non-strict `base64_decode`.
   */
  datatype Primitives = Primitives(
    seal: (Bytes, Bytes, Bytes) -> Bytes,
    open: (Bytes, Bytes, Bytes) -> Option<Bytes>,
    encode64: Bytes -> string,
    decode64: string -> Bytes)

  /**
   * What the framing needs of the primitives: sealing adds a tag of
   * `MacBytes` and opening undoes it on well-sized inputs; decoding undoes
   * encoding.
   */
  ghost predicate Sound(p: Primitives)
  {
    && (forall m, n, k | |n| == NonceBytes && |k| == KeyBytes :: |p.seal(m, n, k)| == |m| + MacBytes)
    && (forall m, n, k | |n| == NonceBytes && |k| == KeyBytes :: p.open(p.seal(m, n, k), n, k) == Some(m))
    && (forall b :: p.decode64(p.encode64(b)) == b)
  }

  /** The exceptions libsodium's PHP binding throws for badly sized arguments. */
  datatype SodiumError = NonceSize | KeySize

  /**
   * `encrypt($string, $key)` with the 24 bytes `random_bytes` produced passed
   * in as `nonce`: base64 of the nonce followed by the sealed message.
   */
  function Encrypt(p: Primitives, message: Bytes, key: Bytes, nonce: Bytes): (r: Result<string, SodiumError>)
    requires |nonce| == NonceBytes
    ensures r.Err? <==> |key| != KeyBytes
    ensures r.Err? ==> r.error == KeySize
  {
    if |key| != KeyBytes then Err(KeySize)
    else Ok(p.encode64(nonce + p.seal(message, nonce, key)))
  }

  /** `mb_substr($decoded, 0, 24, '8bit')`: at most the first 24 bytes. */
  function NoncePart(decoded: Bytes): Bytes
  {
    if |decoded| < NonceBytes then decoded else decoded[..NonceBytes]
  }

  /** `mb_substr($decoded, 24, null, '8bit')`: what follows byte 24, empty when there is none. */
  function CiphertextPart(decoded: Bytes): Bytes
  {
    if |decoded| < NonceBytes then [] else decoded[NonceBytes..]
  }

  /** The two parts put back together are the decoded bytes. */
  lemma SplitFraming(decoded: Bytes)
    ensures NoncePart(decoded) + CiphertextPart(decoded) == decoded
    ensures |NoncePart(decoded)| == NonceBytes <==> |decoded| >= NonceBytes
  {
  }

  /**
   * `decrypt($encoded, $key)`: base64-decode, split at byte 24, open. A
   * failed open returns `false`, which the `string` return type turns into
   * the empty string.
   */
  function Decrypt(p: Primitives, encoded: string, key: Bytes): (r: Result<Bytes, SodiumError>)
    ensures r == Err(NonceSize) <==> |p.decode64(encoded)| < NonceBytes
    ensures r == Err(KeySize) <==> |p.decode64(encoded)| >= NonceBytes && |key| != KeyBytes
    ensures r.Ok? ==>
              (match p.open(CiphertextPart(p.decode64(encoded)), NoncePart(p.decode64(encoded)), key)
               case None => r.value == []
               case Some(m) => r.value == m)
  {
    var decoded := p.decode64(encoded);
    var nonce, ciphertext := NoncePart(decoded), CiphertextPart(decoded);
    if |nonce| != NonceBytes then Err(NonceSize)
    else if |key| != KeyBytes then Err(KeySize)
    else match p.open(ciphertext, nonce, key)
      case None => Ok([])
      case Some(m) => Ok(m)
  }

  /** The decoded ciphertext starts with the nonce, followed by the sealed message with its tag. */
  lemma EncryptFraming(p: Primitives, message: Bytes, key: Bytes, nonce: Bytes)
    requires Sound(p) && |nonce| == NonceBytes && |key| == KeyBytes
    ensures var decoded := p.decode64(Encrypt(p, message, key, nonce).value);
            && |decoded| == NonceBytes + MacBytes + |message|
            && NoncePart(decoded) == nonce
            && CiphertextPart(decoded) == p.seal(message, nonce, key)
  {
    var sealed := nonce + p.seal(message, nonce, key);
    assert p.decode64(p.encode64(sealed)) == sealed;
    assert sealed[..NonceBytes] == nonce;
    assert sealed[NonceBytes..] == p.seal(message, nonce, key);
  }

  /** `decrypt(encrypt($m, $k), $k) === $m` for a well-sized key, whatever the nonce. */
  lemma DecryptEncrypt(p: Primitives, message: Bytes, key: Bytes, nonce: Bytes)
    requires Sound(p) && |nonce| == NonceBytes && |key| == KeyBytes
    ensures Decrypt(p, Encrypt(p, message, key, nonce).value, key) == Ok(message)
  {
    EncryptFraming(p, message, key, nonce);
  }

  /**
   * A ciphertext that does not authenticate decrypts to the same value as an
   * encryption of the empty message: the caller cannot tell them apart.
   */
  lemma DecryptFailureLooksEmpty(p: Primitives, encoded: string, key: Bytes, nonce: Bytes)
    requires Sound(p) && |nonce| == NonceBytes && |key| == KeyBytes
    requires |p.decode64(encoded)| >= NonceBytes
    requires p.open(CiphertextPart(p.decode64(encoded)), NoncePart(p.decode64(encoded)), key).None?
    ensures Decrypt(p, encoded, key) == Ok([])
    ensures Decrypt(p, encoded, key) == Decrypt(p, Encrypt(p, [], key, nonce).value, key)
  {
    DecryptEncrypt(p, [], key, nonce);
  }

  // ------------------------------------------------------------------- hex

  /** The ASCII code of the lower-case hex digit for `v`. */
  function HexDigit(v: int): (d: byte)
    requires 0 <= v < 16
    ensures IsHexDigit(d)
  {
    if v < 10 then (48 + v) as byte else (87 + v) as byte
  }

  /** `0-9` or `a-f`, as ASCII codes. */
  predicate IsHexDigit(d: byte)
  {
    48 <= d <= 57 || 97 <= d <= 102
  }

  /** The value of a hex digit, `None` for any other byte (upper case accepted, as `hex2bin` does). */
  function DigitValue(d: byte): (v: Option<int>)
    ensures v.Some? ==> 0 <= v.value < 16
  {
    if 48 <= d <= 57 then Some(d as int - 48)
    else if 97 <= d <= 102 then Some(d as int - 87)
    else if 65 <= d <= 70 then Some(d as int - 55)
    else None
  }

  lemma DigitValueOfHexDigit(v: int)
    requires 0 <= v < 16
    ensures DigitValue(HexDigit(v)) == Some(v)
  {
  }

  /** `bin2hex($b)`: two lower-case hex digits per byte, high nibble first. */
  function Bin2Hex(b: Bytes): (h: Bytes)
    ensures |h| == 2 * |b|
    ensures forall i :: 0 <= i < |h| ==> IsHexDigit(h[i])
    decreases |b|
  {
    if b == [] then []
    else [HexDigit(b[0] as int / 16), HexDigit(b[0] as int % 16)] + Bin2Hex(b[1..])
  }

  /** `hex2bin($h)`: `None` (PHP's `false`) for an odd length or a non-hex byte. */
  function Hex2Bin(h: Bytes): (r: Option<Bytes>)
    ensures r.Some? ==> 2 * |r.value| == |h|
    decreases |h|
  {
    if h == [] then Some([])
    else if |h| == 1 then None
    else match (DigitValue(h[0]), DigitValue(h[1]), Hex2Bin(h[2..]))
      case (Some(hi), Some(lo), Some(rest)) => Some([(16 * hi + lo) as byte] + rest)
      case _ => None
  }

  /** `hex2bin(bin2hex($b)) === $b`: the hex encoding loses nothing. */
  lemma {:induction false} Hex2BinBin2Hex(b: Bytes)
    ensures Hex2Bin(Bin2Hex(b)) == Some(b)
    decreases |b|
  {
    if b != [] {
      var h := Bin2Hex(b);
      var hi, lo := b[0] as int / 16, b[0] as int % 16;
      DigitValueOfHexDigit(hi);
      DigitValueOfHexDigit(lo);
      assert h[2..] == Bin2Hex(b[1..]);
      Hex2BinBin2Hex(b[1..]);
      assert (16 * hi + lo) as byte == b[0];
      assert [b[0]] + b[1..] == b;
    }
  }

  /** Why `generate_random` can fail: `openssl_random_pseudo_bytes` rejects a length below 1. */
  datatype RandomError = LengthNotPositive

  /**
   * `generate_random($length)` with the bytes `openssl_random_pseudo_bytes`
   * produced passed in as `random`: their hex encoding, twice as long.
   */
  function GenerateRandom(length: int, random: Bytes): (r: Result<Bytes, RandomError>)
    requires length > 0 ==> |random| == length
    ensures r.Err? <==> length <= 0
    ensures r.Ok? ==> |r.value| == 2 * length && forall i :: 0 <= i < |r.value| ==> IsHexDigit(r.value[i])
    ensures r.Ok? ==> Hex2Bin(r.value) == Some(random)
  {
    if length <= 0 then Err(LengthNotPositive)
    else
      Hex2BinBin2Hex(random);
      Ok(Bin2Hex(random))
  }
}
