/** Byte strings and the primitives the credential vault calls from Ruby's
    OpenSSL and Base64 libraries. Their internals are not modelled: each is a
    function value, and `Lawful` states the properties the vault relies on. */
module Crypto {
  import opened Wrappers

  newtype byte = b: int | 0 <= b < 256

  type Bytes = seq<byte>

  /** Key length of AES-128 (`Cipher#key_len`). */
  const KEY_LEN: nat := 16
  /** IV length and block length of AES-128-CBC. */
  const IV_LEN: nat := 16
  const BLOCK_LEN: nat := 16
  /** PBKDF2 iteration count, the class variable `@@iter`. */
  const ITERATIONS: nat := 20000
  /** Length of the salt drawn by `OpenSSL::Random.random_bytes 16`. */
  const SALT_LEN: nat := 16

  /** Ciphertext length of AES-CBC with PKCS#7 padding (section 6.3 of
      RFC 5652): one to sixteen bytes of padding up to a whole block. */
  function PaddedLength(n: nat): (r: nat)
    ensures r % BLOCK_LEN == 0 && n < r <= n + BLOCK_LEN
  {
    BLOCK_LEN * (n / BLOCK_LEN + 1)
  }

  /** The library calls: AES-128-CBC encryption and decryption
      (`update` + `final`; decryption yields None where `final` raises on bad
      padding or `update` refuses empty data), PBKDF2-HMAC-SHA1
      (section 5.2 of RFC 8018) as (passphrase, salt, iterations, key length),
      and Base64 `encode64`/`decode64`. Being functions, all are deterministic. */
  datatype Primitives = Primitives(
    encrypt: (Bytes, Bytes, Bytes) -> Bytes,
    decrypt: (Bytes, Bytes, Bytes) -> Option<Bytes>,
    pbkdf2: (Bytes, Bytes, nat, nat) -> Bytes,
    encode64: Bytes -> Bytes,
    decode64: Bytes -> Bytes)

  /** What the vault relies on: decryption under the same key and IV inverts
      encryption; ciphertext length is the padded plaintext length; empty data
      never decrypts; the derived key has the requested length; decode64
      inverts encode64. */
  ghost predicate Lawful(p: Primitives)
  {
    && (forall key, iv, m :: |key| == KEY_LEN && |iv| == IV_LEN ==>
          p.decrypt(key, iv, p.encrypt(key, iv, m)) == Some(m))
    && (forall key, iv, m :: |p.encrypt(key, iv, m)| == PaddedLength(|m|))
    && (forall key, iv :: p.decrypt(key, iv, []) == None)
    && (forall pass, salt, n, len :: |p.pbkdf2(pass, salt, n, len)| == len)
    && (forall b :: p.decode64(p.encode64(b)) == b)
  }
}
