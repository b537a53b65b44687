/**
 * A symbolic model of the Fernet authenticated cipher that the database module uses
 * through one process-wide instance built from the SECRET_KEY setting.
 *
 * A token is either one that `Encrypt` sealed under some key, with the random
 * initialisation vector that went into it, or bytes that are not a token sealed by
 * anyone (corrupted, truncated or hand-written). The only way to learn the message
 * inside a sealed token is `Decrypt` with the key it was sealed under; with any other
 * key, or on a malformed token, decryption fails, as Fernet's HMAC check makes it.
 */
module Fernet {
  import opened Wrappers

  type Plaintext = string

  /**
   * A decoded Fernet key: the 32 bytes that the base64 text in SECRET_KEY stands for,
   * split into the 16-byte HMAC signing half and the 16-byte AES encryption half. Two
   * keys are the same key exactly when both halves agree.
   */
  datatype Key = Key(signingKey: seq<bv8>, encryptionKey: seq<bv8>)

  /** The random initialisation vector Fernet draws for every encryption. */
  type Iv = seq<bv8>

  datatype Token =
    | Sealed(sealedUnder: Key, iv: Iv, message: Plaintext)
    | Malformed(bytes: seq<bv8>)

  function Encrypt(k: Key, iv: Iv, p: Plaintext): (t: Token)
  {
    Sealed(k, iv, p)
  }

  /** Fernet's `decrypt`: the message, or `None` where Fernet raises `InvalidToken`. */
  function Decrypt(k: Key, t: Token): (r: Option<Plaintext>)
    ensures r.Some? ==> exists iv :: t == Encrypt(k, iv, r.value)
  {
    match t
    case Sealed(k', iv, p) =>
      if k' == k then assert t == Encrypt(k, iv, p); Some(p) else None
    case Malformed(_) => None
  }

  /** Decrypting with the key a token was sealed under gives back the message. */
  lemma DecryptEncrypt(k: Key, iv: Iv, p: Plaintext)
    ensures Decrypt(k, Encrypt(k, iv, p)) == Some(p)
  {
  }

  /** A token sealed under one key does not open under another. */
  lemma DecryptWrongKey(k: Key, k': Key, iv: Iv, p: Plaintext)
    requires k != k'
    ensures Decrypt(k', Encrypt(k, iv, p)) == None
  {
  }
}
