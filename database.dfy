/**
 * The database module: a vault whose `secrets` table is a map that its two
 * operations update in place, encrypting with one Fernet key fixed when the vault
 * is opened. The clock, the UUID generator and Fernet's random vector are inputs.
 */
module Database {
  import opened Wrappers
  import Fernet
  import opened Secrets

  class Vault {
    /** The Fernet instance built once from SECRET_KEY. */
    const fernet: Fernet.Key
    /** The rows of the `secrets` table. */
    var secrets: Store

    /**
     * `init_db`: creates the table when it does not exist and otherwise keeps the
     * rows already in the database file, so `existing` is empty for a new file.
     */
    constructor (fernet: Fernet.Key, existing: Store)
      ensures this.fernet == fernet && secrets == existing
    {
      this.fernet := fernet;
      secrets := existing;
    }

    /**
     * `save_secret`: stores the encryption of `secretText` under the new UUID `newId`,
     * expiring `expireMinutes` after `now`, and returns that UUID. Where computing the
     * expiry raises `OverflowError`, nothing is stored and no UUID is returned (`None`).
     */
    method SaveSecret(secretText: Fernet.Plaintext, expireMinutes: int, now: Timestamp,
                      newId: SecretId, iv: Fernet.Iv) returns (key: Option<SecretId>)
      requires newId !in secrets
      modifies this`secrets
      ensures key == if ExpiresAt(now, expireMinutes).Some? then Some(newId) else None
      ensures key.None? ==> secrets == old(secrets)
      ensures secrets == Deposit(old(secrets), fernet, newId, secretText, expireMinutes, now, iv)
    {
      var expiresAt := ExpiresAt(now, expireMinutes);
      if expiresAt.None? {
        return None;
      }
      var encryptedSecret := Fernet.Encrypt(fernet, iv, secretText);
      secrets := secrets[newId := Record(encryptedSecret, now, expiresAt.value)];
      return Some(newId);
    }

    /**
     * `get_and_delete_secret`: looks `key` up; an expired row is deleted and gives
     * nothing; a live row is deleted before its token is decrypted, and a token that
     * fails to decrypt gives nothing.
     */
    method GetAndDeleteSecret(key: SecretId, now: Timestamp) returns (secret: Option<Fernet.Plaintext>)
      modifies this`secrets
      ensures Retrieval(secret, secrets) == Consume(old(secrets), fernet, key, now)
    {
      if key in secrets {
        var record := secrets[key];
        if now > record.expiresAt {
          secrets := secrets - {key};
          return None;
        }
        secrets := secrets - {key};
        secret := Fernet.Decrypt(fernet, record.ciphertext);
        return;
      }
      return None;
    }
  }

  /**
   * A secret saved for ten minutes and read back within them comes back as it was
   * saved, and the table is as it was before the save.
   */
  method EncryptionAndDecryption(fernet: Fernet.Key, existing: Store, secret: Fernet.Plaintext,
                                 now: Timestamp, newId: SecretId, iv: Fernet.Iv, readAt: Timestamp)
    returns (result: Option<Fernet.Plaintext>, left: Store)
    requires newId !in existing
    requires Representable(now) && Representable(now + 10 * 60)
    requires readAt <= now + 10 * 60
    ensures result == Some(secret)
    ensures left == existing
  {
    var vault := new Vault(fernet, existing);
    var key := vault.SaveSecret(secret, 10, now, newId, iv);
    ConsumeAfterDeposit(existing, fernet, newId, secret, 10, now, iv, readAt);
    result := vault.GetAndDeleteSecret(key.value, readAt);
    left := vault.secrets;
  }

  /** A secret saved with zero minutes and read any time later is gone, and so is its row. */
  method ExpirationLogic(fernet: Fernet.Key, existing: Store, secret: Fernet.Plaintext,
                         now: Timestamp, newId: SecretId, iv: Fernet.Iv, readAt: Timestamp)
    returns (key: Option<SecretId>, result: Option<Fernet.Plaintext>, left: Store)
    requires newId !in existing
    requires Representable(now)
    requires readAt > now
    ensures key == Some(newId)
    ensures result == None
    ensures left == existing
  {
    var vault := new Vault(fernet, existing);
    key := vault.SaveSecret(secret, 0, now, newId, iv);
    ghost var deposited := vault.secrets;
    result := vault.GetAndDeleteSecret(newId, readAt);
    assert deposited - {newId} == existing;
    left := vault.secrets;
  }

  /** Reading the same link twice gives the secret the first time and nothing the second. */
  method ReadTwice(fernet: Fernet.Key, existing: Store, secret: Fernet.Plaintext, expireMinutes: int,
                   now: Timestamp, newId: SecretId, iv: Fernet.Iv, firstAt: Timestamp, secondAt: Timestamp)
    returns (first: Option<Fernet.Plaintext>, second: Option<Fernet.Plaintext>)
    requires newId !in existing
    requires ExpiresAt(now, expireMinutes).Some? && firstAt <= ExpiresAt(now, expireMinutes).value
    ensures first == Some(secret) && second == None
  {
    var vault := new Vault(fernet, existing);
    var key := vault.SaveSecret(secret, expireMinutes, now, newId, iv);
    ConsumeAfterDeposit(existing, fernet, newId, secret, expireMinutes, now, iv, firstAt);
    first := vault.GetAndDeleteSecret(key.value, firstAt);
    second := vault.GetAndDeleteSecret(key.value, secondAt);
  }

  /**
   * A row written under an earlier SECRET_KEY is found live but does not decrypt under
   * the current one: the read gives nothing and the row is deleted.
   */
  method ReadAfterKeyChange(oldKey: Fernet.Key, newKey: Fernet.Key, secret: Fernet.Plaintext,
                            now: Timestamp, id: SecretId, iv: Fernet.Iv, readAt: Timestamp)
    returns (result: Option<Fernet.Plaintext>, left: Store)
    requires oldKey != newKey
    requires Representable(now) && Representable(now + 10 * 60)
    requires now <= readAt <= now + 10 * 60
    ensures result == None && left == map[]
  {
    var before := new Vault(oldKey, map[]);
    var key := before.SaveSecret(secret, 10, now, id, iv);
    var after := new Vault(newKey, before.secrets);
    result := after.GetAndDeleteSecret(key.value, readAt);
    left := after.secrets;
  }

  /**
   * Asking for six billion minutes (more than eleven thousand years) makes `save_secret` raise instead of returning a
   * link: no UUID comes back, the table is unchanged, and the drawn UUID reads as absent.
   */
  method HugeExpiryIsRefused(fernet: Fernet.Key, existing: Store, secret: Fernet.Plaintext,
                             now: Timestamp, newId: SecretId, iv: Fernet.Iv, readAt: Timestamp)
    returns (key: Option<SecretId>, result: Option<Fernet.Plaintext>, left: Store)
    requires newId !in existing
    requires Representable(now)
    ensures key == None && result == None && left == existing
  {
    var vault := new Vault(fernet, existing);
    TooManyMinutesOverflow(now, 6_000_000_000);
    key := vault.SaveSecret(secret, 6_000_000_000, now, newId, iv);
    result := vault.GetAndDeleteSecret(newId, readAt);
    left := vault.secrets;
  }
}
