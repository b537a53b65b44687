/**
 * The `secrets` table and the meaning of the two operations on it, as pure functions
 * of the table's contents: `Deposit` is what `save_secret` does to the table and
 * `Consume` is what `get_and_delete_secret` returns and leaves behind.
 *
 * Time is a count of seconds; the clock reading is an argument of every operation.
 */
module Secrets {
  import opened Wrappers
  import Fernet

  /** The UUID text a secret is stored and retrieved under (column `id`). */
  type SecretId = string

  /**
   * Whole seconds since 0001-01-01T00:00:00 UTC, the earliest instant a Python
   * `datetime` holds. Readings of the clock are whole seconds too.
   */
  type Timestamp = int

  /** The last whole second a `datetime` holds: 9999-12-31T23:59:59. */
  const LastInstant: Timestamp := 3652059 * 86400 - 1

  /** `timedelta` refuses more than 999999999 days either way. */
  const MaxDeltaDays := 999999999

  /** A clock reading or an expiry that a `datetime` can hold. */
  predicate Representable(t: Timestamp)
  {
    0 <= t <= LastInstant
  }

  /** `timedelta(minutes=m)` exists: its whole days, rounded down, stay within bounds. */
  predicate DeltaFits(expireMinutes: int)
  {
    -MaxDeltaDays <= expireMinutes / 1440 <= MaxDeltaDays
  }

  /** One row of the table: columns `secret`, `created_at` and `expires_at`. */
  datatype Record = Record(ciphertext: Fernet.Token, createdAt: Timestamp, expiresAt: Timestamp)

  /** The table, keyed by its primary key `id`. */
  type Store = map<SecretId, Record>

  /** What a retrieval hands back and the table it leaves. */
  datatype Retrieval = Retrieval(secret: Option<Fernet.Plaintext>, store: Store)

  /**
   * `now + timedelta(minutes=expire_minutes)`, or `None` where Python raises
   * `OverflowError`: when the `timedelta` cannot be built, or when the sum falls
   * outside the years 1 to 9999. Negative minutes lie in the past.
   */
  function ExpiresAt(now: Timestamp, expireMinutes: int): (r: Option<Timestamp>)
    ensures r.Some? <==> DeltaFits(expireMinutes) && Representable(now + 60 * expireMinutes)
    ensures r.Some? ==> r.value - now == 60 * expireMinutes
    ensures r.Some? ==> (expireMinutes <= 0 <==> r.value <= now)
  {
    if DeltaFits(expireMinutes) && Representable(now + expireMinutes * 60) then
      Some(now + expireMinutes * 60)
    else
      None
  }

  /** Minutes that span more than the whole range of `datetime` overflow from any reading. */
  lemma TooManyMinutesOverflow(now: Timestamp, expireMinutes: int)
    requires Representable(now)
    requires 60 * expireMinutes > LastInstant || 60 * expireMinutes < -LastInstant
    ensures ExpiresAt(now, expireMinutes) == None
  {
  }

  /** A record is still readable at `now` unless `now` is strictly past its expiry. */
  predicate Live(r: Record, now: Timestamp)
  {
    now <= r.expiresAt
  }

  /**
   * The table after `save_secret` stored `secretText` under the fresh `key`. When the
   * expiry can be computed: one new row holding the encryption of the text, stamped
   * with `now`, expiring `expireMinutes` later, every other row as it was. When the
   * expiry overflows, `save_secret` raises before its `INSERT`, so the table is as it was.
   */
  function Deposit(store: Store, fernet: Fernet.Key, key: SecretId, secretText: Fernet.Plaintext,
                   expireMinutes: int, now: Timestamp, iv: Fernet.Iv): (s: Store)
    requires key !in store
    ensures ExpiresAt(now, expireMinutes).None? ==> s == store
    ensures ExpiresAt(now, expireMinutes).Some? ==>
              && key in s && s - {key} == store && |s| == |store| + 1
              && s[key].ciphertext == Fernet.Encrypt(fernet, iv, secretText)
              && Fernet.Decrypt(fernet, s[key].ciphertext) == Some(secretText)
              && s[key].createdAt == now && s[key].expiresAt == now + 60 * expireMinutes
              && Representable(s[key].expiresAt)
  {
    match ExpiresAt(now, expireMinutes)
    case None => store
    case Some(expiresAt) => store[key := Record(Fernet.Encrypt(fernet, iv, secretText), now, expiresAt)]
  }

  /**
   * What `get_and_delete_secret(key)` does at time `now`. A missing row gives nothing
   * and changes nothing. A present row is always deleted. Its text is given back only
   * when the row is live and its token decrypts under `fernet`.
   */
  function Consume(store: Store, fernet: Fernet.Key, key: SecretId, now: Timestamp): (r: Retrieval)
    ensures r.store == store - {key}
    ensures key !in store ==> r.secret == None
    ensures r.secret.Some? <==>
              key in store && Live(store[key], now) && Fernet.Decrypt(fernet, store[key].ciphertext).Some?
    ensures r.secret.Some? ==> Fernet.Decrypt(fernet, store[key].ciphertext) == r.secret
  {
    if key !in store then
      Retrieval(None, store)
    else
      var record := store[key];
      if now > record.expiresAt then
        Retrieval(None, store - {key})
      else
        Retrieval(Fernet.Decrypt(fernet, record.ciphertext), store - {key})
  }

  /**
   * Round trip: reading a secret right after depositing it, no later than its expiry,
   * gives back the text and returns the table to what it was before the deposit.
   */
  lemma ConsumeAfterDeposit(store: Store, fernet: Fernet.Key, key: SecretId, secretText: Fernet.Plaintext,
                            expireMinutes: int, now: Timestamp, iv: Fernet.Iv, readAt: Timestamp)
    requires key !in store
    requires ExpiresAt(now, expireMinutes).Some? && readAt <= ExpiresAt(now, expireMinutes).value
    ensures Consume(Deposit(store, fernet, key, secretText, expireMinutes, now, iv), fernet, key, readAt)
            == Retrieval(Some(secretText), store)
  {
    var deposited := Deposit(store, fernet, key, secretText, expireMinutes, now, iv);
    assert deposited - {key} == store;
  }

  /**
   * A deposit made with zero or negative minutes is never readable afterwards: its row
   * is already expired one second later, or, for minutes too far in the past, it was
   * never stored.
   */
  lemma ZeroMinutesNeverReadable(store: Store, fernet: Fernet.Key, key: SecretId, secretText: Fernet.Plaintext,
                                 expireMinutes: int, now: Timestamp, iv: Fernet.Iv, readAt: Timestamp)
    requires key !in store
    requires expireMinutes <= 0 && readAt > now
    ensures Consume(Deposit(store, fernet, key, secretText, expireMinutes, now, iv), fernet, key, readAt).secret
            == None
  {
  }

  /** Expiry is strict: a read at exactly `expires_at` still finds the record live. */
  lemma ReadAtExpiryInstant(store: Store, fernet: Fernet.Key, key: SecretId, secretText: Fernet.Plaintext,
                            expireMinutes: int, now: Timestamp, iv: Fernet.Iv)
    requires key !in store
    requires ExpiresAt(now, expireMinutes).Some?
    ensures Consume(Deposit(store, fernet, key, secretText, expireMinutes, now, iv), fernet, key,
                    ExpiresAt(now, expireMinutes).value).secret == Some(secretText)
  {
  }

  /** One-time read: whatever the first read returned, a second read returns nothing. */
  lemma SecondConsumeFindsNothing(store: Store, fernet: Fernet.Key, key: SecretId, now: Timestamp, later: Timestamp)
    ensures Consume(Consume(store, fernet, key, now).store, fernet, key, later) ==
            Retrieval(None, Consume(store, fernet, key, now).store)
  {
  }

  /**
   * A save whose expiry overflows leaves nothing behind: the table is unchanged and a
   * later read of the drawn UUID finds nothing.
   */
  lemma OverflowingDepositStoresNothing(store: Store, fernet: Fernet.Key, key: SecretId,
                                        secretText: Fernet.Plaintext, expireMinutes: int, now: Timestamp,
                                        iv: Fernet.Iv, readAt: Timestamp)
    requires key !in store
    requires ExpiresAt(now, expireMinutes).None?
    ensures Deposit(store, fernet, key, secretText, expireMinutes, now, iv) == store
    ensures Consume(Deposit(store, fernet, key, secretText, expireMinutes, now, iv), fernet, key, readAt)
            == Retrieval(None, store)
  {
  }

  /** An expired record is deleted and gives nothing. */
  lemma ConsumeExpired(store: Store, fernet: Fernet.Key, key: SecretId, now: Timestamp)
    requires key in store && now > store[key].expiresAt
    ensures Consume(store, fernet, key, now) == Retrieval(None, store - {key})
  {
  }

  /** A live record whose token does not decrypt is deleted all the same and gives nothing. */
  lemma ConsumeUndecryptable(store: Store, fernet: Fernet.Key, key: SecretId, now: Timestamp)
    requires key in store && Live(store[key], now)
    requires Fernet.Decrypt(fernet, store[key].ciphertext) == None
    ensures Consume(store, fernet, key, now) == Retrieval(None, store - {key})
  {
  }

  /** Reading one secret leaves every other row exactly as it was. */
  lemma ConsumeFrame(store: Store, fernet: Fernet.Key, key: SecretId, now: Timestamp, other: SecretId)
    requires other != key
    ensures other in Consume(store, fernet, key, now).store <==> other in store
    ensures other in store ==> Consume(store, fernet, key, now).store[other] == store[other]
  {
  }
}
