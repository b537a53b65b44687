# One-time secret vault: a Dafny model of its database module

The repository is a small web service that lets someone share a secret through a
one-time link. The whole logic lives in `app/database.py`:

- `save_secret` encrypts a text with Fernet under a process-wide key.
- It stores the ciphertext in the SQLite table `secrets`, under a fresh UUID, with an
  expiry time. Then it returns the UUID.
- `get_and_delete_secret` looks the UUID up. It deletes a row it finds, whatever happens
  next. It returns the decrypted text only when the row is not expired and its token
  decrypts. Otherwise it returns `None`.

This project models that module and proves the vault's promises: a secret reads back as
it was saved, it can be read only once, it expires, and a read never touches other rows.

Files and modules:

- `wrappers.dfy` (`Wrappers`): the `Option` type used for values that may be `None`.
- `fernet.dfy` (`Fernet`): a symbolic authenticated cipher. A token is either sealed
  under a key with a random initialisation vector, or malformed bytes. `Decrypt`
  returns the message only with the key the token was sealed under.
- `secrets.dfy` (`Secrets`): a table row (`Record`), the table (`Store`, a map from UUID
  to row), and the two operations as pure functions. `Deposit` is what `save_secret`
  does to the table. `Consume` is what `get_and_delete_secret` returns and leaves behind.
  It also holds the lemmas about single operations.
- `database.dfy` (`Database`): the class `Vault`. It holds the table in a map field
  `secrets`, which its methods `SaveSecret` and `GetAndDeleteSecret` update in place.
  Each method's postcondition ties it to `Deposit` or `Consume`. Client methods replay
  the scenarios of `tests/test_core.py` on a fresh vault.
- `lifecycle.dfy` (`Lifecycle`): sequences of calls replayed one after another. It proves
  that a secret is handed out at most once, that a UUID that was never stored is never
  answered, and that a secret saved and left alone reads back exactly once.

Collaborators are inputs:

- The clock is a count of whole seconds since 0001-01-01T00:00:00 UTC, passed to each
  operation. One minute is 60 seconds.
- The UUID from `uuid4()` is an argument. A precondition says it is not in the table yet.
- Fernet's random initialisation vector is an argument too.
- The decoded Fernet key is a constant of the vault.
- UTF-8 encoding and decoding, and the ISO-8601 text form of `expires_at`, are identity.

Behaviour of the code that the model keeps:

- A row is expired only when `now > expires_at` (strict). A read at exactly
  `expires_at` still returns the secret; see `Secrets.ReadAtExpiryInstant`.
- A read is a `SELECT` followed by a separate `DELETE` of the same row. The model is
  sequential, so nothing can happen between the two.
- Nothing deletes expired rows that nobody reads. Such rows stay in the table until
  someone reads them.
- The application code does not check that a UUID is new. The model states UUID
  freshness as a precondition.
- `expire_minutes` is any integer the caller passes; `app/main.py` takes it from a form
  field with `int()`. Zero or negative minutes give a row that is already expired one
  second later; see `Secrets.ZeroMinutesNeverReadable`.
- Computing `expires_at` raises `OverflowError` in two cases: the `timedelta` exceeds
  999999999 days, or the sum leaves the years 1 to 9999. `save_secret` then stores
  nothing and returns no UUID. `Secrets.ExpiresAt` returns `None` for these cases and
  `Database.Vault.SaveSecret` returns no UUID.

`init_db` is the `Vault` constructor. It takes the rows already in the database file,
because `CREATE TABLE IF NOT EXISTS` keeps them (the table is empty for a new file). So
the table can hold rows written under an earlier key. Those rows take the
decrypt-failure path; see `Database.ReadAfterKeyChange`.

## Model

| member | source | states |
|---|---|---|
| `Fernet.Decrypt` | app/database.py:101-104 | a successful decryption under a key returns the message of a token that `Encrypt` produced under that same key; any other token fails, as `InvalidToken` does |
| `Fernet.DecryptEncrypt` | app/database.py:53 | decrypting with the key a token was made under gives back the encrypted text |
| `Fernet.DecryptWrongKey` | app/database.py:12 | a token made under one decoded key does not decrypt under a different decoded key |
| `Secrets.ExpiresAt` | app/database.py:50 | an expiry exists iff the `timedelta` fits in 999999999 days and the sum stays within the years 1 to 9999 (otherwise Python raises `OverflowError`); it then lies exactly 60 seconds per minute from the reading, at or before it iff the minutes are zero or negative |
| `Secrets.TooManyMinutesOverflow` | app/database.py:50 | from any valid clock reading, a minute count spanning more than datetime's whole range overflows |
| `Secrets.Deposit` | app/database.py:49-64 | when the expiry overflows, the table is unchanged; otherwise saving adds exactly one row, under the fresh UUID, and leaves every other row as it was; the row's ciphertext is the encryption of the text, never the text itself; it decrypts back to the text; created at `now`, expiring `now + 60 * minutes` |
| `Secrets.Consume` | app/database.py:81-106 | after a read the UUID is gone and every other row is unchanged; a missing UUID gives nothing and changes nothing; the result is a secret iff the row exists, `now <= expires_at`, and its token decrypts; in that case the result is the decrypted text |
| `Secrets.ConsumeAfterDeposit` | app/database.py:49-102 | a read no later than the expiry, right after a save, returns the saved text and restores the table from before the save |
| `Secrets.ZeroMinutesNeverReadable` | app/database.py:90-93 | a secret saved with zero or negative minutes returns nothing when read at any later second |
| `Secrets.ReadAtExpiryInstant` | app/database.py:90 | a read at exactly `expires_at` still returns the secret, because the expiry test is strict |
| `Secrets.SecondConsumeFindsNothing` | app/database.py:91-106 | whatever the first read of a UUID returned, a second read returns nothing and changes nothing |
| `Secrets.OverflowingDepositStoresNothing` | app/database.py:50-61 | a save whose expiry overflows leaves the table unchanged, and a later read of the drawn UUID gives nothing |
| `Secrets.ConsumeExpired` | app/database.py:90-93 | an expired row is deleted and the read returns nothing |
| `Secrets.ConsumeUndecryptable` | app/database.py:96-104 | a live row whose token does not decrypt is deleted all the same, and the read returns nothing |
| `Secrets.ConsumeFrame` | app/database.py:83-96 | a read of one UUID leaves every other UUID's row present or absent as it was, with the same contents |
| `Database.Vault.constructor` | app/database.py:18-35 | opening the vault keeps the rows already in the table and fixes the decoded Fernet key |
| `Database.Vault.SaveSecret` | app/database.py:38-64 | returns the fresh UUID when the expiry can be computed and no UUID when it overflows, in which case the table is unchanged; the new table is `Deposit` of the old one |
| `Database.Vault.GetAndDeleteSecret` | app/database.py:67-106 | the returned value and the new table are exactly `Consume` of the old table |
| `Database.EncryptionAndDecryption` | tests/test_core.py:28-32 | a secret saved for ten minutes and read within them comes back unchanged, and the table ends as it began |
| `Database.ExpirationLogic` | tests/test_core.py:34-39 | a secret saved with zero minutes and read later returns nothing, and its row is gone |
| `Database.ReadTwice` | app/database.py:86-106 | reading a live secret twice returns it the first time and nothing the second |
| `Database.ReadAfterKeyChange` | app/database.py:96-104 | a row written under a different decoded key returns nothing when read, and the read deletes it |
| `Database.HugeExpiryIsRefused` | app/database.py:50 | a save asking for six billion minutes returns no UUID, leaves the table unchanged, and the drawn UUID reads as absent |
| `Lifecycle.Untouched` | app/database.py:83-96 | calls on other UUIDs leave a UUID's row present or absent as it was, with the same contents |
| `Lifecycle.AtMostOnce` | app/database.py:86-106 | as long as no save reuses a UUID, the reads of it in any sequence of calls reveal a secret at most once, and never if it was not stored |
| `Lifecycle.NeverStoredNeverAnswered` | app/database.py:83-86 | a UUID that is not stored and never saved gets nothing from every call on it |
| `Lifecycle.SavedRecordSurvives` | app/database.py:59-60 | a row saved with a computable expiry is still stored as saved, with its ciphertext, save time and expiry, after any calls on other UUIDs |
| `Lifecycle.LiveReadIsTheOnlyReveal` | app/database.py:90-102 | the first read of a live, decryptable row returns its text, and it is the only read of that UUID that reveals anything |
| `Lifecycle.ExactlyOnce` | app/database.py:38-106 | save with a computable expiry, unrelated calls, a read before expiry, then anything but a save under the same UUID: the read returns the saved text and is the only reveal of it |

## Left out

- SQLite: connections, cursors, commits and the `DB_NAME` setting. The table is a map
  field. `created_at` is filled from the same clock reading as `expires_at`; in SQLite it
  comes from the database's own clock, to the second, and nothing reads it.
- Fernet cryptography itself: AES, HMAC, base64, and the timestamp inside a token. The
  cipher is symbolic. Only round trip, authentication and per-call randomness are modelled.
- Loading `SECRET_KEY` from the environment or `.env`, and turning that text into a key
  (app/database.py:5-12). Fernet decodes the text with non-validating url-safe base64,
  so different texts can give the same key, and a key that does not decode to 32 bytes
  stops the process at startup. The vault takes the decoded key, so key identity in the
  model is identity of the decoded bytes.
- `Fernet.Decrypt`: treats a token as opening only under the exact key it was sealed
  under. Real Fernet checks the HMAC with the signing half alone. A key that shares
  that half but has a different encryption half would pass the check and then fail on
  padding or yield other bytes. The model does not capture that case.
- `uuid4()` randomness (app/database.py:49). A UUID that is already stored would make the
  `INSERT` fail on the primary key. The model assumes this never happens and has no
  error path for it.
- `datetime.utcnow()` and the ISO-8601 form of `expires_at` (app/database.py:50, 60, 90).
  Time is whole seconds; the microseconds of a reading are dropped. A malformed stored `expires_at`, which would raise in
  `fromisoformat`, cannot arise from `save_secret` and is not modelled.
- UTF-8 `encode`/`decode`. A decode error after decryption would also give `None`. It
  cannot arise from text that `save_secret` encoded.
- Concurrency: two readers can both pass the `SELECT` before either runs its `DELETE`.
  The model is sequential.
- Reclaiming expired rows that nobody reads: the source has no code for it.
- `app/main.py`: the Flask routes, templates, form parsing, link building and the
  expiry-label table.
