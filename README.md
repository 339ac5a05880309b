# Secure login system: a Dafny model

This project models the core of `SecureLoginSystem` (`secure_login.py`). The system logs users in with a password and an optional second factor: a time-based one-time code (TOTP). The model covers three parts:

- **Password hashing** (`hash_password`). The digest is SHA-256 of `salt + password`. A missing or empty salt is replaced by a fresh random one. Module `Password`.
- **One-time codes** (`generate_totp_code`, `verify_totp`). The code follows RFC 6238 section 4 over HOTP (RFC 4226 section 5.3). The counter is the clock divided by the time step. It is packed as eight big-endian bytes (`struct.pack('>Q')`) and run through HMAC-SHA1. Dynamic truncation then takes four bytes at offset `h[-1] & 0x0F` and masks the top bit. The result is taken mod 10^6 and zero-padded to six digits. Modules `Bits` (Python's `&`, `|`, `<<` on unbounded non-negative integers), `DecimalText` (`str`, `zfill`, digit values) and `Totp`.
- **The login state machine** (`register_user`, `login`, `logout`, `enable_2fa`). The class `LoginSystem.SecureLoginSystem` holds the `users` table as a map from username to row, and `current_user` as an optional name. The decision `login` takes is also given as a function, `LoginSystem.Authenticate`. The `Login` method is proved to return exactly that decision. The properties of logging in are proved as lemmas about `Authenticate`.

The model calls SHA-256, HMAC-SHA1 and base32 but does not implement them. They are function values bundled in `Crypto.Primitives`. HMAC-SHA1 is any function whose output is 20 bytes. The base32 codec must decode what it encodes, which is the one thing the code relies on. Randomness becomes parameters: the salt from `secrets.token_hex(16)` (32 lower-case hex characters) and the ten bytes from `os.urandom(10)`. The clock is also a parameter, `now`, in whole seconds.

The model keeps Python's truthiness exactly:

- `not salt`, `not totp_code` and `not self.current_user` treat `""` like `None`. A user registered under the empty name can therefore log in. Afterwards `enable_2fa` refuses that user, and `logout` leaves `current_user` at `""`.
- A failed login leaves any earlier logged-in user in place.
- Re-enabling 2FA overwrites the secret.

The exceptions the code path can raise are modelled as values, not as preconditions:

- `struct.error` when the counter does not fit 64 bits;
- `binascii.Error`, `ValueError` or `TypeError` when `base64.b32decode` cannot decode the stored secret: text that is not base32, non-ASCII text, or a missing (`None`) secret.

Generation returns them as `Failure`, and `login` returns them as `Raised`.

The class invariant `Valid()` states what the operations keep true of the table. Every salt is a 32-character token. Every hash is SHA-256 of the salt followed by the password the user registered with; that password is held in a ghost map. The 2FA flag is set exactly when a secret is stored, and every stored secret decodes. The logged-in user, if there is one, is in the table.

This code differs from a hardened TOTP login in these ways, and the model follows the code:

- Digests and codes are compared with plain `==`, not in constant time.
- A wrong second-factor code makes `login` return `False`, the same value as a wrong password. There is no separate "invalid code" outcome.
- A successful `login` sets `current_user`, so the login decision has a side effect.
- `verify_totp` can raise; it does not always return a boolean.
- The 2FA secret is stored as base32 text, not as raw bytes.

## Model

| member | source | states |
|---|---|---|
| `Password.HashPassword` | secure_login.py:33-39 | A truthy salt is returned unchanged. A missing or empty salt is replaced by the fresh token. The returned salt is never empty. The digest is SHA-256 of the returned salt followed by the password. |
| `Password.RehashWithReturnedSalt` | secure_login.py:121-122 | Hashing again with the salt that a first call returned reproduces the same digest and salt, whatever fresh salt the second call is given. This is the check `login` makes against what `register_user` stored. |
| `Wrappers.Truthy` | secure_login.py:128 | An optional string is false in a Python `if` exactly when it is `None` or `""`. The same test is made on the salt (line 35) and the current user (lines 84 and 143). |
| `Bits.BitAnd` | secure_login.py:71-72 | Python's `x & y` on non-negative integers is at most each operand. |
| `Bits.BitOr` | secure_login.py:72 | Python's bitwise or of `x` and `y` is at least each operand and at most their sum. |
| `Bits.ShiftLeft` | secure_login.py:72 | `x << k` leaves the low `k` bits zero, and shifting back right by `k` gives `x`. |
| `Bits.AndLowMask` | secure_login.py:71-72 | Masking with `2^k - 1` keeps exactly the low `k` bits: `x & (2^k - 1) == x % 2^k`. |
| `Bits.ByteMasks` | secure_login.py:71-72 | On a byte, `& 0x0F` is `% 16`, `& 0x7F` is `% 128` and `& 0xFF` is the identity. |
| `Bits.OrShifted` | secure_login.py:72 | When `y < 2^k`, the bitwise or of `x << k` and `y` equals `x * 2^k + y`. |
| `Totp.OrBytes` | secure_login.py:72 | Shifting four byte values by 24, 16, 8 and 0 and or-ing them gives their base-256 sum. |
| `Totp.TimeCounter` | secure_login.py:64 | The counter is the number of the time window `now` falls in: `step * counter <= now < step * (counter + 1)`. |
| `Totp.SameWindowSameCode` | secure_login.py:63-64 | Two clock readings in the same window give the same generation result. |
| `Totp.ToBigEndian` | secure_login.py:65 | The encoding has exactly `width` bytes. |
| `Totp.FromBigEndian` | secure_login.py:65 | The number a byte string denotes is below `256^length`. |
| `Totp.BigEndianRoundTrip` | secure_login.py:65 | Decoding the `width`-byte big-endian encoding of any `n < 256^width` gives back `n`. |
| `Totp.BigEndianRoundTripBytes` | secure_login.py:65 | Encoding the value of any byte string at its own length gives back the same bytes. |
| `Totp.PackCounter` | secure_login.py:65 | `struct.pack('>Q', c)` succeeds exactly when `c < 2^64`, and otherwise raises. On success it gives 8 bytes that decode back to `c`. |
| `Totp.TruncationOffset` | secure_login.py:71 | The offset is `h[19] % 16`, and offset + 3 indexes inside the 20-byte HMAC. |
| `Totp.MaskedBytes` | secure_login.py:72 | On four bytes, the masks, shifts and ors give `(a % 128) * 2^24 + b * 2^16 + c * 2^8 + d`. |
| `Totp.LastThirtyOneBits` | secure_login.py:72 | Taking a 4-byte number mod 2^31 is the same as clearing the top bit of its first byte. |
| `Totp.FromBigEndianFour` | secure_login.py:72 | Four bytes read big-endian denote `a * 2^24 + b * 2^16 + c * 2^8 + d`. |
| `Totp.WordLastBits` | secure_login.py:72 | The last 31 bits of a four-byte big-endian value are that value with the top bit of the first byte cleared. |
| `Totp.TruncatedWord` | secure_login.py:72 | On any four bytes, the masks, shifts and ors of `generate_totp_code` give the big-endian value mod 2^31. |
| `Totp.DynamicTruncate` | secure_login.py:71-72 | The binary code is below 2^31. It equals the big-endian value of the four bytes at offset `h[19] % 16`, mod 2^31, which is RFC 4226's dynamic truncation. |
| `DecimalText.Str` | secure_login.py:75 | `str(n)` is a non-empty string of digits with no leading zero, and its value is `n`. |
| `DecimalText.StrLength` | secure_login.py:75 | `str(n)` has at most `k` characters when `n < 10^k`. |
| `DecimalText.ZFill` | secure_login.py:75 | `zfill(width)` yields `max(len, width)` characters. A string already `width` long is unchanged. A shorter unsigned string gets `'0'`s in front. A shorter string with a leading `+` or `-` keeps the sign first and gets the `'0'`s after it. |
| `DecimalText.LeadingZeros` | secure_login.py:75 | Zeros put in front of a digit string do not change its value. |
| `DecimalText.DigitsValueInjective` | secure_login.py:75 | Two digit strings of equal length with equal values are equal. |
| `Totp.SixDigitCode` | secure_login.py:75 | `str(b % 1000000).zfill(6)` is exactly six ASCII digits, and its decimal value is `b % 1000000`. |
| `Totp.SixDigitCodeMatches` | secure_login.py:75 | A string is the code of `b` if and only if it is six digits denoting `b % 10^6`. |
| `Totp.GenerateTotpCode` | secure_login.py:61-75 | Generation fails exactly when the counter reaches 2^64 (`CounterOutOfRange`, checked first) or the secret does not decode (`SecretNotDecodable`). Otherwise the code is six digits, and its value is RFC 4226's HOTP value for the decoded key and the window's counter. |
| `Totp.VerifyTotp` | secure_login.py:77-80 | Verification uses the 30-second window and fails under the same conditions as generation. Otherwise it is true if and only if the code is six digits denoting the HOTP value. So `"12345"` or `"abcdef"` can never verify. |
| `LoginSystem.Authenticate` | secure_login.py:105-139 | An unknown name and a wrong password (for a non-empty stored salt) both give `Rejected`. `TwoFactorRequired` only comes for an existing user with 2FA on and no truthy code. With 2FA on, `LoggedIn` needs a six-digit code. An exception escapes only for a user with 2FA on and a truthy code, when the counter reaches 2^64 or the stored secret is missing or does not decode. It is `struct.error` (`CounterOutOfRange`) exactly when the counter reaches 2^64, even when the secret is missing, because `struct.pack` runs before `b32decode`. |
| `LoginSystem.RegisteredPasswordAccepted` | secure_login.py:118-130 | In a well-formed table the registered password passes the password check. With 2FA off this gives `LoggedIn`. With 2FA on and no code it gives `TwoFactorRequired`. |
| `LoginSystem.SecondFactorDecides` | secure_login.py:127-139 | In a well-formed table with 2FA on, the right password and a non-empty code, the user logs in exactly when the code equals the one generated for the current window, and is rejected otherwise. |
| `LoginSystem.NoExceptionInRange` | secure_login.py:127-135 | In a well-formed table, `login` raises nothing while the counter fits 64 bits. |
| `LoginSystem.SecureLoginSystem.constructor` | secure_login.py:12-17 | A new system has an empty table and no current user, and satisfies the invariant. |
| `LoginSystem.SecureLoginSystem.RegisterUser` | secure_login.py:41-59 | Registration succeeds if and only if the name is new, and a taken name changes nothing. On success exactly one row is added: the hash of the fresh salt and password, that salt, 2FA off, no secret. `current_user` is unchanged and the invariant is kept. |
| `LoginSystem.SecureLoginSystem.Login` | secure_login.py:105-139 | The result is `Authenticate` on the old table. The table is unchanged. `current_user` becomes the name exactly when the result is `LoggedIn`, and otherwise stays as it was. |
| `LoginSystem.SecureLoginSystem.Logout` | secure_login.py:141-147 | A truthy current user is cleared. `None` and `""` are left as they are, and the table is unchanged. |
| `LoginSystem.SecureLoginSystem.EnableTwoFactor` | secure_login.py:82-103 | It returns a secret if and only if the truthy current user is `username`; otherwise it changes nothing and returns `None`. On success only that user's row changes: 2FA is set and the secret becomes the base32 text of the random bytes. The invariant is kept. |

## Left out

- SQLite: the connection, `create_tables`, cursors, `commit` and `close`. The table is a map-valued field.
- The `id` column, and `display_users`, which only formats the table for printing.
- All printing, `clear_screen`, the interactive menu in `main`, `input`, `getpass` and `time.sleep`.
- The implementations of SHA-256, HMAC-SHA1 and base32 (RFC 4648 section 6). They are library calls, modelled as uninterpreted functions with the properties stated above.
- `secrets.token_hex` and `os.urandom`. They are random sources, taken as parameters.
- `time.time()` returns a float. The model reads the clock in whole seconds and takes an integer time step.
- `LoginSystem.SecureLoginSystem.constructor` starts from an empty table. The source's `__init__` may open an existing database file, whose rows the model does not assume to be well formed.
- `LoginSystem.SecureLoginSystem.EnableTwoFactor` does not model one call: the `generate_totp_code` made only to print the current code (secure_login.py:101). That call raises, after the update is committed, if the counter is 2^64 or more.
- `LoginSystem.SecureLoginSystem.Login` requires the class invariant. Rows that did not come from `register_user` and `enable_2fa` are covered only by `LoginSystem.Authenticate`, which takes any table.
- Timing side channels are not modelled: the code compares with plain `==`.
