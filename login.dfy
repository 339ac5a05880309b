/**
 * The `SecureLoginSystem` object: a table of users, standing for the SQLite `users` table,
 * and the name of the user who is logged in.
 */
module LoginSystem {
  import opened Wrappers
  import opened Crypto
  import opened Password
  import opened DecimalText
  import opened Totp

  /** A row of the `users` table: hash, salt, 2FA flag and 2FA secret (the `id` column is not modelled). */
  datatype UserRecord = UserRecord(passwordHash: string, salt: string, twoFactorEnabled: bool, twoFactorSecret: Option<string>)

  /**
   * What `login` returns: `False`, `"2FA_REQUIRED"` or `True`; `Raised` stands for an
   * exception escaping from the code check.
   */
  datatype LoginResult = Rejected | TwoFactorRequired | LoggedIn | Raised(error: TotpError)

  /** A row as `register_user` and `enable_2fa` leave it, for the password it was registered with. */
  ghost predicate WellFormedRecord(crypto: Primitives, rec: UserRecord, password: string) {
    && IsSaltToken(rec.salt)
    && rec.passwordHash == crypto.sha256(rec.salt + password)
    && (rec.twoFactorEnabled <==> rec.twoFactorSecret.Some?)
    && (rec.twoFactorSecret.Some? ==> crypto.base32.decode(rec.twoFactorSecret.value).Some?)
  }

  ghost predicate WellFormedTable(crypto: Primitives, users: map<string, UserRecord>, passwords: map<string, string>) {
    && users.Keys == passwords.Keys
    && forall name :: name in users ==> WellFormedRecord(crypto, users[name], passwords[name])
  }

  /**
   * The answer `login(username, password, totp_code)` gives for the table `users` at clock
   * reading `now`; `freshSalt` is the salt `hash_password` would draw if the stored one were empty.
   */
  function Authenticate(crypto: Primitives, users: map<string, UserRecord>, username: string, password: string,
                        totpCode: Option<string>, now: nat, freshSalt: string): (r: LoginResult)
    requires IsSaltToken(freshSalt)
    // an unknown name and a wrong password get the same answer
    ensures username !in users ==> r == Rejected
    ensures (username in users && users[username].salt != "" &&
             users[username].passwordHash != crypto.sha256(users[username].salt + password)) ==> r == Rejected
    // a code is asked for only when the password matched and 2FA is on
    ensures r == TwoFactorRequired ==> username in users && users[username].twoFactorEnabled && !Truthy(totpCode)
    // with 2FA on, only a six-digit code can log in
    ensures r == LoggedIn ==>
              username in users && (users[username].twoFactorEnabled ==> Truthy(totpCode) && IsSixDigitCode(totpCode.value))
    // an exception escapes only from the second factor, and `struct.error` wins over the secret
    ensures r.Raised? ==>
              username in users && users[username].twoFactorEnabled && Truthy(totpCode) &&
              (TimeCounter(now, DefaultTimeStep) >= Uint64Limit || users[username].twoFactorSecret.None? ||
               crypto.base32.decode(users[username].twoFactorSecret.value).None?)
    ensures r.Raised? ==> (r.error == CounterOutOfRange <==> TimeCounter(now, DefaultTimeStep) >= Uint64Limit)
  {
    if username !in users then Rejected
    else
      var rec := users[username];
      var (calculatedHash, _) := HashPassword(crypto.sha256, password, Some(rec.salt), freshSalt);
      if calculatedHash != rec.passwordHash then Rejected
      else if !rec.twoFactorEnabled then LoggedIn
      else if !Truthy(totpCode) then TwoFactorRequired
      // `verify_totp(None, code)` packs the counter before it decodes the secret
      else if rec.twoFactorSecret.None? then
        Raised(if TimeCounter(now, DefaultTimeStep) >= Uint64Limit then CounterOutOfRange else SecretNotDecodable)
      else
        match VerifyTotp(crypto, rec.twoFactorSecret.value, totpCode.value, now)
        case Failure(e) => Raised(e)
        case Success(verified) => if verified then LoggedIn else Rejected
  }

  /** In a well-formed table the password a user registered with passes the password check. */
  lemma RegisteredPasswordAccepted(crypto: Primitives, users: map<string, UserRecord>, passwords: map<string, string>,
                                   username: string, totpCode: Option<string>, now: nat, freshSalt: string)
    requires WellFormedTable(crypto, users, passwords) && username in users && IsSaltToken(freshSalt)
    ensures var r := Authenticate(crypto, users, username, passwords[username], totpCode, now, freshSalt);
            && (!users[username].twoFactorEnabled ==> r == LoggedIn)
            && (users[username].twoFactorEnabled && !Truthy(totpCode) ==> r == TwoFactorRequired)
  {
  }

  /**
   * In a well-formed table, once the password matched and a code is given, the user logs in
   * exactly when the code is the one generated for the current 30-second window, and is
   * rejected otherwise.
   */
  lemma SecondFactorDecides(crypto: Primitives, users: map<string, UserRecord>, passwords: map<string, string>,
                            username: string, code: string, now: nat, freshSalt: string)
    requires WellFormedTable(crypto, users, passwords) && username in users && IsSaltToken(freshSalt)
    requires users[username].twoFactorEnabled && code != ""
    requires TimeCounter(now, DefaultTimeStep) < Uint64Limit
    ensures var r := Authenticate(crypto, users, username, passwords[username], Some(code), now, freshSalt);
            var expected := GenerateTotpCode(crypto, users[username].twoFactorSecret.value, now, DefaultTimeStep);
            && expected.Success?
            && (r == LoggedIn <==> expected.value == code)
            && (r == Rejected <==> expected.value != code)
  {
    var secret := users[username].twoFactorSecret.value;
    var expected := GenerateTotpCode(crypto, secret, now, DefaultTimeStep);
    if IsSixDigitCode(code) && DigitsValue(code) == DigitsValue(expected.value) {
      DigitsValueInjective(code, expected.value);
    }
  }

  /** In a well-formed table, no exception escapes `login` while the counter fits 64 bits. */
  lemma NoExceptionInRange(crypto: Primitives, users: map<string, UserRecord>, passwords: map<string, string>,
                           username: string, password: string, totpCode: Option<string>, now: nat, freshSalt: string)
    requires WellFormedTable(crypto, users, passwords) && IsSaltToken(freshSalt)
    requires TimeCounter(now, DefaultTimeStep) < Uint64Limit
    ensures !Authenticate(crypto, users, username, password, totpCode, now, freshSalt).Raised?
  {
  }

  class SecureLoginSystem {
    /** The hashing, HMAC and base32 functions the system calls. */
    const crypto: Primitives
    /** The `users` table, keyed by the unique username. */
    var users: map<string, UserRecord>
    /** `self.current_user`: `None` until someone logs in. */
    var currentUser: Option<string>
    /** The password each user registered with: not stored by the system, kept to say what each hash is of. */
    ghost var passwords: map<string, string>

    ghost predicate Valid()
      reads this
    {
      && DecodesEncoded(crypto.base32)
      && WellFormedTable(crypto, users, passwords)
      && (currentUser.Some? ==> currentUser.value in users)
    }

    /** A system over a new, empty database. */
    constructor (crypto: Primitives)
      requires DecodesEncoded(crypto.base32)
      ensures Valid()
      ensures this.crypto == crypto && users == map[] && currentUser == None
    {
      this.crypto := crypto;
      users := map[];
      currentUser := None;
      passwords := map[];
    }

    /** `register_user(username, password)`; `freshSalt` is the salt `secrets.token_hex(16)` draws. */
    method RegisterUser(username: string, password: string, freshSalt: string) returns (registered: bool)
      requires Valid() && IsSaltToken(freshSalt)
      modifies this
      ensures Valid()
      ensures registered <==> username !in old(users)
      ensures !registered ==> users == old(users) && passwords == old(passwords)
      ensures registered ==> users == old(users)[username := UserRecord(crypto.sha256(freshSalt + password), freshSalt, false, None)]
      ensures registered ==> passwords == old(passwords)[username := password]
      ensures currentUser == old(currentUser)
    {
      if username in users {
        return false;
      }
      var (passwordHash, salt) := HashPassword(crypto.sha256, password, None, freshSalt);
      users := users[username := UserRecord(passwordHash, salt, false, None)];
      passwords := passwords[username := password];
      return true;
    }

    /** `login(username, password, totp_code)` with the clock reading `now`. */
    method Login(username: string, password: string, totpCode: Option<string>, now: nat, freshSalt: string)
      returns (result: LoginResult)
      requires Valid() && IsSaltToken(freshSalt)
      modifies this
      ensures Valid()
      ensures result == Authenticate(crypto, old(users), username, password, totpCode, now, freshSalt)
      ensures users == old(users) && passwords == old(passwords)
      ensures currentUser == if result == LoggedIn then Some(username) else old(currentUser)
    {
      if username !in users {
        return Rejected;
      }
      var record := users[username];
      var (calculatedHash, _) := HashPassword(crypto.sha256, password, Some(record.salt), freshSalt);
      if calculatedHash != record.passwordHash {
        return Rejected;
      }
      if record.twoFactorEnabled {
        if !Truthy(totpCode) {
          return TwoFactorRequired;
        }
        var verified := VerifyTotp(crypto, record.twoFactorSecret.value, totpCode.value, now);
        if verified.Failure? {
          return Raised(verified.error);
        }
        if !verified.value {
          return Rejected;
        }
      }
      currentUser := Some(username);
      return LoggedIn;
    }

    /** `logout()`: only a truthy current user is logged out. */
    method Logout()
      requires Valid()
      modifies this
      ensures Valid()
      ensures users == old(users) && passwords == old(passwords)
      ensures currentUser == if Truthy(old(currentUser)) then None else old(currentUser)
    {
      if Truthy(currentUser) {
        currentUser := None;
      }
    }

    /**
     * `enable_2fa(username)`; `randomBytes` are the ten bytes `os.urandom(10)` draws. Returns
     * the new base32 secret, or `None` when `username` is not the logged-in user.
     */
    method EnableTwoFactor(username: string, randomBytes: seq<Byte>) returns (secret: Option<string>)
      requires Valid() && |randomBytes| == 10
      modifies this
      ensures Valid()
      ensures secret.Some? <==> Truthy(old(currentUser)) && old(currentUser).value == username
      ensures secret.None? ==> users == old(users)
      ensures secret.Some? ==>
        && secret.value == crypto.base32.encode(randomBytes)
        && username in old(users)
        && users == old(users)[username := old(users)[username].(twoFactorEnabled := true, twoFactorSecret := secret)]
      ensures passwords == old(passwords) && currentUser == old(currentUser)
    {
      if !Truthy(currentUser) || currentUser.value != username {
        return None;
      }
      var encoded := crypto.base32.encode(randomBytes);
      if username in users {
        users := users[username := users[username].(twoFactorEnabled := true, twoFactorSecret := Some(encoded))];
      }
      return Some(encoded);
    }
  }

  /**
   * A session through the public operations: register, log in, enable 2FA, log out, and log in
   * again first without a code, then with the current one, then with a wrong one.
   */
  method TwoFactorSession(crypto: Primitives, salt: string, randomBytes: seq<Byte>, now: nat, wrongCode: string)
    requires DecodesEncoded(crypto.base32) && IsSaltToken(salt) && |randomBytes| == 10
    requires TimeCounter(now, DefaultTimeStep) < Uint64Limit
  {
    var system := new SecureLoginSystem(crypto);
    var registered := system.RegisterUser("alice", "Secret123!", salt);
    assert registered;
    var again := system.RegisterUser("alice", "other", salt);
    assert !again;
    var result := system.Login("alice", "Secret123!", None, now, salt);
    assert result == LoggedIn;
    var secret := system.EnableTwoFactor("alice", randomBytes);
    assert secret.Some?;
    system.Logout();
    assert system.currentUser == None;
    result := system.Login("alice", "Secret123!", None, now, salt);
    assert result == TwoFactorRequired && system.currentUser == None;
    var code := GenerateTotpCode(crypto, secret.value, now, DefaultTimeStep);
    SecondFactorDecides(crypto, system.users, system.passwords, "alice", code.value, now, salt);
    result := system.Login("alice", "Secret123!", Some(code.value), now, salt);
    assert result == LoggedIn && system.currentUser == Some("alice");
    if wrongCode != "" && wrongCode != code.value {
      system.Logout();
      SecondFactorDecides(crypto, system.users, system.passwords, "alice", wrongCode, now, salt);
      result := system.Login("alice", "Secret123!", Some(wrongCode), now, salt);
      assert result == Rejected && system.currentUser == None;
    }
  }
}
