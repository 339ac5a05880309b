/** Salted password digests, as `hash_password` computes them. */
module Password {
  import opened Wrappers
  import opened Crypto

  /** What `secrets.token_hex(16)` returns: 32 lower-case hexadecimal characters. */
  predicate IsSaltToken(s: string) {
    |s| == 32 && forall i :: 0 <= i < |s| ==> s[i] in "0123456789abcdef"
  }

  /**
   * `hash_password(password, salt)`, returning `(digest, salt used)`. A missing or empty
   * salt (`not salt`) is replaced by a new random one, which the caller passes in as
   * `freshSalt`.
   */
  function HashPassword(sha256: Sha256Hex, password: string, salt: Option<string>, freshSalt: string): (r: (string, string))
    requires IsSaltToken(freshSalt)
    ensures Truthy(salt) ==> r.1 == salt.value
    ensures !Truthy(salt) ==> r.1 == freshSalt
    ensures r.1 != "" && r.0 == sha256(r.1 + password)
  {
    var salt := if !Truthy(salt) then freshSalt else salt.value;
    (sha256(salt + password), salt)
  }

  /**
   * Hashing again with the salt a first call returned gives the same digest, whatever fresh
   * salt the second call is handed: the check `login` makes against what `register_user` stored.
   */
  lemma RehashWithReturnedSalt(sha256: Sha256Hex, password: string, salt: Option<string>, freshSalt: string, otherFreshSalt: string)
    requires IsSaltToken(freshSalt) && IsSaltToken(otherFreshSalt)
    ensures var (digest, usedSalt) := HashPassword(sha256, password, salt, freshSalt);
            HashPassword(sha256, password, Some(usedSalt), otherFreshSalt) == (digest, usedSalt)
  {
  }
}
