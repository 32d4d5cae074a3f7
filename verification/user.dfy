/**
 * The user record and its account-security state machine: failed-login counting,
 * the temporary lock, the login step, the password-hash guard on save, and the
 * one-time reset and e-mail verification secrets.
 *
 * Clocks, randomness and cryptography are parameters: `now` is the current time in
 * milliseconds, `entropy` the bytes `crypto.randomBytes` returned, `bcrypt` and
 * `compare` stand for bcrypt's hash and compare, `sha256` for the hex SHA-256 digest.
 */
module UserModel {
  import opened Common
  import opened Text
  import Hex

  /** The three roles; `Regular` is the one stored as 'user'. */
  datatype Role = Regular | Author | Admin

  function RoleName(r: Role): string {
    match r
    case Regular => "user"
    case Author => "author"
    case Admin => "admin"
  }

  datatype Status = Active | Inactive | Suspended

  /** A stored one-time secret: the digest of the token handed out and the time it expires. */
  datatype Secret = Secret(digest: string, expire: Millis)

  /**
   * The fields of a user document the core reads or writes. `password` holds the
   * plaintext between assignment and save, and the bcrypt hash afterwards.
   * A `loginAttempts` field removed with `$unset` reads back as its default, 0.
   */
  datatype User = User(
    id: Id,
    email: string,
    password: string,
    role: Role,
    status: Status,
    loginAttempts: nat,
    lockUntil: Option<Millis>,
    lastLogin: Millis,
    resetPassword: Option<Secret>,
    emailVerification: Option<Secret>)

  /** Failed attempts that lock the account. */
  const MaxLoginAttempts: nat := 5
  /** How long a lock lasts: two hours. */
  const LockDuration: Millis := 2 * 60 * 60 * 1000
  /** Lifetime of a password-reset secret: ten minutes. */
  const ResetTokenLifetime: Millis := 10 * 60 * 1000
  /** Lifetime of an e-mail verification secret: twenty-four hours. */
  const VerificationTokenLifetime: Millis := 24 * 60 * 60 * 1000
  /** Random bytes behind each one-time token. */
  const TokenBytes: nat := 20

  /** The `isLocked` virtual: a lock is present and lies strictly in the future. */
  predicate IsLocked(u: User, now: Millis) {
    u.lockUntil.Some? && u.lockUntil.value > now
  }

  /** Once a lock is set, the account is locked at every earlier instant and at no later one. */
  lemma LockIsInterval(u: User, now: Millis)
    requires u.lockUntil.Some?
    ensures IsLocked(u, now) <==> now < u.lockUntil.value
    ensures !IsLocked(u, u.lockUntil.value)
  {
  }

  /**
   * `incLoginAttempts`: records one failed login. A lock that has strictly expired is
   * dropped and the count restarts at 1; otherwise the count grows by one and, when it
   * reaches the threshold on an account not currently locked, a fresh lock is set.
   */
  function IncLoginAttempts(u: User, now: Millis): (r: User)
    ensures r.(loginAttempts := u.loginAttempts, lockUntil := u.lockUntil) == u
    ensures u.lockUntil.Some? && u.lockUntil.value < now ==>
              r.loginAttempts == 1 && r.lockUntil == None
    ensures !(u.lockUntil.Some? && u.lockUntil.value < now) ==>
              r.loginAttempts == u.loginAttempts + 1
    ensures IsLocked(u, now) ==> r.lockUntil == u.lockUntil
    ensures (!(u.lockUntil.Some? && u.lockUntil.value < now) && !IsLocked(u, now)
             && u.loginAttempts + 1 >= MaxLoginAttempts) ==> r.lockUntil == Some(now + LockDuration)
    ensures (!(u.lockUntil.Some? && u.lockUntil.value < now)
             && u.loginAttempts + 1 < MaxLoginAttempts) ==> r.lockUntil == u.lockUntil
    ensures r.lockUntil != u.lockUntil ==>
              r.lockUntil == None || (r.lockUntil == Some(now + LockDuration) && r.loginAttempts >= MaxLoginAttempts)
  {
    if u.lockUntil.Some? && u.lockUntil.value < now then
      u.(loginAttempts := 1, lockUntil := None)
    else if u.loginAttempts + 1 >= MaxLoginAttempts && !IsLocked(u, now) then
      u.(loginAttempts := u.loginAttempts + 1, lockUntil := Some(now + LockDuration))
    else
      u.(loginAttempts := u.loginAttempts + 1)
  }

  /** `resetLoginAttempts`: clears the count and the lock and stamps the login time. */
  function ResetLoginAttempts(u: User, now: Millis): (r: User)
    ensures r.(loginAttempts := u.loginAttempts, lockUntil := u.lockUntil, lastLogin := u.lastLogin) == u
    ensures r.loginAttempts == 0 && r.lastLogin == now
    ensures forall t :: !IsLocked(r, t)
  {
    u.(loginAttempts := 0, lockUntil := None, lastLogin := now)
  }

  /**
   * The pre-save hook: the password field is replaced by its bcrypt hash only when it
   * was modified, so a stored hash is never hashed a second time.
   */
  function HashPasswordOnSave(u: User, passwordModified: bool, salt: string,
                              bcrypt: (string, string) -> string): (r: User)
    ensures r.(password := u.password) == u
    ensures !passwordModified ==> r.password == u.password
    ensures passwordModified ==> r.password == bcrypt(u.password, salt)
  {
    if passwordModified then u.(password := bcrypt(u.password, salt)) else u
  }

  /** A freshly issued one-time token and the record that now stores its digest. */
  datatype Issued = Issued(token: string, user: User)

  /** The token is the hex text of the random bytes; only its digest is kept, with the expiry. */
  function NewSecret(entropy: seq<Hex.byte>, now: Millis, lifetime: Millis,
                     sha256: string -> string): (r: (string, Secret))
    ensures Hex.Decode(r.0) == Some(entropy)
    ensures r.1.digest == sha256(r.0) && r.1.expire == now + lifetime
  {
    Hex.DecodeEncode(entropy);
    var token := Hex.Encode(entropy);
    (token, Secret(sha256(token), now + lifetime))
  }

  /** `getResetPasswordToken`: a ten-minute secret. */
  function GetResetPasswordToken(u: User, entropy: seq<Hex.byte>, now: Millis,
                                 sha256: string -> string): (r: Issued)
    requires |entropy| == TokenBytes
    ensures |r.token| == 2 * TokenBytes && forall i :: 0 <= i < |r.token| ==> Hex.IsHexDigit(r.token[i])
    ensures Hex.Decode(r.token) == Some(entropy)
    ensures r.user.resetPassword == Some(Secret(sha256(r.token), now + ResetTokenLifetime))
    ensures r.user.(resetPassword := u.resetPassword) == u
  {
    var (token, secret) := NewSecret(entropy, now, ResetTokenLifetime, sha256);
    Issued(token, u.(resetPassword := Some(secret)))
  }

  /** `getEmailVerificationToken`: a twenty-four-hour secret. */
  function GetEmailVerificationToken(u: User, entropy: seq<Hex.byte>, now: Millis,
                                     sha256: string -> string): (r: Issued)
    requires |entropy| == TokenBytes
    ensures |r.token| == 2 * TokenBytes && forall i :: 0 <= i < |r.token| ==> Hex.IsHexDigit(r.token[i])
    ensures Hex.Decode(r.token) == Some(entropy)
    ensures r.user.emailVerification == Some(Secret(sha256(r.token), now + VerificationTokenLifetime))
    ensures r.user.(emailVerification := u.emailVerification) == u
  {
    var (token, secret) := NewSecret(entropy, now, VerificationTokenLifetime, sha256);
    Issued(token, u.(emailVerification := Some(secret)))
  }

  /**
   * How a stored secret is meant to be redeemed: the presented token's digest matches
   * and the expiry has not passed.
   */
  predicate SecretAccepts(stored: Option<Secret>, presented: string, now: Millis,
                          sha256: string -> string) {
    stored.Some? && sha256(presented) == stored.value.digest && now < stored.value.expire
  }

  /** A reset token is redeemable for exactly its ten-minute lifetime. */
  lemma ResetTokenWindow(u: User, entropy: seq<Hex.byte>, issuedAt: Millis, at: Millis,
                         sha256: string -> string)
    requires |entropy| == TokenBytes && issuedAt <= at
    ensures var r := GetResetPasswordToken(u, entropy, issuedAt, sha256);
            SecretAccepts(r.user.resetPassword, r.token, at, sha256) <==> at < issuedAt + ResetTokenLifetime
  {
  }

  /** A verification token is redeemable for exactly its twenty-four-hour lifetime. */
  lemma VerificationTokenWindow(u: User, entropy: seq<Hex.byte>, issuedAt: Millis, at: Millis,
                                sha256: string -> string)
    requires |entropy| == TokenBytes && issuedAt <= at
    ensures var r := GetEmailVerificationToken(u, entropy, issuedAt, sha256);
            SecretAccepts(r.user.emailVerification, r.token, at, sha256) <==> at < issuedAt + VerificationTokenLifetime
  {
  }

  /** Users by stored e-mail address; the schema stores addresses lower-cased and unique. */
  type UserStore = map<string, User>

  datatype LoginOutcome = InvalidCredentials | AccountLocked | LoggedIn(user: User)

  /** The outcome of one login call together with the store it leaves behind. */
  datatype LoginStep = LoginStep(outcome: LoginOutcome, store: UserStore)

  const InvalidCredentialsMessage: string := "Invalid credentials"
  const AccountLockedMessage: string := "Account temporarily locked due to too many failed login attempts"

  /**
   * The message of the error a failed login throws: a lock gets its own message, and
   * every other failure shares the generic one.
   */
  function ErrorMessage(o: LoginOutcome): (m: string)
    requires !o.LoggedIn?
    ensures m == InvalidCredentialsMessage <==> o.InvalidCredentials?
    ensures m == AccountLockedMessage <==> o.AccountLocked?
  {
    if o.InvalidCredentials? then InvalidCredentialsMessage else AccountLockedMessage
  }

  /** The lookup `findOne({ email: email.toLowerCase(), status: 'active' })`. */
  function FindActiveByEmail(store: UserStore, email: string): (r: Option<User>)
    ensures r.Some? <==> ToLower(email) in store && store[ToLower(email)].status == Active
    ensures r.Some? ==> r.value == store[ToLower(email)]
  {
    var key := ToLower(email);
    if key in store && store[key].status == Active then Some(store[key]) else None
  }

  /**
   * `findByCredentials`: the login step. An unknown or non-active address and a wrong
   * password fail alike; a locked account fails distinctly without its password being
   * looked at; a wrong password records a failed attempt; a right one resets the count.
   * The user returned is the record as loaded, before the reset was written.
   */
  function FindByCredentials(store: UserStore, email: string, password: string, now: Millis,
                             compare: (string, string) -> bool): (r: LoginStep)
    ensures r.store.Keys == store.Keys
    ensures forall k :: k in store && k != ToLower(email) ==> r.store[k] == store[k]
    ensures FindActiveByEmail(store, email).None? ==> r == LoginStep(InvalidCredentials, store)
    ensures r.outcome.AccountLocked? <==>
              FindActiveByEmail(store, email).Some? && IsLocked(store[ToLower(email)], now)
    ensures r.outcome.AccountLocked? ==> r.store == store
    ensures r.outcome.LoggedIn? <==>
              && FindActiveByEmail(store, email).Some?
              && !IsLocked(store[ToLower(email)], now)
              && compare(password, store[ToLower(email)].password)
    ensures r.outcome.LoggedIn? ==>
              && r.outcome.user == store[ToLower(email)]
              && r.store == store[ToLower(email) := ResetLoginAttempts(r.outcome.user, now)]
    ensures r.outcome.InvalidCredentials? && FindActiveByEmail(store, email).Some? ==>
              r.store == store[ToLower(email) := IncLoginAttempts(store[ToLower(email)], now)]
  {
    match FindActiveByEmail(store, email)
    case None => LoginStep(InvalidCredentials, store)
    case Some(u) =>
      if IsLocked(u, now) then LoginStep(AccountLocked, store)
      else if !compare(password, u.password) then
        LoginStep(InvalidCredentials, store[ToLower(email) := IncLoginAttempts(u, now)])
      else
        LoginStep(LoggedIn(u), store[ToLower(email) := ResetLoginAttempts(u, now)])
  }

  /** While locked, the outcome does not depend on the password or on the hash comparison. */
  lemma LockedIgnoresPassword(store: UserStore, email: string, p1: string, p2: string, now: Millis,
                              c1: (string, string) -> bool, c2: (string, string) -> bool)
    requires FindActiveByEmail(store, email).Some? && IsLocked(store[ToLower(email)], now)
    ensures FindByCredentials(store, email, p1, now, c1) == FindByCredentials(store, email, p2, now, c2)
    ensures FindByCredentials(store, email, p1, now, c1) == LoginStep(AccountLocked, store)
  {
  }

  /**
   * An unknown address and a known but inactive or suspended one are indistinguishable
   * to the caller and leave the store alone.
   */
  lemma NoEnumeration(store: UserStore, email: string, password: string, now: Millis,
                      compare: (string, string) -> bool)
    requires ToLower(email) !in store || store[ToLower(email)].status != Active
    ensures FindByCredentials(store, email, password, now, compare) == LoginStep(InvalidCredentials, store)
  {
  }
}
