/**
 * Properties of sequences of login calls for one address: how failures accumulate,
 * when the lock engages, what a lock blocks, and how it lapses.
 */
module Lockout {
  import opened Common
  import opened Text
  import opened UserModel

  /** One login call: the password typed and the time it arrived. */
  datatype Attempt = Attempt(password: string, at: Millis)

  /** The outcomes of a run of login calls, in order, and the store they leave behind. */
  datatype Run = Run(outcomes: seq<LoginOutcome>, store: UserStore)

  /** Performs the login calls one after another against the same address. */
  function LoginAll(store: UserStore, email: string, attempts: seq<Attempt>,
                    compare: (string, string) -> bool): (r: Run)
    ensures |r.outcomes| == |attempts|
    ensures r.store.Keys == store.Keys
  {
    if attempts == [] then Run([], store)
    else
      var step := FindByCredentials(store, email, attempts[0].password, attempts[0].at, compare);
      var rest := LoginAll(step.store, email, attempts[1..], compare);
      Run([step.outcome] + rest.outcomes, rest.store)
  }

  /** The account is locked exactly when the failure count has reached the threshold. */
  predicate LockConsistent(u: User) {
    u.lockUntil.Some? <==> u.loginAttempts >= MaxLoginAttempts
  }

  predicate StoreLockConsistent(store: UserStore) {
    forall k :: k in store ==> LockConsistent(store[k])
  }

  /** A failed attempt keeps the lock in step with the failure count. */
  lemma IncKeepsLockConsistent(u: User, now: Millis)
    requires LockConsistent(u)
    ensures LockConsistent(IncLoginAttempts(u, now))
  {
  }

  /** Any run of login calls keeps every record's lock in step with its failure count. */
  lemma {:induction false} LoginAllKeepsLockConsistent(store: UserStore, email: string,
                                                       attempts: seq<Attempt>,
                                                       compare: (string, string) -> bool)
    requires StoreLockConsistent(store)
    ensures StoreLockConsistent(LoginAll(store, email, attempts, compare).store)
  {
    if attempts != [] {
      var step := FindByCredentials(store, email, attempts[0].password, attempts[0].at, compare);
      var key := ToLower(email);
      if key in store {
        IncKeepsLockConsistent(store[key], attempts[0].at);
      }
      assert StoreLockConsistent(step.store);
      LoginAllKeepsLockConsistent(step.store, email, attempts[1..], compare);
    }
  }

  /**
   * Wrong passwords against an active, unlocked account each fail with the generic
   * error and add one to the count; the call that brings the count to five sets a
   * two-hour lock from its own arrival time. Nothing else in the record changes.
   */
  lemma {:induction false} WrongPasswordsAccumulate(store: UserStore, email: string,
                                                    attempts: seq<Attempt>,
                                                    compare: (string, string) -> bool)
    requires ToLower(email) in store
    requires store[ToLower(email)].status == Active && store[ToLower(email)].lockUntil == None
    requires store[ToLower(email)].loginAttempts + |attempts| <= MaxLoginAttempts
    requires forall i :: 0 <= i < |attempts| ==> !compare(attempts[i].password, store[ToLower(email)].password)
    ensures var u := store[ToLower(email)];
            var r := LoginAll(store, email, attempts, compare);
            var n := u.loginAttempts + |attempts|;
            && (forall i :: 0 <= i < |attempts| ==> r.outcomes[i] == InvalidCredentials)
            && r.store[ToLower(email)] == u.(
                 loginAttempts := n,
                 lockUntil := if n == MaxLoginAttempts && attempts != []
                              then Some(attempts[|attempts| - 1].at + LockDuration) else None)
    decreases |attempts|
  {
    var key := ToLower(email);
    var u := store[key];
    if attempts != [] {
      var a := attempts[0];
      var step := FindByCredentials(store, email, a.password, a.at, compare);
      var v := IncLoginAttempts(u, a.at);
      assert step.outcome == InvalidCredentials;
      assert step.store == store[key := v];
      if |attempts| == 1 {
        assert attempts[1..] == [];
      } else {
        assert v == u.(loginAttempts := u.loginAttempts + 1);
        assert step.store[key] == v;
        forall i | 0 <= i < |attempts[1..]|
          ensures !compare(attempts[1..][i].password, step.store[key].password)
        {
          assert attempts[1..][i] == attempts[i + 1];
        }
        WrongPasswordsAccumulate(step.store, email, attempts[1..], compare);
        var rest := LoginAll(step.store, email, attempts[1..], compare);
        assert attempts[1..][|attempts[1..]| - 1] == attempts[|attempts| - 1];
        forall i | 0 <= i < |attempts|
          ensures LoginAll(store, email, attempts, compare).outcomes[i] == InvalidCredentials
        {
          if i > 0 {
            assert LoginAll(store, email, attempts, compare).outcomes[i] == rest.outcomes[i - 1];
          }
        }
      }
    }
  }

  /**
   * From a clean, active account, five wrong passwords lock it until two hours after the
   * fifth; a sixth call inside that window is refused as locked even with the right password.
   */
  lemma FiveFailuresLock(store: UserStore, email: string, attempts: seq<Attempt>,
                         password: string, at: Millis, compare: (string, string) -> bool)
    requires ToLower(email) in store
    requires store[ToLower(email)].status == Active
    requires store[ToLower(email)].loginAttempts == 0 && store[ToLower(email)].lockUntil == None
    requires |attempts| == MaxLoginAttempts
    requires forall i :: 0 <= i < |attempts| ==> !compare(attempts[i].password, store[ToLower(email)].password)
    requires at < attempts[|attempts| - 1].at + LockDuration
    ensures var r := LoginAll(store, email, attempts, compare);
            && r.store[ToLower(email)].loginAttempts == MaxLoginAttempts
            && r.store[ToLower(email)].lockUntil == Some(attempts[|attempts| - 1].at + LockDuration)
            && FindByCredentials(r.store, email, password, at, compare) == LoginStep(AccountLocked, r.store)
  {
    WrongPasswordsAccumulate(store, email, attempts, compare);
  }

  /** Fewer than five wrong passwords from a clean account never lock it. */
  lemma FewerFailuresDoNotLock(store: UserStore, email: string, attempts: seq<Attempt>,
                               compare: (string, string) -> bool)
    requires ToLower(email) in store
    requires store[ToLower(email)].status == Active
    requires store[ToLower(email)].loginAttempts == 0 && store[ToLower(email)].lockUntil == None
    requires |attempts| < MaxLoginAttempts
    requires forall i :: 0 <= i < |attempts| ==> !compare(attempts[i].password, store[ToLower(email)].password)
    ensures var v := LoginAll(store, email, attempts, compare).store[ToLower(email)];
            v.loginAttempts == |attempts| && v.lockUntil == None
  {
    WrongPasswordsAccumulate(store, email, attempts, compare);
  }

  /**
   * Calls that arrive while the lock holds are all refused as locked and change nothing,
   * whatever password they carry: the lock is never extended by them.
   */
  lemma {:induction false} LockedWindowIsInert(store: UserStore, email: string, attempts: seq<Attempt>,
                                               compare: (string, string) -> bool)
    requires FindActiveByEmail(store, email).Some?
    requires store[ToLower(email)].lockUntil.Some?
    requires forall i :: 0 <= i < |attempts| ==> attempts[i].at < store[ToLower(email)].lockUntil.value
    ensures var r := LoginAll(store, email, attempts, compare);
            && r.store == store
            && forall i :: 0 <= i < |attempts| ==> r.outcomes[i] == AccountLocked
  {
    if attempts != [] {
      LockedWindowIsInert(store, email, attempts[1..], compare);
      var rest := LoginAll(store, email, attempts[1..], compare);
      forall i | 0 <= i < |attempts|
        ensures LoginAll(store, email, attempts, compare).outcomes[i] == AccountLocked
      {
        if i > 0 {
          assert LoginAll(store, email, attempts, compare).outcomes[i] == rest.outcomes[i - 1];
        }
      }
    }
  }

  /** Once the lock time is reached, the right password logs in and clears count and lock. */
  lemma CorrectPasswordAfterLock(store: UserStore, email: string, password: string, at: Millis,
                                 compare: (string, string) -> bool)
    requires FindActiveByEmail(store, email).Some?
    requires store[ToLower(email)].lockUntil.Some? && store[ToLower(email)].lockUntil.value <= at
    requires compare(password, store[ToLower(email)].password)
    ensures var r := FindByCredentials(store, email, password, at, compare);
            && r.outcome == LoggedIn(store[ToLower(email)])
            && r.store[ToLower(email)].loginAttempts == 0
            && r.store[ToLower(email)].lockUntil == None
            && r.store[ToLower(email)].lastLogin == at
  {
  }

  /** After a lock has strictly lapsed, a wrong password drops it and restarts the count at one. */
  lemma WrongPasswordAfterLapse(store: UserStore, email: string, password: string, at: Millis,
                                compare: (string, string) -> bool)
    requires FindActiveByEmail(store, email).Some?
    requires store[ToLower(email)].lockUntil.Some? && store[ToLower(email)].lockUntil.value < at
    requires !compare(password, store[ToLower(email)].password)
    ensures var r := FindByCredentials(store, email, password, at, compare);
            && r.outcome == InvalidCredentials
            && r.store[ToLower(email)].loginAttempts == 1
            && r.store[ToLower(email)].lockUntil == None
  {
  }

  /**
   * At the very instant the lock ends the account is no longer locked, yet the lock has
   * not strictly lapsed either: a wrong password then keeps counting and, on a consistent
   * record, sets a new two-hour lock at once.
   */
  lemma WrongPasswordAtLockInstant(store: UserStore, email: string, password: string,
                                   compare: (string, string) -> bool)
    requires FindActiveByEmail(store, email).Some?
    requires LockConsistent(store[ToLower(email)]) && store[ToLower(email)].lockUntil.Some?
    requires !compare(password, store[ToLower(email)].password)
    ensures var u := store[ToLower(email)];
            var at := u.lockUntil.value;
            var r := FindByCredentials(store, email, password, at, compare);
            && r.outcome == InvalidCredentials
            && r.store[ToLower(email)].loginAttempts == u.loginAttempts + 1
            && r.store[ToLower(email)].lockUntil == Some(at + LockDuration)
  {
  }

  /**
   * Saving a record whose password was just assigned stores its hash, and that same
   * password then logs in, provided the hash comparison recognises the hash it made.
   */
  lemma SavedPasswordLogsIn(store: UserStore, email: string, u: User, salt: string, at: Millis,
                            bcrypt: (string, string) -> string, compare: (string, string) -> bool)
    requires u.status == Active && !IsLocked(u, at)
    requires compare(u.password, bcrypt(u.password, salt))
    ensures var saved := HashPasswordOnSave(u, true, salt, bcrypt);
            var r := FindByCredentials(store[ToLower(email) := saved], email, u.password, at, compare);
            r.outcome == LoggedIn(saved)
  {
  }
}
