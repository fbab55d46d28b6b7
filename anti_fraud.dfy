/**
 * The anti-fraud plugin's `before` hook on email/password registration.
 *
 * The hook reads the optional device fingerprint from the registration
 * payload. An absent or empty fingerprint lets the registration through.
 * Otherwise the hook looks up the `user` table for a row whose
 * `fingerprintHash` equals the fingerprint and, if one exists, refuses the
 * registration with code DEVICE_FINGERPRINT_BLOCKED and status 403. The hook
 * only reads the table; a registration that passes it appends the new row.
 */
module AntiFraud {
  import opened Wrappers
  import opened UserTable

  const BlockedCode: string := "DEVICE_FINGERPRINT_BLOCKED"
  const BlockedMessage: string := "This device is already linked to an account."
  const BlockedStatus: int := 403

  /** What the hook does: return normally (`Allow`) or throw a `BetterAuthError` (`Reject`). */
  datatype Outcome = Allow | Reject(code: string, message: string, status: int)

  /** The one error the hook throws. */
  function Blocked(): (r: Outcome)
    ensures r.Reject? && r.code == "DEVICE_FINGERPRINT_BLOCKED" && r.status == 403
    ensures r.message == "This device is already linked to an account."
  {
    Reject(BlockedCode, BlockedMessage, BlockedStatus)
  }

  /** JavaScript's `!fingerprint` for a value of type `string | undefined`. */
  predicate Falsy(fingerprint: Option<string>)
    ensures Falsy(fingerprint) <==> fingerprint.None? || |fingerprint.value| == 0
  {
    fingerprint.None? || fingerprint.value == ""
  }

  /** The `emailAndPassword.register` before-hook. */
  function BeforeRegister(fingerprint: Option<string>, users: seq<UserRow>): (r: Outcome)
    ensures r == Allow || r == Blocked()
    ensures Falsy(fingerprint) ==> r == Allow
    ensures !Falsy(fingerprint) && Linked(users, fingerprint.value) ==> r == Blocked()
    ensures !Falsy(fingerprint) && !Linked(users, fingerprint.value) ==> r == Allow
  {
    if Falsy(fingerprint) then Allow
    else if |SelectFirstByHash(users, fingerprint.value)| > 0 then Blocked()
    else Allow
  }

  /** The non-null fingerprint hashes stored in the table. */
  function KnownHashes(users: seq<UserRow>): (hs: set<string>)
    ensures forall i :: 0 <= i < |users| && users[i].fingerprintHash.Some? ==> users[i].fingerprintHash.value in hs
  {
    set i | 0 <= i < |users| && users[i].fingerprintHash.Some? :: users[i].fingerprintHash.value
  }

  lemma LinkedIffKnown(users: seq<UserRow>, fp: string)
    ensures Linked(users, fp) <==> fp in KnownHashes(users)
  {
    if fp in KnownHashes(users) {
      var i :| 0 <= i < |users| && users[i].fingerprintHash.Some? && users[i].fingerprintHash.value == fp;
      assert HashEquals(users[i], fp);
    }
  }

  /**
   * The decision depends on nothing but the set of stored non-null hashes:
   * not on row order, on how many rows share a hash, on rows whose hash is
   * NULL, nor on any other column.
   */
  lemma DecisionDependsOnlyOnKnownHashes(fingerprint: Option<string>, users: seq<UserRow>, others: seq<UserRow>)
    requires KnownHashes(users) == KnownHashes(others)
    ensures BeforeRegister(fingerprint, users) == BeforeRegister(fingerprint, others)
  {
    if !Falsy(fingerprint) {
      LinkedIffKnown(users, fingerprint.value);
      LinkedIffKnown(others, fingerprint.value);
    }
  }

  /**
   * Inserting a row anywhere in the table does not change the decision
   * unless its hash is exactly the submitted fingerprint; in particular a
   * row whose hash is NULL never causes a rejection.
   */
  lemma NonMatchingRowIrrelevant(fingerprint: Option<string>, users: seq<UserRow>, i: nat, u: UserRow)
    requires i <= |users|
    requires fingerprint.None? || !HashEquals(u, fingerprint.value)
    ensures BeforeRegister(fingerprint, users[..i] + [u] + users[i..]) == BeforeRegister(fingerprint, users)
  {
    var grown := users[..i] + [u] + users[i..];
    if !Falsy(fingerprint) {
      var fp := fingerprint.value;
      if Linked(users, fp) {
        var j :| 0 <= j < |users| && HashEquals(users[j], fp);
        if j < i {
          assert grown[j] == users[j];
        } else {
          assert grown[j + 1] == users[j];
        }
      }
      if Linked(grown, fp) {
        var j :| 0 <= j < |grown| && HashEquals(grown[j], fp);
        if j < i {
          assert users[j] == grown[j];
        } else {
          assert j != i;
          assert users[j - 1] == grown[j];
        }
      }
    }
  }

  /** A table whose hashes are all NULL lets every registration through. */
  lemma NullHashesNeverReject(fingerprint: Option<string>, users: seq<UserRow>)
    requires forall k :: 0 <= k < |users| ==> users[k].fingerprintHash.None?
    ensures BeforeRegister(fingerprint, users) == Allow
  {
  }

  /** The number of rows that carry exactly the hash `fp`. */
  function MatchCount(users: seq<UserRow>, fp: string): (n: nat)
    ensures n <= |users|
    ensures n > 0 <==> Linked(users, fp)
  {
    if users == [] then 0
    else (if HashEquals(users[0], fp) then 1 else 0) + MatchCount(users[1..], fp)
  }

  /** The filtered query returns every matching row, one per matching row. */
  lemma {:induction false} WhereReturnsEveryMatch(users: seq<UserRow>, fp: string)
    ensures |Where(users, fp)| == MatchCount(users, fp)
  {
    if users != [] {
      WhereReturnsEveryMatch(users[1..], fp);
    }
  }

  /**
   * The rule as written is a threshold of one: a non-empty fingerprint is
   * refused as soon as one stored row carries it, and one matching row and
   * many matching rows give the same rejection.
   */
  lemma EffectiveThresholdIsOne(fp: string, users: seq<UserRow>)
    requires fp != ""
    ensures BeforeRegister(Some(fp), users) == if MatchCount(users, fp) >= 1 then Blocked() else Allow
  {
  }

  /** Adding rows to the table never turns a rejection into an acceptance. */
  lemma RejectionPersists(fingerprint: Option<string>, users: seq<UserRow>, more: seq<UserRow>)
    requires forall k :: 0 <= k < |users| ==> users[k] in more
    requires BeforeRegister(fingerprint, users) == Blocked()
    ensures BeforeRegister(fingerprint, more) == Blocked()
  {
    var fp := fingerprint.value;
    var i :| 0 <= i < |users| && HashEquals(users[i], fp);
    var j :| 0 <= j < |more| && more[j] == users[i];
    assert HashEquals(more[j], fp);
  }

  /** The table after a registration attempt, with the hook's outcome. */
  datatype Registration = Registration(outcome: Outcome, users: seq<UserRow>)

  /**
   * A registration: run the before-hook, then, only if it allows, append the
   * new user's row. Which hash the new row carries is decided outside the
   * plugin, so the row is a parameter.
   */
  function Register(users: seq<UserRow>, fingerprint: Option<string>, newUser: UserRow): (r: Registration)
    ensures r.outcome == Allow || r.outcome == Blocked()
    ensures r.outcome == Blocked() <==> !Falsy(fingerprint) && Linked(users, fingerprint.value)
    ensures r.outcome.Reject? ==> r.users == users
    ensures r.outcome == Allow ==> |r.users| == |users| + 1 && r.users[..|users|] == users && r.users[|users|] == newUser
  {
    var outcome := BeforeRegister(fingerprint, users);
    Registration(outcome, if outcome == Allow then users + [newUser] else users)
  }

  /** No two rows share a non-empty hash. */
  predicate OneAccountPerDevice(users: seq<UserRow>)
  {
    forall i, j :: 0 <= i < j < |users| && users[i].fingerprintHash.Some? && users[i].fingerprintHash.value != "" ==>
      users[j].fingerprintHash != users[i].fingerprintHash
  }

  /**
   * If the registration pipeline stores the submitted fingerprint as the new
   * row's hash, the hook keeps the table at one account per non-empty
   * fingerprint.
   */
  lemma RegisterKeepsOneAccountPerDevice(users: seq<UserRow>, fingerprint: Option<string>, newUser: UserRow)
    requires OneAccountPerDevice(users)
    requires newUser.fingerprintHash == fingerprint
    ensures OneAccountPerDevice(Register(users, fingerprint, newUser).users)
  {
    var r := Register(users, fingerprint, newUser);
    if r.outcome == Allow {
      var after := r.users;
      forall i, j | 0 <= i < j < |after| && after[i].fingerprintHash.Some? && after[i].fingerprintHash.value != ""
        ensures after[j].fingerprintHash != after[i].fingerprintHash
      {
        if j == |users| {
          assert after[i] == users[i] && after[j] == newUser;
          assert !Falsy(fingerprint) ==> !HashEquals(users[i], fingerprint.value);
        } else {
          assert after[i] == users[i] && after[j] == users[j];
        }
      }
    }
  }

  /** One registration attempt: the submitted fingerprint and the row to create. */
  datatype Attempt = Attempt(fingerprint: Option<string>, newUser: UserRow)

  /** The table after a series of registration attempts, each one run through `Register`. */
  function RegisterAll(users: seq<UserRow>, attempts: seq<Attempt>): (after: seq<UserRow>)
    ensures |users| <= |after| <= |users| + |attempts|
    ensures after[..|users|] == users
    decreases attempts
  {
    if attempts == [] then users
    else RegisterAll(Register(users, attempts[0].fingerprint, attempts[0].newUser).users, attempts[1..])
  }

  /**
   * Over any history of registrations whose new rows store the submitted
   * fingerprint, the table never holds two accounts on one non-empty
   * fingerprint.
   */
  lemma {:induction false} RegisterAllKeepsOneAccountPerDevice(users: seq<UserRow>, attempts: seq<Attempt>)
    requires OneAccountPerDevice(users)
    requires forall k :: 0 <= k < |attempts| ==> attempts[k].newUser.fingerprintHash == attempts[k].fingerprint
    ensures OneAccountPerDevice(RegisterAll(users, attempts))
    decreases attempts
  {
    if attempts != [] {
      var a := attempts[0];
      RegisterKeepsOneAccountPerDevice(users, a.fingerprint, a.newUser);
      RegisterAllKeepsOneAccountPerDevice(Register(users, a.fingerprint, a.newUser).users, attempts[1..]);
    }
  }

  /**
   * With one account already on device "F1", a second registration from
   * that device is refused: the table tolerates one account per device,
   * not several.
   */
  lemma SecondAccountOnDeviceRefused(first: UserRow)
    requires first.fingerprintHash == Some("F1")
    ensures BeforeRegister(Some("F1"), [first]) == Blocked()
    ensures MatchCount([first], "F1") == 1
  {
    assert HashEquals([first][0], "F1");
  }
}
