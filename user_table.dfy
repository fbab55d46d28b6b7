/**
 * The `user` table as the anti-fraud hook sees it, and the one query the hook
 * runs against it: select the rows whose `fingerprintHash` equals a given
 * value, keeping at most `limit` of them.
 */
module UserTable {
  import opened Wrappers

  /** One row of the `user` table. `fingerprintHash` is nullable and not unique. */
  datatype UserRow = UserRow(
    id: string,
    name: string,
    email: string,
    emailVerified: bool,
    fingerprintHash: Option<string>)

  /**
   * The SQL condition `fingerprint_hash = fp`. A NULL column never compares
   * equal to anything, so only a present hash that is exactly `fp` matches.
   */
  predicate HashEquals(u: UserRow, fp: string)
    ensures HashEquals(u, fp) ==> u.fingerprintHash == Some(fp)
    ensures u.fingerprintHash.None? ==> !HashEquals(u, fp)
  {
    u.fingerprintHash.Some? && u.fingerprintHash.value == fp
  }

  /** Some row of the table carries exactly the hash `fp`. */
  predicate Linked(users: seq<UserRow>, fp: string)
    ensures Linked(users, fp) <==> exists u :: u in users && HashEquals(u, fp)
  {
    exists i :: 0 <= i < |users| && HashEquals(users[i], fp)
  }

  /**
   * The rows selected by `where(eq(user.fingerprintHash, fp))`. SQL promises
   * no order without ORDER BY; the model returns them in table order.
   */
  function Where(users: seq<UserRow>, fp: string): (r: seq<UserRow>)
    ensures |r| <= |users|
    ensures multiset(r) <= multiset(users)
    ensures forall k :: 0 <= k < |r| ==> r[k] in users && HashEquals(r[k], fp)
    ensures forall i :: 0 <= i < |users| && HashEquals(users[i], fp) ==> users[i] in r
  {
    if users == [] then []
    else
      assert users == [users[0]] + users[1..];
      if HashEquals(users[0], fp) then [users[0]] + Where(users[1..], fp)
      else Where(users[1..], fp)
  }

  /** `.limit(n)`: at most `n` rows of a result; the model keeps the first `n` in its order. */
  function Limit(rows: seq<UserRow>, n: nat): (r: seq<UserRow>)
    ensures |r| == if |rows| < n then |rows| else n
    ensures forall k :: 0 <= k < |r| ==> r[k] == rows[k]
  {
    if |rows| < n then rows else rows[..n]
  }

  /** `db.select().from(user).where(eq(user.fingerprintHash, fp)).limit(1)`. */
  function SelectFirstByHash(users: seq<UserRow>, fp: string): (r: seq<UserRow>)
    ensures |r| <= 1
    ensures |r| > 0 <==> Linked(users, fp)
    ensures forall k :: 0 <= k < |r| ==> r[k] in users && HashEquals(r[k], fp)
  {
    var matches := Where(users, fp);
    assert Linked(users, fp) ==> |matches| > 0 by {
      if Linked(users, fp) {
        var i :| 0 <= i < |users| && HashEquals(users[i], fp);
        assert users[i] in matches;
      }
    }
    assert |matches| > 0 ==> Linked(users, fp) by {
      if |matches| > 0 {
        var i :| 0 <= i < |users| && users[i] == matches[0];
        assert HashEquals(users[i], fp);
      }
    }
    Limit(matches, 1)
  }
}
