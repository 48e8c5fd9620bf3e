/**
 * The credential scan of app.py: `api_key_auth`, which gates uploads, and
 * `get_user_by_key`, which names the uploader. Both fetch every row of the
 * users table and test the key against the stored hashes in order, stopping
 * at the first hash that accepts it.
 */
module Credentials {

  import opened Wrappers

  /** A row of the users table; `apiKey` holds the pbkdf2 hash of the raw key. */
  datatype UserRow = UserRow(username: string, apiKey: string)

  /**
   * `pbkdf2_sha256.verify(key, hash)`. Hashing is not part of this model: a
   * verifier is any total predicate on a presented key and a stored hash.
   */
  type Verifier = (string, string) -> bool

  /** What the auth dependency does: let the request through, or raise an HTTPException. */
  datatype AuthResult = Pass | Raise(status: int, detail: string)

  /** Some stored hash accepts `key`. */
  predicate KeyAccepted(key: string, users: seq<UserRow>, verify: Verifier) {
    exists i :: 0 <= i < |users| && verify(key, users[i].apiKey)
  }

  /** Row `i` is the first row, in scan order, whose hash accepts `key`. */
  predicate FirstMatchAt(key: string, users: seq<UserRow>, verify: Verifier, i: int) {
    && 0 <= i < |users|
    && verify(key, users[i].apiKey)
    && forall j :: 0 <= j < i ==> !verify(key, users[j].apiKey)
  }

  /**
   * `api_key_auth`: rejects with 401 "Forbidden" when the table is empty or no
   * stored hash accepts the key, and lets the request through otherwise.
   */
  method ApiKeyAuth(apiKey: string, users: seq<UserRow>, verify: Verifier) returns (r: AuthResult)
    ensures users == [] ==> r == Raise(401, "Forbidden")
    ensures r == Pass <==> KeyAccepted(apiKey, users, verify)
    ensures r != Pass ==> r == Raise(401, "Forbidden")
  {
    if users == [] {
      return Raise(401, "Forbidden");
    }
    var invalid := true;
    var i := 0;
    while i < |users|
      invariant 0 <= i <= |users|
      invariant invalid
      invariant forall j :: 0 <= j < i ==> !verify(apiKey, users[j].apiKey)
    {
      if verify(apiKey, users[i].apiKey) {
        invalid := false;
        break;
      }
      i := i + 1;
    }
    if invalid {
      return Raise(401, "Forbidden");
    }
    r := Pass;
  }

  /**
   * `get_user_by_key`: the username of the first row whose hash accepts `key`,
   * or None when no row does.
   */
  function UserByKey(key: string, users: seq<UserRow>, verify: Verifier): (r: Option<string>)
    ensures r.None? <==> !KeyAccepted(key, users, verify)
    ensures r.Some? ==> exists i :: FirstMatchAt(key, users, verify, i) && users[i].username == r.value
  {
    if users == [] then None
    else if verify(key, users[0].apiKey) then
      assert FirstMatchAt(key, users, verify, 0);
      Some(users[0].username)
    else
      var r := UserByKey(key, users[1..], verify);
      assert forall i :: 0 <= i < |users| - 1 ==> users[1..][i] == users[i + 1];
      r
  }

  /** There is at most one first match, so the uploader get_user_by_key names is determined. */
  lemma FirstMatchUnique(key: string, users: seq<UserRow>, verify: Verifier, i: int, j: int)
    requires FirstMatchAt(key, users, verify, i) && FirstMatchAt(key, users, verify, j)
    ensures i == j
  {
  }

  /**
   * The two scans agree: a key passes `api_key_auth` exactly when
   * `get_user_by_key` finds a user for it, and then that user's row is the
   * first accepting one.
   */
  lemma AuthorizedIffUserFound(key: string, users: seq<UserRow>, verify: Verifier)
    ensures KeyAccepted(key, users, verify) <==> UserByKey(key, users, verify).Some?
    ensures KeyAccepted(key, users, verify) ==>
      exists i :: FirstMatchAt(key, users, verify, i) && UserByKey(key, users, verify) == Some(users[i].username)
  {
  }
}
