/** The `infos` table as the registration handler sees it: a sequence of
    user records in storage order, searched by email or username. */
module UserStore {
  import opened PhpText

  /** What `password_hash` stores for a password. Hashing is one-way and
      salted; the model keeps only which password the hash was made from and
      never compares a hash with a plaintext. */
  datatype Credential = PasswordHash(Bytes)

  /** One row of `infos`. The repeated password has no column. */
  datatype UserRecord = UserRecord(
    firstName: Bytes,
    lastName: Bytes,
    username: Bytes,
    email: Bytes,
    password: Credential,
    birthdate: Bytes)

  type Store = seq<UserRecord>

  /** The WHERE clause `email = ? OR username = ?`, compared byte for byte. */
  predicate Conflicts(r: UserRecord, email: Bytes, username: Bytes) {
    r.email == email || r.username == username
  }

  /** Some row already holds this email or this username. */
  predicate Taken(store: Store, email: Bytes, username: Bytes) {
    exists i :: 0 <= i < |store| && Conflicts(store[i], email, username)
  }

  /** Row `i` conflicts and no row before it does. */
  predicate FirstConflictAt(store: Store, email: Bytes, username: Bytes, i: int) {
    && 0 <= i < |store|
    && Conflicts(store[i], email, username)
    && forall j :: 0 <= j < i ==> !Conflicts(store[j], email, username)
  }

  /** The index of the first conflicting row. */
  function FirstConflict(store: Store, email: Bytes, username: Bytes): (i: nat)
    requires Taken(store, email, username)
    ensures FirstConflictAt(store, email, username, i)
  {
    if Conflicts(store[0], email, username) then 0
    else
      assert Taken(store[1..], email, username) by {
        var k :| 0 <= k < |store| && Conflicts(store[k], email, username);
        assert store[1..][k - 1] == store[k];
      }
      1 + FirstConflict(store[1..], email, username)
  }

  /** `SELECT * FROM infos WHERE email = ? OR username = ?`: the conflicting
      rows, in storage order. */
  function Select(store: Store, email: Bytes, username: Bytes): (rows: Store)
    ensures |rows| <= |store|
    ensures forall r :: r in rows ==> r in store && Conflicts(r, email, username)
    ensures forall i :: 0 <= i < |store| && Conflicts(store[i], email, username) ==> store[i] in rows
    ensures rows == [] <==> !Taken(store, email, username)
  {
    if store == [] then []
    else
      var rest := Select(store[1..], email, username);
      assert forall i :: 1 <= i < |store| ==> store[i] == store[1..][i - 1];
      if Conflicts(store[0], email, username) then [store[0]] + rest else rest
  }

  /** The first row the query returns is the first conflicting row in storage order. */
  lemma {:induction false} FirstRowIsFirstConflict(store: Store, email: Bytes, username: Bytes, i: int)
    requires FirstConflictAt(store, email, username, i)
    ensures Select(store, email, username) != [] && Select(store, email, username)[0] == store[i]
  {
    if i > 0 {
      assert !Conflicts(store[0], email, username);
      assert FirstConflictAt(store[1..], email, username, i - 1) by {
        assert forall j :: 0 <= j < i - 1 ==> store[1..][j] == store[j + 1];
      }
      FirstRowIsFirstConflict(store[1..], email, username, i - 1);
    }
  }

  /** No two rows share an email, and no two rows share a username. */
  ghost predicate Unique(store: Store) {
    forall i, j :: 0 <= i < j < |store| ==>
      store[i].email != store[j].email && store[i].username != store[j].username
  }

  /** Appending a row whose email and username are both new keeps the rows unique. */
  lemma AppendFreshKeepsUnique(store: Store, r: UserRecord)
    requires Unique(store) && !Taken(store, r.email, r.username)
    ensures Unique(store + [r])
  {
    var s := store + [r];
    forall i, j | 0 <= i < j < |s|
      ensures s[i].email != s[j].email && s[i].username != s[j].username
    {
      if j == |store| {
        assert !Conflicts(store[i], r.email, r.username);
      }
    }
  }
}
