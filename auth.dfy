/**
 * The credential check of the `login` handler: look the user up by email,
 * then compare the stored password with the one submitted.
 */
module Auth {
  import opened Wrappers

  /** One row of `users`: `id`, `username`, `email`, `password`. */
  datatype User = User(id: nat, username: string, email: string, password: string)

  /** Position of the first user with this email, or `|users|` when there is none. */
  function FirstWithEmail(users: seq<User>, email: string): (k: nat)
    ensures k <= |users|
    ensures forall j :: 0 <= j < k ==> users[j].email != email
    ensures k < |users| ==> users[k].email == email
  {
    if users == [] then 0
    else if users[0].email == email then 0
    else 1 + FirstWithEmail(users[1..], email)
  }

  /** `SELECT * FROM users WHERE email = %s` followed by `fetchone()`. */
  function UserByEmail(users: seq<User>, email: string): (r: Option<User>)
    ensures r.None? <==> forall i :: 0 <= i < |users| ==> users[i].email != email
    ensures r.Some? ==> exists k :: (0 <= k < |users| && users[k] == r.value && r.value.email == email
      && forall j :: 0 <= j < k ==> users[j].email != email)
  {
    var k := FirstWithEmail(users, email);
    if k < |users| then Some(users[k]) else None
  }

  /**
   * The check in `login`: a row was found and its stored password equals
   * the submitted one, compared as plain strings. The result is the user
   * who is then logged in, or nothing when the login is refused.
   */
  function Login(users: seq<User>, email: string, password: string): (r: Option<User>)
    ensures r.Some? ==> r.value in users && r.value.email == email && r.value.password == password
    ensures r.Some? ==> r == UserByEmail(users, email)
    ensures r.None? <==> UserByEmail(users, email).None? || UserByEmail(users, email).value.password != password
  {
    var u := UserByEmail(users, email);
    if u.Some? && u.value.password == password then u else None
  }

  /** `email` is `UNIQUE` in the `users` table. */
  predicate UniqueEmails(users: seq<User>) {
    forall i, j :: 0 <= i < j < |users| ==> users[i].email != users[j].email
  }

  /**
   * With unique emails, a login succeeds exactly when some user has both
   * this email and this password, and it logs in that user.
   */
  lemma LoginExactly(users: seq<User>, email: string, password: string)
    requires UniqueEmails(users)
    ensures Login(users, email, password).Some? <==>
      exists i :: 0 <= i < |users| && users[i].email == email && users[i].password == password
    ensures forall i :: 0 <= i < |users| && users[i].email == email && users[i].password == password ==>
      Login(users, email, password) == Some(users[i])
  {
    var k := FirstWithEmail(users, email);
    forall i | 0 <= i < |users| && users[i].email == email
      ensures i == k
    {
    }
  }
}
