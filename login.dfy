/**
 * The login form's submit handler: the first stored account whose email matches ignoring case and whose
 * password matches exactly becomes the active account; the list itself is only read.
 */
module Login {
  import opened Wrappers
  import opened Text
  import opened Accounts

  const InvalidCredentials: string := "Invalid credentials. Try registering if you are new."

  /** u.email.toLowerCase() === email.toLowerCase() && u.password === password. */
  predicate Matches(u: User, email: string, password: string)
  {
    SameEmail(u.email, email) && u.password == password
  }

  /** users.find(...) with that predicate: the first matching account in list order. */
  function FindCredentials(users: seq<User>, email: string, password: string): (r: Option<User>)
    ensures r.Some? <==> exists i :: 0 <= i < |users| && Matches(users[i], email, password)
    ensures r.Some? ==>
      exists i :: 0 <= i < |users| && users[i] == r.value && Matches(users[i], email, password)
        && forall j :: 0 <= j < i ==> !Matches(users[j], email, password)
  {
    match FirstIndex(users, (u: User) => Matches(u, email, password))
    case Some(i) => Some(users[i])
    case None => None
  }

  /** handleSubmit; returns the error the form shows ("" on success). */
  method HandleSubmit(store: Store, email: string, password: string) returns (error: string)
    modifies store
    ensures store.users == old(store.users)
    ensures var found := FindCredentials(old(store.users), email, password);
      && (found.Some? ==> error == "" && store.active == found)
      && (found.None? ==> error == InvalidCredentials && store.active == old(store.active))
  {
    error := "";
    var users := store.users;
    var found := FindCredentials(users, email, password);
    if found.None? {
      error := InvalidCredentials;
      return;
    }
    store.active := found;
  }

  /** The email is compared ignoring case: two spellings that lower-case alike find the same account. */
  lemma EmailCaseInsensitive(users: seq<User>, email: string, email': string, password: string)
    requires ToLowerCase(email) == ToLowerCase(email')
    ensures FindCredentials(users, email, password) == FindCredentials(users, email', password)
  {
    FirstIndexAgree(users, (u: User) => Matches(u, email, password), (u: User) => Matches(u, email', password));
  }

  /** The password is compared exactly: a password that differs from every stored one for that email fails. */
  lemma WrongPasswordFails(users: seq<User>, email: string, password: string)
    requires forall i :: 0 <= i < |users| && SameEmail(users[i].email, email) ==> users[i].password != password
    ensures FindCredentials(users, email, password).None?
  {
  }
}
