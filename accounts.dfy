/**
 * The account records the pages keep in localStorage, and the two storage slots they share:
 * 'verifyai_users' (the JSON array of all accounts) and 'verifyai_user_active' (the signed-in account).
 */
module Accounts {
  import opened Wrappers
  import opened Text

  /** One account record. `secret` is absent until the dashboard provisions one. */
  datatype User = User(id: int, name: string, email: string, password: string, pin: string, secret: Option<string>)

  /** `!user.secret` is false: the secret field is present and not the empty string (JavaScript truthiness). */
  predicate HasSecret(u: User)
  {
    u.secret.Some? && u.secret.value != ""
  }

  /** What the two storage slots hold at one moment. */
  datatype Session = Session(users: seq<User>, active: Option<User>)

  /**
   * Array.prototype.findIndex (and, through the index, Array.prototype.find):
   * the position of the first element satisfying p, or None where JavaScript gives -1 / undefined.
   */
  function FirstIndex<T>(s: seq<T>, p: T -> bool): (r: Option<nat>)
    ensures r.Some? ==> r.value < |s| && p(s[r.value])
    ensures r.Some? ==> forall j :: 0 <= j < r.value ==> !p(s[j])
    ensures r.None? <==> forall j :: 0 <= j < |s| ==> !p(s[j])
  {
    if s == [] then None
    else if p(s[0]) then Some(0)
    else
      match FirstIndex(s[1..], p)
      case None => None
      case Some(k) => Some(k + 1)
  }

  /** The position of the first record with the given id (users.findIndex(u => u.id === id)). */
  function IndexOfId(users: seq<User>, id: int): (r: Option<nat>)
    ensures r.Some? ==> r.value < |users| && users[r.value].id == id
    ensures r.Some? ==> forall j :: 0 <= j < r.value ==> users[j].id != id
    ensures r.None? <==> forall j :: 0 <= j < |users| ==> users[j].id != id
  {
    FirstIndex(users, (u: User) => u.id == id)
  }

  /** Two predicates that agree on every element of s find the same first match in s. */
  lemma FirstIndexAgree<T>(s: seq<T>, p: T -> bool, q: T -> bool)
    requires forall i :: 0 <= i < |s| ==> p(s[i]) == q(s[i])
    ensures FirstIndex(s, p) == FirstIndex(s, q)
  {
    var a, b := FirstIndex(s, p), FirstIndex(s, q);
    if a.Some? && b.Some? {
      assert q(s[a.value]) && p(s[b.value]);
    }
  }

  /** Both pages compare emails after toLowerCase() on each side. */
  predicate SameEmail(a: string, b: string)
  {
    ToLowerCase(a) == ToLowerCase(b)
  }

  /** localStorage, as far as the pages use it: the parsed account list and the parsed active account. */
  class Store {
    var users: seq<User>
    var active: Option<User>

    constructor (users: seq<User>, active: Option<User>)
      ensures this.users == users && this.active == active
    {
      this.users := users;
      this.active := active;
    }

    /** The contents of both slots. */
    function State(): Session
      reads this
    {
      Session(users, active)
    }
  }
}
