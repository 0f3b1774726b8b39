/**
 * The registration form's submit handler: three checks in a fixed order, each ending the handler with its
 * own message, and on success a new account appended to the stored list and made the active account.
 */
module Register {
  import opened Wrappers
  import opened Text
  import opened Accounts

  const PasswordMismatch: string := "Passwords do not match"
  const PinInvalid: string := "PIN must be a 4-digit number (demo)"
  const EmailTaken: string := "An account with this email already exists. Please login."

  /** The anchored pattern [0-9]{n}$ at the start of s: n decimal digits, then the end of the input. */
  function MatchDigits(s: string, n: nat): bool
  {
    if n == 0 then s == []
    else s != [] && '0' <= s[0] <= '9' && MatchDigits(s[1..], n - 1)
  }

  /** /^[0-9]{4}$/.test(pin). */
  predicate PinPattern(pin: string)
  {
    MatchDigits(pin, 4)
  }

  /** A string of exactly n decimal digits. */
  predicate IsDigits(s: string, n: nat)
  {
    |s| == n && forall i :: 0 <= i < |s| ==> IsDecimalDigit(s[i])
  }

  /** The digit-run pattern accepts exactly the strings of n decimal digits. */
  lemma {:induction false} MatchDigitsExactly(s: string, n: nat)
    ensures MatchDigits(s, n) <==> IsDigits(s, n)
  {
    if n > 0 && s != [] {
      MatchDigitsExactly(s[1..], n - 1);
      if IsDigits(s, n) {
        assert forall i :: 0 <= i < |s[1..]| ==> s[1..][i] == s[i + 1];
      }
      if MatchDigits(s, n) {
        forall i | 0 <= i < |s|
          ensures IsDecimalDigit(s[i])
        {
          if i > 0 {
            assert s[i] == s[1..][i - 1];
          }
        }
      }
    }
  }

  /** The PIN is accepted exactly when it is four characters, each '0'-'9'. */
  lemma PinAccepted(pin: string)
    ensures PinPattern(pin) <==> IsDigits(pin, 4)
  {
    MatchDigitsExactly(pin, 4);
  }

  /** users.find(u => u.email.toLowerCase() === email.toLowerCase()), as a position. */
  function EmailOwner(users: seq<User>, email: string): (r: Option<nat>)
    ensures r.None? <==> forall j :: 0 <= j < |users| ==> !SameEmail(users[j].email, email)
    ensures r.Some? ==> r.value < |users| && SameEmail(users[r.value].email, email)
  {
    FirstIndex(users, (u: User) => SameEmail(u.email, email))
  }

  /**
   * The message of the first check that fails, or None when all pass: the password check comes first,
   * then the PIN pattern, then the email against every stored account.
   */
  function Validate(users: seq<User>, email: string, password: string, pin: string, confirm: string): (r: Option<string>)
    ensures r == Some(PasswordMismatch) <==> password != confirm
    ensures r == Some(PinInvalid) <==> password == confirm && !IsDigits(pin, 4)
    ensures r == Some(EmailTaken) <==>
      password == confirm && IsDigits(pin, 4) && exists j :: 0 <= j < |users| && SameEmail(users[j].email, email)
    ensures r.None? <==>
      password == confirm && IsDigits(pin, 4) && forall j :: 0 <= j < |users| ==> !SameEmail(users[j].email, email)
  {
    PinAccepted(pin);
    if password != confirm then Some(PasswordMismatch)
    else if !PinPattern(pin) then Some(PinInvalid)
    else if EmailOwner(users, email).Some? then Some(EmailTaken)
    else None
  }

  /** { id: Date.now(), name, email, password, pin }: no secret yet. */
  function NewUser(now: int, name: string, email: string, password: string, pin: string): (u: User)
    ensures u.id == now && u.name == name && u.email == email && u.password == password && u.pin == pin
    ensures !HasSecret(u)
  {
    User(now, name, email, password, pin, None)
  }

  /**
   * Storage after a submit: unchanged when a check fails; otherwise the list has grown by exactly one,
   * with the earlier entries unchanged and the new account last, and the new account is the active one.
   */
  function Registered(s: Session, now: int, name: string, email: string, password: string, pin: string, confirm: string): (r: Session)
    ensures Validate(s.users, email, password, pin, confirm).Some? ==> r == s
    ensures Validate(s.users, email, password, pin, confirm).None? ==>
      var u := NewUser(now, name, email, password, pin);
      && |r.users| == |s.users| + 1
      && r.users[..|s.users|] == s.users
      && r.users[|s.users|] == u
      && r.active == Some(u)
  {
    if Validate(s.users, email, password, pin, confirm).Some? then s
    else
      var u := NewUser(now, name, email, password, pin);
      assert (s.users + [u])[..|s.users|] == s.users;
      Session(s.users + [u], Some(u))
  }

  /** handleSubmit, with Date.now() as the input now; returns the error the form shows ("" on success). */
  method HandleSubmit(store: Store, now: int, name: string, email: string, password: string, pin: string, confirm: string)
    returns (error: string)
    modifies store
    ensures error == match Validate(old(store.users), email, password, pin, confirm) case None => "" case Some(m) => m
    ensures store.State() == Registered(old(store.State()), now, name, email, password, pin, confirm)
  {
    error := "";
    if password != confirm {
      error := PasswordMismatch;
      return;
    }
    if !PinPattern(pin) {
      error := PinInvalid;
      return;
    }
    var users := store.users;
    if EmailOwner(users, email).Some? {
      error := EmailTaken;
      return;
    }
    var newUser := NewUser(now, name, email, password, pin);
    users := users + [newUser];
    store.users := users;
    store.active := Some(newUser);
  }

  /** No two stored accounts share an email up to lower-casing. */
  predicate EmailsDistinct(users: seq<User>)
  {
    forall i, j :: 0 <= i < j < |users| ==> !SameEmail(users[i].email, users[j].email)
  }

  /** Registration keeps the emails of the stored accounts pairwise distinct. */
  lemma RegisterKeepsEmailsDistinct(s: Session, now: int, name: string, email: string, password: string, pin: string, confirm: string)
    requires EmailsDistinct(s.users)
    ensures EmailsDistinct(Registered(s, now, name, email, password, pin, confirm).users)
  {
    var r := Registered(s, now, name, email, password, pin, confirm);
    if Validate(s.users, email, password, pin, confirm).None? {
      forall i, j | 0 <= i < j < |r.users|
        ensures !SameEmail(r.users[i].email, r.users[j].email)
      {
        assert r.users[i] == s.users[i];
        if j < |s.users| {
          assert r.users[j] == s.users[j];
        } else {
          assert r.users[j].email == email;
        }
      }
    }
  }
}
