/**
 * How the pages fit together: an account that registration creates can sign in with the same email and
 * password, and the dashboard then provisions its secret.
 */
module Flow {
  import opened Wrappers
  import opened Bytes
  import opened Accounts
  import Register
  import Login
  import Provisioning

  /** Right after a successful registration, logging in with the same email and password finds the new account. */
  lemma RegisterThenLogin(s: Session, now: int, name: string, email: string, password: string, pin: string, confirm: string)
    requires Register.Validate(s.users, email, password, pin, confirm).None?
    ensures var r := Register.Registered(s, now, name, email, password, pin, confirm);
      Login.FindCredentials(r.users, email, password) == Some(Register.NewUser(now, name, email, password, pin))
  {
    var r := Register.Registered(s, now, name, email, password, pin, confirm);
    var u := Register.NewUser(now, name, email, password, pin);
    var found := Login.FindCredentials(r.users, email, password);
    assert Login.Matches(r.users[|s.users|], email, password);
    var i :| 0 <= i < |r.users| && r.users[i] == found.value && Login.Matches(r.users[i], email, password)
      && forall j :: 0 <= j < i ==> !Login.Matches(r.users[j], email, password);
    if i < |s.users| {
      assert false;
    }
  }

  /** A freshly registered account has no secret, so the dashboard's first visit provisions one and appends nothing. */
  lemma RegisterThenProvision(s: Session, now: int, name: string, email: string, password: string, pin: string, confirm: string,
                              random: seq<byte>)
    requires Register.Validate(s.users, email, password, pin, confirm).None?
    requires |random| == Provisioning.SecretBytes
    ensures var r := Register.Registered(s, now, name, email, password, pin, confirm);
      var e := Provisioning.Ensured(r, random);
      && |e.users| == |r.users|
      && e.active.Some? && HasSecret(e.active.value)
  {
    var r := Register.Registered(s, now, name, email, password, pin, confirm);
    var u := Register.NewUser(now, name, email, password, pin);
    assert r.users[|s.users|].id == u.id;
    Provisioning.EnsureProvisions(r, random);
  }
}
