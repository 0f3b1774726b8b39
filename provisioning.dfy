/**
 * The per-user secret of the dashboard: generateRandomHexSecret (random bytes written as lower-case
 * hex), the provisioning effect that gives a signed-in account its first secret, and the reset button
 * that replaces it. The random bytes crypto.getRandomValues would deliver are an input.
 */
module Provisioning {
  import opened Wrappers
  import opened Bytes
  import opened Text
  import opened Accounts

  /** The dashboard always asks for 20 random bytes, i.e. a 40-character secret. */
  const SecretBytes: nat := 20

  /** b.toString(16).padStart(2, '0') for one byte. */
  function ByteHex(b: byte): string
  {
    PadStart(ToRadixString(b, 16), 2, '0')
  }

  /** The two hex digits of a byte, high nibble first. */
  function HexPair(b: byte): (s: string)
    ensures |s| == 2
  {
    [DigitChar(b / 16), DigitChar(b % 16)]
  }

  /** Every byte becomes exactly two lower-case hex digits, high nibble first. */
  lemma ByteHexDigits(b: byte)
    ensures ByteHex(b) == HexPair(b)
  {
    if b < 16 {
      assert ToRadixString(b, 16) == [DigitChar(b)];
      assert Repeat('0', 1) == ['0'];
    } else {
      assert b / 16 < 16;
      assert ToRadixString(b / 16, 16) == [DigitChar(b / 16)];
      assert ToRadixString(b, 16) == [DigitChar(b / 16), DigitChar(b % 16)];
    }
  }

  /** Array.from(arr).map(b => b.toString(16).padStart(2, '0')).join(''), with each piece in the form ByteHexDigits proves. */
  function HexEncode(bs: seq<byte>): (s: string)
    ensures |s| == 2 * |bs|
  {
    if bs == [] then "" else HexPair(bs[0]) + HexEncode(bs[1..])
  }

  /** HexEncode is the join of the per-byte strings the source maps each byte to. */
  lemma HexEncodeJoins(bs: seq<byte>)
    requires bs != []
    ensures HexEncode(bs) == ByteHex(bs[0]) + HexEncode(bs[1..])
  {
    ByteHexDigits(bs[0]);
  }

  /** c is one of '0'-'9', 'a'-'f'. */
  predicate IsLowerHexDigit(c: char)
  {
    CharValue(c) < 16
  }

  /** Reads a string of hex digit pairs back into bytes; None for an odd length or a character outside '0'-'9', 'a'-'f'. */
  function HexDecode(s: string): (r: Option<seq<byte>>)
    ensures r.Some? ==> |s| == 2 * |r.value|
    decreases |s|
  {
    if |s| == 0 then Some([])
    else if |s| == 1 || !IsLowerHexDigit(s[0]) || !IsLowerHexDigit(s[1]) then None
    else
      match HexDecode(s[2..])
      case None => None
      case Some(rest) => Some([(CharValue(s[0]) * 16 + CharValue(s[1])) as byte] + rest)
  }

  /** The encoding is lower-case hex throughout, and therefore ASCII. */
  lemma {:induction false} HexEncodeDigits(bs: seq<byte>)
    ensures forall i :: 0 <= i < |HexEncode(bs)| ==> IsLowerHexDigit(HexEncode(bs)[i])
    ensures IsAscii(HexEncode(bs))
  {
    if bs != [] {
      var s, rest := HexEncode(bs), HexEncode(bs[1..]);
      HexEncodeDigits(bs[1..]);
      assert s == HexPair(bs[0]) + rest;
      forall i | 0 <= i < |s|
        ensures IsLowerHexDigit(s[i]) && s[i] as int < 0x80
      {
        if i >= 2 {
          assert s[i] == rest[i - 2];
        }
      }
    }
  }

  /** Decoding the pairs gives back the bytes. */
  lemma {:induction false} HexRoundTrip(bs: seq<byte>)
    ensures HexDecode(HexEncode(bs)) == Some(bs)
  {
    if bs != [] {
      var b, s := bs[0], HexEncode(bs);
      assert s == HexPair(b) + HexEncode(bs[1..]);
      assert s[2..] == HexEncode(bs[1..]);
      HexRoundTrip(bs[1..]);
      assert bs == [b] + bs[1..];
    }
  }

  /** A lower-case hex digit is the character toString prints for its own value. */
  lemma DigitCharOfValue(c: char)
    requires IsLowerHexDigit(c)
    ensures DigitChar(CharValue(c)) == c
  {
  }

  /** Whatever decodes is exactly the encoding of what it decodes to. */
  lemma {:induction false} HexDecodeRoundTrip(s: string)
    requires HexDecode(s).Some?
    ensures HexEncode(HexDecode(s).value) == s
    decreases |s|
  {
    if |s| > 0 {
      var rest := HexDecode(s[2..]).value;
      var h, l := CharValue(s[0]), CharValue(s[1]);
      var b := (h * 16 + l) as byte;
      assert HexDecode(s).value == [b] + rest;
      HexDecodeRoundTrip(s[2..]);
      assert b / 16 == h && b % 16 == l;
      DigitCharOfValue(s[0]);
      DigitCharOfValue(s[1]);
      assert ([b] + rest)[1..] == rest;
      assert s == s[..2] + s[2..];
    }
  }

  /** Distinct random bytes give distinct secrets. */
  lemma HexEncodeInjective(a: seq<byte>, b: seq<byte>)
    requires a != b
    ensures HexEncode(a) != HexEncode(b)
  {
    HexRoundTrip(a);
    HexRoundTrip(b);
  }

  /** crypto.getRandomValues(arr): fills the typed array, element by element, with the bytes the source of randomness supplies. */
  method GetRandomValues(arr: array<byte>, random: seq<byte>)
    requires arr.Length == |random|
    modifies arr
    ensures arr[..] == random
  {
    for i := 0 to arr.Length
      invariant arr[..i] == random[..i]
    {
      arr[i] := random[i];
    }
  }

  /** generateRandomHexSecret(len): len random bytes, written as 2 * len lower-case hex digits. */
  method GenerateRandomHexSecret(len: nat, random: seq<byte>) returns (secret: string)
    requires |random| == len
    ensures secret == HexEncode(random)
    ensures |secret| == 2 * len
    ensures forall i :: 0 <= i < |secret| ==> IsLowerHexDigit(secret[i])
  {
    var arr := new byte[len];
    GetRandomValues(arr, random);
    secret := HexEncode(arr[..]);
    HexEncodeDigits(random);
  }

  /** users[idx] = u for the first entry with u's id; the list is left alone when no entry has that id. */
  function ReplaceById(users: seq<User>, u: User): (r: seq<User>)
    ensures |r| == |users|
    ensures forall j :: 0 <= j < |r| ==> r[j] == if IndexOfId(users, u.id) == Some(j) then u else users[j]
    ensures IndexOfId(users, u.id).None? ==> r == users
  {
    match IndexOfId(users, u.id)
    case Some(i) => users[i := u]
    case None => users
  }

  /** The provisioning effect's list update: replace the entry with u's id, or push u when there is none. */
  function UpsertById(users: seq<User>, u: User): (r: seq<User>)
    ensures IndexOfId(users, u.id).Some? ==> r == ReplaceById(users, u)
    ensures IndexOfId(users, u.id).None? ==> r == users + [u]
    ensures |users| <= |r| <= |users| + 1
    ensures exists j :: 0 <= j < |r| && r[j] == u
  {
    match IndexOfId(users, u.id)
    case Some(i) => ReplaceById(users, u)
    case None =>
      assert (users + [u])[|users|] == u;
      users + [u]
  }

  /** The account with its secret set to the given one ({ ...activeUser, secret }). */
  function WithSecret(u: User, secret: string): (v: User)
    ensures v.secret == Some(secret)
    ensures v.id == u.id && v.name == u.name && v.email == u.email && v.password == u.password && v.pin == u.pin
  {
    u.(secret := Some(secret))
  }

  /**
   * What the provisioning effect leaves in storage: nothing happens without a signed-in account or when it
   * already has a secret; otherwise the account gets the hex of the random bytes as its secret, becomes the
   * active account, and is replaced or appended in the list.
   */
  function Ensured(s: Session, random: seq<byte>): (r: Session)
    ensures s.active.None? || HasSecret(s.active.value) ==> r == s
    ensures s.active.Some? && !HasSecret(s.active.value) ==>
      var u := WithSecret(s.active.value, HexEncode(random));
      r.active == Some(u) && r.users == UpsertById(s.users, u)
  {
    match s.active
    case None => s
    case Some(a) =>
      if HasSecret(a) then s
      else
        var u := WithSecret(a, HexEncode(random));
        Session(UpsertById(s.users, u), Some(u))
  }

  /** The first useEffect of the dashboard, run against storage. */
  method EnsureSecret(store: Store, random: seq<byte>)
    requires |random| == SecretBytes
    modifies store
    ensures store.State() == Ensured(old(store.State()), random)
  {
    if store.active.None? {
      return;
    }
    var activeUser := store.active.value;
    if !HasSecret(activeUser) {
      var secret := GenerateRandomHexSecret(SecretBytes, random);
      var newUser := WithSecret(activeUser, secret);
      var idx := IndexOfId(store.users, newUser.id);
      if idx.Some? {
        store.users := store.users[idx.value := newUser];
      } else {
        store.users := store.users + [newUser];
      }
      store.active := Some(newUser);
    }
  }

  /** Once provisioned, the account keeps its secret: running the effect again changes nothing. */
  lemma EnsureIdempotent(s: Session, random: seq<byte>, random': seq<byte>)
    requires |random| == SecretBytes
    ensures Ensured(Ensured(s, random), random') == Ensured(s, random)
  {
    if s.active.Some? && !HasSecret(s.active.value) {
      assert |HexEncode(random)| == 40;
    }
  }

  /**
   * After the effect, a signed-in account has a 40-character lower-case hex secret, and the list holds that
   * account under its id.
   */
  lemma EnsureProvisions(s: Session, random: seq<byte>)
    requires |random| == SecretBytes && s.active.Some?
    ensures var r := Ensured(s, random);
      r.active.Some? && HasSecret(r.active.value) && r.active.value.id == s.active.value.id
    ensures var r := Ensured(s, random);
      !HasSecret(s.active.value) ==>
        && r.active.Some?
        && var u := r.active.value;
        && |u.secret.value| == 40
        && (forall i :: 0 <= i < 40 ==> IsLowerHexDigit(u.secret.value[i]))
        && IndexOfId(r.users, u.id).Some?
        && r.users[IndexOfId(r.users, u.id).value] == u
  {
    var r := Ensured(s, random);
    if !HasSecret(s.active.value) {
      var u := r.active.value;
      HexEncodeDigits(random);
      if IndexOfId(s.users, u.id).None? {
        assert r.users[|s.users|] == u;
      }
    }
  }

  /**
   * The reset button. Without confirmation nothing changes. With no signed-in account the findIndex
   * callback reads activeUser.id on null and throws before storage is touched, which happens as soon as the
   * list has an entry; with an empty list the callback never runs, and the source then makes a record that
   * holds only the new secret the active account, which an account record here cannot represent, so the
   * model promises only that the list stays as it is. Otherwise the account gets the hex of the random bytes
   * as its new secret, becomes the active account, and replaces its entry if the list has one.
   */
  function Reset(s: Session, confirmed: bool, random: seq<byte>): (r: Session)
    ensures !confirmed ==> r == s
    ensures confirmed && s.active.None? ==> r.users == s.users
    ensures confirmed && s.active.None? && s.users != [] ==> r == s
    ensures confirmed && s.active.Some? ==>
      var u := WithSecret(s.active.value, HexEncode(random));
      r.active == Some(u) && r.users == ReplaceById(s.users, u)
  {
    if !confirmed then s
    else
      match s.active
      case None => s
      case Some(a) =>
        var u := WithSecret(a, HexEncode(random));
        Session(ReplaceById(s.users, u), Some(u))
  }

  /** The reset handler, with the answer to confirm() as an input. */
  method ResetSecret(store: Store, confirmed: bool, random: seq<byte>)
    requires |random| == SecretBytes
    modifies store
    ensures store.State() == Reset(old(store.State()), confirmed, random)
  {
    if !confirmed {
      return;
    }
    if store.active.None? {
      // users.findIndex(u => u.id === activeUser.id) throws on null for a non-empty list
      return;
    }
    var activeUser := store.active.value;
    var users := store.users;
    var idx := IndexOfId(users, activeUser.id);
    var newSecret := GenerateRandomHexSecret(SecretBytes, random);
    var newUser := WithSecret(activeUser, newSecret);
    if idx.Some? {
      users := users[idx.value := newUser];
    }
    store.users := users;
    store.active := Some(newUser);
  }

  /** The HMAC key the code engine derives from a secret: the UTF-8 bytes of its text. */
  function SecretKey(secret: string): seq<byte>
  {
    Utf8Encode(secret)
  }

  /**
   * The key is the ASCII text of the hex string, one byte per hex digit, and not the random bytes the hex
   * stands for: it is twice as long, and each byte is a character code of '0'-'9' or 'a'-'f'.
   */
  lemma KeyIsHexText(random: seq<byte>)
    ensures |SecretKey(HexEncode(random))| == 2 * |random|
    ensures forall i :: 0 <= i < 2 * |random| ==> SecretKey(HexEncode(random))[i] as int == HexEncode(random)[i] as int
    ensures random != [] ==> SecretKey(HexEncode(random)) != random
  {
    HexEncodeDigits(random);
    Utf8EncodeAscii(HexEncode(random));
  }

  /** Two resets of the same session with different random bytes give the account different keys. */
  lemma ResetChangesKey(s: Session, random: seq<byte>, random': seq<byte>)
    requires s.active.Some? && random != random'
    ensures var r, r' := Reset(s, true, random), Reset(s, true, random');
      SecretKey(r.active.value.secret.value) != SecretKey(r'.active.value.secret.value)
  {
    HexEncodeInjective(random, random');
    HexEncodeDigits(random);
    HexEncodeDigits(random');
    Utf8EncodeAsciiInjective(HexEncode(random), HexEncode(random'));
  }

  /**
   * A reset replaces the key the account had: when its secret was the hex of other random bytes, the key
   * after the reset differs from the key before it, so the codes of the old secret stop matching.
   */
  lemma ResetReplacesKey(s: Session, previous: seq<byte>, random: seq<byte>)
    requires s.active.Some? && s.active.value.secret == Some(HexEncode(previous)) && previous != random
    ensures var r := Reset(s, true, random);
      SecretKey(r.active.value.secret.value) != SecretKey(s.active.value.secret.value)
  {
    HexEncodeInjective(previous, random);
    HexEncodeDigits(previous);
    HexEncodeDigits(random);
    Utf8EncodeAsciiInjective(HexEncode(previous), HexEncode(random));
  }

  /** Reset keeps the list length, never appends, and changes at most the entry with the active account's id. */
  lemma ResetKeepsOthers(s: Session, confirmed: bool, random: seq<byte>)
    requires s.active.Some?
    ensures var r := Reset(s, confirmed, random);
      && |r.users| == |s.users|
      && (forall j :: 0 <= j < |s.users| && s.users[j].id != s.active.value.id ==> r.users[j] == s.users[j])
      && (IndexOfId(s.users, s.active.value.id).None? ==> r.users == s.users)
  {
  }
}
