# Verify AI one-time codes and account storage, in Dafny

This project models the front-end core of the Verify AI demo: the dashboard's time-based one-time code
engine (RFC 6238 style, with HMAC-SHA-256 as section 1.2 of RFC 6238 permits and dynamic truncation as in
section 5.3 of RFC 4226), the per-account hex secret and its provisioning and reset, the registration
form's checks, and the login lookup. `localStorage` is modelled as a `Store` object with two fields: the
account list (`'verifyai_users'`) and the optional active account (`'verifyai_user_active'`).

The modules follow the program's structure:

- `Wrappers`: `Option`.
- `Arith`: division, remainder and power facts that the proofs use.
- `Bytes`: bytes, big-endian words and UTF-8 (`TextEncoder`).
- `Text`: `Number.prototype.toString(radix)`, `padStart` and ASCII `toLowerCase`.
- `Accounts`: the account record, `Array.prototype.find`/`findIndex`, and the storage object.
- `Totp`: `counterToBuffer` and `generateTotp` from `src/pages/Dashboard.jsx`.
- `Provisioning`: `generateRandomHexSecret`, the provisioning effect and the reset handler from `src/pages/Dashboard.jsx`.
- `Register`: `handleSubmit` in `src/pages/Register.jsx`.
- `Login`: `handleSubmit` in `src/pages/Login.jsx`.
- `Flow`: how registration, login and provisioning fit together.

Inputs that the source gets from its environment are parameters:

- The clock is one reading `nowMs` in whole milliseconds.
- The random bytes `crypto.getRandomValues` would produce are a `seq<byte>`.
- The answer to `confirm()` is a `bool`.
- HMAC-SHA-256 (`crypto.subtle.importKey` and `sign`) is a function parameter of type `(key, message) -> Option<Digest>`. A digest is 32 bytes, and `None` is a rejected promise. Every property about codes holds for every such function.

Where the code does something other than a reader might expect from its intent, the model follows the code:

- The dashboard's HMAC key is the UTF-8 text of the hex secret (`TextEncoder`), not the bytes the hex stands for. `Provisioning.KeyIsHexText` states exactly this.
- Reset is not unconditional. With no signed-in account and a non-empty list, the `findIndex` callback reads `activeUser.id` on `null` and throws before anything is written, so storage stays unchanged. With an empty list the callback never runs, and the source makes a record holding only the new secret the active account (see "## Left out").
- An empty secret never reaches the engine: the refresh tick returns early when the secret is falsy (`src/pages/Dashboard.jsx:183`). The engine itself has no empty-secret check.
- A reset whose random bytes differ from those behind the old secret gives the account a different HMAC key (`Provisioning.ResetReplacesKey`). That the codes then differ is only true up to HMAC collisions, so it is not claimed.

## Model

| member | source | states |
|---|---|---|
| Totp.SetUint32 | src/pages/Dashboard.jsx:35-36 | `DataView.setUint32` writes the value mod 2^32 big-endian at the offset and changes no other byte of the buffer |
| Totp.CounterToBuffer | src/pages/Dashboard.jsx:30-38 | the 8-byte buffer is floor(counter / 2^32) then counter >>> 0, each as a big-endian uint32, high word first |
| Totp.CounterBytes | src/pages/Dashboard.jsx:30-38 | definition only: the two big-endian words of the counter; its properties are CounterBytesDecode and CounterToBuffer |
| Totp.CounterBytesDecode | src/pages/Dashboard.jsx:30-38 | the buffer has 8 bytes and reads back as counter mod 2^64, so every counter below 2^64 is recovered |
| Totp.WordRoundTrip | src/pages/Dashboard.jsx:35-36 | a 32-bit word reads back from its 4 big-endian bytes |
| Totp.WordsValue | src/pages/Dashboard.jsx:35-36 | a high part followed by a 4-byte low word reads back as high * 2^32 + low |
| Totp.CounterWindow | src/pages/Dashboard.jsx:42 | the counter floor(now / 1000 / timeStep) is the floor of now / (1000 * timeStep), and it equals k exactly on the k-th window of 1000 * timeStep ms |
| Totp.SecondsRemaining | src/pages/Dashboard.jsx:56 | the countdown is in [1, timeStep] for every timeStep >= 1 and every time |
| Totp.Counter | src/pages/Dashboard.jsx:42 | definition only: `Math.floor(now / 1000 / timeStep)` in integer arithmetic; its properties are CounterWindow and CountdownEndsStep |
| Totp.CountdownEndsStep | src/pages/Dashboard.jsx:42-56 | the counter stays constant until now_s + countdown seconds and steps up by exactly one at that second |
| Totp.Offset | src/pages/Dashboard.jsx:48 | the offset is the last digest byte mod 16, at most 15, so offset + 3 <= 18 stays inside the 32-byte digest |
| Totp.JoinBytes | src/pages/Dashboard.jsx:49-53 | definition only: the source's shifts and bitwise or on 32-bit words; its property is JoinBytesIsSum |
| Totp.JoinBytesIsSum | src/pages/Dashboard.jsx:49-53 | the masked bytes shifted by 24, 16, 8 and 0 and or-ed together equal their positional sum in 32-bit arithmetic, and the word is below 2^31, so its signed reading is non-negative |
| Totp.Mask7 | src/pages/Dashboard.jsx:50 | `& 0x7f` on a byte is the byte mod 128 |
| Totp.Mask8 | src/pages/Dashboard.jsx:51-53 | `& 0xff` on a byte keeps it |
| Totp.Truncate | src/pages/Dashboard.jsx:48-53 | the truncated value is (d[o] mod 128) * 2^24 + d[o+1] * 2^16 + d[o+2] * 2^8 + d[o+3] at the offset o, and it lies in [0, 2^31) |
| Totp.FormatCodeShape | src/pages/Dashboard.jsx:55 | for digits >= 1 the code has exactly `digits` characters, all '0'-'9', and reads as binary mod 10^digits |
| Totp.FormatCodeLength | src/pages/Dashboard.jsx:55 | the remainder prints in at most `digits` digits, so the padded code has exactly `digits` characters |
| Totp.FormatCodeDigits | src/pages/Dashboard.jsx:55 | every character of the code is '0'-'9' |
| Totp.FormatCodeValue | src/pages/Dashboard.jsx:55 | the code reads as binary mod 10^digits |
| Totp.FormatCode | src/pages/Dashboard.jsx:55 | definition only: `(binary % 10^digits).toString().padStart(digits, '0')`; its properties are FormatCodeShape, FormatCodeNoDigits and FormatCodeExample |
| Totp.FormatCodeNoDigits | src/pages/Dashboard.jsx:55 | with digits = 0 the code is "0", because padStart never truncates |
| Totp.FormatCodeExample | src/pages/Dashboard.jsx:55 | 42 with six digits is "000042" |
| Totp.GenerateOutcome | src/pages/Dashboard.jsx:40-62 | a rejected HMAC gives exactly the "------" placeholder with countdown 0; otherwise the code is the digits-long decimal of Truncate(digest) mod 10^digits, never the placeholder, with countdown in [1, timeStep] |
| Totp.SameStepSameCode | src/pages/Dashboard.jsx:42-56 | two readings in the same time step give the same code, and the countdown drops by the whole seconds between them |
| Totp.GenerateTotp | src/pages/Dashboard.jsx:40-62 | the engine's step-by-step run equals Generate and returns either the placeholder with 0 or a countdown in [1, timeStep] |
| Totp.Generate | src/pages/Dashboard.jsx:40-62 | definition only: the engine as one expression over the HMAC result; its properties are GenerateOutcome and SameStepSameCode |
| Bytes.BigEndian | src/pages/Dashboard.jsx:35-36 | an n-byte big-endian encoding has n bytes |
| Bytes.BigEndianRoundTrip | src/pages/Dashboard.jsx:35-36 | reading back n big-endian bytes of v gives v mod 256^n |
| Bytes.BigEndianValueAppend | src/pages/Dashboard.jsx:30-38 | the value of a concatenation is the left value shifted by the right part's width plus the right value |
| Bytes.Utf8Char | src/pages/Dashboard.jsx:19-20 | a character encodes to 1 to 4 bytes, and to one byte exactly when it is ASCII |
| Bytes.Utf8Encode | src/pages/Dashboard.jsx:19-20 | the encoding is at least as long as the text |
| Bytes.Utf8EncodeAscii | src/pages/Dashboard.jsx:19-20 | an ASCII text encodes to one byte per character, each the character's code |
| Bytes.Utf8EncodeAsciiInjective | src/pages/Dashboard.jsx:19-20 | distinct ASCII texts give distinct key bytes |
| Text.DigitChar | src/pages/Dashboard.jsx:55 | the character printed for a digit reads back as that digit |
| Text.ToRadixString | src/pages/Dashboard.jsx:55 | `toString(radix)` prints at least one digit, every character a digit of the radix, with no leading zero for n > 0 |
| Text.ToRadixStringRoundTrip | src/pages/Dashboard.jsx:55 | reading back the printed digits gives the number |
| Text.ToRadixStringLength | src/pages/Dashboard.jsx:55 | a number below radix^k prints with at most k digits |
| Text.PadStart | src/pages/Dashboard.jsx:55 | `padStart(n, fill)` has length max(length of s, n), ends with s, and is fill before it |
| Text.PadStartZerosValue | src/pages/Dashboard.jsx:55 | padding with '0' does not change the value the digits denote |
| Text.PadStartDecimal | src/pages/Dashboard.jsx:55 | padding decimal digits with '0' leaves only decimal digits |
| Text.RadixValueAppend | src/pages/Dashboard.jsx:55 | the value of concatenated digits is the left value shifted by the right part's width plus the right value |
| Text.ToLowerCaseShape | src/pages/Register.jsx:28 | lower-casing keeps the length, works character by character and leaves no upper-case ASCII letter |
| Text.ToLowerCase | src/pages/Register.jsx:28 | definition only: `toLowerCase()` on ASCII letters; its properties are ToLowerCaseShape and ToLowerCaseIdempotent |
| Text.LowerChar | src/pages/Register.jsx:28 | definition only: 'A'-'Z' become 'a'-'z', other characters are kept; used by ToLowerCase |
| Text.ToLowerCaseIdempotent | src/pages/Login.jsx:15 | lower-casing twice is lower-casing once |
| Accounts.FirstIndex | src/pages/Dashboard.jsx:172 | `findIndex` gives the first position satisfying the predicate, and none exactly when no element does |
| Accounts.IndexOfId | src/pages/Dashboard.jsx:172 | the lookup by id gives the first entry with that id, and none exactly when no entry has it |
| Accounts.HasSecret | src/pages/Dashboard.jsx:168 | definition only: `activeUser.secret` is truthy, i.e. present and not the empty string; used by Ensured and EnsureIdempotent |
| Accounts.SameEmail | src/pages/Login.jsx:15 | definition only: the two emails are equal after `toLowerCase()` on both; used by EmailOwner, FindCredentials and EmailCaseInsensitive |
| Accounts.FirstIndexAgree | src/pages/Login.jsx:15 | two predicates that agree on every element find the same first match |
| Accounts.Store.constructor | src/pages/Dashboard.jsx:157-167 | storage starts with the given list and active account |
| Provisioning.ByteHexDigits | src/pages/Dashboard.jsx:67 | `b.toString(16).padStart(2, '0')` is exactly the two hex digits of b, high nibble first |
| Provisioning.ByteHex | src/pages/Dashboard.jsx:67 | definition only: `b.toString(16).padStart(2, '0')`; its property is ByteHexDigits |
| Provisioning.HexEncode | src/pages/Dashboard.jsx:67 | the joined hex has two characters per byte |
| Provisioning.HexEncodeJoins | src/pages/Dashboard.jsx:67 | HexEncode is the join of the per-byte strings that the source maps each byte to |
| Provisioning.HexEncodeDigits | src/pages/Dashboard.jsx:67 | every character of the secret is '0'-'9' or 'a'-'f', so the secret is ASCII |
| Provisioning.HexDecode | src/pages/Dashboard.jsx:67 | a decoded string had two characters per byte |
| Provisioning.HexRoundTrip | src/pages/Dashboard.jsx:67 | decoding the pairs of the secret gives back the random bytes |
| Provisioning.HexDecodeRoundTrip | src/pages/Dashboard.jsx:67 | anything that decodes is the encoding of what it decodes to |
| Provisioning.HexEncodeInjective | src/pages/Dashboard.jsx:67 | distinct random bytes give distinct secrets |
| Provisioning.DigitCharOfValue | src/pages/Dashboard.jsx:67 | a lower-case hex digit is the character printed for its own value |
| Provisioning.GetRandomValues | src/pages/Dashboard.jsx:65-66 | the typed array is filled with exactly the supplied random bytes |
| Provisioning.GenerateRandomHexSecret | src/pages/Dashboard.jsx:64-68 | the secret is the hex of the random bytes: 2 * len characters, all lower-case hex |
| Provisioning.ReplaceById | src/pages/Dashboard.jsx:173 | `users[idx] = newUser` replaces only the first entry with the id, keeps the length and every other entry, and keeps the list when no entry has the id |
| Provisioning.UpsertById | src/pages/Dashboard.jsx:172-174 | the entry with the id is replaced, or the account is pushed when the id is absent; the list grows by at most one and holds the account |
| Provisioning.WithSecret | src/pages/Dashboard.jsx:170 | `{ ...activeUser, secret }` changes the secret and no other field |
| Provisioning.Ensured | src/pages/Dashboard.jsx:163-178 | nothing changes without an active account or when it has a secret; otherwise the account with the new secret is active and upserted by id |
| Provisioning.EnsureSecret | src/pages/Dashboard.jsx:163-178 | the effect leaves storage exactly as Ensured describes |
| Provisioning.EnsureIdempotent | src/pages/Dashboard.jsx:168 | running the effect again after it provisioned changes nothing, so the secret is stable |
| Provisioning.EnsureProvisions | src/pages/Dashboard.jsx:168-176 | afterwards the active account has a secret and the same id; one it just got is 40 lower-case hex characters, and the first list entry with its id is that account |
| Provisioning.Reset | src/pages/Dashboard.jsx:296-309 | without confirmation nothing changes; with no active account the list is kept, and the whole state is kept when the list is non-empty (the lookup throws); otherwise the account with the new secret is active and replaces its list entry only if one exists |
| Provisioning.ResetSecret | src/pages/Dashboard.jsx:296-309 | the handler leaves storage exactly as Reset describes |
| Provisioning.ResetKeepsOthers | src/pages/Dashboard.jsx:301-305 | reset keeps the list length, never appends, keeps every entry with another id, and keeps the whole list when the id is missing |
| Provisioning.KeyIsHexText | src/pages/Dashboard.jsx:19-20 | the HMAC key is the ASCII text of the secret, one byte per hex digit and twice as long as the random bytes, so it is not those bytes |
| Provisioning.SecretKey | src/pages/Dashboard.jsx:19-20 | definition only: `new TextEncoder().encode(secret)`; its properties are KeyIsHexText, ResetChangesKey and ResetReplacesKey |
| Provisioning.ResetChangesKey | src/pages/Dashboard.jsx:302-307 | two alternative resets of one session with different random bytes give the account different HMAC keys |
| Provisioning.ResetReplacesKey | src/pages/Dashboard.jsx:302-307 | when the old secret is the hex of other random bytes, the HMAC key after the reset differs from the key before it |
| Register.MatchDigitsExactly | src/pages/Register.jsx:21 | the anchored digit-run pattern accepts exactly the strings of n decimal digits |
| Register.MatchDigits | src/pages/Register.jsx:21 | definition only: the anchored pattern `[0-9]{n}$` from the start of the string; its property is MatchDigitsExactly |
| Register.PinPattern | src/pages/Register.jsx:21 | definition only: `/^[0-9]{4}$/.test(pin)`; its property is PinAccepted |
| Register.PinAccepted | src/pages/Register.jsx:21-24 | `/^[0-9]{4}$/` accepts a PIN exactly when it is four characters, each '0'-'9' |
| Register.EmailOwner | src/pages/Register.jsx:28 | the lookup finds an account whose email equals the new one after lower-casing both, and finds none exactly when no account does |
| Register.Validate | src/pages/Register.jsx:17-31 | the password check comes first, then the PIN, then the email; each message is given exactly when its check fails and all earlier ones pass |
| Register.NewUser | src/pages/Register.jsx:33 | the new record carries the given id, name, email, password and PIN and has no secret |
| Register.Registered | src/pages/Register.jsx:17-36 | a failed check leaves storage unchanged; a success appends the new record last, keeps every earlier entry and makes the record active |
| Register.HandleSubmit | src/pages/Register.jsx:13-38 | the handler returns the first failing check's message ("" on success) and leaves storage as Registered describes |
| Register.RegisterKeepsEmailsDistinct | src/pages/Register.jsx:28-34 | if no two stored emails are equal up to lower-casing, that stays true after a registration |
| Login.FindCredentials | src/pages/Login.jsx:15 | an account is found exactly when some account's email matches ignoring case and its password matches exactly, and the one found is the first such account |
| Login.Matches | src/pages/Login.jsx:15 | definition only: the `find` predicate, a case-insensitive email match and an exact password match; used by FindCredentials |
| Login.HandleSubmit | src/pages/Login.jsx:10-22 | the list is never changed; on a match the first matching account becomes active with no error, otherwise the "Invalid credentials" message is returned and the active account is unchanged |
| Login.EmailCaseInsensitive | src/pages/Login.jsx:15 | emails that lower-case alike find the same account |
| Login.WrongPasswordFails | src/pages/Login.jsx:15-16 | a password that differs from that of every account with the email fails |
| Flow.RegisterThenLogin | src/pages/Register.jsx:28-34 | right after a successful registration, logging in with the same email and password finds exactly the new record |
| Flow.RegisterThenProvision | src/pages/Dashboard.jsx:163-178 | a freshly registered account gets a secret on its first dashboard visit, and the list keeps its length |

## Left out

- HMAC-SHA-256 and `crypto.subtle.importKey`/`sign` (`src/pages/Dashboard.jsx:18-28, 45`) are foreign Web Crypto calls. They are a function parameter, and any failure inside them is the `None` case.
- `crypto.getRandomValues` is an entropy source. Its output is an input sequence.
- `Date.now()` is one input `nowMs`. The source reads the clock twice, for the counter (line 42) and for the countdown (line 56). A step boundary between the two reads is not modelled.
- Floating-point arithmetic: `Math.floor`, `Math.pow` and `/` are modelled as integer operations on non-negative time. A counter at or above 2^53 loses precision in JavaScript, and the model does not capture that.
- A `timeStep` of 0 would make JavaScript compute NaN. The model requires timeStep >= 1. Negative time and negative digit counts are outside the model's `nat` inputs.
- Totp.Truncate: the four masked bytes are combined as an integer positional sum. That this sum is what the source's `<<` and `|` compute is proved in 32-bit arithmetic by `JoinBytesIsSum`. No lemma converts the 32-bit word to an integer.
- The one-second refresh tick and its `mounted` guard (`src/pages/Dashboard.jsx:180-195`) are timer plumbing and are not modelled.
- `PhotoUpload`, the clipboard toast in `copyCode`, `alert`, navigation and all rendering are UI and are not modelled.
- The JSON (de)serialisation of storage is not modelled. The store holds parsed values, and the dashboard's `activeUser` state is taken to equal the active slot, which every modelled handler writes together with it.
- `toLowerCase` is modelled on ASCII letters only. Unicode case mapping is not modelled.
- `src/components/Navbar.jsx` is not part of this model.
- Provisioning.Reset: with no signed-in account and an empty list, the source makes `{ secret: newSecret }` (the spread of `null` plus the secret) the active account (`src/pages/Dashboard.jsx:301-307`). An account record in the model always has an id, a name, an email, a password and a PIN, so it cannot hold that record. For this case the contract promises only that the list stays empty, and the model leaves the active slot empty. Provisioning.ResetSecret inherits this gap.
