/**
 * The one-time code engine of the dashboard: a time-step counter, its 8-byte big-endian encoding,
 * HMAC-SHA-256 over it keyed with the UTF-8 bytes of the account's hex secret, dynamic truncation
 * (section 5.3 of RFC 4226), reduction modulo 10^digits with zero padding, and the countdown to the next step.
 */
module Totp {
  import opened Wrappers
  import opened Arith
  import opened Bytes
  import opened Text

  /** The Uint8Array over an HMAC-SHA-256 signature: 32 bytes, read with bitwise operators. */
  type Digest = s: seq<bv8> | |s| == 32 witness seq(32, _ => 0 as bv8)

  /**
   * crypto.subtle.importKey('raw', key, HMAC/SHA-256) followed by crypto.subtle.sign('HMAC', key, message).
   * The primitive is taken as given: None stands for a rejected promise (the engine catches it).
   */
  type HmacSha256 = (seq<byte>, seq<byte>) -> Option<Digest>

  /** What one run of the engine hands to the display. */
  datatype TotpOutput = TotpOutput(code: string, secondsRemaining: int)

  /** The placeholder shown when generation throws. */
  const FailureCode: string := "------"

  const Two32: nat := 0x1_0000_0000

  lemma Pow256Four()
    ensures Pow(256, 4) == Two32
  {
    assert Pow(256, 2) == 0x1_0000;
  }

  /** The four bytes of a 32-bit word, spelled out. */
  lemma BigEndianFour(v: nat)
    requires v < Two32
    ensures BigEndian(v, 4) == [v / 0x100_0000, v / 0x1_0000 % 0x100, v / 0x100 % 0x100, v % 0x100]
  {
    DivDiv(v, 0x100, 0x100);
    DivDiv(v, 0x1_0000, 0x100);
    DivBelow(v, 0x100_0000, 0x100);
    var x := v / 0x100 / 0x100 / 0x100;
    assert BigEndian(x, 1) == [x % 0x100];
    assert BigEndian(v / 0x100 / 0x100, 2) == BigEndian(x, 1) + [v / 0x100 / 0x100 % 0x100];
    assert BigEndian(v / 0x100, 3) == BigEndian(v / 0x100 / 0x100, 2) + [v / 0x100 % 0x100];
    assert BigEndian(v, 4) == BigEndian(v / 0x100, 3) + [v % 0x100];
  }

  /** DataView.setUint32(byteOffset, value): the value is reduced mod 2^32 and stored big-endian. */
  method SetUint32(view: array<byte>, byteOffset: nat, value: nat)
    requires byteOffset + 4 <= view.Length
    modifies view
    ensures view[..byteOffset] == old(view[..byteOffset])
    ensures view[byteOffset..byteOffset + 4] == BigEndian(value % Two32, 4)
    ensures view[byteOffset + 4..] == old(view[byteOffset + 4..])
  {
    var v := value % Two32;
    DivBelow(v, 0x100_0000, 0x100);
    view[byteOffset] := v / 0x100_0000;
    view[byteOffset + 1] := v / 0x1_0000 % 0x100;
    view[byteOffset + 2] := v / 0x100 % 0x100;
    view[byteOffset + 3] := v % 0x100;
    BigEndianFour(v);
  }

  /** The HMAC message for a counter: floor(counter / 2^32) and then counter >>> 0, each as a big-endian uint32. */
  function CounterBytes(counter: nat): seq<byte>
  {
    BigEndian(counter / Two32 % Two32, 4) + BigEndian(counter % Two32, 4)
  }

  /** counterToBuffer: an 8-byte ArrayBuffer written through a DataView, high word first. */
  method CounterToBuffer(counter: nat) returns (buf: seq<byte>)
    ensures buf == CounterBytes(counter)
  {
    var view := new byte[8];
    var high := counter / Two32;
    var low := counter % Two32;
    assert low % Two32 == low;
    SetUint32(view, 0, high);
    ghost var first := view[0..4];
    SetUint32(view, 4, low);
    assert view[..4] == first;
    assert view[..] == view[..4] + view[4..8];
    buf := view[..];
  }

  /** The message is 8 bytes and reads back as the counter mod 2^64, so every counter below 2^64 is recovered. */
  lemma CounterBytesDecode(counter: nat)
    ensures |CounterBytes(counter)| == 8
    ensures BigEndianValue(CounterBytes(counter)) == counter % (Two32 * Two32)
    ensures counter < Two32 * Two32 ==> BigEndianValue(CounterBytes(counter)) == counter
  {
    var hi, lo := counter / Two32 % Two32, counter % Two32;
    var h, l := BigEndian(hi, 4), BigEndian(lo, 4);
    WordsValue(h, l);
    WordRoundTrip(hi);
    WordRoundTrip(lo);
    ModSplit(counter, Two32, Two32);
  }

  /** A 32-bit word survives its big-endian encoding. */
  lemma WordRoundTrip(v: nat)
    requires v < Two32
    ensures BigEndianValue(BigEndian(v, 4)) == v
  {
    BigEndianRoundTrip(v, 4);
    Pow256Four();
  }

  /** A byte string followed by a 4-byte word reads back as the first part shifted by 32 bits plus the word. */
  lemma WordsValue(h: seq<byte>, l: seq<byte>)
    requires |l| == 4
    ensures BigEndianValue(h + l) == BigEndianValue(h) * Two32 + BigEndianValue(l)
  {
    BigEndianValueAppend(h, l);
    Pow256Four();
  }

  /** The step index Math.floor(Date.now() / 1000 / timeStep), with the clock read in whole milliseconds. */
  function Counter(nowMs: nat, timeStep: nat): nat
    requires timeStep >= 1
  {
    nowMs / 1000 / timeStep
  }

  /** The counter is the floor of the exact quotient, and it is k exactly on the k-th window of 1000 * timeStep ms. */
  lemma CounterWindow(nowMs: nat, timeStep: nat, k: nat)
    requires timeStep >= 1
    ensures Counter(nowMs, timeStep) == nowMs / (1000 * timeStep)
    ensures Counter(nowMs, timeStep) == k <==> k * (1000 * timeStep) <= nowMs < (k + 1) * (1000 * timeStep)
  {
    var w := 1000 * timeStep;
    DivDiv(nowMs, 1000, timeStep);
    if k * w <= nowMs < (k + 1) * w {
      DivModUnique(nowMs, w, k, nowMs - k * w);
    }
    if nowMs / w == k {
      assert nowMs == w * k + nowMs % w;
    }
  }

  /** timeStep - (Math.floor(Date.now() / 1000) % timeStep): whole seconds left in the current step. */
  function SecondsRemaining(nowMs: nat, timeStep: nat): (r: int)
    requires timeStep >= 1
    ensures 1 <= r <= timeStep
  {
    timeStep - (nowMs / 1000) % timeStep
  }

  /**
   * The countdown is exact: the counter stays the same through the last millisecond before
   * nowSeconds + SecondsRemaining, and steps up by one at that second.
   */
  lemma CountdownEndsStep(nowMs: nat, timeStep: nat)
    requires timeStep >= 1
    ensures var next := (nowMs / 1000 + SecondsRemaining(nowMs, timeStep)) * 1000;
      && nowMs < next
      && Counter(next, timeStep) == Counter(nowMs, timeStep) + 1
      && forall t: nat :: nowMs <= t < next ==> Counter(t, timeStep) == Counter(nowMs, timeStep)
  {
    var s := nowMs / 1000;
    var k := s / timeStep;
    var w := 1000 * timeStep;
    assert s == timeStep * k + s % timeStep;
    var next := (s + SecondsRemaining(nowMs, timeStep)) * 1000;
    assert next == (k + 1) * w;
    CounterWindow(nowMs, timeStep, k);
    assert k * w <= nowMs by {
      assert k * w == (timeStep * k) * 1000;
      assert timeStep * k <= s;
      assert s * 1000 <= nowMs;
    }
    CounterWindow(next, timeStep, k + 1);
    assert (k + 1) * w < (k + 2) * w;
    forall t: nat | nowMs <= t < next
      ensures Counter(t, timeStep) == k
    {
      CounterWindow(t, timeStep, k);
    }
  }

  /** bytes[bytes.length - 1] & 0x0f: the low nibble of the last digest byte. */
  function Offset(d: Digest): (o: nat)
    ensures o == (d[31] as int) % 16
    ensures o <= 15
  {
    (d[31] & 0x0f) as nat
  }

  /** The source's word assembly, in 32-bit arithmetic: ((a & 0x7f) << 24) | ((b & 0xff) << 16) | ((c & 0xff) << 8) | (e & 0xff). */
  function JoinBytes(a: bv8, b: bv8, c: bv8, e: bv8): bv32
  {
    (((a as bv32) & 0x7f) << 24) | (((b as bv32) & 0xff) << 16) | (((c as bv32) & 0xff) << 8) | ((e as bv32) & 0xff)
  }

  /**
   * The shifted fields do not overlap and the top bit stays clear, so the bitwise or is the positional sum
   * of the masked bytes and the signed 32-bit reading of the word equals the unsigned one.
   */
  lemma JoinBytesIsSum(a: bv8, b: bv8, c: bv8, e: bv8)
    ensures JoinBytes(a, b, c, e)
      == ((a & 0x7f) as bv32) * 0x100_0000 + ((b & 0xff) as bv32) * 0x1_0000 + ((c & 0xff) as bv32) * 0x100 + (e & 0xff) as bv32
    ensures JoinBytes(a, b, c, e) < 0x8000_0000
  {
  }

  /** x & 0x7f clears the top bit of a byte: its value mod 128. */
  lemma Mask7(x: bv8)
    ensures (x & 0x7f) as int == x as int % 0x80
  {
  }

  /** x & 0xff keeps a byte as it is. */
  lemma Mask8(x: bv8)
    ensures (x & 0xff) as int == x as int
  {
  }

  /**
   * Dynamic truncation: the four bytes at the offset, the first masked with 0x7f, placed at bit 24, 16, 8 and 0
   * (the positional sum that JoinBytesIsSum shows the source's shifts and bitwise or compute).
   * The value is the first byte mod 128 followed by the other three, read big-endian, so it lies in [0, 2^31).
   */
  function Truncate(d: Digest): (binary: nat)
    ensures var o := Offset(d);
      binary == (d[o] as int % 0x80) * 0x100_0000 + (d[o + 1] as int) * 0x1_0000 + (d[o + 2] as int) * 0x100 + d[o + 3] as int
    ensures binary < 0x8000_0000
  {
    var o := Offset(d);
    Mask7(d[o]);
    Mask8(d[o + 1]);
    Mask8(d[o + 2]);
    Mask8(d[o + 3]);
    ((d[o] & 0x7f) as int) * 0x100_0000 + ((d[o + 1] & 0xff) as int) * 0x1_0000
      + ((d[o + 2] & 0xff) as int) * 0x100 + (d[o + 3] & 0xff) as int
  }

  /** (binary % Math.pow(10, digits)).toString().padStart(digits, '0'). */
  function FormatCode(binary: nat, digits: nat): string
  {
    PadStart(ToRadixString(binary % Pow(10, digits), 10), digits, '0')
  }

  /** For digits >= 1 the code has exactly `digits` characters, all decimal digits, and reads as binary mod 10^digits. */
  lemma FormatCodeShape(binary: nat, digits: nat)
    requires digits >= 1
    ensures |FormatCode(binary, digits)| == digits
    ensures forall i :: 0 <= i < digits ==> IsDecimalDigit(FormatCode(binary, digits)[i])
    ensures RadixValue(FormatCode(binary, digits), 10) == binary % Pow(10, digits)
  {
    FormatCodeLength(binary, digits);
    FormatCodeDigits(binary, digits);
    FormatCodeValue(binary, digits);
  }

  /** The remainder prints in at most `digits` digits, so padding brings it to exactly `digits`. */
  lemma FormatCodeLength(binary: nat, digits: nat)
    requires digits >= 1
    ensures |ToRadixString(binary % Pow(10, digits), 10)| <= digits
    ensures |FormatCode(binary, digits)| == digits
  {
    ToRadixStringLength(binary % Pow(10, digits), 10, digits);
  }

  /** Every character of the code is a decimal digit: either padding or a printed digit. */
  lemma FormatCodeDigits(binary: nat, digits: nat)
    requires digits >= 1
    ensures forall i :: 0 <= i < |FormatCode(binary, digits)| ==> IsDecimalDigit(FormatCode(binary, digits)[i])
  {
    PadStartDecimal(ToRadixString(binary % Pow(10, digits), 10), digits);
  }

  /** The code reads as binary mod 10^digits. */
  lemma FormatCodeValue(binary: nat, digits: nat)
    ensures RadixValue(FormatCode(binary, digits), 10) == binary % Pow(10, digits)
  {
    var v := binary % Pow(10, digits);
    ToRadixStringRoundTrip(v, 10);
    PadStartZerosValue(ToRadixString(v, 10), digits, 10);
  }

  /** With digits = 0 the modulus is 1 and padStart never truncates, so the code is "0", one character long. */
  lemma FormatCodeNoDigits(binary: nat)
    ensures FormatCode(binary, 0) == "0"
  {
    assert binary % Pow(10, 0) == 0;
  }

  /** The worked example: 42 with six digits is "000042". */
  lemma FormatCodeExample()
    ensures FormatCode(42, 6) == "000042"
  {
    assert Pow(10, 6) == 1_000_000 by {
      assert Pow(10, 3) == 1000;
    }
    assert ToRadixString(4, 10) == "4";
    assert ToRadixString(42, 10) == "42";
    assert Repeat('0', 4) == "0000" by {
      assert Repeat('0', 2) == "00";
    }
  }

  /** generateTotp(secret, timeStep, digits) with both clock reads taken at the same instant nowMs. */
  function Generate(hmac: HmacSha256, secret: string, nowMs: nat, timeStep: nat, digits: nat): TotpOutput
    requires timeStep >= 1
  {
    match hmac(Utf8Encode(secret), CounterBytes(Counter(nowMs, timeStep)))
    case None => TotpOutput(FailureCode, 0)
    case Some(d) => TotpOutput(FormatCode(Truncate(d), digits), SecondsRemaining(nowMs, timeStep))
  }

  /**
   * The two outcomes: a rejected HMAC gives the placeholder and a zero countdown; otherwise the code is
   * the truncated digest mod 10^digits, printed with exactly `digits` decimal digits (so never the
   * placeholder), and the countdown is in [1, timeStep].
   */
  lemma GenerateOutcome(hmac: HmacSha256, secret: string, nowMs: nat, timeStep: nat, digits: nat)
    requires timeStep >= 1 && digits >= 1
    ensures var out := Generate(hmac, secret, nowMs, timeStep, digits);
      var sig := hmac(Utf8Encode(secret), CounterBytes(Counter(nowMs, timeStep)));
      && (sig.None? <==> out.code == FailureCode)
      && (sig.None? ==> out.secondsRemaining == 0)
      && (sig.Some? ==>
            && |out.code| == digits
            && (forall i :: 0 <= i < digits ==> IsDecimalDigit(out.code[i]))
            && RadixValue(out.code, 10) == Truncate(sig.value) % Pow(10, digits)
            && 1 <= out.secondsRemaining <= timeStep)
  {
    var sig := hmac(Utf8Encode(secret), CounterBytes(Counter(nowMs, timeStep)));
    if sig.Some? {
      var code := FormatCode(Truncate(sig.value), digits);
      FormatCodeShape(Truncate(sig.value), digits);
      assert !IsDecimalDigit(FailureCode[0]);
      assert code != FailureCode;
    }
  }

  /**
   * Two clock readings in the same window of 1000 * timeStep milliseconds give the same code, and the
   * countdown drops by exactly the whole seconds that passed between them.
   */
  lemma SameStepSameCode(hmac: HmacSha256, secret: string, t1: nat, t2: nat, timeStep: nat, digits: nat, k: nat)
    requires timeStep >= 1
    requires k * (1000 * timeStep) <= t1 < (k + 1) * (1000 * timeStep)
    requires k * (1000 * timeStep) <= t2 < (k + 1) * (1000 * timeStep)
    ensures Generate(hmac, secret, t1, timeStep, digits).code == Generate(hmac, secret, t2, timeStep, digits).code
    ensures SecondsRemaining(t1, timeStep) - SecondsRemaining(t2, timeStep) == t2 / 1000 - t1 / 1000
  {
    CounterWindow(t1, timeStep, k);
    CounterWindow(t2, timeStep, k);
    var s1, s2 := t1 / 1000, t2 / 1000;
    assert s1 / timeStep == k && s2 / timeStep == k by {
      DivDiv(t1, 1000, timeStep);
      DivDiv(t2, 1000, timeStep);
    }
    assert s1 == timeStep * k + s1 % timeStep;
    assert s2 == timeStep * k + s2 % timeStep;
  }

  /** The engine as the dashboard runs it, one step after the other, with one clock reading. */
  method GenerateTotp(hmac: HmacSha256, secret: string, nowMs: nat, timeStep: nat, digits: nat) returns (out: TotpOutput)
    requires timeStep >= 1
    ensures out == Generate(hmac, secret, nowMs, timeStep, digits)
    ensures (out.code == FailureCode && out.secondsRemaining == 0) || 1 <= out.secondsRemaining <= timeStep
  {
    var counter := nowMs / 1000 / timeStep;
    var key := Utf8Encode(secret);
    var counterBuf := CounterToBuffer(counter);
    var sig := hmac(key, counterBuf);
    if sig.None? {
      return TotpOutput(FailureCode, 0);
    }
    var bytes := sig.value;
    var binary := Truncate(bytes);
    var code := FormatCode(binary, digits);
    var secondsRemaining := timeStep - (nowMs / 1000) % timeStep;
    out := TotpOutput(code, secondsRemaining);
  }
}
