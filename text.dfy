/**
 * The string operations of the JavaScript runtime that the pages rely on:
 * Number.prototype.toString(radix), String.prototype.padStart and toLowerCase.
 */
module Text {
  import opened Arith

  /** The digit a character stands for: '0'-'9' are 0-9, 'a'-'z' are 10-35; any other character gives 36. */
  function CharValue(c: char): (d: nat)
    ensures d <= 36
  {
    if '0' <= c <= '9' then c as int - '0' as int
    else if 'a' <= c <= 'z' then c as int - 'a' as int + 10
    else 36
  }

  /** The character toString prints for the digit d: '0'-'9', then lower-case 'a'-'z'. */
  function DigitChar(d: nat): (c: char)
    requires d < 36
    ensures CharValue(c) == d
  {
    if d < 10 then ('0' as int + d) as char else ('a' as int + d - 10) as char
  }

  /** c is a digit of the given radix, as toString(radix) writes digits. */
  predicate IsDigitOf(c: char, radix: nat)
  {
    CharValue(c) < radix
  }

  /** A decimal digit '0'-'9'. */
  predicate IsDecimalDigit(c: char)
  {
    '0' <= c <= '9'
  }

  lemma DecimalDigitIsDigitOf10(c: char)
    ensures IsDecimalDigit(c) <==> IsDigitOf(c, 10)
  {
  }

  /** n.toString(radix) for an integer n >= 0: most significant digit first, no leading zeros, "0" for zero. */
  function ToRadixString(n: nat, radix: nat): (s: string)
    requires 2 <= radix <= 36
    ensures |s| >= 1
    ensures forall i :: 0 <= i < |s| ==> IsDigitOf(s[i], radix)
    ensures n > 0 ==> s[0] != '0'
    decreases n
  {
    if n < radix then [DigitChar(n)]
    else
      DivShrinks(n, radix);
      ToRadixString(n / radix, radix) + [DigitChar(n % radix)]
  }

  /** The number a string of digits denotes in the given radix (most significant first). */
  function RadixValue(s: string, radix: nat): nat
  {
    if s == [] then 0 else RadixValue(s[..|s| - 1], radix) * radix + CharValue(s[|s| - 1])
  }

  /** Appending one character shifts the value by one place. */
  lemma RadixValueSnoc(init: string, c: char, radix: nat)
    ensures RadixValue(init + [c], radix) == RadixValue(init, radix) * radix + CharValue(c)
  {
    assert (init + [c])[..|init|] == init;
  }

  /** Reading back what toString(radix) printed gives the number. */
  lemma {:induction false} ToRadixStringRoundTrip(n: nat, radix: nat)
    requires 2 <= radix <= 36
    ensures RadixValue(ToRadixString(n, radix), radix) == n
    decreases n
  {
    var s := ToRadixString(n, radix);
    if n < radix {
      assert s[..0] == [];
      assert RadixValue(s, radix) == 0 * radix + CharValue(DigitChar(n));
    } else {
      var q, m := n / radix, n % radix;
      DivShrinks(n, radix);
      var init := ToRadixString(q, radix);
      assert s == init + [DigitChar(m)];
      RadixValueSnoc(init, DigitChar(m), radix);
      ToRadixStringRoundTrip(q, radix);
      assert RadixValue(s, radix) == q * radix + m;
      DivModSum(n, radix);
    }
  }

  /** A number below radix^k prints with at most k digits. */
  lemma {:induction false} ToRadixStringLength(n: nat, radix: nat, k: nat)
    requires 2 <= radix <= 36 && k >= 1 && n < Pow(radix, k)
    ensures |ToRadixString(n, radix)| <= k
    decreases n
  {
    if n >= radix {
      assert k != 1 by {
        assert Pow(radix, 1) == radix;
      }
      DivShrinks(n, radix);
      DivBelow(n, radix, Pow(radix, k - 1));
      ToRadixStringLength(n / radix, radix, k - 1);
    }
  }

  /** k copies of c. */
  function Repeat(c: char, k: nat): (r: string)
    ensures |r| == k
    ensures forall i :: 0 <= i < k ==> r[i] == c
  {
    if k == 0 then [] else Repeat(c, k - 1) + [c]
  }

  /** s.padStart(n, fill) with a one-character fill: prefixes copies of fill until the length is n; never truncates. */
  function PadStart(s: string, n: nat, fill: char): (r: string)
    ensures |r| == if |s| >= n then |s| else n
    ensures r[|r| - |s|..] == s
    ensures forall i :: 0 <= i < |r| - |s| ==> r[i] == fill
  {
    if |s| >= n then s else Repeat(fill, n - |s|) + s
  }

  /** Padding a string of decimal digits with '0' leaves only decimal digits. */
  lemma PadStartDecimal(s: string, n: nat)
    requires forall i :: 0 <= i < |s| ==> IsDigitOf(s[i], 10)
    ensures forall i :: 0 <= i < |PadStart(s, n, '0')| ==> IsDecimalDigit(PadStart(s, n, '0')[i])
  {
    var r := PadStart(s, n, '0');
    forall i | 0 <= i < |r|
      ensures IsDecimalDigit(r[i])
    {
      if i >= |r| - |s| {
        assert r[i] == r[|r| - |s|..][i - (|r| - |s|)];
        DecimalDigitIsDigitOf10(r[i]);
      }
    }
  }

  /** The value of a concatenation: the left digits are shifted by the width of the right part. */
  lemma {:induction false} RadixValueAppend(a: string, b: string, radix: nat)
    ensures RadixValue(a + b, radix) == RadixValue(a, radix) * Pow(radix, |b|) + RadixValue(b, radix)
  {
    if b == [] {
      assert a + b == a;
    } else {
      var ab, b' := a + b, b[..|b| - 1];
      var c := b[|b| - 1];
      assert ab[..|ab| - 1] == a + b';
      assert ab[|ab| - 1] == c;
      RadixValueAppend(a, b', radix);
      var x, y, p := RadixValue(a, radix), RadixValue(b', radix), Pow(radix, |b'|);
      assert RadixValue(ab, radix) == (x * p + y) * radix + CharValue(c);
      assert RadixValue(b, radix) == y * radix + CharValue(c);
      assert Pow(radix, |b|) == p * radix;
      ShiftAdd(x, p, y, radix);
    }
  }

  /** A run of '0' characters has value zero in any radix. */
  lemma {:induction false} RadixValueZeros(k: nat, radix: nat)
    ensures RadixValue(Repeat('0', k), radix) == 0
  {
    if k > 0 {
      assert Repeat('0', k)[..k - 1] == Repeat('0', k - 1);
      RadixValueZeros(k - 1, radix);
    }
  }

  /** Left-padding with '0' does not change the value a digit string denotes. */
  lemma PadStartZerosValue(s: string, n: nat, radix: nat)
    ensures RadixValue(PadStart(s, n, '0'), radix) == RadixValue(s, radix)
  {
    if |s| < n {
      RadixValueAppend(Repeat('0', n - |s|), s, radix);
      RadixValueZeros(n - |s|, radix);
    }
  }

  /** Lower-casing of one character, restricted to ASCII: 'A'-'Z' become 'a'-'z', everything else is kept. */
  function LowerChar(c: char): char
  {
    if 'A' <= c <= 'Z' then (c as int - 'A' as int + 'a' as int) as char else c
  }

  /** s.toLowerCase(), restricted to ASCII letters. */
  function ToLowerCase(s: string): string
  {
    if s == [] then [] else ToLowerCase(s[..|s| - 1]) + [LowerChar(s[|s| - 1])]
  }

  /** Lower-casing keeps the length, maps character by character, and leaves no upper-case ASCII letter. */
  lemma {:induction false} ToLowerCaseShape(s: string)
    ensures |ToLowerCase(s)| == |s|
    ensures forall i :: 0 <= i < |s| ==> ToLowerCase(s)[i] == LowerChar(s[i])
    ensures forall i :: 0 <= i < |s| ==> !('A' <= ToLowerCase(s)[i] <= 'Z')
  {
    if s != [] {
      ToLowerCaseShape(s[..|s| - 1]);
    }
  }

  /** Lower-casing twice is lower-casing once, so comparing lower-cased emails is an equivalence on emails. */
  lemma ToLowerCaseIdempotent(s: string)
    ensures ToLowerCase(ToLowerCase(s)) == ToLowerCase(s)
  {
    var t := ToLowerCase(s);
    ToLowerCaseShape(s);
    ToLowerCaseShape(t);
    assert forall i :: 0 <= i < |t| ==> ToLowerCase(t)[i] == t[i];
  }
}
