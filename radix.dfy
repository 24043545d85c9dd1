/**
 * Base-16 text: the minimal lowercase rendering of a natural number
 * (the `to_str_radix(16)` call at src/cli.rs:51) and the parse of a string
 * of hexadecimal digits into a `u8` (the `u8::from_str_radix(_, 16)` call at
 * src/cli.rs:55).
 */
module Radix {
  import opened Powers

  /** A digit accepted by a base-16 parse: 0-9, a-f or A-F. */
  predicate IsHexDigit(c: char)
  {
    ('0' <= c <= '9') || ('a' <= c <= 'f') || ('A' <= c <= 'F')
  }

  /** A digit that the base-16 rendering can produce: 0-9 or a-f. */
  predicate IsLowerHexDigit(c: char)
  {
    ('0' <= c <= '9') || ('a' <= c <= 'f')
  }

  predicate AllHexDigits(s: string)
  {
    forall i :: 0 <= i < |s| ==> IsHexDigit(s[i])
  }

  predicate AllLowerHexDigits(s: string)
  {
    forall i :: 0 <= i < |s| ==> IsLowerHexDigit(s[i])
  }

  function DigitValue(c: char): (d: nat)
    requires IsHexDigit(c)
    ensures d < 16
  {
    if c <= '9' then c as int - '0' as int
    else if c <= 'F' then c as int - 'A' as int + 10
    else c as int - 'a' as int + 10
  }

  /** The lowercase digit for d; parsing it gives d back. */
  function HexDigit(d: nat): (c: char)
    requires d < 16
    ensures IsLowerHexDigit(c) && DigitValue(c) == d
  {
    if d < 10 then ('0' as int + d) as char else ('a' as int + d - 10) as char
  }

  /** The number a digit string denotes, most significant digit first. */
  function HexValue(s: string): nat
    requires AllHexDigits(s)
  {
    if |s| == 0 then 0 else HexValue(s[..|s| - 1]) * 16 + DigitValue(s[|s| - 1])
  }

  /**
   * Minimal lowercase base-16 rendering of n: at least one digit, no leading
   * zero unless n is zero (which renders as "0"), and it denotes n.
   */
  function ToHex(n: nat): (s: string)
    decreases n
    ensures |s| >= 1
    ensures AllLowerHexDigits(s) && AllHexDigits(s)
    ensures (s[0] == '0') == (n == 0)
    ensures HexValue(s) == n
  {
    if n < 16 then [HexDigit(n)]
    else
      var high := ToHex(n / 16);
      assert (high + [HexDigit(n % 16)])[..|high|] == high;
      high + [HexDigit(n % 16)]
  }

  /** The rendering has exactly as many digits as n needs: 16^(len-1) <= n < 16^len. */
  lemma {:induction false} ToHexBounds(n: nat)
    ensures n < Pow(16, |ToHex(n)|)
    ensures n > 0 ==> Pow(16, |ToHex(n)| - 1) <= n
  {
    if n >= 16 {
      ToHexBounds(n / 16);
      var k := |ToHex(n / 16)|;
      assert |ToHex(n)| == k + 1;
      assert Pow(16, k + 1) == 16 * Pow(16, k);
      assert Pow(16, k) == 16 * Pow(16, k - 1);
    }
  }

  /** A number between 16^(k-1) and 16^k renders with exactly k digits. */
  lemma ToHexLength(n: nat, k: nat)
    requires k >= 1 && Pow(16, k - 1) <= n < Pow(16, k)
    ensures |ToHex(n)| == k
  {
    PowPositive(16, k - 1);
    ToHexBounds(n);
    var len := |ToHex(n)|;
    if len > k {
      PowMonotonic(16, k, len - 1);
    } else if len < k {
      PowMonotonic(16, len, k - 1);
    }
  }

  /** Error kinds of an integer parse, as Rust's `IntErrorKind` names them. */
  datatype IntErrorKind = Empty | InvalidDigit | PosOverflow

  /** The `Result<u8, ParseIntError>` of a parse. */
  datatype ParsedByte = Parsed(value: nat) | ParseFailed(kind: IntErrorKind)

  const U8Max: nat := 255

  /**
   * `u8::from_str_radix(src, 16)`: an optional leading '+', then base-16
   * digits of either case, accumulated left to right, failing as soon as the
   * value leaves the u8 range.
   */
  function ParseU8Radix16(src: string): (r: ParsedByte)
    ensures r.Parsed? ==> r.value <= U8Max
    ensures r.Parsed? ==> |src| > 0
  {
    if |src| == 0 then ParseFailed(Empty)
    else if (src[0] == '+' || src[0] == '-') && |src| == 1 then ParseFailed(InvalidDigit)
    else if src[0] == '+' then AccumulateDigits(src[1..], 0)
    else AccumulateDigits(src, 0)
  }

  /** The digit loop of the parse, with the value read so far in acc. */
  function AccumulateDigits(digits: string, acc: nat): (r: ParsedByte)
    requires acc <= U8Max
    decreases |digits|
    ensures r.Parsed? ==> acc <= r.value <= U8Max
    ensures r.Parsed? ==> AllHexDigits(digits)
  {
    if |digits| == 0 then Parsed(acc)
    else if !IsHexDigit(digits[0]) then ParseFailed(InvalidDigit)
    else if acc * 16 + DigitValue(digits[0]) > U8Max then ParseFailed(PosOverflow)
    else AccumulateDigits(digits[1..], acc * 16 + DigitValue(digits[0]))
  }

  /**
   * Over hexadecimal digits the parse's loop either yields the value of acc
   * followed by the digits, when that fits in a u8, or reports PosOverflow.
   */
  lemma {:induction false} AccumulateDigitsValue(digits: string, acc: nat)
    requires acc <= U8Max && AllHexDigits(digits)
    ensures var x := acc * Pow(16, |digits|) + HexValue(digits);
      AccumulateDigits(digits, acc) == if x <= U8Max then Parsed(x) else ParseFailed(PosOverflow)
    decreases |digits|
  {
    if |digits| > 0 {
      var c, t := digits[0], digits[1..];
      assert [c] + t == digits;
      HexValueCons(c, t);
      var p := Pow(16, |t|);
      assert Pow(16, |digits|) == 16 * p;
      PowPositive(16, |t|);
      var next := acc * 16 + DigitValue(c);
      Regroup(acc, DigitValue(c), p, HexValue(t));
      if next <= U8Max {
        AccumulateDigitsValue(t, next);
      }
    }
  }

  /** Reading the digit d after acc, in front of |t| more digits (p == 16^|t|, h their value). */
  lemma Regroup(acc: nat, d: nat, p: nat, h: nat)
    requires p >= 1
    ensures acc * (16 * p) + (d * p + h) == (acc * 16 + d) * p + h
    ensures (acc * 16 + d) * p + h >= acc * 16 + d
  {
    MulMonotonic(1, p, acc * 16 + d);
  }

  /** A non-empty string of hexadecimal digits parses to its value, or overflows past 255. */
  lemma ParseHexDigits(s: string)
    requires |s| >= 1 && AllHexDigits(s)
    ensures ParseU8Radix16(s) == if HexValue(s) <= U8Max then Parsed(HexValue(s)) else ParseFailed(PosOverflow)
  {
    assert s[0] != '+' && s[0] != '-';
    AccumulateDigitsValue(s, 0);
  }

  /** A leading digit c adds its value times 16^|t|. */
  lemma {:induction false} HexValueCons(c: char, t: string)
    requires IsHexDigit(c) && AllHexDigits(t)
    ensures AllHexDigits([c] + t)
    ensures HexValue([c] + t) == DigitValue(c) * Pow(16, |t|) + HexValue(t)
  {
    var s := [c] + t;
    assert forall i :: 0 <= i < |s| ==> s[i] == if i == 0 then c else t[i - 1];
    if |t| > 0 {
      var n := |t|;
      var init := t[..n - 1];
      HexValueCons(c, init);
      assert s[..|s| - 1] == [c] + init;
      assert s[|s| - 1] == t[n - 1];
      var d, h, e := DigitValue(c), HexValue(init), DigitValue(t[n - 1]);
      var p := Pow(16, n - 1);
      assert Pow(16, n) == 16 * p;
      Shift16(HexValue(s), HexValue(t), d, p, h, e);
    }
  }

  /** The arithmetic of one more trailing digit e after a leading d at weight p. */
  lemma Shift16(hs: nat, ht: nat, d: nat, p: nat, h: nat, e: nat)
    requires hs == (d * p + h) * 16 + e && ht == h * 16 + e
    ensures hs == d * (16 * p) + ht
  {
    assert (d * p) * 16 == d * (16 * p);
  }

  /** Two hexadecimal digits always parse, to the byte they denote. */
  lemma ParsePair(pair: string)
    requires |pair| == 2 && AllHexDigits(pair)
    ensures ParseU8Radix16(pair) == Parsed(HexValue(pair))
    ensures HexValue(pair) == DigitValue(pair[0]) * 16 + DigitValue(pair[1])
  {
    assert pair[..1][..0] == [];
    var d0, d1 := DigitValue(pair[0]), DigitValue(pair[1]);
    assert pair[0] != '+' && pair[0] != '-';
    assert AccumulateDigits(pair[1..][1..], d0 * 16 + d1) == Parsed(d0 * 16 + d1);
    assert AccumulateDigits(pair[1..], d0) == Parsed(d0 * 16 + d1);
    assert AccumulateDigits(pair, 0) == Parsed(d0 * 16 + d1);
  }

  /** Cutting the last two digits off divides the value by 256; they hold the remainder. */
  lemma HexValueDropPair(s: string)
    requires |s| >= 2 && AllHexDigits(s)
    ensures HexValue(s) == HexValue(s[..|s| - 2]) * 256 + HexValue(s[|s| - 2..])
  {
    var n := |s|;
    assert s[..n - 1][..n - 2] == s[..n - 2];
    ParsePair(s[n - 2..]);
  }

  /** A leading '0' digit does not change the value. */
  lemma {:induction false} HexValueLeadingZero(s: string)
    requires AllHexDigits(s)
    ensures AllHexDigits(['0'] + s) && HexValue(['0'] + s) == HexValue(s)
  {
    if |s| > 0 {
      HexValueLeadingZero(s[..|s| - 1]);
      assert (['0'] + s)[..|s|] == ['0'] + s[..|s| - 1];
    }
  }
}
