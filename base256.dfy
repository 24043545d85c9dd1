/**
 * Strings of byte-valued characters read as base-256 numerals, as the
 * decoder at src/cli.rs:50-58 produces them (each byte `n` becomes the
 * character `n as char`).
 */
module Base256 {
  import opened Powers

  /** Every character's code is a byte, 0..255. */
  predicate IsByteString(s: string)
  {
    forall i :: 0 <= i < |s| ==> s[i] as int < 256
  }

  /** The number s denotes with its first character most significant. */
  function BigEndianValue(s: string): nat
  {
    if |s| == 0 then 0 else BigEndianValue(s[..|s| - 1]) * 256 + s[|s| - 1] as nat
  }

  /** The number s denotes with its first character least significant. */
  function LittleEndianValue(s: string): nat
  {
    if |s| == 0 then 0 else s[0] as nat + 256 * LittleEndianValue(s[1..])
  }

  /** The k low-order bytes of v as characters, most significant first. */
  function BigEndianBytes(v: nat, k: nat): (s: string)
    ensures |s| == k && IsByteString(s)
  {
    if k == 0 then [] else BigEndianBytes(v / 256, k - 1) + [(v % 256) as char]
  }

  /** Character order reversed, as `Vec::reverse` leaves it. */
  function Reverse(s: string): (r: string)
    ensures |r| == |s|
    ensures forall i :: 0 <= i < |s| ==> r[i] == s[|s| - 1 - i]
  {
    if |s| == 0 then [] else Reverse(s[1..]) + [s[0]]
  }

  lemma ReverseByteString(s: string)
    requires IsByteString(s)
    ensures IsByteString(Reverse(s))
  {
  }

  /** Pushing c after s adds c times 256^|s| to the little-endian value. */
  lemma {:induction false} LittleEndianPush(s: string, c: char)
    ensures LittleEndianValue(s + [c]) == LittleEndianValue(s) + c as nat * Pow(256, |s|)
  {
    if |s| > 0 {
      assert (s + [c])[1..] == s[1..] + [c];
      LittleEndianPush(s[1..], c);
      assert Pow(256, |s|) == 256 * Pow(256, |s| - 1);
      assert 256 * (c as nat * Pow(256, |s| - 1)) == c as nat * Pow(256, |s|);
    }
  }

  /** Reading the reversal most-significant-first is reading s least-significant-first. */
  lemma {:induction false} ReverseValue(s: string)
    ensures BigEndianValue(Reverse(s)) == LittleEndianValue(s)
  {
    if |s| > 0 {
      ReverseValue(s[1..]);
      var r := Reverse(s);
      assert r[..|r| - 1] == Reverse(s[1..]);
    }
  }

  /** A byte string of length k denotes a number below 256^k. */
  lemma {:induction false} BigEndianValueBound(s: string)
    requires IsByteString(s)
    ensures BigEndianValue(s) < Pow(256, |s|)
  {
    if |s| > 0 {
      BigEndianValueBound(s[..|s| - 1]);
      assert Pow(256, |s|) == 256 * Pow(256, |s| - 1);
    }
  }

  /** The first byte fixes the value to within one step of 256^(k-1). */
  lemma {:induction false} BigEndianValueLeading(s: string)
    requires IsByteString(s) && |s| >= 1
    ensures s[0] as nat * Pow(256, |s| - 1) <= BigEndianValue(s)
    ensures BigEndianValue(s) < (s[0] as nat + 1) * Pow(256, |s| - 1)
  {
    var n := |s|;
    if n > 1 {
      var init := s[..n - 1];
      BigEndianValueLeading(init);
      assert init[0] == s[0];
      var a, p, x := s[0] as nat, Pow(256, n - 2), BigEndianValue(init);
      assert Pow(256, n - 1) == 256 * p;
      assert BigEndianValue(s) == x * 256 + s[n - 1] as nat;
      ShiftByte(a, p, x, s[n - 1] as nat);
    }
  }

  /** Appending one byte c scales the bounds a*p <= x < (a+1)*p by 256. */
  lemma ShiftByte(a: nat, p: nat, x: nat, c: nat)
    requires a * p <= x < (a + 1) * p && c < 256
    ensures a * (256 * p) <= x * 256 + c < (a + 1) * (256 * p)
  {
    assert a * (256 * p) == 256 * (a * p);
    assert (a + 1) * (256 * p) == 256 * (a * p) + 256 * p;
    assert x + 1 <= a * p + p;
  }

  /** Encoding the value of the k low bytes gives back v when v fits in k bytes. */
  lemma {:induction false} BigEndianBytesValue(v: nat, k: nat)
    requires v < Pow(256, k)
    ensures BigEndianValue(BigEndianBytes(v, k)) == v
  {
    if k > 0 {
      assert Pow(256, k) == 256 * Pow(256, k - 1);
      assert v / 256 < Pow(256, k - 1);
      BigEndianBytesValue(v / 256, k - 1);
      var s := BigEndianBytes(v, k);
      assert s[..k - 1] == BigEndianBytes(v / 256, k - 1);
    }
  }

  /** A byte string is the encoding of its own value: base-256 numerals are unique. */
  lemma {:induction false} BigEndianValueBytes(s: string)
    requires IsByteString(s)
    ensures BigEndianBytes(BigEndianValue(s), |s|) == s
  {
    var n := |s|;
    if n > 0 {
      var init := s[..n - 1];
      BigEndianValueBytes(init);
      var x := BigEndianValue(init);
      var c := s[n - 1] as nat;
      assert BigEndianValue(s) == x * 256 + c;
      assert (x * 256 + c) / 256 == x;
      assert (x * 256 + c) % 256 == c;
      assert s == init + [s[n - 1]];
    }
  }

  /** Two byte strings without a leading NUL that denote the same number are equal. */
  lemma MinimalBytesUnique(r: string, s: string)
    requires IsByteString(r) && IsByteString(s)
    requires |r| == 0 || r[0] as int != 0
    requires |s| == 0 || s[0] as int != 0
    requires BigEndianValue(r) == BigEndianValue(s)
    ensures r == s
  {
    if |r| != |s| {
      if |r| < |s| {
        MinimalLengthBelow(r, s);
      } else {
        MinimalLengthBelow(s, r);
      }
    }
    BigEndianValueBytes(r);
    BigEndianValueBytes(s);
  }

  /** A shorter byte string denotes less than a longer one without a leading NUL. */
  lemma MinimalLengthBelow(r: string, s: string)
    requires IsByteString(r) && IsByteString(s)
    requires |r| < |s| && s[0] as int != 0
    ensures BigEndianValue(r) < BigEndianValue(s)
  {
    BigEndianValueBound(r);
    BigEndianValueLeading(s);
    PowMonotonic(256, |r|, |s| - 1);
    MulMonotonic(1, s[0] as nat, Pow(256, |s| - 1));
  }
}
