/**
 * The decoder of a successful run's return values (src/cli.rs:47-65): each
 * field element is rendered in base 16, cut into two-digit groups from the
 * low end, each group parsed as a byte and turned into a character, and the
 * characters reversed into most-significant-first order.
 */
module Decoder {
  import opened Powers
  import opened Radix
  import opened Base256

  /** The prime of the Cairo field: 2^251 + 17 * 2^192 + 1. */
  const FeltPrime: nat := 0x800000000000011000000000000000000000000000000000000000000000001

  /** A field element, by its canonical representative. */
  type Felt252 = v: nat | v < FeltPrime

  /** Why the decoding loop panics. */
  datatype PanicReason =
    | SubtractOverflow  // `hex.len() - 2` on a one-digit string
    | UnwrapFailed      // `unwrap` of a failed byte parse

  /** How the decoding loop ends: with its characters, or in a panic. */
  datatype Outcome = Decoded(text: string) | Panicked(reason: PanicReason)

  /**
   * The `while hex.len() > 0` loop of src/cli.rs:53-56 run to its end from the
   * state (hex, ascii): each pass splits off the last two digits, parses them
   * as a byte and pushes its character onto ascii.
   */
  function RunLoop(hex: string, ascii: string): (o: Outcome)
    decreases |hex|
    ensures o.Decoded? ==> |hex| % 2 == 0
    ensures o.Decoded? ==> |o.text| == |ascii| + |hex| / 2 && o.text[..|ascii|] == ascii
  {
    if |hex| == 0 then Decoded(ascii)
    else if |hex| < 2 then Panicked(SubtractOverflow)
    else match ParseU8Radix16(hex[|hex| - 2..])
      case ParseFailed(_) => Panicked(UnwrapFailed)
      case Parsed(b) => RunLoop(hex[..|hex| - 2], ascii + [b as char])
  }

  /** Decoding of one value, lines 51-58: the loop from the rendering, then the reversal. */
  function DecodeOutcome(v: nat): (o: Outcome)
    ensures o.Decoded? ==> |ToHex(v)| % 2 == 0 && |o.text| == |ToHex(v)| / 2
  {
    match RunLoop(ToHex(v), [])
    case Decoded(ascii) => Decoded(Reverse(ascii))
    case Panicked(reason) => Panicked(reason)
  }

  /**
   * From an even number of digits the loop finishes: it appends one byte per
   * pair, least significant first, and those bytes denote the digits' value.
   */
  lemma {:induction false} RunLoopEven(hex: string, ascii: string)
    requires AllHexDigits(hex) && |hex| % 2 == 0
    ensures RunLoop(hex, ascii).Decoded?
    ensures var t := RunLoop(hex, ascii).text;
      |t| == |ascii| + |hex| / 2 && t[..|ascii|] == ascii &&
      IsByteString(t[|ascii|..]) && LittleEndianValue(t[|ascii|..]) == HexValue(hex)
    decreases |hex|
  {
    if |hex| > 0 {
      var n := |hex|;
      var pair, rest := hex[n - 2..], hex[..n - 2];
      ParsePair(pair);
      HexValueDropPair(hex);
      var c := HexValue(pair) as char;
      var ascii' := ascii + [c];
      assert RunLoop(hex, ascii) == RunLoop(rest, ascii');
      RunLoopEven(rest, ascii');
      var t := RunLoop(rest, ascii').text;
      assert t[..|ascii'|][..|ascii|] == t[..|ascii|];
      var tail := t[|ascii|..];
      assert tail[0] == c && tail[1..] == t[|ascii'|..];
    }
  }

  /** From an odd number of digits the loop reaches a single digit and panics. */
  lemma {:induction false} RunLoopOdd(hex: string, ascii: string)
    requires AllHexDigits(hex) && |hex| % 2 == 1
    ensures RunLoop(hex, ascii) == Panicked(SubtractOverflow)
    decreases |hex|
  {
    if |hex| > 1 {
      var n := |hex|;
      ParsePair(hex[n - 2..]);
      RunLoopOdd(hex[..n - 2], ascii + [HexValue(hex[n - 2..]) as char]);
    }
  }

  /**
   * Decoding panics exactly when the rendering has an odd number of digits,
   * and then always at the subtraction, never at the `unwrap`.
   */
  lemma DecodePanicsIffOdd(v: nat)
    ensures DecodeOutcome(v).Panicked? <==> |ToHex(v)| % 2 == 1
    ensures DecodeOutcome(v).Panicked? ==> DecodeOutcome(v).reason == SubtractOverflow
  {
    if |ToHex(v)| % 2 == 1 {
      RunLoopOdd(ToHex(v), []);
    } else {
      RunLoopEven(ToHex(v), []);
    }
  }

  /** Zero renders as "0", one digit, so decoding it panics. */
  lemma ZeroPanics()
    ensures DecodeOutcome(0) == Panicked(SubtractOverflow)
  {
    RunLoopOdd(ToHex(0), []);
  }

  /**
   * With an even number of digits the result has one character per digit
   * pair, is the big-endian base-256 encoding of v, reads back as v, and
   * does not start with a byte below 16.
   */
  lemma DecodedText(v: nat)
    requires |ToHex(v)| % 2 == 0
    ensures DecodeOutcome(v).Decoded?
    ensures var r := DecodeOutcome(v).text;
      |r| == |ToHex(v)| / 2 && IsByteString(r) &&
      r == BigEndianBytes(v, |r|) && BigEndianValue(r) == v &&
      (|r| > 0 ==> r[0] as int >= 16)
  {
    var hex := ToHex(v);
    RunLoopEven(hex, []);
    var t := RunLoop(hex, []).text;
    assert t[0..] == t;
    var r := Reverse(t);
    ReverseValue(t);
    ReverseByteString(t);
    BigEndianValueBytes(r);
    if |r| > 0 {
      ToHexBounds(v);
      LeadingByteAtLeast16(r);
    }
  }

  /** A byte string whose value needs 2k base-16 digits starts with a byte of at least 16. */
  lemma LeadingByteAtLeast16(r: string)
    requires IsByteString(r) && |r| >= 1
    requires Pow(16, 2 * |r| - 1) <= BigEndianValue(r)
    ensures r[0] as int >= 16
  {
    var m := |r|;
    var p := Pow(256, m - 1);
    Pow256IsPow16(m - 1);
    assert Pow(16, 2 * m - 1) == 16 * p;
    BigEndianValueLeading(r);
    PowPositive(256, m - 1);
  }

  lemma FeltPrimeBelow16Pow63()
    ensures FeltPrime < Pow(16, 63)
  {
    var p1 := Pow(16, 1);
    assert p1 == 16;
    PowAdd(16, 1, 1);
    var p2 := Pow(16, 2);
    assert p2 == 0x100;
    PowAdd(16, 2, 2);
    var p4 := Pow(16, 4);
    assert p4 == 0x10000;
    PowAdd(16, 4, 4);
    var p8 := Pow(16, 8);
    assert p8 == 0x1_0000_0000;
    PowAdd(16, 8, 8);
    var p16 := Pow(16, 16);
    assert p16 == 0x1_0000_0000_0000_0000;
    PowAdd(16, 16, 16);
    var p32 := Pow(16, 32);
    assert p32 == 0x1_0000_0000_0000_0000_0000_0000_0000_0000;
    PowAdd(16, 32, 16);
    PowAdd(16, 48, 8);
    PowAdd(16, 56, 4);
    PowAdd(16, 60, 2);
    PowAdd(16, 62, 1);
    assert Pow(16, 63) == p32 * p16 * p8 * p4 * p2 * p1;
  }

  /** A field element decodes to at most 31 characters, the size of a Cairo short string. */
  lemma FeltDecodesToShortString(v: Felt252)
    requires |ToHex(v)| % 2 == 0
    ensures DecodeOutcome(v).Decoded? && |DecodeOutcome(v).text| <= 31
  {
    DecodedText(v);
    ToHexBounds(v);
    FeltPrimeBelow16Pow63();
    if |ToHex(v)| > 63 {
      PowMonotonic(16, 63, |ToHex(v)| - 1);
    }
  }

  /**
   * A single-byte value decodes to the one character with that code when it
   * takes two digits; below 16 it takes one digit and decoding panics.
   */
  lemma SingleByte(b: nat)
    requires b < 256
    ensures DecodeOutcome(b) == if b >= 16 then Decoded([b as char]) else Panicked(SubtractOverflow)
  {
    if b >= 16 {
      assert Pow(16, 2) == 256;
      ToHexLength(b, 2);
      DecodedText(b);
      assert BigEndianBytes(b, 1) == [b as char];
    } else {
      DecodePanicsIffOdd(b);
    }
  }

  /**
   * Packing a byte string big-endian into a number and decoding it gives the
   * string back exactly when the string is non-empty and its first byte is
   * at least 16: a first byte below 16 leaves an odd number of digits.
   */
  lemma RoundTrip(s: string)
    requires IsByteString(s)
    ensures DecodeOutcome(BigEndianValue(s)) == Decoded(s) <==> (|s| > 0 && s[0] as int >= 16)
  {
    if |s| > 0 && s[0] as int >= 16 {
      RoundTripHolds(s);
    } else {
      RoundTripFails(s);
    }
  }

  lemma RoundTripHolds(s: string)
    requires IsByteString(s) && |s| > 0 && s[0] as int >= 16
    ensures DecodeOutcome(BigEndianValue(s)) == Decoded(s)
  {
    var v := BigEndianValue(s);
    assert |ToHex(v)| == 2 * |s| by {
      RenderedLength(s);
    }
    DecodesToBytes(v, |s|);
    BigEndianValueBytes(s);
  }

  lemma DecodesToBytes(v: nat, k: nat)
    requires |ToHex(v)| == 2 * k
    ensures DecodeOutcome(v) == Decoded(BigEndianBytes(v, k))
  {
    DecodedText(v);
  }

  lemma RoundTripFails(s: string)
    requires IsByteString(s) && !(|s| > 0 && s[0] as int >= 16)
    ensures DecodeOutcome(BigEndianValue(s)) != Decoded(s)
  {
    var v := BigEndianValue(s);
    if |s| == 0 {
      ZeroPanics();
    } else if DecodeOutcome(v).Decoded? {
      DecodePanicsIffOdd(v);
      DecodedText(v);
    }
  }

  /** A byte string whose first byte is at least 16 renders with two digits per byte. */
  lemma RenderedLength(s: string)
    requires IsByteString(s) && |s| > 0 && s[0] as int >= 16
    ensures |ToHex(BigEndianValue(s))| == 2 * |s|
  {
    var m := |s|;
    var p := Pow(256, m - 1);
    BigEndianValueLeading(s);
    BigEndianValueBound(s);
    Pow256IsPow16(m - 1);
    Pow256IsPow16(m);
    assert Pow(16, 2 * m - 1) == 16 * p;
    MulMonotonic(16, s[0] as nat, p);
    ToHexLength(BigEndianValue(s), 2 * m);
  }

  /**
   * Decodes one value, as src/cli.rs:51-58 does. The caller must supply a
   * value whose rendering has an even number of digits: from an odd number
   * the last pass computes `1 - 2` (see DecodePanicsIffOdd).
   */
  method DecodeValue(v: Felt252) returns (result: string)
    requires |ToHex(v)| % 2 == 0
    ensures DecodeOutcome(v) == Decoded(result)
    ensures |result| == |ToHex(v)| / 2 && |result| <= 31
    ensures IsByteString(result) && result == BigEndianBytes(v, |result|)
    ensures BigEndianValue(result) == v
    ensures |result| > 0 ==> result[0] as int >= 16
  {
    var hex := ToHex(v);
    var asciiChars: string := [];
    while |hex| > 0
      invariant |hex| % 2 == 0
      invariant RunLoop(hex, asciiChars) == RunLoop(ToHex(v), [])
      invariant Denotes(hex, asciiChars, v)
      decreases |hex|
    {
      PassStep(hex, asciiChars, v);
      var pair := hex[|hex| - 2..];
      hex := hex[..|hex| - 2];
      var parsed := ParseU8Radix16(pair);
      asciiChars := asciiChars + [parsed.value as char];
    }
    result := Reverse(asciiChars);
    LoopExit(v, asciiChars);
  }

  /** When the loop ends, the reversed characters are the decoded text. */
  lemma LoopExit(v: Felt252, ascii: string)
    requires |ToHex(v)| % 2 == 0 && RunLoop([], ascii) == RunLoop(ToHex(v), [])
    ensures var r := Reverse(ascii);
      DecodeOutcome(v) == Decoded(r) && |r| == |ToHex(v)| / 2 && |r| <= 31 &&
      IsByteString(r) && r == BigEndianBytes(v, |r|) && BigEndianValue(r) == v &&
      (|r| > 0 ==> r[0] as int >= 16)
  {
    assert DecodeOutcome(v) == Decoded(Reverse(ascii));
    DecodedText(v);
    FeltDecodesToShortString(v);
  }

  /**
   * One pass from at least two digits: the last pair parses to the byte it
   * denotes, and pushing that byte keeps both loop invariants.
   */
  lemma PassStep(hex: string, ascii: string, v: nat)
    requires |hex| >= 2 && Denotes(hex, ascii, v)
    ensures var b := HexValue(hex[|hex| - 2..]);
      b <= U8Max && ParseU8Radix16(hex[|hex| - 2..]) == Parsed(b) &&
      RunLoop(hex, ascii) == RunLoop(hex[..|hex| - 2], ascii + [b as char]) &&
      Denotes(hex[..|hex| - 2], ascii + [b as char], v)
  {
    ParsePair(hex[|hex| - 2..]);
    ValueStep(hex, ascii, v);
  }

  /**
   * The loop's value invariant: the unconsumed high-order digits, shifted
   * past the pushed characters, plus those characters read least
   * significant first, still denote v.
   */
  predicate Denotes(hex: string, ascii: string, v: nat)
  {
    AllHexDigits(hex) &&
    Shift256(HexValue(hex), |ascii|) + LittleEndianValue(ascii) == v
  }

  /** h shifted k bytes up, h * 256^k. */
  function Shift256(h: nat, k: nat): nat
  {
    if k == 0 then h else 256 * Shift256(h, k - 1)
  }

  /** Shifting by k bytes multiplies by 256^k. */
  lemma {:induction false} Shift256IsMul(h: nat, k: nat)
    ensures Shift256(h, k) == h * Pow(256, k)
  {
    if k > 0 {
      Shift256IsMul(h, k - 1);
      assert h * (256 * Pow(256, k - 1)) == 256 * (h * Pow(256, k - 1));
    }
  }

  /**
   * One pass keeps the loop's value invariant: the pair cut off the digits
   * becomes the next, more significant, pushed byte.
   */
  lemma ValueStep(hex: string, ascii: string, v: nat)
    requires |hex| >= 2 && Denotes(hex, ascii, v)
    ensures var b := HexValue(hex[|hex| - 2..]);
      b <= U8Max && Denotes(hex[..|hex| - 2], ascii + [b as char], v)
  {
    var n := |hex|;
    HexValueDropPair(hex);
    ParsePair(hex[n - 2..]);
    var high, b := HexValue(hex[..n - 2]), HexValue(hex[n - 2..]);
    var p := Pow(256, |ascii|);
    LittleEndianPush(ascii, b as char);
    assert Pow(256, |ascii| + 1) == 256 * p;
    Shift256IsMul(HexValue(hex), |ascii|);
    Shift256IsMul(high, |ascii| + 1);
    PushByte(HexValue(hex), high, b, p, LittleEndianValue(ascii), v);
  }

  /** The arithmetic of one pass: value h = high*256 + b at weight p, pushed part l. */
  lemma PushByte(h: nat, high: nat, b: nat, p: nat, l: nat, v: nat)
    requires h == high * 256 + b && h * p + l == v
    ensures high * (256 * p) + (l + b * p) == v
  {
    assert h * p == high * 256 * p + b * p;
  }

  /** The outcome of running `::main`, as the runner reports it. */
  datatype RunResultValue = Success(values: seq<Felt252>) | Panic(values: seq<Felt252>)

  /** What is presented: one decoded string per success value, or the raw panic values. */
  datatype Report = Completed(results: seq<string>) | PanickedWith(errValues: seq<Felt252>)

  /**
   * The `match result.value` of src/cli.rs:47-65: success values are decoded
   * one by one, in order; panic values are passed through undecoded.
   */
  method ReportResult(value: RunResultValue) returns (report: Report)
    requires value.Success? ==> forall i :: 0 <= i < |value.values| ==> |ToHex(value.values[i])| % 2 == 0
    ensures value.Panic? ==> report == PanickedWith(value.values)
    ensures value.Success? ==> report.Completed? && |report.results| == |value.values|
    ensures value.Success? ==>
      forall i :: 0 <= i < |value.values| ==> DecodeOutcome(value.values[i]) == Decoded(report.results[i])
  {
    match value
    case Success(values) =>
      var results: seq<string> := [];
      for i := 0 to |values|
        invariant |results| == i
        invariant forall j :: 0 <= j < i ==> DecodeOutcome(values[j]) == Decoded(results[j])
      {
        var text := DecodeValue(values[i]);
        results := results + [text];
      }
      report := Completed(results);
    case Panic(values) =>
      report := PanickedWith(values);
  }

  /**
   * Corrected rendering: zero gives no digits and an odd count gets a leading
   * '0', so the loop always sees whole pairs.
   */
  function PaddedHex(v: nat): string
  {
    if v == 0 then []
    else if |ToHex(v)| % 2 == 1 then ['0'] + ToHex(v)
    else ToHex(v)
  }

  /** Decoding with the corrected rendering. */
  function DecodePaddedOutcome(v: nat): Outcome
  {
    match RunLoop(PaddedHex(v), [])
    case Decoded(ascii) => Decoded(Reverse(ascii))
    case Panicked(reason) => Panicked(reason)
  }

  /**
   * With the corrected rendering every value decodes, to its minimal
   * big-endian byte string: empty for zero, otherwise without a leading NUL.
   */
  lemma PaddedDecodes(v: nat)
    ensures DecodePaddedOutcome(v).Decoded?
    ensures var r := DecodePaddedOutcome(v).text;
      IsByteString(r) && BigEndianValue(r) == v &&
      (|r| == 0 <==> v == 0) && (|r| > 0 ==> r[0] as int != 0)
  {
    if v != 0 {
      var hex := PaddedHex(v);
      PaddedHexDigits(v);
      RunLoopEven(hex, []);
      var t := RunLoop(hex, []).text;
      assert t[0..] == t;
      var r := Reverse(t);
      ReverseValue(t);
      ReverseByteString(t);
      assert |r| * 2 == |hex|;
      NoLeadingNul(r);
    }
  }

  /** The corrected rendering of a non-zero value: whole digit pairs, same value, at most one added digit. */
  lemma PaddedHexDigits(v: nat)
    requires v != 0
    ensures AllHexDigits(PaddedHex(v)) && |PaddedHex(v)| % 2 == 0
    ensures HexValue(PaddedHex(v)) == v
    ensures Pow(16, |PaddedHex(v)| - 2) <= v
  {
    var hex := PaddedHex(v);
    if |ToHex(v)| % 2 == 1 {
      HexValueLeadingZero(ToHex(v));
    }
    ToHexBounds(v);
    PowMonotonic(16, |hex| - 2, |ToHex(v)| - 1);
  }

  /** A byte string whose value needs all its bytes does not start with NUL. */
  lemma NoLeadingNul(r: string)
    requires IsByteString(r) && |r| >= 1
    requires Pow(16, 2 * |r| - 2) <= BigEndianValue(r)
    ensures r[0] as int != 0
  {
    Pow256IsPow16(|r| - 1);
    BigEndianValueLeading(r);
  }

  /** With the corrected rendering, every byte string without a leading NUL survives the round trip. */
  lemma PaddedRoundTrip(s: string)
    requires IsByteString(s) && (|s| == 0 || s[0] as int != 0)
    ensures DecodePaddedOutcome(BigEndianValue(s)) == Decoded(s)
  {
    var v := BigEndianValue(s);
    PaddedDecodes(v);
    MinimalBytesUnique(DecodePaddedOutcome(v).text, s);
  }
}
