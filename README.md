# Sierra runner: decoding of a successful run's return values

The runner loads a Sierra program, runs its `::main` function and, when the run
succeeds, prints each returned field element as text. This project models that
decoding step (src/cli.rs:47-65) and proves what it computes.

For each value `v` the runner:

1. renders `v` as a minimal lowercase base-16 string (`to_str_radix(16)`);
2. while that string is non-empty, cuts off its last two digits (`split_off(len - 2)`),
   parses them as a `u8` and pushes the character with that code (`n as char`);
3. reverses the pushed characters and joins them into one string.

So a value is read as a big-endian base-256 numeral with one character per byte.

Modules, leaf first:

- `Powers` (powers.dfy): `Pow` and its monotonicity and addition laws.
- `Radix` (radix.dfy): `ToHex` models `to_str_radix(16)`. `HexValue` gives the
  value of a digit string. `ParseU8Radix16` models `u8::from_str_radix(_, 16)`:
  it accepts an optional leading `+` and digits of either case, and reports
  `Empty`, `InvalidDigit` or `PosOverflow` as Rust's `IntErrorKind` does.
- `Base256` (base256.dfy): byte strings read big-endian and little-endian,
  `BigEndianBytes` (the k low-order bytes of a number), and `Reverse`, which is
  what `Vec::reverse` leaves in the vector.
- `Decoder` (decoder.dfy):
  - `RunLoop` is the `while` loop as a function. It includes both ways the loop
    can panic.
  - `DecodeOutcome` is the whole decoding of one value.
  - `DecodeValue` is the loop itself, as a method over the two mutable
    sequences `hex` and `asciiChars`.
  - `ReportResult` is the `Success`/`Panic` match.
  - `PaddedHex` and `DecodePaddedOutcome` are a corrected decoder. See Findings.

Field elements are `Felt252`: naturals below the Cairo prime 2^251 + 17·2^192 + 1.

The code needs an even number of digits. With an odd count, the last pass
evaluates `hex.len() - 2` on a one-digit string. In a debug build that
subtraction overflows `usize` and panics. In a release build it wraps, and
`split_off` then panics because the index is out of range. The model represents
both as `Panicked(SubtractOverflow)`. Zero renders as `"0"`, so decoding zero
panics rather than giving the empty string; `ZeroPanics` states this.
`DecodeValue` therefore requires an even digit count. `DecodeOutcome` stays
total and covers the odd case.

## Model

| member | source | states |
|---|---|---|
| Radix.ToHex | src/cli.rs:51 | The rendering has at least one digit and uses only lowercase hex digits. It starts with '0' exactly when the value is zero, and it denotes the value. |
| Radix.ToHexBounds | src/cli.rs:51 | The rendering is minimal: 16^(len-1) <= n < 16^len for n > 0. |
| Radix.ToHexLength | src/cli.rs:51 | A number between 16^(k-1) and 16^k always renders with exactly k digits. |
| Radix.ParseU8Radix16 | src/cli.rs:55 | A successful `u8::from_str_radix(_, 16)` gives a value in 0..255, and only from a non-empty string. |
| Radix.AccumulateDigits | src/cli.rs:55 | A successful result of the parse's digit loop is never below the value read so far and never above 255, and it only comes from a string of hex digits. |
| Radix.AccumulateDigitsValue | src/cli.rs:55 | Over hex digits the digit loop yields acc·16^n plus the digits' value when that is at most 255, and otherwise fails with PosOverflow. |
| Radix.ParseHexDigits | src/cli.rs:55 | A non-empty string of hex digits parses to its value when that fits in a u8, and otherwise fails with PosOverflow. |
| Radix.ParsePair | src/cli.rs:55 | Two hex digits always parse, so the `unwrap` cannot fail. The byte is 16 times the first digit plus the second. |
| Radix.HexValueDropPair | src/cli.rs:54 | Splitting off the last two digits divides the value by 256, and the split-off pair holds the remainder. |
| Base256.Reverse | src/cli.rs:57 | `Vec::reverse` keeps the length and puts character len-1-i at position i. |
| Base256.LittleEndianPush | src/cli.rs:55 | Pushing character c onto s adds c·256^\|s\| to the little-endian value of s. |
| Base256.ReverseValue | src/cli.rs:57 | Read most-significant-first, the reversed characters denote what the pushed characters denote least-significant-first. |
| Base256.BigEndianBytesValue | src/cli.rs:57-58 | Encoding v into k bytes, big-endian, and reading them back gives v whenever v < 256^k. |
| Base256.BigEndianValueBytes | src/cli.rs:57-58 | Every byte string is the k-byte encoding of its own value, so base-256 numerals are unique. |
| Decoder.RunLoop | src/cli.rs:53-56 | If the loop ends without a panic, it started from an even number of digits. It then keeps the characters pushed before and adds one per digit pair. |
| Decoder.DecodeOutcome | src/cli.rs:51-58 | A decoding without a panic comes from an even-length rendering and has one character per digit pair. |
| Decoder.ValueStep | src/cli.rs:54-55 | One pass keeps the loop's value invariant: the remaining digits shifted past the pushed bytes, plus those bytes least-significant first, still denote v. The pair cut off is a byte. |
| Decoder.RunLoopEven | src/cli.rs:53-56 | From an even number of hex digits the loop ends normally. It keeps what was pushed before and pushes one byte per pair, least-significant first. Those bytes denote the digits' value. |
| Decoder.RunLoopOdd | src/cli.rs:53-54 | From an odd number of hex digits the loop reaches one digit and panics at `hex.len() - 2`. |
| Decoder.DecodePanicsIffOdd | src/cli.rs:51-56 | Decoding a value panics exactly when its rendering has an odd length, and then always at the subtraction, never at the `unwrap`. |
| Decoder.ZeroPanics | src/cli.rs:51-54 | Zero renders as "0", and decoding it panics instead of giving the empty string. |
| Decoder.DecodedText | src/cli.rs:51-58 | With an even rendering, the result has length len/2 and is a byte string. It equals the big-endian base-256 encoding of v, reads back as v, and its first character has code at least 16, so it never starts with NUL. |
| Decoder.FeltDecodesToShortString | src/cli.rs:50-58 | A field element decodes to at most 31 characters. |
| Decoder.SingleByte | src/cli.rs:51-58 | A value b from 16 to 255 decodes to the single character with code b. A value below 16 panics. |
| Decoder.RoundTrip | src/cli.rs:51-58 | Packing a byte string big-endian and decoding it gives the string back if and only if the string is non-empty and its first byte is at least 16. |
| Decoder.DecodeValue | src/cli.rs:51-58 | The `split_off`/`push` loop over `hex` and `asciiChars`, then the reversal. The loop keeps the value invariant of ValueStep. Its result is the text DecodeOutcome gives, with \|ToHex(v)\|/2 characters (one per pass), at most 31. It is the big-endian base-256 encoding of v as a byte string, reads back as v, and starts with a code of at least 16. |
| Decoder.ReportResult | src/cli.rs:47-65 | A `Success` is decoded value by value, in order, each entry being that value's decoding. A `Panic` passes its raw values through unchanged. |
| Decoder.PaddedDecodes | src/cli.rs:51-54 | Corrected decoder: every value decodes without a panic, to its minimal big-endian byte string. That string is empty exactly for zero and otherwise has no leading NUL. |
| Decoder.PaddedRoundTrip | src/cli.rs:51-58 | Corrected decoder: every byte string without a leading NUL survives packing and decoding. |

## Findings

| source | as written | input that shows it | evidently intended | confidence | as-written member | corrected member |
|---|---|---|---|---|---|---|
| src/cli.rs:51-54 | An odd-length rendering makes the last pass compute `hex.len() - 2` on one digit, which panics. | `v = 0` (renders as "0"). Also any value whose first byte is below 0x10, e.g. 0x0a41 ("\nA"). | Pad an odd rendering with a leading '0' and decode zero to the empty string, so every value decodes to its minimal byte string. | medium, not executed | Decoder.ZeroPanics | Decoder.PaddedRoundTrip |

`Decoder.DecodePanicsIffOdd` and `Decoder.RoundTrip` state the general form of
the as-written behaviour: every string whose first byte is below 16 fails the
round trip. `Decoder.ReportResult` models the code as written, so it uses the
as-written decoder together with its precondition.

## Left out

- Command-line parsing with `clap` (src/cli.rs:17-34): argument handling only.
- Corelib detection and the compiler database (src/cli.rs:36): these are calls into an external crate and look at the filesystem.
- Reading the program file and parsing Sierra (src/cli.rs:38): this is file I/O plus the parser of `cairo_lang_sierra`, which is not part of this model.
- Runner construction and `run_function` (src/cli.rs:39-46): the interpreter, gas metering and memory model are in `cairo_lang_runner`, which is not part of this model. `ReportResult` takes the run's outcome as a parameter instead.
- Printing (src/cli.rs:49, 59, 63, 66-78): the "Run completed successfully" and "Result: " lines, the panic values' `Debug` text, the remaining gas and the memory dump are all stdout output. `ReportResult` returns the decoded strings and the panic values instead of printing them.
- `Felt252::to_bigint`: the model assumes it yields the canonical non-negative representative in 0..prime-1. The library's conversion is not modelled.
- `join("")` over the characters is concatenation, so the result string is the character sequence itself.
- Decoder.DecodeValue: it requires the value to render with an even number of digits. The source panics otherwise, and `Decoder.DecodeOutcome` with `Decoder.DecodePanicsIffOdd` models that panic.
- Decoder.ReportResult: it requires the same of every success value, for the same reason.
