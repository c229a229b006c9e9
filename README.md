# Roman-numeral IPv4 addresses, in Dafny

`pingIV` is a ping utility that takes its target as a Roman-numeral IPv4
address, such as `CXXVII.N.N.I` for 127.0.0.1. This project models the part
that turns such an address into dotted decimal, and proves what that
conversion does.

- `romanToInt` (module `Roman`) decodes one token into an octet value.
  - `N`, `n` and `nulla` are zero.
  - Any other token is upper-cased and scanned from right to left. A symbol
    smaller than the one to its right is subtracted; otherwise it is added.
  - A character outside `I V X L C D M` is an error, and so is a total
    outside 0..255.
- `romanIPv4ToDecimal` (module `Address`) converts a whole address.
  - It splits the address on `.`, rejects more than four segments, and
    decodes each segment in order.
  - The first segment that fails is reported with its 1-based position.
  - Missing segments are padded with `0` up to four fields, and the fields
    are joined with dots.

Both Go functions are loops, so each becomes a method with loop invariants.
Each method is proved equal to a recursive specification function:
`Roman.RomanToInt` to `Roman.Decode`, and `Address.RomanIPv4ToDecimal` to
`Address.Convert`. The properties are then proved as lemmas about those
functions.

Module `Text` models the Go library calls the converter makes:
`strings.ToUpper` (ASCII letters only), `strings.Split` and `strings.Join`
with a one-character separator, and `strconv.Itoa`. Each comes with a
partner lemma: an inverse or a pointwise characterisation.

Module `Roman` also defines `ToRoman`, the standard (minimal, subtractive)
spelling of each value 0..255. It proves that every such numeral decodes
back to its value (`Roman.DecodeStandard`).

Module `Examples` states the usage-text addresses and the edge cases of the
decoder as facts about the model.

Behaviours of the code worth knowing, all of which the model keeps:

- The zero literals are compared case-sensitively, and before upper-casing.
  So `NULLA` and `Nulla` are not zero: they fail on `A`.
- An empty segment is an empty token. The scan then adds nothing, so the
  segment decodes to 0. This is how `CXXVII...I` becomes 127.0.0.1.
- The `len(parts) < 1` guard can never fire, because a split always yields
  at least one piece (`Address.BadSegmentCountIff`).
- The `result < 0` guard can never fire either, because the total never
  falls below the value of the leftmost symbol (`Roman.TallyAtLeastLead`,
  `Roman.DecodeErrors`).

## Model

| member | source | states |
|---|---|---|
| Roman.Decode | pingIV.go:16-61 | A successful decode is always an octet value, 0..255. |
| Roman.Tally | pingIV.go:37-53 | The only way the scan itself fails is on an invalid symbol. |
| Roman.DecodeStandard | pingIV.go:16-61 | Every value 0..255, written as a standard Roman numeral (`ToRoman`), decodes back to itself. |
| Roman.TallyStandard | pingIV.go:37-53 | The scan of the standard numeral for a value 0..255 totals that value. |
| Roman.TallyPlaces | pingIV.go:37-53 | The standard hundreds, tens and ones groups written one after another scan to 100h + 10t + o. |
| Roman.TallyConcat | pingIV.go:41-53 | Scanning `a` followed by `b` adds the two totals, provided the last symbol of `a` is at least the first symbol of `b`. |
| Roman.SymbolsNotZeroLiteral | pingIV.go:21-23 | A string made only of table symbols is never one of the zero literals. |
| Roman.RomanToInt | pingIV.go:16-61 | The right-to-left loop returns exactly `Decode(s)`. Its invariant is that the running total and `prevValue` equal the scan of the suffix already consumed. |
| Roman.DecodeSpec | pingIV.go:21-60 | The zero literals give 0. For any other token made only of symbols, the result is the sum of each upper-cased symbol's value, negated when that value is strictly smaller than its right neighbour's. That sum is never negative. It is returned when it is at most 255, and rejected as out of range otherwise. |
| Roman.TallyIsSignedSum | pingIV.go:41-53 | For a string of table symbols, the scan of every suffix equals the sum of the signed contributions of its symbols. |
| Roman.TallyAtLeastLead | pingIV.go:47-52 | The running total is never below the value of the leftmost symbol consumed, so it is never negative. |
| Roman.TableDoubling | pingIV.go:27-35 | Any table value is at least twice each smaller table value. This is the fact that keeps the scan non-negative. |
| Roman.DecodeErrors | pingIV.go:41-58 | A failing token is never a zero literal. An out-of-range failure always has a total above 255. |
| Roman.TallyOkIffAllSymbols | pingIV.go:41-45 | The scan succeeds exactly when every character is in the table. |
| Roman.TallyErrorPropagates | pingIV.go:41-45 | An invalid character met in a suffix ends the scan with that error. Nothing to its left is examined. |
| Roman.RightmostInvalidSymbol | pingIV.go:41-45 | The scan reports the rightmost character that is not in the table. |
| Roman.DecodeInvalidSymbol | pingIV.go:25-45 | A token that is not a zero literal fails on its rightmost character that is not one of I V X L C D M (in either case), upper-cased. |
| Roman.DecodeInvalidSymbolIff | pingIV.go:21-45 | A token fails on a symbol exactly when it is not a zero literal and holds a character other than I V X L C D M (in either case). |
| Roman.UpperInTable | pingIV.go:25-35 | An upper-cased character is in the table exactly when the original is a Roman letter in either case. |
| Roman.UpperNotZeroLiteral | pingIV.go:21-25 | Upper-casing never turns a token that is not a zero literal into one. |
| Roman.DecodeCaseInsensitive | pingIV.go:21-25 | Apart from the zero literals, a token and its upper-cased form decode alike. |
| Roman.TallyStep | pingIV.go:42-52 | One loop iteration: consuming a table symbol adds or subtracts its value, depending on the previous value, and makes that symbol the new previous value. |
| Address.Convert | pingIV.go:64-87 | A success implies at most three dots. A segment error carries a 1-based index no larger than the number of segments. |
| Address.DecodeSegments | pingIV.go:71-79 | A success gives one value per segment. A failure is a segment error with an index between 1 and the number of segments. |
| Address.PadWithZeros | pingIV.go:81-84 | The result has exactly four fields: the given fields first, unchanged, then "0"s. |
| Address.RomanIPv4ToDecimal | pingIV.go:64-87 | The split, decode, pad and join method returns exactly `Convert(romanIP)`. Its invariants are that the decimal fields filled so far are the texts of the values decoded so far, and that the padding is "0"s. |
| Address.BadSegmentCountIff | pingIV.go:65-69 | A split always yields at least one segment. The count error is returned exactly when the address has more than three dots. |
| Address.ConvertOkIff | pingIV.go:64-87 | A conversion succeeds exactly when there are at most four segments and every one of them decodes. |
| Address.ConvertReportsFirstFailure | pingIV.go:73-77 | With at most four segments, the error is the leftmost failing segment: its 1-based index, its text and its decode error. |
| Address.FirstFailureIsReported | pingIV.go:73-77 | The in-order decoding of the segments stops at, and reports, the first segment that fails. |
| Address.ConvertFailsAt | pingIV.go:73-77 | A segment that fails after earlier segments that decoded makes the whole conversion fail with that segment's index, text and reason. |
| Address.ConvertSucceeds | pingIV.go:73-86 | When every segment decodes, the result joins their decimal texts, padded with "0" to four fields. |
| Address.DecodeSegmentsSpec | pingIV.go:73-79 | Decoding the segments succeeds exactly when each segment decodes, and then yields each segment's value in order. |
| Address.DecodeSegmentsOfValues | pingIV.go:73-79 | Segments that each decode to a given value produce exactly the sequence of those values. |
| Address.SegmentErrorPropagates | pingIV.go:73-77 | A failure among the first segments is the failure of the whole sequence. |
| Address.FailureAfterDecodedPrefix | pingIV.go:73-77 | A failing segment after a prefix that decoded is the failure reported. |
| Address.PaddedDecimals | pingIV.go:78-84 | Four fields holding the decimal texts of the values, followed by "0"s, are what padding produces. |
| Address.ConvertFields | pingIV.go:64-86 | A successful result splits back into exactly four fields. These are the decimal texts of the input segments' values, in order, followed by "0"s. |
| Address.ConvertIsDottedDecimal | pingIV.go:78-86 | A successful result is a dotted-decimal IPv4 address: four non-empty fields, each all digits and denoting a number at most 255. |
| Text.Upper | pingIV.go:25 | Upper-casing keeps the length. |
| Text.Split | pingIV.go:65 | A split has one more piece than the string has separators. |
| Text.Itoa | pingIV.go:78 | The decimal text never contains a '.', so it is safe to join with dots. |
| Text.UpperPointwise | pingIV.go:25 | Upper-casing maps each character on its own: a-z become A-Z, and everything else is kept. |
| Text.UpperIdempotent | pingIV.go:25 | Upper-casing twice is upper-casing once. |
| Text.SplitPiecesLackSeparator | pingIV.go:65 | No piece of a split holds the separator. |
| Text.SplitPrefix | pingIV.go:65 | Splitting a separator-free prefix followed by a tail glues the prefix onto the tail's first piece. |
| Text.Join | pingIV.go:86 | No contract of its own: its properties are stated by Text.JoinCount, Text.SplitJoin and Text.JoinSplit. |
| Text.JoinCount | pingIV.go:86 | A join of one or more parts puts a separator between each two consecutive parts. The result holds at least one fewer separator than there are parts, and exactly that many when no part holds one. |
| Text.SplitJoin | pingIV.go:65-86 | Splitting the join of one or more separator-free pieces gives those pieces back. |
| Text.JoinSplit | pingIV.go:65-86 | Joining the pieces of a split gives the original string back. |
| Text.DigitsRoundTrip | pingIV.go:78 | The decimal digits of a natural number are non-empty, have no leading zero, and read back as that number. |
| Text.ItoaDigits | pingIV.go:78 | `Itoa` writes the digits of the magnitude, after a '-' for a negative number, and those digits read back as the magnitude. |
| Examples.ZeroLiterals | pingIV.go:21-23 | `N`, `n` and `nulla` decode to 0. |
| Examples.OtherSpellingsOfNulla | pingIV.go:21-45 | `NULLA` and `Nulla` are not zero literals and fail on `A`. |
| Examples.SubtractivePairs | pingIV.go:47-51 | `IV`, `IX` and `XC` decode to 4, 9 and 90. |
| Examples.CXCII | pingIV.go:41-53 | `CXCII` decodes to 192. |
| Examples.LowerCaseCXCII | pingIV.go:25 | `cxcii` decodes to 192. |
| Examples.NonCanonicalAccepted | pingIV.go:41-53 | `IIII` is accepted as 4. |
| Examples.EmptyToken | pingIV.go:37-41 | The empty token decodes to 0. |
| Examples.TooLarge | pingIV.go:56-58 | `MMM` is rejected as out of range with total 3000. |
| Examples.Localhost | pingIV.go:102 | `CXXVII.N.N.I` converts to `127.0.0.1`. |
| Examples.LocalhostEmptySegments | pingIV.go:103 | `CXXVII...I` converts to `127.0.0.1`. |
| Examples.LatinLocalhost | pingIV.go:104 | `CXXVII.nulla.nulla.I` converts to `127.0.0.1`. |
| Examples.Eights | pingIV.go:105 | `VIII.VIII.VIII.VIII` converts to `8.8.8.8`. |
| Examples.PrivateAddress | pingIV.go:106 | `CXCII.CLXVIII.I.I` converts to `192.168.1.1`. |
| Examples.SingleSegment | pingIV.go:81-86 | `CXXVII` is padded to `127.0.0.0`. |
| Examples.EmptyAddress | pingIV.go:65-86 | The empty address is one empty segment and converts to `0.0.0.0`. |
| Examples.FiveSegments | pingIV.go:67-69 | `I.I.I.I.I` is rejected for its segment count. |
| Examples.SecondSegmentTooLarge | pingIV.go:73-77 | `I.MMM.x` fails at segment 2 (`MMM`, out of range with total 3000), before the invalid `x` is reached. |

## Left out

- `main` (pingIV.go:89-183) is not part of this model. That covers flag
  parsing, the usage text, `os.Exit`, and the ICMP pinger with its timing
  and floating-point statistics. These are I/O, clocks, the network and a
  third-party library.
- Error messages are modelled as a datatype carrying the same data as the
  Go `fmt.Errorf` text (the character, the total, the segment's index and
  text, and the cause), not as formatted strings.
- Text.UpperPointwise: upper-cases ASCII letters only. Go's `strings.ToUpper`
  also maps non-ASCII letters, and this changes results. The dotless ı
  (U+0131) upper-cases to I, so Go decodes `ıV` as 4 and `ıı` as 2. The
  model rejects both with `InvalidSymbol('ı')`. For other non-ASCII
  letters, the reported symbol differs.
- Text.Upper: the same ASCII-only restriction as Text.UpperPointwise.
- Roman.DecodeInvalidSymbol: holds against Go for ASCII tokens only. For a
  token holding ı, Go reads that character as I rather than failing on it.
- Roman.DecodeInvalidSymbolIff: holds against Go for ASCII tokens only, for
  the same reason.
- Roman.UpperInTable: holds for ASCII characters only. Go's
  `strings.ToUpper` also maps ı (U+0131) to I, which is in the table,
  although ı is not a Roman letter in either case.
- Strings are sequences of characters, whereas Go indexes bytes (`s[i]`).
  For a token with multi-byte UTF-8 characters, Go would report one byte of
  that character as the invalid symbol.
- Integers are unbounded. Go's `int` is 64 bits on 64-bit platforms and
  32 bits on 32-bit ones. Overflowing it would need a token millions of
  characters long, far beyond the size of a command-line argument, so
  wrap-around is not modelled.
- Text.ItoaDigits: `Itoa` is defined for all integers, but the converter
  only applies it to 0..255.
