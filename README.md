# ipcnv converter, modelled in Dafny

`ipcnv` converts between an IPv4 address in dotted-decimal text and a signed
32-bit integer in decimal text. Mode 0 (`ipv4ToInt32`) parses `a.b.c.d`, takes
the four address bytes in network order, reverses them when the global flag
`IS_BIG_ENDIAN` is false, reads them as a native `int32` and renders that in decimal. Mode 1
(`int32ToIpv4`) parses a decimal `int32`, extracts its four bytes most
significant first by arithmetic shift and truncation, and renders them as
`a.b.c.d`. `main` checks the mode, then the input, then dispatches.

The model:

- `base.dfy` (`Base`): bytes, `Int32`, 4-byte addresses (`Quad`), `Option`, `Result`.
- `decimal.dfy` (`Decimal`): decimal rendering as `strconv.Itoa` does it, and
  parsing of signed 32-bit decimal text as `strconv.ParseInt(s, 10, 32)` does it
  (optional `+`/`-`, at least one digit, leading zeros allowed, range checked).
- `dotted_quad.dfy` (`DottedQuad`): the IPv4 dotted-quad grammar (`IPv4address`
  and `dec-octet` of section 3.2.2 of RFC 3986) and the `a.b.c.d` rendering of
  `net.IP.String`.
- `byte_order.dfy` (`ByteOrder`): big- and little-endian composition of 4 bytes,
  two's-complement reading of a 32-bit pattern, the native read of memory on a
  host of either byte order, the byte reversal, and shift-and-truncate extraction.
- `converter.dfy` (`Converter`): the two conversions as methods over 4-element
  arrays, the functions they are proved equal to, the dispatch of `main`, the
  round-trip and example lemmas, and `checkEndianness` as written.
  The methods take the flag `IS_BIG_ENDIAN` as the parameter `isBigEndian`. They
  model a host whose byte order the flag states correctly: the reversal follows the
  flag and the native read at main.go:73 follows the host.

The headline result: `Converter.Ipv4ToInt32` returns `AddressToInteger(input)`,
which does not mention the byte order. So the output is the same whatever the flag,
provided it matches the host (`ByteOrder.EndiannessCorrection`). The two directions
are inverses (`ByteOrder.SplitCompose`, `ByteOrder.ComposeSplit`,
`Converter.AddressRoundTrip`, `Converter.IntegerRoundTrip`).

`main.go` has only modes 0 and 1 (signed) and rejects every other mode at line 103.

## Model

| member | source | states |
|---|---|---|
| `Converter.Ipv4ToInt32` | main.go:54-75 | whatever the flag, provided it matches the host's byte order, the result equals the host-independent `AddressToInteger`: an `InvalidAddress` error when the text is not an IPv4 address, otherwise the decimal text of the two's-complement big-endian reading of the address bytes |
| `Converter.ReverseBytes` | main.go:65-71 | a freshly allocated 4-byte buffer holds the input bytes in reverse order (`v4le[i] = v4[3-i]`) |
| `ByteOrder.ReversedInvolution` | main.go:66-70 | reversing the 4 bytes twice gives them back |
| `ByteOrder.ComposeLEReversed` | main.go:65-73 | the little-endian reading of the reversed bytes is the big-endian reading of the bytes |
| `ByteOrder.EndiannessCorrection` | main.go:65-73 | reversing on a little-endian host (and not on a big-endian one) and then reading natively yields the two's-complement value of b0·2^24 + b1·2^16 + b2·2^8 + b3, whatever the host |
| `ByteOrder.CorrectionNeeded` | main.go:65-73 | without the reversal a little-endian host would read `1.2.3.4` as 0x04030201, not 0x01020304 |
| `ByteOrder.AsInt32AsWord` | main.go:73 | the two's-complement reading inverts the 32-bit pattern of an `int32` |
| `ByteOrder.AsWordAsInt32` | main.go:73 | the 32-bit pattern of the two's-complement reading is the original pattern |
| `ByteOrder.WordBytesCompose` | main.go:83-87 | splitting a big-endian composed word into bytes gives the bytes back |
| `ByteOrder.ComposeWordBytes` | main.go:83-87 | composing the bytes of a 32-bit pattern gives the pattern back |
| `ByteOrder.SplitCompose` | main.go:73-87 | shift-and-truncate extraction inverts the two's-complement big-endian reading of 4 bytes |
| `ByteOrder.ComposeSplit` | main.go:73-87 | the two's-complement big-endian reading inverts shift-and-truncate extraction of an `int32` |
| `Converter.Int32ToIpv4` | main.go:77-90 | the result equals `IntegerToAddress`: the parse error when the text is not a decimal `int32`, otherwise `a.b.c.d` of `byte(i>>24)`, `byte(i>>16)`, `byte(i>>8)`, `byte(i)` |
| `Converter.AddressToIntegerOutput` | main.go:73-74 | a successful result is canonical decimal text that reads back as the `int32` value of the address bytes |
| `Converter.AddressRoundTrip` | main.go:54-90 | for every valid address text, integer-to-address of its integer text gives the same address text back |
| `Converter.IntegerRoundTrip` | main.go:54-90 | for every accepted integer text, address-to-integer of its address gives the canonical decimal text of the same integer |
| `Converter.ExampleOneTwoThreeFour` | main.go:54-90 | `1.2.3.4` gives `16909060`, and `16909060` gives `1.2.3.4` |
| `Converter.ExampleAllOnes` | main.go:54-90 | `255.255.255.255` gives `-1`, and `-1` gives `255.255.255.255` |
| `Converter.BadFirstField` | main.go:55-63 | text whose first dot-separated field is not a `dec-octet` is refused with `InvalidAddress` |
| `Converter.ExampleInvalidAddresses` | main.go:55-63 | `999.1.1.1`, `01.2.3.4` and `not.an.ip` are refused with `InvalidAddress` |
| `Converter.OutOfRange` | main.go:78-81 | decimal text of a value above 2^31-1, or a negative value below -2^31, is refused with a range error and no address |
| `Converter.OutOfRangeSignAndZeros` | main.go:78-81 | decimal text of a value above 2^31-1 after a `+` sign or a leading zero is refused with a range error and no address as well |
| `Converter.ExampleNotDecimal` | main.go:78-81 | `12a`, `-` and the empty text are refused with a syntax error |
| `Converter.Run` | main.go:103-119 | whatever the flag, provided it matches the host, `main`'s checks and dispatch give `Dispatch(mode, input)` |
| `Converter.DispatchModeFirst` | main.go:103-105 | the mode error is reported exactly when the mode is other than 0 and 1, whatever the input (an empty one included): neither conversion reports it |
| `Converter.DispatchEmptyInput` | main.go:107-109 | with a valid mode, an empty input is refused as empty |
| `Converter.DispatchRoutes` | main.go:114-119 | mode 0 gives the address-to-integer result, mode 1 the integer-to-address result |
| `Converter.DispatchSucceeds` | main.go:103-119 | `main` succeeds exactly when the mode is 0 and the text is an address, or the mode is 1 and the text is a decimal `int32`: the empty check changes only the error |
| `Decimal.FormatNatInverse` | main.go:74 | the `strconv.Itoa` digits of a natural number are canonical and read back as that number |
| `Decimal.CanonicalInverse` | main.go:74 | rendering the value of canonical digit text gives the text back |
| `Decimal.ParseFormatInt32` | main.go:74-78 | `strconv.ParseInt(_, 10, 32)` reads back every `int32` that `strconv.Itoa` renders |
| `Decimal.FormatParseInt32` | main.go:74-78 | on canonical signed decimal text, parsing then rendering gives the text back |
| `DottedQuad.DecOctetIsRfcDecOctet` | main.go:55 | the field check (canonical decimal, at most 255) accepts exactly the `dec-octet` alternatives of RFC 3986 |
| `DottedQuad.ParseFormatQuad` | main.go:55-89 | every 4-byte address is read back from its `a.b.c.d` rendering |
| `DottedQuad.FormatParseQuad` | main.go:55-89 | every accepted address text is the `a.b.c.d` rendering of the bytes it denotes |
| `ByteOrder.NativeInt32` | main.go:73 | reading 4 bytes as a native `int32` (big-endian composition on a big-endian host, little-endian otherwise) equals the two's-complement big-endian reading of the bytes, reversed on a little-endian host |
| `ByteOrder.BigEndianBytes` | main.go:84-87 | `byte(i >> 24)`, `byte(i >> 16)`, `byte(i >> 8)`, `byte(i)` are the bytes of the 32-bit two's-complement pattern of `i`, most significant first, negative `i` included |
| `Decimal.FormatInt` | main.go:74 | `strconv.Itoa` text is non-empty, starts with `-` exactly for a negative value, and is digits after that |
| `Decimal.ParseInt32` | main.go:78 | `strconv.ParseInt(_, 10, 32)` refuses the empty text with a syntax error; accepted text is an optional sign then digits, and the sign of the value follows the `-`; its value on non-canonical text follows from `Decimal.ParseInt32SignAndZeros` |
| `Decimal.ParseInt32SignAndZeros` | main.go:78 | a `+` sign before digit text, a leading zero before it, and a leading zero after a `-` leave the result of `strconv.ParseInt(_, 10, 32)` unchanged, value or range error alike (so `+16909060` and `0016909060` read as `16909060`) |
| `Decimal.DigitsValueLeadingZero` | main.go:78 | a leading zero does not change the value of a digit string |
| `DottedQuad.ParseIPv4` | main.go:55-63 | `net.ParseIP(_).To4()` on accepted text gives four bytes, and the text splits at its dots into exactly the shortest decimal texts of those bytes |
| `DottedQuad.FormatQuad` | main.go:89 | `net.IP.String` of 4 bytes splits at its dots into the shortest decimal texts of the four bytes |
| `Converter.Dispatch` | main.go:103-119 | a mode outside {0, 1} gives the mode error, and the empty-input error is given exactly for a valid mode with an empty input |
| `ByteOrder.LowestAddressByte` | main.go:43-47 | the byte `*(*byte)(ptr)` reads at the lowest address of a value stored in the host's byte order: for a 32-bit value, the first of its network-order bytes on a big-endian host and the last on a little-endian one |
| `Converter.CheckEndianness` | main.go:41-52 | `checkEndianness` sets the flag from the lowest-addressed byte of the stored 0x0100, and never reaches the `can not check endianness` branch for any `int` size of two bytes or more; its flag for every such size is given by `CheckEndiannessAlwaysLittle` (three bytes or more) and `CheckEndiannessSixteenBit` (two bytes) |
| `Converter.CheckEndiannessAlwaysLittle` | main.go:41-52 | with an `int` of three bytes or more (Go's `int` is 32 or 64 bits), the byte at the lowest address of 0x0100 is 0x00 on both kinds of host, so `IS_BIG_ENDIAN` is set false on every host |
| `Converter.CheckEndiannessSixteenBit` | main.go:41-52 | with a 16-bit value the same test sets the flag to the host's byte order |
| `Converter.ProgramAddressToInteger` | main.go:41-75 | mode 0 as written, with the flag from `checkEndianness`, the reversal following the flag and the native read following the host: it succeeds exactly on IPv4 address text, and otherwise reports `InvalidAddress` |
| `Converter.ProgramOnLittleEndianHost` | main.go:41-75 | on a little-endian host the program as written gives the intended address-to-integer result |
| `Converter.ProgramOnBigEndianHost` | main.go:41-75 | on a big-endian host with a 32- or 64-bit `int` the program as written prints the little-endian reading of the address bytes |
| `Converter.ProgramWithSixteenBitDetection` | main.go:41-75 | with a 16-bit detection value the program gives the intended result on both kinds of host |
| `Converter.BigEndianHostMisreads` | main.go:41-75 | on a big-endian host with a 64-bit `int`, `1.2.3.4` prints `67305985` where `16909060` is meant |

## Left out

- `IS_BIG_ENDIAN` (main.go:42-48): `checkEndianness` stores the `int` 0x0100 and tests its lowest-addressed byte against 0x01. A Go `int` is 32 or 64 bits, so that byte is 0x00 on little- and big-endian hosts alike, and the flag is false on every Go target (`Converter.CheckEndiannessAlwaysLittle`). The methods `Converter.Ipv4ToInt32` and `Converter.Run` model the flag as if detection were correct (`isBigEndian` is both the flag and the host's byte order). On a big-endian host the program as written prints the little-endian reading of the address bytes instead (`Converter.ProgramAddressToInteger`, `Converter.ProgramOnBigEndianHost`); see "## Findings".
- The memory reads in `checkEndianness` (main.go:43-47) and at main.go:73 go through `unsafe.Pointer`. The model states them as the byte at the lowest address of a value stored in the host's byte order (`ByteOrder.LowestAddressByte`), and as big-endian composition on a big-endian host and little-endian composition otherwise (`ByteOrder.NativeInt32`). The `can not check endianness` failure (main.go:50) cannot be reached for any `int` size of two bytes or more on either kind of host (`Converter.CheckEndianness`).
- Flag parsing (main.go:95-101), printing to standard output and standard error, and process exit (main.go:36-39, 121-125) are I/O; `Converter.Run` returns the result or the error instead. The call of `checkEndianness` at main.go:93 is replaced by the `isBigEndian` parameter of `Converter.Run`.
- `net.ParseIP` is a library whose code is not part of this model. The model accepts only the IPv4 dotted-quad grammar, which refuses a leading zero in an octet as `net.ParseIP` does from Go 1.17 on; the model assumes Go 1.17 or later (earlier releases read `01.2.3.4` as `1.2.3.4`, and the exact-text round trips `DottedQuad.FormatParseQuad` and `Converter.AddressRoundTrip` would not hold). IPv6 literals, and IPv4-mapped IPv6 literals such as `::ffff:1.2.3.4` that `To4` at main.go:60 would turn into 4 bytes, are refused by the model where the program would convert the latter.
- The `len(v4) != 4` check at main.go:61 cannot fail in the model, since an address is always 4 bytes.
- `Decimal.ParseInt32`: the model reports a syntax error for any malformed text and a range error only for well-formed text out of range; the library can report a range error for text whose digits overflow before a later non-digit, and the library's message texts are not modelled.
- `net.IP.String` internals other than the dotted-decimal rendering of a 4-byte address are not modelled.

## Findings

| source | as written | input that shows it | evidently intended | confidence | as-written member | corrected member |
|---|---|---|---|---|---|---|
| main.go:42-48 | `checkEndianness` tests the lowest-addressed byte of an `int` holding 0x0100; with a 32- or 64-bit `int` that byte is 0x00 on every host, so `IS_BIG_ENDIAN` is always false and the bytes are always reversed before the native read at main.go:73 | a big-endian host with 64-bit `int`, mode 0, input `1.2.3.4`: prints `67305985` | the flag states the host's byte order (for instance by testing a 16-bit value), so that `1.2.3.4` gives `16909060` on every host | high; not executed | `Converter.BigEndianHostMisreads` | `Converter.ProgramWithSixteenBitDetection` |
