/** The converter of `main.go`: `ipv4ToInt32`, `int32ToIpv4`, `checkEndianness` and
    the mode/input checks and dispatch of `main`. The methods take the process-wide
    `IS_BIG_ENDIAN` flag as the explicit parameter `isBigEndian` and model a host whose
    byte order that flag states correctly; `ProgramAddressToInteger` models what
    `checkEndianness` as written sets the flag to. */
module Converter {
  import opened Base
  import opened Decimal
  import opened DottedQuad
  import opened ByteOrder

  /** The errors `main` can report. */
  datatype Error =
    | ModeOutOfRange              // "mode must be >= 0 and <= 1"
    | EmptyInput                  // "-i flag must not be empty"
    | InvalidAddress              // "invalid ipv4 address"
    | NumberError(kind: NumError) // the error `strconv.ParseInt` returns
    | EndiannessUnknown           // "can not check endianness"

  /** What `ipv4ToInt32` computes when `IS_BIG_ENDIAN` states the host's byte order: the
      decimal text of the two's-complement reading of the address bytes in network
      order. It mentions no byte order of the host. */
  function AddressToInteger(input: string): (r: Result<string, Error>) {
    match ParseIPv4(input)
    case None => Err(InvalidAddress)
    case Some(q) => Ok(FormatInt(AsInt32(ComposeBE(q))))
  }

  /** What `int32ToIpv4` computes: the dotted-decimal text of the bytes of the
      `int32`, most significant first. */
  function IntegerToAddress(input: string): (r: Result<string, Error>) {
    match ParseInt32(input)
    case Err(e) => Err(NumberError(e))
    case Ok(i) => Ok(FormatQuad(BigEndianBytes(i)))
  }

  /** The little-endian branch of `ipv4ToInt32`: a fresh 4-byte buffer filled with the
      bytes of `v4` in reverse order. */
  method ReverseBytes(v4: array<Byte>) returns (v4le: array<Byte>)
    requires v4.Length == 4
    ensures fresh(v4le)
    ensures v4le.Length == 4 && v4le[..] == Reversed(v4[..])
  {
    v4le := new Byte[4];
    for i := 0 to 4
      invariant forall j :: 0 <= j < i ==> v4le[j] == v4[4 - j - 1]
    {
      v4le[i] := v4[4 - i - 1];
    }
  }

  /** `ipv4ToInt32` with `IS_BIG_ENDIAN == isBigEndian` on a host whose byte order that
      flag states: parse the address, reverse its bytes when the flag says little-endian,
      read them as a native `int32` and render it. The result is the same whatever the
      flag, provided it matches the host. */
  method Ipv4ToInt32(isBigEndian: bool, input: string) returns (r: Result<string, Error>)
    ensures r == AddressToInteger(input)
  {
    var ip := ParseIPv4(input);
    if ip.None? {
      return Err(InvalidAddress);
    }
    var v4 := new Byte[4](k requires 0 <= k < 4 => ip.value[k]);
    assert v4[..] == ip.value;
    if !isBigEndian {
      v4 := ReverseBytes(v4);
    }
    var i := NativeInt32(v4[..], isBigEndian);
    EndiannessCorrection(ip.value, isBigEndian);
    return Ok(FormatInt(i));
  }

  /** `int32ToIpv4`: parse a signed 32-bit decimal, write its bytes most significant
      first by arithmetic shift and truncation, and render them as `a.b.c.d`. */
  method Int32ToIpv4(input: string) returns (r: Result<string, Error>)
    ensures r == IntegerToAddress(input)
  {
    var parsed := ParseInt32(input);
    if parsed.Err? {
      return Err(NumberError(parsed.error));
    }
    var i := parsed.value;
    var v4 := new Byte[4];
    v4[0] := Trunc8(Shr(i, 24));
    v4[1] := Trunc8(Shr(i, 16));
    v4[2] := Trunc8(Shr(i, 8));
    v4[3] := Trunc8(i);
    return Ok(FormatQuad(v4[..]));
  }

  /** The checks and dispatch of `main`: the mode is checked first, then the input. An
      empty-input error is reported exactly for a valid mode and an empty input. */
  function Dispatch(mode: int, input: string): (r: Result<string, Error>)
    ensures mode != 0 && mode != 1 ==> r == Err(ModeOutOfRange)
    ensures r == Err(EmptyInput) <==> (mode == 0 || mode == 1) && input == ""
  {
    if mode < 0 || mode > 1 then Err(ModeOutOfRange)
    else if input == "" then Err(EmptyInput)
    else if mode == 0 then AddressToInteger(input)
    else IntegerToAddress(input)
  }

  /** `main` after flag parsing, with `IS_BIG_ENDIAN == isBigEndian` on a host whose
      byte order that flag states. */
  method Run(isBigEndian: bool, mode: int, input: string) returns (r: Result<string, Error>)
    ensures r == Dispatch(mode, input)
  {
    if mode < 0 || mode > 1 {
      return Err(ModeOutOfRange);
    }
    if input == "" {
      return Err(EmptyInput);
    }
    if mode == 0 {
      r := Ipv4ToInt32(isBigEndian, input);
    } else {
      r := Int32ToIpv4(input);
    }
  }

  /** On success `ipv4ToInt32` produces the canonical decimal text of an `int32`, the
      two's-complement reading of the address bytes in network order. */
  lemma AddressToIntegerOutput(s: string)
    requires AddressToInteger(s).Ok?
    ensures ParseInt32(AddressToInteger(s).value) == Ok(AsInt32(ComposeBE(ParseIPv4(s).value)))
    ensures IsFormattedInt(AddressToInteger(s).value)
  {
    var i := AsInt32(ComposeBE(ParseIPv4(s).value));
    ParseFormatInt32(i);
    FormattedIntIsCanonical(i);
  }

  lemma FormattedIntIsCanonical(i: int)
    ensures IsFormattedInt(FormatInt(i))
  {
    if i < 0 {
      FormatNatInverse(-i);
      assert ("-" + FormatNat(-i))[1..] == FormatNat(-i);
    } else {
      FormatNatInverse(i);
    }
  }

  /** Address to integer and back gives the same text: every valid address is canonical. */
  lemma AddressRoundTrip(s: string)
    requires ParseIPv4(s).Some?
    ensures AddressToInteger(s).Ok?
    ensures IntegerToAddress(AddressToInteger(s).value) == Ok(s)
  {
    var q := ParseIPv4(s).value;
    ParseFormatInt32(AsInt32(ComposeBE(q)));
    SplitCompose(q);
    FormatParseQuad(s);
  }

  /** Integer to address and back gives the canonical decimal text of the integer. */
  lemma IntegerRoundTrip(s: string)
    requires ParseInt32(s).Ok?
    ensures IntegerToAddress(s).Ok?
    ensures AddressToInteger(IntegerToAddress(s).value) == Ok(FormatInt(ParseInt32(s).value))
  {
    var i := ParseInt32(s).value;
    ParseFormatQuad(BigEndianBytes(i));
    ComposeSplit(i);
  }

  /** The mode error is reported exactly for a bad mode, whatever the input, even an
      empty one: no conversion reports it. */
  lemma DispatchModeFirst(mode: int, input: string)
    ensures Dispatch(mode, input) == Err(ModeOutOfRange) <==> mode != 0 && mode != 1
  {
  }

  /** With a valid mode, an empty input is reported as such. */
  lemma DispatchEmptyInput(mode: int)
    requires mode == 0 || mode == 1
    ensures Dispatch(mode, "") == Err(EmptyInput)
  {
  }

  /** Mode 0 converts an address to an integer, mode 1 an integer to an address. */
  lemma DispatchRoutes(mode: int, input: string)
    requires input != ""
    ensures mode == 0 ==> Dispatch(mode, input) == AddressToInteger(input)
    ensures mode == 1 ==> Dispatch(mode, input) == IntegerToAddress(input)
  {
  }

  /** The empty-input check changes only which error is reported: `main` succeeds exactly
      when the mode is valid and its converter accepts the input. */
  lemma DispatchSucceeds(mode: int, input: string)
    ensures Dispatch(mode, input).Ok? <==>
            (mode == 0 && ParseIPv4(input).Some?) || (mode == 1 && ParseInt32(input).Ok?)
  {
    if input == "" {
      assert SplitDots(input) == [""];
    }
  }

  /** `1.2.3.4` gives `16909060` and back. */
  lemma ExampleOneTwoThreeFour()
    ensures AddressToInteger("1.2.3.4") == Ok("16909060")
    ensures IntegerToAddress("16909060") == Ok("1.2.3.4")
  {
    var q: Quad := [1, 2, 3, 4];
    FormatOneTwoThreeFour();
    FormatSixteenMillion();
    ExampleRoundTrip(q, "1.2.3.4", 16909060, "16909060");
  }

  lemma FormatOneTwoThreeFour()
    ensures FormatQuad([1, 2, 3, 4]) == "1.2.3.4"
  {
    assert [FormatNat(1), FormatNat(2), FormatNat(3), FormatNat(4)] == ["1", "2", "3", "4"];
    JoinDotsOfFour("1", "2", "3", "4");
  }

  lemma FormatSixteenMillion()
    ensures AsInt32(ComposeBE([1, 2, 3, 4])) == 16909060
    ensures FormatInt(16909060) == "16909060"
  {
    FormatNatStep(16909060);
    FormatNatStep(1690906);
    FormatNatStep(169090);
    FormatNatStep(16909);
    FormatNatStep(1690);
    FormatNatStep(169);
    FormatNatStep(16);
  }

  /** `255.255.255.255` gives `-1` and back. */
  lemma ExampleAllOnes()
    ensures AddressToInteger("255.255.255.255") == Ok("-1")
    ensures IntegerToAddress("-1") == Ok("255.255.255.255")
  {
    var q: Quad := [255, 255, 255, 255];
    FormatAllOnes();
    ExampleRoundTrip(q, "255.255.255.255", -1, "-1");
  }

  lemma FormatAllOnes()
    ensures FormatQuad([255, 255, 255, 255]) == "255.255.255.255"
    ensures AsInt32(ComposeBE([255, 255, 255, 255])) == -1
    ensures FormatInt(-1) == "-1"
  {
    FormatNatStep(255);
    FormatNatStep(25);
    assert FormatNat(255) == "255";
    JoinDotsOfFour("255", "255", "255", "255");
  }

  lemma ExampleRoundTrip(q: Quad, address: string, i: Int32, decimal: string)
    requires FormatQuad(q) == address && AsInt32(ComposeBE(q)) == i && FormatInt(i) == decimal
    ensures AddressToInteger(address) == Ok(decimal)
    ensures IntegerToAddress(decimal) == Ok(address)
  {
    ParseFormatQuad(q);
    ParseFormatInt32(i);
    SplitCompose(q);
  }

  /** Text whose first field is not a `dec-octet` is not an address, whatever follows. */
  lemma BadFirstField(a: string, b: string)
    requires '.' !in a && !DecOctet(a)
    ensures AddressToInteger(a + "." + b) == Err(InvalidAddress)
  {
    SplitAtDot(a, b);
  }

  /** An octet above 255, an octet with a leading zero and a word are refused. */
  lemma ExampleInvalidAddresses()
    ensures AddressToInteger("999.1.1.1") == Err(InvalidAddress)
    ensures AddressToInteger("01.2.3.4") == Err(InvalidAddress)
    ensures AddressToInteger("not.an.ip") == Err(InvalidAddress)
  {
    assert FormatNat(999) == "999";
    FormatNatInverse(999);
    BadFirstField("999", "1.1.1");
    assert "999" + "." + "1.1.1" == "999.1.1.1";
    BadFirstField("01", "2.3.4");
    assert "01" + "." + "2.3.4" == "01.2.3.4";
    assert !IsDigit("not"[0]);
    BadFirstField("not", "an.ip");
    assert "not" + "." + "an.ip" == "not.an.ip";
  }

  /** Decimal text of a value outside the `int32` range is refused with a range
      error, with or without a minus sign. */
  lemma OutOfRange(n: nat)
    requires n > 0x7FFF_FFFF
    ensures IntegerToAddress(FormatNat(n)) == Err(NumberError(Range))
    ensures n > 0x8000_0000 ==> IntegerToAddress("-" + FormatNat(n)) == Err(NumberError(Range))
  {
    FormatNatInverse(n);
    assert ("-" + FormatNat(n))[1..] == FormatNat(n);
  }

  /** The same text after a `+` sign or a leading zero is refused the same way. */
  lemma OutOfRangeSignAndZeros(n: nat)
    requires n > 0x7FFF_FFFF
    ensures IntegerToAddress("+" + FormatNat(n)) == Err(NumberError(Range))
    ensures IntegerToAddress("0" + FormatNat(n)) == Err(NumberError(Range))
  {
    OutOfRange(n);
    ParseInt32SignAndZeros(FormatNat(n));
  }

  /** Text that is not decimal is refused with a syntax error. */
  lemma ExampleNotDecimal()
    ensures IntegerToAddress("12a") == Err(NumberError(Syntax))
    ensures IntegerToAddress("-") == Err(NumberError(Syntax))
    ensures IntegerToAddress("") == Err(NumberError(Syntax))
  {
    assert !IsDigit("12a"[2]);
  }

  /** `checkEndianness`: store the `int` 0x0100 in `intSize` bytes and test the byte at
      its lowest address; `None` would be the `fatal` branch, which no size of two bytes
      or more reaches. */
  function CheckEndianness(hostBigEndian: bool, intSize: nat): (flag: Option<bool>)
    requires intSize >= 2
    ensures flag.Some?
  {
    var b := LowestAddressByte(0x0100, intSize, hostBigEndian);
    assert b == 0x01 || b == 0x00 by {
      if intSize >= 3 {
        Pow256AtLeast(intSize - 1);
        DivModUnique(0x0100, Pow256(intSize - 1), 0, 0x0100);
      }
    }
    if b == 0x01 then Some(true) else if b == 0x00 then Some(false) else None
  }

  /** With a Go `int` of 32 or 64 bits (any size of three bytes or more) the byte at the
      lowest address of 0x0100 is 0x00 on both kinds of host, so `IS_BIG_ENDIAN` is
      always false. */
  lemma CheckEndiannessAlwaysLittle(hostBigEndian: bool, intSize: nat)
    requires intSize >= 3
    ensures CheckEndianness(hostBigEndian, intSize) == Some(false)
  {
    Pow256AtLeast(intSize - 1);
    DivModUnique(0x0100, Pow256(intSize - 1), 0, 0x0100);
    assert LowestAddressByte(0x0100, intSize, hostBigEndian) == 0;
  }

  /** With a 16-bit value the same test detects the host's byte order. */
  lemma CheckEndiannessSixteenBit(hostBigEndian: bool)
    ensures CheckEndianness(hostBigEndian, 2) == Some(hostBigEndian)
  {
  }

  /** What mode 0 of the program computes on a host of the given byte order whose `int`
      is `intSize` bytes: the flag comes from `checkEndianness`, the reversal follows the
      flag, and the read at the address of the bytes follows the host. */
  function ProgramAddressToInteger(hostBigEndian: bool, intSize: nat, input: string)
    : (r: Result<string, Error>)
    requires intSize >= 2
    ensures r.Ok? <==> ParseIPv4(input).Some?
    ensures r.Err? ==> r.error == InvalidAddress
  {
    match CheckEndianness(hostBigEndian, intSize)
    case None => Err(EndiannessUnknown)
    case Some(flag) =>
      match ParseIPv4(input)
      case None => Err(InvalidAddress)
      case Some(q) => Ok(FormatInt(NativeInt32(if flag then q else Reversed(q), hostBigEndian)))
  }

  /** On a little-endian host the program computes the intended value. */
  lemma ProgramOnLittleEndianHost(intSize: nat, input: string)
    requires intSize >= 2
    ensures ProgramAddressToInteger(false, intSize, input) == AddressToInteger(input)
  {
    if intSize >= 3 {
      CheckEndiannessAlwaysLittle(false, intSize);
    }
    if ParseIPv4(input).Some? {
      EndiannessCorrection(ParseIPv4(input).value, false);
    }
  }

  /** On a big-endian host with a 32- or 64-bit `int` the program reverses the bytes
      anyway, so it prints the little-endian reading of the address bytes. */
  lemma ProgramOnBigEndianHost(intSize: nat, input: string)
    requires intSize >= 3 && ParseIPv4(input).Some?
    ensures ProgramAddressToInteger(true, intSize, input)
            == Ok(FormatInt(AsInt32(ComposeLE(ParseIPv4(input).value))))
  {
    CheckEndiannessAlwaysLittle(true, intSize);
  }

  /** With a 16-bit detection value the program computes the intended value on both
      kinds of host. */
  lemma ProgramWithSixteenBitDetection(hostBigEndian: bool, input: string)
    ensures ProgramAddressToInteger(hostBigEndian, 2, input) == AddressToInteger(input)
  {
    CheckEndiannessSixteenBit(hostBigEndian);
    if ParseIPv4(input).Some? {
      EndiannessCorrection(ParseIPv4(input).value, hostBigEndian);
    }
  }

  /** On a big-endian host with a 64-bit `int`, `1.2.3.4` prints `67305985` (0x04030201)
      where `16909060` is meant. */
  lemma BigEndianHostMisreads()
    ensures ProgramAddressToInteger(true, 8, "1.2.3.4") == Ok("67305985")
    ensures AddressToInteger("1.2.3.4") == Ok("16909060")
  {
    var q: Quad := [1, 2, 3, 4];
    ExampleOneTwoThreeFour();
    FormatOneTwoThreeFour();
    ParseFormatQuad(q);
    ProgramOnBigEndianHost(8, "1.2.3.4");
    FormatSixtySevenMillion();
  }

  lemma FormatSixtySevenMillion()
    ensures AsInt32(ComposeLE([1, 2, 3, 4])) == 67305985
    ensures FormatInt(67305985) == "67305985"
  {
    FormatNatStep(67305985);
    FormatNatStep(6730598);
    FormatNatStep(673059);
    FormatNatStep(67305);
    FormatNatStep(6730);
    FormatNatStep(673);
    FormatNatStep(67);
  }
}
