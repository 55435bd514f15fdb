/** IPv4 dotted-decimal text: the `IPv4address` rule of section 3.2.2 of
    RFC 3986 (four `dec-octet`s joined by dots), which is the IPv4 part of what
    `net.ParseIP` accepts, and the `a.b.c.d` rendering of `net.IP.String`. */
module DottedQuad {
  import opened Base
  import opened Decimal

  /** The dot-separated fields of `s`; there is always at least one. */
  function SplitDots(s: string): (fields: seq<string>)
    ensures |fields| >= 1
    ensures forall k :: 0 <= k < |fields| ==> '.' !in fields[k]
  {
    if |s| == 0 then [""]
    else if s[0] == '.' then [""] + SplitDots(s[1..])
    else
      var rest := SplitDots(s[1..]);
      [[s[0]] + rest[0]] + rest[1..]
  }

  /** The fields joined by single dots. */
  function JoinDots(fields: seq<string>): (s: string)
    requires |fields| >= 1
  {
    if |fields| == 1 then fields[0] else fields[0] + "." + JoinDots(fields[1..])
  }

  /** RFC 3986 `dec-octet`: a decimal number 0-255 with no leading zero. (Canonical
      text of value at most 255 has at most three digits, as the grammar has.) */
  predicate DecOctet(t: string) {
    Canonical(t) && DigitsValue(t) <= 255
  }

  /** The `dec-octet` rule of section 3.2.2 of RFC 3986, alternative by alternative:
      `DIGIT / %x31-39 DIGIT / "1" 2DIGIT / "2" %x30-34 DIGIT / "25" %x30-35`. */
  predicate RfcDecOctet(t: string) {
    || (|t| == 1 && IsDigit(t[0]))
    || (|t| == 2 && '1' <= t[0] <= '9' && IsDigit(t[1]))
    || (|t| == 3 && t[0] == '1' && IsDigit(t[1]) && IsDigit(t[2]))
    || (|t| == 3 && t[0] == '2' && '0' <= t[1] <= '4' && IsDigit(t[2]))
    || (|t| == 3 && t[0] == '2' && t[1] == '5' && '0' <= t[2] <= '5')
  }

  /** The value-based field check accepts exactly the texts of the RFC grammar. */
  lemma DecOctetIsRfcDecOctet(t: string)
    ensures DecOctet(t) <==> RfcDecOctet(t)
  {
    if 1 <= |t| <= 3 && AllDigits(t) {
      DigitsValueShort(t);
    } else if |t| > 3 && AllDigits(t) && t[0] != '0' {
      DigitsValueAtLeast(t);
      Pow10AtLeastThousand(|t| - 1);
    }
  }

  function Pow10(n: nat): (p: nat) {
    if n == 0 then 1 else 10 * Pow10(n - 1)
  }

  lemma {:induction false} Pow10AtLeastThousand(n: nat)
    requires n >= 3
    ensures Pow10(n) >= 1000
  {
    if n > 3 {
      Pow10AtLeastThousand(n - 1);
    }
  }

  /** A digit string of `k` digits without a leading zero is worth at least `10^(k-1)`. */
  lemma {:induction false} DigitsValueAtLeast(t: string)
    requires |t| >= 1 && AllDigits(t) && t[0] != '0'
    ensures DigitsValue(t) >= Pow10(|t| - 1)
  {
    if |t| > 1 {
      var p := t[..|t| - 1];
      assert p[0] == t[0];
      DigitsValueAtLeast(p);
    }
  }

  lemma DigitsValueShort(t: string)
    requires 1 <= |t| <= 3 && AllDigits(t)
    ensures |t| == 1 ==> DigitsValue(t) == DigitValue(t[0])
    ensures |t| == 2 ==> DigitsValue(t) == 10 * DigitValue(t[0]) + DigitValue(t[1])
    ensures |t| == 3 ==> DigitsValue(t) == 100 * DigitValue(t[0]) + 10 * DigitValue(t[1]) + DigitValue(t[2])
  {
    assert t[..|t| - 1][..0] == [];
    if |t| >= 2 {
      assert t[..|t| - 1][..|t| - 2] == t[..|t| - 2];
      assert t[..|t| - 2][..0] == [];
    }
    if |t| == 3 {
      assert t[..1][..0] == [];
    }
  }

  /** The address bytes of IPv4 dotted-decimal text, or `None` when the text is not of
      that form. On success the text has exactly four fields, each the shortest decimal
      text of its byte. */
  function ParseIPv4(s: string): (r: Option<Quad>)
    ensures r.Some? ==> SplitDots(s) == [FormatNat(r.value[0]), FormatNat(r.value[1]),
                                         FormatNat(r.value[2]), FormatNat(r.value[3])]
  {
    var fields := SplitDots(s);
    if |fields| == 4 && DecOctet(fields[0]) && DecOctet(fields[1])
       && DecOctet(fields[2]) && DecOctet(fields[3])
    then
      CanonicalFields(fields);
      Some([DigitsValue(fields[0]), DigitsValue(fields[1]),
            DigitsValue(fields[2]), DigitsValue(fields[3])])
    else None
  }

  /** Four `dec-octet` fields are the shortest decimal texts of their values. */
  lemma CanonicalFields(fields: seq<string>)
    requires |fields| == 4 && DecOctet(fields[0]) && DecOctet(fields[1])
             && DecOctet(fields[2]) && DecOctet(fields[3])
    ensures fields == [FormatNat(DigitsValue(fields[0])), FormatNat(DigitsValue(fields[1])),
                       FormatNat(DigitsValue(fields[2])), FormatNat(DigitsValue(fields[3]))]
  {
    CanonicalInverse(fields[0]);
    CanonicalInverse(fields[1]);
    CanonicalInverse(fields[2]);
    CanonicalInverse(fields[3]);
  }

  /** `net.IP.String` of a 4-byte address: `a.b.c.d` in shortest decimal. Splitting the
      text on dots gives back the four fields. */
  function FormatQuad(q: Quad): (t: string)
    ensures SplitDots(t) == [FormatNat(q[0]), FormatNat(q[1]), FormatNat(q[2]), FormatNat(q[3])]
  {
    var fields := [FormatNat(q[0]), FormatNat(q[1]), FormatNat(q[2]), FormatNat(q[3])];
    DigitsHaveNoDot(fields[0]);
    DigitsHaveNoDot(fields[1]);
    DigitsHaveNoDot(fields[2]);
    DigitsHaveNoDot(fields[3]);
    SplitJoin(fields);
    JoinDots(fields)
  }

  lemma DigitsHaveNoDot(t: string)
    requires AllDigits(t)
    ensures '.' !in t
  {
  }

  lemma JoinDotsOfFour(a: string, b: string, c: string, d: string)
    ensures JoinDots([a, b, c, d]) == a + "." + b + "." + c + "." + d
  {
    assert [c, d][1..] == [d];
    assert JoinDots([c, d]) == c + "." + d;
    assert [b, c, d][1..] == [c, d];
    assert JoinDots([b, c, d]) == b + "." + (c + "." + d);
    assert [a, b, c, d][1..] == [b, c, d];
    assert JoinDots([a, b, c, d]) == a + "." + (b + "." + (c + "." + d));
  }

  /** Splitting undoes joining on dot-free fields. */
  lemma {:induction false} SplitJoin(fields: seq<string>)
    requires |fields| >= 1
    requires forall k :: 0 <= k < |fields| ==> '.' !in fields[k]
    ensures SplitDots(JoinDots(fields)) == fields
  {
    if |fields| == 1 {
      SplitDotFree(fields[0]);
    } else {
      SplitJoin(fields[1..]);
      SplitAtDot(fields[0], JoinDots(fields[1..]));
      assert fields == [fields[0]] + fields[1..];
    }
  }

  lemma {:induction false} SplitDotFree(a: string)
    requires '.' !in a
    ensures SplitDots(a) == [a]
  {
    if |a| > 0 {
      SplitDotFree(a[1..]);
      assert a == [a[0]] + a[1..];
    }
  }

  lemma {:induction false} SplitAtDot(a: string, b: string)
    requires '.' !in a
    ensures SplitDots(a + "." + b) == [a] + SplitDots(b)
  {
    var s := a + "." + b;
    if |a| == 0 {
      assert s[1..] == b;
    } else {
      SplitAtDot(a[1..], b);
      assert s[1..] == a[1..] + "." + b;
      assert a == [a[0]] + a[1..];
    }
  }

  /** Joining undoes splitting. */
  lemma {:induction false} JoinSplit(s: string)
    ensures JoinDots(SplitDots(s)) == s
  {
    if |s| > 0 {
      JoinSplit(s[1..]);
      var rest := SplitDots(s[1..]);
      if s[0] == '.' {
        assert s == "." + s[1..];
      } else if |rest| == 1 {
        assert s == [s[0]] + rest[0];
      } else {
        assert rest == [rest[0]] + rest[1..];
        assert s == [s[0]] + (rest[0] + "." + JoinDots(rest[1..]));
      }
    }
  }

  lemma DecOctetOfByte(b: Byte)
    ensures DecOctet(FormatNat(b)) && DigitsValue(FormatNat(b)) == b
  {
    FormatNatInverse(b);
  }

  /** Every address is read back from its dotted-decimal rendering. */
  lemma ParseFormatQuad(q: Quad)
    ensures ParseIPv4(FormatQuad(q)) == Some(q)
  {
    var fields := [FormatNat(q[0]), FormatNat(q[1]), FormatNat(q[2]), FormatNat(q[3])];
    DecOctetOfByte(q[0]);
    DecOctetOfByte(q[1]);
    DecOctetOfByte(q[2]);
    DecOctetOfByte(q[3]);
    assert SplitDots(FormatQuad(q)) == fields;
    assert [DigitsValue(fields[0]), DigitsValue(fields[1]),
            DigitsValue(fields[2]), DigitsValue(fields[3])] == q;
  }

  /** Valid dotted-decimal text is exactly the rendering of the address it denotes:
      with `dec-octet` forbidding leading zeros, every accepted text is canonical. */
  lemma FormatParseQuad(s: string)
    requires ParseIPv4(s).Some?
    ensures FormatQuad(ParseIPv4(s).value) == s
  {
    var fields := SplitDots(s);
    CanonicalInverse(fields[0]);
    CanonicalInverse(fields[1]);
    CanonicalInverse(fields[2]);
    CanonicalInverse(fields[3]);
    JoinSplit(s);
    assert fields == [fields[0], fields[1], fields[2], fields[3]];
  }
}
