/**
 * Address validation. The source validates an address with the platform's
 * IP parser followed by a conversion to the 4-octet form. This module is a
 * stand-in for that parser restricted to the dotted-quad form: four decimal
 * fields separated by '.', each 0..255 and written without leading zeros.
 * IPv6 text forms are not part of this stand-in.
 */
module DottedQuad {
  import opened Wrappers
  import opened Words
  import opened Ipv4Codec

  predicate IsDigit(c: char) {
    '0' <= c <= '9'
  }

  predicate AllDigits(s: string) {
    forall i :: 0 <= i < |s| ==> IsDigit(s[i])
  }

  /** A decimal numeral as the stand-in accepts it: digits, and no leading zero unless it is "0". */
  predicate IsNumeral(s: string) {
    |s| >= 1 && AllDigits(s) && (|s| > 1 ==> s[0] != '0')
  }

  function DigitChar(d: nat): (c: char)
    requires d < 10
    ensures IsDigit(c) && c as int - '0' as int == d
  {
    ('0' as int + d) as char
  }

  /** The number a string of decimal digits denotes. */
  function DecimalValue(s: string): nat
    requires AllDigits(s)
  {
    if s == [] then 0 else 10 * DecimalValue(s[..|s| - 1]) + (s[|s| - 1] as int - '0' as int)
  }

  /** The canonical decimal numeral of `n`. */
  function DecimalText(n: nat): string {
    if n < 10 then [DigitChar(n)] else DecimalText(n / 10) + [DigitChar(n % 10)]
  }

  /** An address field the stand-in accepts. */
  predicate IsOctetText(s: string) {
    IsNumeral(s) && DecimalValue(s) <= 255
  }

  /** The pieces of `s` between the '.' separators (always at least one, possibly empty). */
  function Fields(s: string): (r: seq<string>)
    ensures |r| >= 1
  {
    if s == [] then [[]]
    else
      var rest := Fields(s[1..]);
      if s[0] == '.' then [[]] + rest else [[s[0]] + rest[0]] + rest[1..]
  }

  /** Validation of an address string: the four octets on success, `None` when it is not a valid IPv4 address. */
  function CheckIpAddress(address: string): (r: Option<Ipv4>)
    ensures r.Some? ==> Fields(address) == [DecimalText(r.value.o0), DecimalText(r.value.o1),
                                            DecimalText(r.value.o2), DecimalText(r.value.o3)]
    ensures r.None? ==> |Fields(address)| != 4 || exists i :: 0 <= i < 4 && !IsOctetText(Fields(address)[i])
  {
    var f := Fields(address);
    if |f| == 4 && IsOctetText(f[0]) && IsOctetText(f[1]) && IsOctetText(f[2]) && IsOctetText(f[3]) then
      NumeralIsDecimalText(f[0]);
      NumeralIsDecimalText(f[1]);
      NumeralIsDecimalText(f[2]);
      NumeralIsDecimalText(f[3]);
      Some(Ipv4(DecimalValue(f[0]), DecimalValue(f[1]),
                DecimalValue(f[2]), DecimalValue(f[3])))
    else
      None
  }

  /** The dotted-quad text of an address. */
  function Format(ip: Ipv4): string {
    JoinFields([DecimalText(ip.o0), DecimalText(ip.o1),
                DecimalText(ip.o2), DecimalText(ip.o3)])
  }

  // ---------------------------------------------------------------- numerals

  lemma {:induction false} DecimalTextIsNumeral(n: nat)
    ensures IsNumeral(DecimalText(n))
    ensures DecimalValue(DecimalText(n)) == n
  {
    var s := DecimalText(n);
    if n >= 10 {
      DecimalTextIsNumeral(n / 10);
      assert s[..|s| - 1] == DecimalText(n / 10);
    }
  }

  lemma {:induction false} NumeralPositive(s: string)
    requires IsNumeral(s) && s[0] != '0'
    ensures DecimalValue(s) > 0
  {
    if |s| > 1 {
      NumeralPositive(s[..|s| - 1]);
    }
  }

  lemma {:induction false} NumeralIsDecimalText(s: string)
    requires IsNumeral(s)
    ensures DecimalText(DecimalValue(s)) == s
  {
    var n := DecimalValue(s);
    var init, last := s[..|s| - 1], s[|s| - 1];
    if |s| == 1 {
      assert s == [last];
    } else {
      NumeralPositive(init);
      NumeralIsDecimalText(init);
      assert n / 10 == DecimalValue(init) && n % 10 == last as int - '0' as int;
      assert s == init + [last];
    }
  }

  // ---------------------------------------------------------------- fields

  lemma {:induction false} FieldsOfPlain(s: string)
    requires '.' !in s
    ensures Fields(s) == [s]
  {
    if s != [] {
      assert s[0] != '.' && '.' !in s[1..];
      FieldsOfPlain(s[1..]);
      assert [s[0]] + s[1..] == s;
    }
  }

  lemma {:induction false} FieldsOfDotted(a: string, b: string)
    requires '.' !in a
    ensures Fields(a + "." + b) == [a] + Fields(b)
  {
    if a == [] {
      assert (a + "." + b)[1..] == b;
    } else {
      FieldsOfDotted(a[1..], b);
      assert (a + "." + b)[1..] == a[1..] + "." + b;
      assert (a + "." + b)[0] == a[0] != '.';
      assert [a[0]] + a[1..] == a;
    }
  }

  /** The pieces of a string, glued back together with '.', give the string. */
  function JoinFields(parts: seq<string>): string
    requires |parts| >= 1
  {
    if |parts| == 1 then parts[0] else parts[0] + "." + JoinFields(parts[1..])
  }

  lemma {:induction false} JoinOfFields(s: string)
    ensures JoinFields(Fields(s)) == s
  {
    if s != [] {
      JoinOfFields(s[1..]);
      var rest := Fields(s[1..]);
      if s[0] == '.' {
        assert Fields(s)[1..] == rest;
      } else {
        assert Fields(s)[1..] == rest[1..];
        if |rest| > 1 {
          assert rest == [rest[0]] + rest[1..];
        }
      }
    }
  }

  lemma NumeralHasNoDot(s: string)
    requires AllDigits(s)
    ensures '.' !in s
  {
  }

  // ---------------------------------------------------------------- round trip

  /** Pieces without a '.', glued with '.', split back into the same pieces. */
  lemma {:induction false} FieldsOfJoin(parts: seq<string>)
    requires |parts| >= 1
    requires forall i :: 0 <= i < |parts| ==> '.' !in parts[i]
    ensures Fields(JoinFields(parts)) == parts
  {
    if |parts| == 1 {
      FieldsOfPlain(parts[0]);
    } else {
      FieldsOfJoin(parts[1..]);
      FieldsOfDotted(parts[0], JoinFields(parts[1..]));
      assert [parts[0]] + parts[1..] == parts;
    }
  }

  lemma OctetText(b: Byte)
    ensures IsOctetText(DecimalText(b))
    ensures DecimalValue(DecimalText(b)) == b
  {
    DecimalTextIsNumeral(b);
  }

  /** Every address is accepted in its dotted-quad form and validates to itself. */
  lemma CheckFormat(ip: Ipv4)
    ensures CheckIpAddress(Format(ip)) == Some(ip)
  {
    var parts := [DecimalText(ip.o0), DecimalText(ip.o1),
                  DecimalText(ip.o2), DecimalText(ip.o3)];
    TextHasNoDot(ip.o0);
    TextHasNoDot(ip.o1);
    TextHasNoDot(ip.o2);
    TextHasNoDot(ip.o3);
    FieldsOfJoin(parts);
    CheckOfTexts(Format(ip), ip);
  }

  lemma TextHasNoDot(b: Byte)
    ensures '.' !in DecimalText(b)
  {
    DecimalTextIsNumeral(b);
    NumeralHasNoDot(DecimalText(b));
  }

  lemma CheckOfTexts(address: string, ip: Ipv4)
    requires Fields(address) == [DecimalText(ip.o0), DecimalText(ip.o1),
                                 DecimalText(ip.o2), DecimalText(ip.o3)]
    ensures CheckIpAddress(address) == Some(ip)
  {
    OctetText(ip.o0);
    OctetText(ip.o1);
    OctetText(ip.o2);
    OctetText(ip.o3);
  }

  /** The only string that validates to an address is that address's dotted-quad form. */
  lemma FormatCheck(address: string, ip: Ipv4)
    requires CheckIpAddress(address) == Some(ip)
    ensures Format(ip) == address
  {
    var f := Fields(address);
    JoinOfFields(address);
    NumeralIsDecimalText(f[0]);
    NumeralIsDecimalText(f[1]);
    NumeralIsDecimalText(f[2]);
    NumeralIsDecimalText(f[3]);
    assert f == [f[0], f[1], f[2], f[3]];
  }


  /** Validation of "10.0.0.5" yields the octets 10, 0, 0, 5. */
  lemma CheckExampleValid()
    ensures CheckIpAddress("10.0.0.5") == Some(Ipv4(10, 0, 0, 5))
  {
    var ip := Ipv4(10, 0, 0, 5);
    assert DecimalText(1) == "1" && DecimalText(0) == "0" && DecimalText(5) == "5";
    assert DecimalText(10) == "10";
    var parts := ["10", "0", "0", "5"];
    assert Format(ip) == JoinFields(parts);
    assert JoinFields(parts[3..]) == "5";
    assert JoinFields(parts[2..]) == "0.5" by {
      assert parts[2..][1..] == parts[3..];
    }
    assert JoinFields(parts[1..]) == "0.0.5" by {
      assert parts[1..][1..] == parts[2..];
    }
    assert JoinFields(parts) == "10.0.0.5";
    CheckFormat(ip);
  }

  /** "300.1.1.1" is refused: its first field exceeds 255. */
  lemma CheckExampleOutOfRange()
    ensures CheckIpAddress("300.1.1.1") == None
  {
    FieldsOfPlain("1");
    FieldsOfDotted("1", "1");
    FieldsOfDotted("1", "1.1");
    FieldsOfDotted("300", "1.1.1");
    assert "300.1.1.1" == "300" + "." + "1.1.1";
    assert DecimalValue("300") == 300 by {
      assert "300"[..2] == "30" && "30"[..1] == "3";
    }
  }
}
