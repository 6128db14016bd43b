/** IPv4 addresses and their dotted-decimal text form, the rendering
    `inet_ntoa` produces ("192.168.1.50"), together with a strict parser that
    is its inverse. */
module Ipv4 {
  import opened Common

  /** The four octets of an IPv4 address, most significant first (the order in
      which they travel on the wire and sit in `sin_addr`). */
  datatype Address = Address(a: byte, b: byte, c: byte, d: byte)

  predicate IsDigit(ch: char) {
    '0' <= ch <= '9'
  }

  predicate AllDigits(s: string) {
    forall i | 0 <= i < |s| :: IsDigit(s[i])
  }

  function DigitChar(d: nat): (ch: char)
    requires d < 10
    ensures IsDigit(ch)
  {
    ('0' as int + d) as char
  }

  /** The decimal numeral of `n`, without leading zeros. */
  function Decimal(n: nat): (r: string)
    ensures 1 <= |r| && AllDigits(r)
    ensures |r| > 1 ==> r[0] != '0'
    ensures n < 10 ==> |r| == 1
    ensures n < 100 ==> |r| <= 2
    ensures n < 1000 ==> |r| <= 3
  {
    if n < 10 then [DigitChar(n)]
    else Decimal(n / 10) + [DigitChar(n % 10)]
  }

  /** The value of a numeral. */
  function NumeralValue(s: string): nat
    requires AllDigits(s)
  {
    if |s| == 0 then 0
    else NumeralValue(s[..|s| - 1]) * 10 + (s[|s| - 1] as int - '0' as int)
  }

  /** `x` and `y` with a dot between them. */
  function Dot(x: string, y: string): string {
    x + "." + y
  }

  /** Dotted-decimal text of an address: its pieces between dots are the four
      numerals, and parsing it gives the address back. */
  function Render(x: Address): (r: string)
    ensures Fields(r) == [Decimal(x.a as nat), Decimal(x.b as nat), Decimal(x.c as nat), Decimal(x.d as nat)]
    ensures Parse(r) == Some(x)
  {
    var da, db, dc, dd := Decimal(x.a as nat), Decimal(x.b as nat), Decimal(x.c as nat), Decimal(x.d as nat);
    DecimalIsDotFree(x.a as nat);
    DecimalIsDotFree(x.b as nat);
    DecimalIsDotFree(x.c as nat);
    DecimalIsDotFree(x.d as nat);
    FieldsOfDotFree(dd);
    FieldsOfDotted(dc, dd);
    FieldsOfDotted(db, Dot(dc, dd));
    FieldsOfDotted(da, Dot(db, Dot(dc, dd)));
    NumeralValueOfDecimal(x.a as nat);
    NumeralValueOfDecimal(x.b as nat);
    NumeralValueOfDecimal(x.c as nat);
    NumeralValueOfDecimal(x.d as nat);
    Dot(da, Dot(db, Dot(dc, dd)))
  }

  /** The pieces of `s` between dots; a string without dots is one piece. */
  function Fields(s: string): (r: seq<string>)
    ensures |r| >= 1
  {
    if |s| == 0 then [""]
    else
      var rest := Fields(s[1..]);
      if s[0] == '.' then [""] + rest
      else [[s[0]] + rest[0]] + rest[1..]
  }

  /** One component of a dotted-decimal address: one to three digits, no
      leading zero, value at most 255. */
  function ParseOctet(s: string): (r: Option<byte>)
    ensures r.Some? ==> Decimal(r.value as nat) == s
  {
    if 1 <= |s| <= 3 && AllDigits(s) && (|s| == 1 || s[0] != '0') && NumeralValue(s) < 0x100 then
      CanonicalNumeral(s);
      Some(NumeralValue(s) as byte)
    else None
  }

  /** The address written as `s`, if `s` is exactly four canonical
      components separated by dots. */
  function Parse(s: string): (r: Option<Address>)
  {
    var f := Fields(s);
    if |f| != 4 then None
    else
      match (ParseOctet(f[0]), ParseOctet(f[1]), ParseOctet(f[2]), ParseOctet(f[3]))
      case (Some(a), Some(b), Some(c), Some(d)) => Some(Address(a, b, c, d))
      case _ => None
  }

  lemma {:induction false} NumeralValueOfDecimal(n: nat)
    ensures NumeralValue(Decimal(n)) == n
  {
    if n >= 10 {
      var r := Decimal(n);
      NumeralValueOfDecimal(n / 10);
      assert r[..|r| - 1] == Decimal(n / 10);
    }
  }

  /** A numeral without a leading zero is the decimal form of its value. */
  lemma {:induction false} CanonicalNumeral(s: string)
    requires 1 <= |s| && AllDigits(s) && (|s| == 1 || s[0] != '0')
    ensures Decimal(NumeralValue(s)) == s
  {
    var v := NumeralValue(s);
    var last := s[|s| - 1] as int - '0' as int;
    if |s| == 1 {
      assert s[..0] == "";
    } else {
      var init := s[..|s| - 1];
      CanonicalNumeral(init);
      PositiveNumeral(init);
      assert v / 10 == NumeralValue(init) && v % 10 == last;
      assert s == init + [s[|s| - 1]];
    }
  }

  /** A numeral that does not start with '0' has a positive value. */
  lemma {:induction false} PositiveNumeral(s: string)
    requires 1 <= |s| && AllDigits(s) && s[0] != '0'
    ensures NumeralValue(s) > 0
  {
    if |s| > 1 {
      PositiveNumeral(s[..|s| - 1]);
    }
  }

  /** Splitting text that starts with a dot-free piece and a dot. */
  lemma {:induction false} FieldsOfDotted(x: string, y: string)
    requires '.' !in x
    ensures Fields(Dot(x, y)) == [x] + Fields(y)
  {
    if |x| == 0 {
      assert Dot(x, y) == "." + y;
      assert Dot(x, y)[1..] == y;
    } else {
      FieldsOfDotted(x[1..], y);
      assert Dot(x, y)[1..] == Dot(x[1..], y);
      assert Dot(x, y)[0] == x[0];
      assert x == [x[0]] + x[1..];
    }
  }

  lemma {:induction false} FieldsOfDotFree(x: string)
    requires '.' !in x
    ensures Fields(x) == [x]
  {
    if |x| > 0 {
      FieldsOfDotFree(x[1..]);
      assert x == [x[0]] + x[1..];
    }
  }

  lemma DecimalIsDotFree(n: nat)
    ensures '.' !in Decimal(n)
  {
  }

  /** Only the rendering of an address parses, so the rendering is the one
      text form of each address. */
  lemma RenderParse(s: string)
    requires Parse(s).Some?
    ensures Render(Parse(s).value) == s
  {
    var f := Fields(s);
    var x := Parse(s).value;
    assert Decimal(x.a as nat) == f[0] && Decimal(x.b as nat) == f[1];
    assert Decimal(x.c as nat) == f[2] && Decimal(x.d as nat) == f[3];
    FieldsJoin(s);
    assert f[1..][1..] == f[2..];
    assert JoinFields(f[2..]) == Dot(f[2], f[3]);
    assert s == Dot(f[0], Dot(f[1], Dot(f[2], f[3])));
  }

  /** Joins pieces back together with dots. */
  function JoinFields(f: seq<string>): string
    requires |f| >= 1
  {
    if |f| == 1 then f[0] else Dot(f[0], JoinFields(f[1..]))
  }

  lemma {:induction false} FieldsJoin(s: string)
    ensures JoinFields(Fields(s)) == s
  {
    if |s| > 0 {
      FieldsJoin(s[1..]);
      var rest := Fields(s[1..]);
      if s[0] != '.' && |rest| > 1 {
        assert JoinFields(rest) == Dot(rest[0], JoinFields(rest[1..]));
      }
      assert s == [s[0]] + s[1..];
    }
  }
}
