/** The two integer conversions the task codec relies on: writing an `int`
    to a stream in decimal (`operator<<`) and reading one back with
    `std::stoi`, whose exceptions become `None`. */
module Numbers {
  import opened Wrappers
  import opened Ascii

  const IntMin: int := -0x8000_0000
  const IntMax: int := 0x7fff_ffff

  /** The values a C++ `int` can hold. */
  predicate InInt32(x: int) {
    IntMin <= x <= IntMax
  }

  function DigitValue(c: char): int {
    c as int - '0' as int
  }

  function DigitChar(d: nat): (c: char)
    requires d < 10
    ensures IsDigit(c) && DigitValue(c) == d
  {
    ('0' as int + d) as char
  }

  /** The value of a string of decimal digits, most significant first. */
  function DecimalValue(ds: string): int {
    if ds == [] then 0 else 10 * DecimalValue(ds[..|ds| - 1]) + DigitValue(ds[|ds| - 1])
  }

  /** Number of leading whitespace characters (what `strtol` skips). */
  function LeadingSpaces(s: string): (n: nat)
    ensures n <= |s|
  {
    if s != [] && IsSpace(s[0]) then 1 + LeadingSpaces(s[1..]) else 0
  }

  /** Length of the longest prefix made of decimal digits. */
  function DigitRun(s: string): (n: nat)
    ensures n <= |s|
  {
    if s != [] && IsDigit(s[0]) then 1 + DigitRun(s[1..]) else 0
  }

  /** `std::stoi(s)` in base 10: skip leading whitespace, accept one optional
      sign, read the longest run of digits and ignore whatever follows.
      `None` stands for the exception it throws when there is no digit
      (`invalid_argument`) or the value does not fit an `int` (`out_of_range`). */
  function StoI(s: string): (r: Option<int>)
    ensures r.Some? ==> InInt32(r.value)
  {
    var rest := s[LeadingSpaces(s)..];
    var negative := rest != [] && rest[0] == '-';
    var body := if rest != [] && (rest[0] == '-' || rest[0] == '+') then rest[1..] else rest;
    var n := DigitRun(body);
    if n == 0 then None
    else
      var v := if negative then -DecimalValue(body[..n]) else DecimalValue(body[..n]);
      if InInt32(v) then Some(v) else None
  }

  /** The decimal digits of `n`, without leading zeros. */
  function NatToString(n: nat): (r: string)
    ensures r != [] && forall k :: 0 <= k < |r| ==> IsDigit(r[k])
  {
    if n < 10 then [DigitChar(n)] else NatToString(n / 10) + [DigitChar(n % 10)]
  }

  /** `out << n` for an `int`: a minus sign for negative values, then the digits. */
  function IntToString(n: int): (r: string)
    ensures r != [] && !IsSpace(r[0]) && !IsSpace(r[|r| - 1])
    ensures IsDigit(r[|r| - 1])
    ensures forall k :: 0 <= k < |r| ==> IsDigit(r[k]) || (k == 0 && r[k] == '-')
  {
    if n < 0 then "-" + NatToString(-n) else NatToString(n)
  }

  lemma {:induction false} DecimalValueOfNatToString(n: nat)
    ensures DecimalValue(NatToString(n)) == n
  {
    if n >= 10 {
      var s := NatToString(n);
      assert s[..|s| - 1] == NatToString(n / 10);
      DecimalValueOfNatToString(n / 10);
    }
  }

  lemma DigitRunOfDigits(ds: string)
    requires forall k :: 0 <= k < |ds| ==> IsDigit(ds[k])
    ensures DigitRun(ds) == |ds|
  {
  }

  /** A string of digits whose value fits an `int` reads back as that value. */
  lemma StoIOfDigits(ds: string)
    requires ds != [] && forall k :: 0 <= k < |ds| ==> IsDigit(ds[k])
    requires DecimalValue(ds) <= IntMax
    ensures StoI(ds) == Some(DecimalValue(ds))
  {
    DigitRunOfDigits(ds);
    DecimalValueNonNegative(ds);
    assert IsDigit(ds[0]) && LeadingSpaces(ds) == 0;
    assert ds[0..] == ds && ds[..|ds|] == ds;
  }

  lemma {:induction false} DecimalValueNonNegative(ds: string)
    requires forall k :: 0 <= k < |ds| ==> IsDigit(ds[k])
    ensures DecimalValue(ds) >= 0
  {
    if ds != [] {
      DecimalValueNonNegative(ds[..|ds| - 1]);
    }
  }

  /** Writing an `int` and reading it back with `stoi` gives the same value. */
  lemma StoIOfIntToString(n: int)
    requires InInt32(n)
    ensures StoI(IntToString(n)) == Some(n)
  {
    var m: nat := if n < 0 then -n else n;
    var digits := NatToString(m);
    DecimalValueOfNatToString(m);
    DigitRunOfDigits(digits);
    assert digits[..|digits|] == digits;
    var s := IntToString(n);
    assert LeadingSpaces(s) == 0;
    assert s[0..] == s;
    if n < 0 {
      assert s[1..] == digits;
    }
  }
}
