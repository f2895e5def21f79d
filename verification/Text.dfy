/** Decimal text: integer formatting, and the C++ library's stoll and stoi. */
module Text {
  import opened Wrappers

  predicate IsDigit(c: char) {
    '0' <= c <= '9'
  }

  predicate IsSpace(c: char) {
    c == ' ' || c == '\t' || c == '\n' || c == '\r' || c == 11 as char || c == 12 as char
  }

  function DigitChar(d: nat): (c: char)
    requires d < 10
    ensures IsDigit(c)
  {
    ('0' as int + d) as char
  }

  function Digits(n: nat): string {
    if n < 10 then [DigitChar(n)] else Digits(n / 10) + [DigitChar(n % 10)]
  }

  function ToString(n: int): string {
    if n < 0 then "-" + Digits(-n) else Digits(n)
  }

  function DigitRun(s: string): (k: nat)
    ensures k <= |s|
    ensures forall i :: 0 <= i < k ==> IsDigit(s[i])
  {
    if s == "" || !IsDigit(s[0]) then 0 else 1 + DigitRun(s[1..])
  }

  function SpaceRun(s: string): (k: nat)
    ensures k <= |s|
  {
    if s == "" || !IsSpace(s[0]) then 0 else 1 + SpaceRun(s[1..])
  }

  function ValueOf(s: string): nat
    requires forall i :: 0 <= i < |s| ==> IsDigit(s[i])
  {
    if s == "" then 0 else assert IsDigit(s[|s|-1]); ValueOf(s[..|s|-1]) * 10 + (s[|s|-1] as int - '0' as int)
  }

  datatype Parsed = Parsed(value: int, consumed: nat)

  /**
   Base-10 parsing of the longest numeric prefix, after white space and an optional sign.
   None when there is no digit or the value lies outside [lo, hi]: the library throws.
   */
  function ParsePrefix(s: string, lo: int, hi: int): (r: Option<Parsed>)
    ensures r.Some? ==> lo <= r.value.value <= hi && r.value.consumed <= |s|
  {
    var i := SpaceRun(s);
    var j := if i < |s| && (s[i] == '+' || s[i] == '-') then i + 1 else i;
    var d := DigitRun(s[j..]);
    var magnitude: int := ValueOf(s[j..][..d]);
    var value: int := if j > i && s[i] == '-' then -magnitude else magnitude;
    if d == 0 || value < lo || hi < value then None else Some(Parsed(value, j + d))
  }

  const INT_MIN := -0x8000_0000
  const INT_MAX := 0x7fff_ffff
  const LLONG_MIN := -0x8000_0000_0000_0000
  const LLONG_MAX := 0x7fff_ffff_ffff_ffff

  function Stoll(s: string): Option<Parsed> {
    ParsePrefix(s, LLONG_MIN, LLONG_MAX)
  }

  function Stoi(s: string): Option<Parsed> {
    ParsePrefix(s, INT_MIN, INT_MAX)
  }

  lemma {:induction false} DigitsAreDigits(n: nat)
    ensures Digits(n) != "" && forall i :: 0 <= i < |Digits(n)| ==> IsDigit(Digits(n)[i])
  {
    if n >= 10 { DigitsAreDigits(n / 10); }
  }

  lemma {:induction false} AllDigitsRun(s: string)
    requires forall i :: 0 <= i < |s| ==> IsDigit(s[i])
    ensures DigitRun(s) == |s|
  {
    if s != "" {
      forall i | 0 <= i < |s[1..]| ensures IsDigit(s[1..][i]) { assert s[1..][i] == s[i+1]; }
      AllDigitsRun(s[1..]);
    }
  }

  lemma {:induction false} ValueOfDigits(n: nat)
    ensures forall i :: 0 <= i < |Digits(n)| ==> IsDigit(Digits(n)[i])
    ensures ValueOf(Digits(n)) == n
  {
    DigitsAreDigits(n);
    var s := Digits(n);
    if n < 10 {
      assert s[..|s|-1] == "";
    } else {
      ValueOfDigits(n / 10);
      assert s[..|s|-1] == Digits(n / 10);
    }
  }

  /** Parsing the decimal text of n gives n back and consumes all of it. */
  lemma DigitsParseBack(n: nat, lo: int, hi: int)
    requires lo <= n <= hi
    ensures ParsePrefix(Digits(n), lo, hi) == Some(Parsed(n, |Digits(n)|))
  {
    var s := Digits(n);
    DigitsAreDigits(n);
    AllDigitsRun(s);
    ValueOfDigits(n);
    assert IsDigit(s[0]);
    assert SpaceRun(s) == 0;
    assert s[0..] == s && s[..|s|] == s;
  }

  /** Most significant digit first. */
  lemma DigitsOf1201()
    ensures ToString(1201) == "1201"
  {
    assert Digits(1) == "1";
    assert Digits(12) == "12";
    assert Digits(120) == "120";
  }

  lemma DigitsInjective(a: nat, b: nat)
    requires Digits(a) == Digits(b)
    ensures a == b
  {
    ValueOfDigits(a);
    ValueOfDigits(b);
  }

  // ----- which texts are read in full -----

  /** White space, an optional sign, then digits to the end. */
  ghost predicate IsNumeral(s: string, spaces: string, sign: string, digits: string) {
    && s == spaces + sign + digits
    && (forall i :: 0 <= i < |spaces| ==> IsSpace(spaces[i]))
    && sign in {"", "+", "-"}
    && digits != "" && (forall i :: 0 <= i < |digits| ==> IsDigit(digits[i]))
  }

  function SignedValue(sign: string, digits: string): int
    requires forall i :: 0 <= i < |digits| ==> IsDigit(digits[i])
  {
    var magnitude: int := ValueOf(digits);
    if sign == "-" then -magnitude else magnitude
  }

  lemma {:induction false} SpacesRun(spaces: string, rest: string)
    requires forall i :: 0 <= i < |spaces| ==> IsSpace(spaces[i])
    requires rest == "" || !IsSpace(rest[0])
    ensures SpaceRun(spaces + rest) == |spaces|
  {
    if spaces == "" {
      assert spaces + rest == rest;
    } else {
      assert (spaces + rest)[1..] == spaces[1..] + rest;
      SpacesRun(spaces[1..], rest);
    }
  }

  lemma {:induction false} SpaceRunSpaces(s: string)
    ensures forall i :: 0 <= i < SpaceRun(s) ==> IsSpace(s[i])
  {
    if s != "" && IsSpace(s[0]) {
      SpaceRunSpaces(s[1..]);
      forall i | 0 <= i < SpaceRun(s) ensures IsSpace(s[i]) { assert i > 0 ==> s[i] == s[1..][i-1]; }
    }
  }

  lemma Regroup(a: string, b: string, c: string, d: string)
    requires c != ""
    ensures a + b + c + d == a + (b + c + d)
    ensures (a + b + c + d)[|a|] == (b + c + d)[0] == if b == "" then c[0] else b[0]
    ensures (a + b + c + d)[|a| + |b|..] == c + d
  {
  }

  /** Where the digits of a numeral begin, whatever follows it. */
  lemma NumeralParts(s: string, spaces: string, sign: string, digits: string, rest: string)
    requires IsNumeral(s, spaces, sign, digits)
    ensures SpaceRun(s + rest) == |spaces| < |s| && |s| == |spaces| + |sign| + |digits|
    ensures (s + rest)[|spaces|] == if sign == "" then digits[0] else sign[0]
    ensures (s + rest)[|spaces| + |sign|..] == digits + rest
  {
    Regroup(spaces, sign, digits, rest);
    hide SpaceRun, DigitRun, ValueOf, DigitChar;
    SpacesRun(spaces, sign + digits + rest);
  }

  lemma {:induction false} RunStops(digits: string, rest: string)
    requires forall i :: 0 <= i < |digits| ==> IsDigit(digits[i])
    requires rest == "" || !IsDigit(rest[0])
    ensures DigitRun(digits + rest) == |digits|
  {
    if digits == "" {
      assert digits + rest == rest;
    } else {
      assert (digits + rest)[1..] == digits[1..] + rest;
      RunStops(digits[1..], rest);
    }
  }

  /** A numeral is read as far as its digits go, and refused exactly when its value is out of range. */
  lemma NumeralIsRead(s: string, spaces: string, sign: string, digits: string, rest: string, lo: int, hi: int)
    requires IsNumeral(s, spaces, sign, digits) && (rest == "" || !IsDigit(rest[0]))
    ensures ParsePrefix(s + rest, lo, hi) ==
            if lo <= SignedValue(sign, digits) <= hi then Some(Parsed(SignedValue(sign, digits), |s|)) else None
  {
    hide SpaceRun, DigitRun, ValueOf;
    NumeralParts(s, spaces, sign, digits, rest);
    RunStops(digits, rest);
    assert (digits + rest)[..|digits|] == digits;
    assert IsDigit(digits[0]);
  }

  lemma {:induction false} RunIsLongest(s: string)
    ensures DigitRun(s) < |s| ==> !IsDigit(s[DigitRun(s)])
  {
    if s != "" && IsDigit(s[0]) { RunIsLongest(s[1..]); }
  }

  /** Whatever is read is a numeral, and it ends where the digits do. */
  lemma ReadIsNumeral(s: string, lo: int, hi: int) returns (spaces: string, sign: string, digits: string)
    requires ParsePrefix(s, lo, hi).Some?
    ensures var read := ParsePrefix(s, lo, hi).value;
            && IsNumeral(s[..read.consumed], spaces, sign, digits)
            && read.value == SignedValue(sign, digits)
            && (read.consumed == |s| || !IsDigit(s[read.consumed]))
  {
    hide SpaceRun, DigitRun, ValueOf, DigitChar;
    var i := SpaceRun(s);
    SpaceRunSpaces(s);
    var j := if i < |s| && (s[i] == '+' || s[i] == '-') then i + 1 else i;
    var d := DigitRun(s[j..]);
    RunIsLongest(s[j..]);
    spaces, sign, digits := s[..i], s[i..j], s[j..][..d];
    assert s[..j + d] == spaces + sign + digits;
    assert j > i ==> sign == [s[i]];
  }
}
