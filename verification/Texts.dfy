/** std::string as the program uses it: a sequence of bytes, with the decimal conversions of the
    standard library (std::to_string, std::stoll) and substring search (std::string::find). */
module Texts {
  import opened Options

  type Byte = c: char | c as int < 256
  type Text = seq<Byte>

  // ---------------------------------------------------------------- std::to_string

  predicate IsDigit(c: Byte) {
    '0' <= c <= '9'
  }

  function Digit(d: nat): (c: Byte)
    requires d < 10
    ensures IsDigit(c) && DigitValue(c) == d
  {
    (d + '0' as int) as char
  }

  function DigitValue(c: Byte): nat
    requires IsDigit(c)
  {
    c as int - '0' as int
  }

  function Digits(n: nat): (s: Text)
    ensures |s| > 0 && forall i :: 0 <= i < |s| ==> IsDigit(s[i])
  {
    (if n < 10 then [] else Digits(n / 10)) + [Digit(n % 10)]
  }

  function Decimal(n: int): Text {
    if n < 0 then ['-'] + Digits(-n) else Digits(n)
  }

  /** The number a run of digits denotes. */
  function ValueOf(s: Text): nat
    requires forall i :: 0 <= i < |s| ==> IsDigit(s[i])
  {
    if s == [] then 0 else 10 * ValueOf(s[..|s| - 1]) + DigitValue(s[|s| - 1])
  }

  lemma {:induction false} ValueOfDigits(n: nat)
    ensures ValueOf(Digits(n)) == n
  {
    var front: Text := if n < 10 then [] else Digits(n / 10);
    assert Digits(n) == front + [Digit(n % 10)];
    assert (front + [Digit(n % 10)])[..|front|] == front;
    if n >= 10 {
      ValueOfDigits(n / 10);
    }
    hide Digits;
  }

  lemma DecimalInjective(m: int, n: int)
    requires Decimal(m) == Decimal(n)
    ensures m == n
  {
    ValueOfDigits(if m < 0 then -m else m);
    ValueOfDigits(if n < 0 then -n else n);
    var s := Decimal(n);
    if m < 0 {
      assert !IsDigit(s[0]);
      assert Digits(-m) == s[1..];
    } else {
      assert IsDigit(s[0]);
    }
  }

  // ---------------------------------------------------------------- std::stoll

  const MIN_INT64: int := -0x8000_0000_0000_0000
  const MAX_INT64: int := 0x7FFF_FFFF_FFFF_FFFF

  predicate IsSpace(c: Byte) {
    c == ' ' || '\t' <= c <= '\r'
  }

  function SkipSpaces(s: Text): Text {
    if s != [] && IsSpace(s[0]) then SkipSpaces(s[1..]) else s
  }

  /** The leading run of digits. */
  function LeadingDigits(s: Text): (d: Text)
    ensures forall i :: 0 <= i < |d| ==> IsDigit(d[i])
  {
    if s != [] && IsDigit(s[0]) then [s[0]] + LeadingDigits(s[1..]) else []
  }

  /** None where the library throws: no digits, or out of the 64-bit range. */
  function Checked(negative: bool, digits: Text): Option<int>
    requires forall i :: 0 <= i < |digits| ==> IsDigit(digits[i])
  {
    var value: int := if negative then 0 - ValueOf(digits) else ValueOf(digits);
    if digits == [] || !(MIN_INT64 <= value <= MAX_INT64) then None else Some(value)
  }

  function ParseInt64(s: Text): Option<int> {
    var t := SkipSpaces(s);
    if t != [] && (t[0] == '-' || t[0] == '+')
    then Checked(t[0] == '-', LeadingDigits(t[1..]))
    else Checked(false, LeadingDigits(t))
  }

  lemma {:induction false} LeadingDigitsAll(s: Text)
    requires forall i :: 0 <= i < |s| ==> IsDigit(s[i])
    ensures LeadingDigits(s) == s
  {
    if s != [] {
      LeadingDigitsAll(s[1..]);
    }
  }

  lemma ParseDigits(s: Text, negative: bool)
    requires s != [] && forall i :: 0 <= i < |s| ==> IsDigit(s[i])
    ensures ParseInt64(if negative then ['-'] + s else s) == Checked(negative, s)
  {
    hide Checked, LeadingDigits;
    LeadingDigitsAll(s);
    var t: Text := if negative then ['-'] + s else s;
    assert !IsSpace(t[0]) && SkipSpaces(t) == t;
    if negative {
      assert t[1..] == s;
    } else {
      assert IsDigit(t[0]);
    }
  }

  /** What to_string prints, stoll reads back, over the range of 64 bits and no further. */
  lemma ParseDecimal(n: int)
    ensures ParseInt64(Decimal(n)) ==
      if -0x8000_0000_0000_0000 <= n < 0x8000_0000_0000_0000 then Some(n) else None
  {
    var m := if n < 0 then -n else n;
    ValueOfDigits(m);
    ParseDigits(Digits(m), n < 0);
    hide Digits, ParseInt64;
  }

  /** A decimal number has its last digit last. */
  lemma DecimalDigits(n: nat, d: nat)
    requires d < 10
    ensures Decimal(d) == [Digit(d)]
    ensures n > 0 ==> Decimal(10 * n + d) == Decimal(n) + [Digit(d)]
    ensures n > 0 ==> Decimal(0 - n) == ['-'] + Decimal(n)
  {
    assert [] + [Digit(d)] == [Digit(d)];
  }

  lemma {:induction false} SpacesSkipped(spaces: Text, rest: Text)
    requires forall i :: 0 <= i < |spaces| ==> IsSpace(spaces[i])
    requires rest != [] && !IsSpace(rest[0])
    ensures SkipSpaces(spaces + rest) == rest
  {
    if spaces == [] {
      assert spaces + rest == rest;
    } else {
      assert (spaces + rest)[1..] == spaces[1..] + rest;
      SpacesSkipped(spaces[1..], rest);
    }
  }

  lemma {:induction false} LeadingDigitsEnd(digits: Text, after: Text)
    requires forall i :: 0 <= i < |digits| ==> IsDigit(digits[i])
    requires after != [] ==> !IsDigit(after[0])
    ensures LeadingDigits(digits + after) == digits
  {
    if digits == [] {
      assert digits + after == after;
    } else {
      assert (digits + after)[1..] == digits[1..] + after;
      LeadingDigitsEnd(digits[1..], after);
    }
  }

  lemma NoDigitsNoNumber(negative: bool)
    ensures Checked(negative, []) == None
  {}

  lemma ParseAfterSpaces(spaces: Text, number: Text)
    requires forall i :: 0 <= i < |spaces| ==> IsSpace(spaces[i])
    requires number != [] && !IsSpace(number[0])
    ensures ParseInt64(spaces + number) ==
      if number[0] == '-' || number[0] == '+' then Checked(number[0] == '-', LeadingDigits(number[1..]))
      else Checked(false, LeadingDigits(number))
  {
    hide IsSpace, Checked, LeadingDigits, SkipSpaces;
    SpacesSkipped(spaces, number);
  }

  lemma ParseSigned(spaces: Text, sign: Byte, digits: Text, after: Text)
    requires forall i :: 0 <= i < |spaces| ==> IsSpace(spaces[i])
    requires sign == '+' || sign == '-'
    requires forall i :: 0 <= i < |digits| ==> IsDigit(digits[i])
    requires after != [] ==> !IsDigit(after[0])
    ensures ParseInt64(spaces + ([sign] + (digits + after))) == Checked(sign == '-', digits)
  {
    var number := [sign] + (digits + after);
    assert !IsSpace(number[0]) && number[1..] == digits + after;
    hide IsSpace, Checked, ParseInt64, LeadingDigits;
    ParseAfterSpaces(spaces, number);
    LeadingDigitsEnd(digits, after);
  }

  lemma ParseUnsigned(spaces: Text, digits: Text, after: Text)
    requires forall i :: 0 <= i < |spaces| ==> IsSpace(spaces[i])
    requires forall i :: 0 <= i < |digits| ==> IsDigit(digits[i])
    requires after != [] ==> !IsDigit(after[0])
    requires digits == [] ==> after != [] && !IsSpace(after[0]) && after[0] != '+' && after[0] != '-'
    ensures ParseInt64(spaces + (digits + after)) == Checked(false, digits)
  {
    var number := digits + after;
    if digits == [] {
      assert number == after;
    } else {
      assert number[0] == digits[0] && IsDigit(number[0]);
    }
    assert !IsSpace(number[0]) && number[0] != '+' && number[0] != '-';
    hide IsSpace, Checked, ParseInt64, LeadingDigits;
    ParseAfterSpaces(spaces, number);
    LeadingDigitsEnd(digits, after);
  }

  /** Spaces before a number, a sign, and whatever follows its digits do not matter; without a digit there is
      no number. */
  lemma ParseSurrounded(spaces: Text, sign: Text, digits: Text, after: Text)
    requires forall i :: 0 <= i < |spaces| ==> spaces[i] == ' ' || '\t' <= spaces[i] <= '\r'
    requires sign == [] || sign == ['+'] || sign == ['-']
    requires forall i :: 0 <= i < |digits| ==> IsDigit(digits[i])
    requires after != [] ==> !IsDigit(after[0])
    requires sign + digits == [] ==> after != [] && !IsSpace(after[0]) && after[0] != '+' && after[0] != '-'
    ensures ParseInt64(spaces + (sign + (digits + after))) ==
      if digits == [] then None else ParseInt64((if sign == ['-'] then sign else []) + digits)
  {
    assert forall i :: 0 <= i < |spaces| ==> IsSpace(spaces[i]);
    hide IsSpace, Checked, ParseInt64, LeadingDigits;
    if sign == [] {
      assert sign + digits == digits && sign + (digits + after) == digits + after;
      ParseUnsigned(spaces, digits, after);
    } else {
      ParseSigned(spaces, sign[0], digits, after);
      assert sign == [sign[0]];
    }
    NoDigitsNoNumber(sign == ['-']);
    if digits != [] {
      assert [] + digits == digits;
      ParseDigits(digits, sign == ['-']);
    }
  }

  // ---------------------------------------------------------------- std::string::find

  /** Does the pattern stand at position i? */
  predicate OccursAt(s: Text, pattern: Text, i: nat) {
    i + |pattern| <= |s| && s[i..i + |pattern|] == pattern
  }

  /** The first occurrence at or after a position. */
  function Find(s: Text, pattern: Text, from: nat): (r: Option<nat>)
    ensures r.Some? ==> from <= r.value && OccursAt(s, pattern, r.value)
    ensures r.Some? ==> forall i :: from <= i < r.value ==> !OccursAt(s, pattern, i)
    ensures r.None? ==> forall i :: from <= i ==> !OccursAt(s, pattern, i)
    decreases |s| - from
  {
    if from + |pattern| > |s| then None
    else if OccursAt(s, pattern, from) then Some(from)
    else Find(s, pattern, from + 1)
  }

  lemma FindIs(s: Text, pattern: Text, from: nat, at: nat)
    requires from <= at && OccursAt(s, pattern, at)
    requires forall i :: from <= i < at ==> !OccursAt(s, pattern, i)
    ensures Find(s, pattern, from) == Some(at)
  {}

  lemma FindNone(s: Text, pattern: Text, from: nat)
    requires forall i :: from <= i ==> !OccursAt(s, pattern, i)
    ensures Find(s, pattern, from) == None
  {}

  lemma OccursOne(s: Text, c: Byte, i: nat)
    ensures OccursAt(s, [c], i) <==> i < |s| && s[i] == c
  {
    if i < |s| {
      assert s[i..i + 1] == [s[i]];
    }
  }
}
