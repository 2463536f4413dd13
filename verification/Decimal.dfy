/** Decimal numerals: `std::to_string` on a 32-bit int and `std::stoi` on a request's path argument. */
module Decimal {
  import opened Results
  import opened MachineInts

  predicate IsDigit(c: char) { '0' <= c <= '9' }

  /** The characters `isspace` accepts in the C locale. */
  predicate IsSpace(c: char) { c == ' ' || '\t' <= c <= '\r' }

  function DigitChar(d: nat): char
    requires d < 10
  {
    '0' + d as char
  }

  function DigitValue(c: char): nat
    requires IsDigit(c)
  {
    (c - '0') as nat
  }

  function Digits(n: nat): string {
    if n < 10 then [DigitChar(n)] else Digits(n / 10) + [DigitChar(n % 10)]
  }

  function Magnitude(n: int): nat {
    if n < 0 then -n else n
  }

  /** `std::to_string`, for any integer width. */
  function ToString(n: int): string {
    if n < 0 then "-" + Digits(Magnitude(n)) else Digits(Magnitude(n))
  }

  /** The value of the digits at the front of `s`, read after digits worth `acc`. */
  function ReadDigits(s: string, acc: nat): nat {
    if s != [] && IsDigit(s[0]) then ReadDigits(s[1..], 10 * acc + DigitValue(s[0])) else acc
  }

  function SkipSpaces(s: string): string {
    if s != [] && IsSpace(s[0]) then SkipSpaces(s[1..]) else s
  }

  /** Optional white space, an optional sign, digits; the rest is ignored. No digits, or a value that does not fit
      an int, is an exception. */
  function Stoi(arg: string): Result<int32> {
    StoiTrimmed(SkipSpaces(arg))
  }

  function StoiTrimmed(s: string): Result<int32> {
    var body := if s != [] && (s[0] == '-' || s[0] == '+') then s[1..] else s;
    if body == [] || !IsDigit(body[0]) then Threw
    else
      var n: int := ReadDigits(body, 0);
      var value := if s[0] == '-' then -n else n;
      if -0x8000_0000 <= value < 0x8000_0000 then Ok(value) else Threw
  }

  lemma DigitAt(d: nat)
    requires d < 10
    ensures DigitChar(d) == "0123456789"[d]
  {
    assert d == 0 || d == 1 || d == 2 || d == 3 || d == 4 || d == 5 || d == 6 || d == 7 || d == 8 || d == 9;
  }

  /** Decimal notation: a digit behind the numeral of the tens, and no zero in front. */
  lemma DecimalNotation(tens: nat, d: nat)
    requires d < 10
    ensures Digits(10 * tens + d) == (if tens == 0 then "" else Digits(tens)) + ["0123456789"[d]]
  {
    DigitAt(d);
    assert (10 * tens + d) / 10 == tens && (10 * tens + d) % 10 == d;
  }

  lemma {:induction false} DigitsAreDigits(n: nat)
    ensures Digits(n) != [] && forall i :: 0 <= i < |Digits(n)| ==> IsDigit(Digits(n)[i])
  {
    if n >= 10 {
      DigitsAreDigits(n / 10);
    }
  }

  /** Reading digits one after the other: a split anywhere among the digits does not matter. */
  lemma {:induction false} ReadSplit(front: string, rest: string, acc: nat)
    requires forall i :: 0 <= i < |front| ==> IsDigit(front[i])
    ensures ReadDigits(front + rest, acc) == ReadDigits(rest, ReadDigits(front, acc))
  {
    if front == [] {
      assert front + rest == rest;
    } else {
      assert (front + rest)[1..] == front[1..] + rest;
      ReadSplit(front[1..], rest, 10 * acc + DigitValue(front[0]));
    }
  }

  /** Leading zeros add nothing and what follows the digits is not read. */
  lemma {:induction false} ReadZeros(zeros: string, rest: string)
    requires forall i :: 0 <= i < |zeros| ==> zeros[i] == '0'
    ensures ReadDigits(zeros + rest, 0) == ReadDigits(rest, 0)
  {
    if zeros == [] {
      assert zeros + rest == rest;
    } else {
      assert (zeros + rest)[1..] == zeros[1..] + rest;
      ReadZeros(zeros[1..], rest);
    }
  }

  lemma {:induction false} ReadBack(n: nat, rest: string)
    requires rest != [] ==> !IsDigit(rest[0])
    ensures ReadDigits(Digits(n) + rest, 0) == n
  {
    if n < 10 {
      assert (Digits(n) + rest)[1..] == rest;
    } else {
      DigitsAreDigits(n / 10);
      var last := [DigitChar(n % 10)];
      assert Digits(n) + rest == Digits(n / 10) + (last + rest);
      ReadSplit(Digits(n / 10), last + rest, 0);
      ReadBack(n / 10, []);
      assert Digits(n / 10) + [] == Digits(n / 10);
      assert (last + rest)[1..] == rest;
    }
  }

  lemma {:induction false} SkipAll(spaces: string, rest: string)
    requires forall i :: 0 <= i < |spaces| ==> IsSpace(spaces[i])
    requires rest != [] ==> !IsSpace(rest[0])
    ensures SkipSpaces(spaces + rest) == rest
  {
    if spaces == [] {
      assert spaces + rest == rest;
    } else {
      assert (spaces + rest)[1..] == spaces[1..] + rest;
      SkipAll(spaces[1..], rest);
    }
  }

  /** How a sign may be written before the digits of `n`. */
  predicate SignOf(sign: string, n: int) {
    (sign == "-" && n <= 0) || ((sign == "+" || sign == "") && n >= 0)
  }

  /** Digits after any zeros, up to the first character that is not a digit. */
  lemma ReadBody(zeros: string, m: nat, rest: string)
    requires forall i :: 0 <= i < |zeros| ==> zeros[i] == '0'
    requires rest != [] ==> !IsDigit(rest[0])
    ensures var body := zeros + Digits(m) + rest;
            body != [] && IsDigit(body[0]) && ReadDigits(body, 0) == m
  {
    DigitsAreDigits(m);
    ReadBack(m, rest);
    ReadZeros(zeros, Digits(m) + rest);
    assert zeros + Digits(m) + rest == zeros + (Digits(m) + rest);
  }

  lemma TrimmedReadsSigned(sign: string, body: string, n: int32)
    requires SignOf(sign, n)
    requires body != [] && IsDigit(body[0]) && ReadDigits(body, 0) == Magnitude(n)
    ensures StoiTrimmed(sign + body) == Ok(n) && !IsSpace((sign + body)[0])
  {
    if sign == "" {
      assert sign + body == body;
    } else {
      assert (sign + body)[1..] == body;
    }
  }

  /** The parts of a spelling of `n`: white space, a sign, leading zeros, its digits, and then anything but a digit. */
  predicate Spelling(spaces: string, sign: string, zeros: string, n: int, rest: string) {
    && (forall i :: 0 <= i < |spaces| ==> spaces[i] in " \t\n\r" || spaces[i] == 11 as char || spaces[i] == 12 as char)
    && SignOf(sign, n)
    && (forall i :: 0 <= i < |zeros| ==> zeros[i] == '0')
    && (rest != [] ==> rest[0] !in "0123456789")
  }

  function Spelled(spaces: string, sign: string, zeros: string, n: int, rest: string): string {
    spaces + (sign + (zeros + Digits(Magnitude(n)) + rest))
  }

  ghost predicate Spells(arg: string, n: int) {
    exists spaces, sign, zeros, rest ::
      Spelling(spaces, sign, zeros, n, rest) && arg == Spelled(spaces, sign, zeros, n, rest)
  }

  /** Every spelling of a number parses to that number. */
  lemma StoiReadsSpelling(spaces: string, sign: string, zeros: string, n: int32, rest: string)
    requires Spelling(spaces, sign, zeros, n, rest)
    ensures Stoi(Spelled(spaces, sign, zeros, n, rest)) == Ok(n)
  {
    var body := zeros + Digits(Magnitude(n)) + rest;
    ReadBody(zeros, Magnitude(n), rest);
    TrimmedReadsSigned(sign, body, n);
    SkipAll(spaces, sign + body);
  }

  // ---------- what parses is a spelling ----------

  /** How many digits `s` starts with. */
  lemma {:induction false} SplitDigits(s: string) returns (k: nat)
    ensures k <= |s| && (forall i :: 0 <= i < k ==> IsDigit(s[i])) && (k < |s| ==> !IsDigit(s[k]))
  {
    if s == [] || !IsDigit(s[0]) {
      k := 0;
    } else {
      var j := SplitDigits(s[1..]);
      k := j + 1;
      forall i | 0 <= i < k
        ensures IsDigit(s[i])
      {
        assert i > 0 ==> s[i] == s[1..][i - 1];
      }
    }
  }

  lemma {:induction false} SplitSpaces(s: string) returns (k: nat)
    ensures k <= |s| && (forall i :: 0 <= i < k ==> IsSpace(s[i])) && SkipSpaces(s) == s[k..]
  {
    if s == [] || !IsSpace(s[0]) {
      k := 0;
    } else {
      var j := SplitSpaces(s[1..]);
      k := j + 1;
      forall i | 0 <= i < k
        ensures IsSpace(s[i])
      {
        assert i > 0 ==> s[i] == s[1..][i - 1];
      }
    }
  }

  lemma DigitsSnoc(m: nat, last: char)
    requires m > 0 && IsDigit(last)
    ensures Digits(10 * m + DigitValue(last)) == Digits(m) + [last]
  {
    assert (10 * m + DigitValue(last)) / 10 == m && (10 * m + DigitValue(last)) % 10 == DigitValue(last);
    assert DigitChar(DigitValue(last)) == last;
  }

  lemma ReadSnoc(front: string, last: char)
    requires (forall i :: 0 <= i < |front| ==> IsDigit(front[i])) && IsDigit(last)
    ensures ReadDigits(front + [last], 0) == 10 * ReadDigits(front, 0) + DigitValue(last)
  {
    ReadSplit(front, [last], 0);
    assert [last][1..] == [];
  }

  /** A run of digits is the numeral of its value after some zeros. */
  lemma {:induction false} DigitsSpell(digits: string) returns (zeros: string)
    requires digits != [] && forall i :: 0 <= i < |digits| ==> IsDigit(digits[i])
    ensures forall i :: 0 <= i < |zeros| ==> zeros[i] == '0'
    ensures digits == zeros + Digits(ReadDigits(digits, 0))
  {
    var front, last := digits[..|digits| - 1], digits[|digits| - 1];
    assert digits == front + [last];
    ReadSnoc(front, last);
    if front == [] {
      zeros := [];
    } else {
      zeros := DigitsSpell(front);
      if ReadDigits(front, 0) > 0 {
        DigitsSnoc(ReadDigits(front, 0), last);
      } else {
        zeros := front;
      }
    }
  }

  lemma BodySpells(body: string) returns (zeros: string, rest: string)
    requires body != [] && IsDigit(body[0])
    ensures forall i :: 0 <= i < |zeros| ==> zeros[i] == '0'
    ensures rest != [] ==> !IsDigit(rest[0])
    ensures body == zeros + Digits(ReadDigits(body, 0)) + rest
  {
    var k := SplitDigits(body);
    rest := body[k..];
    assert body == body[..k] + rest;
    ReadSplit(body[..k], rest, 0);
    zeros := DigitsSpell(body[..k]);
  }

  lemma TrimmedSpells(s: string, n: int32) returns (sign: string, body: string)
    requires StoiTrimmed(s) == Ok(n)
    ensures s == sign + body && SignOf(sign, n)
    ensures body != [] && IsDigit(body[0]) && ReadDigits(body, 0) == Magnitude(n)
  {
    if s[0] == '-' || s[0] == '+' {
      sign, body := [s[0]], s[1..];
    } else {
      sign, body := [], s;
    }
  }

  /** Nothing else parses to the number. */
  lemma StoiReadsOnlySpellings(arg: string, n: int32)
    requires Stoi(arg) == Ok(n)
    ensures Spells(arg, n)
  {
    var k := SplitSpaces(arg);
    var sign, body := TrimmedSpells(arg[k..], n);
    var zeros, rest := BodySpells(body);
    assert arg == Spelled(arg[..k], sign, zeros, n, rest);
    assert Spelling(arg[..k], sign, zeros, n, rest);
  }

  /** An argument parses to a number exactly when it spells it, whatever its white space, sign, zeros and rest. */
  lemma StoiIffSpells(arg: string, n: int32)
    ensures Stoi(arg) == Ok(n) <==> Spells(arg, n)
  {
    if Stoi(arg) == Ok(n) {
      StoiReadsOnlySpellings(arg, n);
    }
    if Spells(arg, n) {
      var spaces, sign, zeros, rest :|
        Spelling(spaces, sign, zeros, n, rest) && arg == Spelled(spaces, sign, zeros, n, rest);
      StoiReadsSpelling(spaces, sign, zeros, n, rest);
    }
  }

  /** Print then parse is the identity on all 32-bit ints. */
  lemma RoundTrip(n: int32)
    ensures Stoi(ToString(n)) == Ok(n)
  {
    var sign, digits := if n < 0 then "-" else "", Digits(Magnitude(n));
    StoiReadsSpelling("", sign, "", n, "");
    assert "" + (sign + ("" + digits + "")) == ToString(n);
  }
}
