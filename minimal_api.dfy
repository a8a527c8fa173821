/**
 * The request handlers of the minimal web API that compute their answer from
 * their arguments alone: days between two dates, the phone-number check, the
 * Spanish DNI check and the colour-code lookup. Each handler is a function
 * from its query arguments to the reply it produces; the web host around
 * them is not modelled.
 */
module MinimalApi {
  import opened Wrappers

  /** An exception a handler lets escape; the host answers it with status 500. */
  datatype Exception =
    | FormatException | OverflowException | IndexOutOfRangeException
    | IOException                  // `File.ReadAllText`: the file is missing or cannot be read
    | UnauthorizedAccessException  // `File.ReadAllText`: permission denied, or the path is a directory
    | JsonException                // `JsonSerializer.Deserialize` was given malformed JSON

  /** What a handler produces: 200 with a body, 404 with a message, or an unhandled exception. */
  datatype Reply<+T> = Ok(body: T) | NotFound(message: string) | Fault(exception: Exception)

  function Abs(x: int): int {
    if x < 0 then -x else x
  }

  predicate IsAsciiDigit(c: char) {
    '0' <= c <= '9'
  }

  predicate AllAsciiDigits(s: string) {
    forall i :: 0 <= i < |s| ==> IsAsciiDigit(s[i])
  }

  // ---------------------------------------------------------------------------
  // /DaysBetweenDates
  // ---------------------------------------------------------------------------

  /** A `DateTime` is a count of 100-nanosecond ticks since 0001-01-01 00:00. */
  const TicksPerDay: int := 864_000_000_000
  /** The ticks of `DateTime.MaxValue`, 9999-12-31 23:59:59.9999999. */
  const MaxTicks: int := 3_155_378_975_999_999_999

  type DateTime = t: int | 0 <= t <= MaxTicks

  /** C#'s integer `/`: the quotient rounded toward zero. */
  function TruncatedDiv(a: int, b: int): int
    requires b > 0
  {
    if a >= 0 then a / b else -((-a) / b)
  }

  /**
   * `Math.Abs((date2 - date1).Days)`: `TimeSpan.Days` counts the whole days of
   * the difference, rounding toward zero, so the result is the number of
   * complete days between the two instants, whichever comes first.
   */
  function DaysBetweenDates(date1: DateTime, date2: DateTime): (r: int)
    ensures r >= 0
    ensures r * TicksPerDay <= Abs(date2 - date1) < (r + 1) * TicksPerDay
  {
    Abs(TruncatedDiv(date2 - date1, TicksPerDay))
  }

  /** Swapping the two dates does not change the answer. */
  lemma DaysBetweenDatesSymmetric(date1: DateTime, date2: DateTime)
    ensures DaysBetweenDates(date1, date2) == DaysBetweenDates(date2, date1)
  {
  }

  /** 2023-01-01 to 2023-01-10, both at midnight, is 9 days. */
  lemma DaysBetweenDatesExample()
    ensures DaysBetweenDates(638081280000000000, 638089056000000000) == 9
  {
  }

  /** 23:00 on 2023-01-01 to 01:00 on 2023-01-02 is two hours: no whole day. */
  lemma DaysBetweenDatesTruncates()
    ensures DaysBetweenDates(638081280000000000 + 23 * 36_000_000_000, 638089056000000000 - 8 * TicksPerDay + 36_000_000_000) == 0
  {
  }

  // ---------------------------------------------------------------------------
  // /validatephonenumber
  // ---------------------------------------------------------------------------

  /** The shape of a phone number: '+', a digit 1-9, then 3 to 14 digits 0-9, and nothing else. */
  predicate IsPhoneNumber(s: string) {
    && 5 <= |s| <= 16
    && s[0] == '+'
    && '1' <= s[1] <= '9'
    && forall i :: 2 <= i < |s| ==> IsAsciiDigit(s[i])
  }

  /**
   * How the pattern ends: `$` without the multiline option, which matches at
   * the end of the input or just before a final line feed, or `\z`, which
   * matches only at the end of the input.
   */
  datatype EndAnchor = Dollar | EndOfInput

  predicate AnchorMatchesAt(anchor: EndAnchor, s: string, i: nat) {
    i == |s| || (anchor == Dollar && i + 1 == |s| && s[i] == '\n')
  }

  /**
   * The tail `[0-9]{3,14}` followed by the anchor, tried at position `pos`
   * after `count` digits of the run have been matched.
   */
  predicate DigitsThenEnd(anchor: EndAnchor, s: string, pos: nat, count: nat)
    requires count <= 14
    decreases 14 - count
  {
    || (3 <= count && AnchorMatchesAt(anchor, s, pos))
    || (count < 14 && pos < |s| && IsAsciiDigit(s[pos]) && DigitsThenEnd(anchor, s, pos + 1, count + 1))
  }

  /** `s[pos..end]` is a run of digits that brings the digit count to between 3 and 14. */
  predicate DigitRun(s: string, pos: nat, end: int, count: nat) {
    && pos <= end <= |s|
    && 3 <= count + (end - pos) <= 14
    && forall i :: pos <= i < end ==> IsAsciiDigit(s[i])
  }

  /** The pattern `^\+[1-9]{1}[0-9]{3,14}` followed by the given anchor. */
  predicate PhonePatternMatches(anchor: EndAnchor, s: string) {
    2 <= |s| && s[0] == '+' && '1' <= s[1] <= '9' && DigitsThenEnd(anchor, s, 2, 0)
  }

  /** The digit tail matches exactly when the rest of the input, less a final line feed under `$`, is a digit run. */
  lemma {:induction false} DigitsThenEndShape(anchor: EndAnchor, s: string, pos: nat, count: nat)
    requires count <= 14
    decreases 14 - count
    ensures DigitsThenEnd(anchor, s, pos, count) <==>
      || DigitRun(s, pos, |s|, count)
      || (anchor == Dollar && 0 < |s| && s[|s| - 1] == '\n' && DigitRun(s, pos, |s| - 1, count))
  {
    if count < 14 && pos < |s| {
      DigitsThenEndShape(anchor, s, pos + 1, count + 1);
    }
  }

  /**
   * `Regex.IsMatch(phoneNumber, @"^\+[1-9]{1}[0-9]{3,14}$")`. Because `$` also
   * matches before a final line feed, a phone number followed by one line
   * feed is accepted too.
   */
  function ValidatePhoneNumber(phoneNumber: string): (r: bool)
    ensures r <==>
      || IsPhoneNumber(phoneNumber)
      || (0 < |phoneNumber| && phoneNumber[|phoneNumber| - 1] == '\n' && IsPhoneNumber(phoneNumber[..|phoneNumber| - 1]))
  {
    DigitsThenEndShape(Dollar, phoneNumber, 2, 0);
    assert forall i :: 0 <= i < |phoneNumber| - 1 ==> phoneNumber[..|phoneNumber| - 1][i] == phoneNumber[i];
    PhonePatternMatches(Dollar, phoneNumber)
  }

  /** The same check with the pattern anchored by `\z`: exactly the phone-number shape. */
  function ValidatePhoneNumberCorrected(phoneNumber: string): (r: bool)
    ensures r <==> IsPhoneNumber(phoneNumber)
  {
    DigitsThenEndShape(EndOfInput, phoneNumber, 2, 0);
    PhonePatternMatches(EndOfInput, phoneNumber)
  }

  /** "+1234567890" is accepted by both checks. */
  lemma PhoneNumberExample()
    ensures ValidatePhoneNumber("+1234567890") && ValidatePhoneNumberCorrected("+1234567890")
  {
    assert IsPhoneNumber("+1234567890");
  }

  /** A valid number followed by a line feed is accepted as written and rejected by the corrected check. */
  lemma PhoneTrailingLineFeedAccepted()
    ensures ValidatePhoneNumber("+1234567890\n")
    ensures !ValidatePhoneNumberCorrected("+1234567890\n")
  {
    assert "+1234567890\n"[..11] == "+1234567890";
    assert IsPhoneNumber("+1234567890");
  }

  // ---------------------------------------------------------------------------
  // /validatespanishdni
  // ---------------------------------------------------------------------------

  /** The check letters of a DNI, indexed by the number modulo 23. */
  const DniLetters: string := "TRWAGMYFPDXBNJZSQVHLCKE"

  function DigitValue(c: char): nat
    requires IsAsciiDigit(c)
  {
    c as nat - '0' as nat
  }

  function DigitChar(d: nat): (c: char)
    requires d < 10
    ensures IsAsciiDigit(c) && DigitValue(c) == d
  {
    ('0' as nat + d) as char
  }

  function Pow10(n: nat): nat {
    if n == 0 then 1 else 10 * Pow10(n - 1)
  }

  /** The value of a string of decimal digits, most significant first. */
  function DigitsValue(s: string): nat
    requires AllAsciiDigits(s)
  {
    if s == [] then 0 else 10 * DigitsValue(s[..|s| - 1]) + DigitValue(s[|s| - 1])
  }

  /** `n` written with exactly `width` decimal digits, padded with leading zeros. */
  function DecimalDigits(n: nat, width: nat): (s: string)
    ensures |s| == width && AllAsciiDigits(s)
  {
    if width == 0 then [] else DecimalDigits(n / 10, width - 1) + [DigitChar(n % 10)]
  }

  lemma {:induction false} DigitsValueBound(s: string)
    requires AllAsciiDigits(s)
    ensures DigitsValue(s) < Pow10(|s|)
  {
    if s != [] {
      DigitsValueBound(s[..|s| - 1]);
    }
  }

  /** Reading back a number written with enough digits gives the number. */
  lemma {:induction false} DigitsValueOfDecimalDigits(n: nat, width: nat)
    requires n < Pow10(width)
    ensures DigitsValue(DecimalDigits(n, width)) == n
  {
    if width > 0 {
      var s := DecimalDigits(n, width);
      assert s[..|s| - 1] == DecimalDigits(n / 10, width - 1);
      DigitsValueOfDecimalDigits(n / 10, width - 1);
    }
  }

  /** Writing back the value of a digit string with its own width gives the string. */
  lemma {:induction false} DecimalDigitsOfDigitsValue(s: string)
    requires AllAsciiDigits(s)
    ensures DecimalDigits(DigitsValue(s), |s|) == s
  {
    if s != [] {
      var init := s[..|s| - 1];
      DecimalDigitsOfDigitsValue(init);
      assert s == init + [s[|s| - 1]];
    }
  }

  /** The white space `int.Parse` skips before and after the number. */
  predicate IsParseWhite(c: char) {
    c == ' ' || '\t' <= c <= '\r'
  }

  function TrimStartWhite(s: string): (t: string)
    ensures |t| <= |s|
    ensures t == [] || !IsParseWhite(t[0])
    ensures s != [] && !IsParseWhite(s[0]) ==> t == s
  {
    if s != [] && IsParseWhite(s[0]) then TrimStartWhite(s[1..]) else s
  }

  function TrimEndWhite(s: string): (t: string)
    ensures |t| <= |s|
    ensures t == [] || !IsParseWhite(t[|t| - 1])
    ensures s != [] && !IsParseWhite(s[|s| - 1]) ==> t == s
  {
    if s != [] && IsParseWhite(s[|s| - 1]) then TrimEndWhite(s[..|s| - 1]) else s
  }

  /** Trimming at the start removes only white space: the result is a suffix of the input. */
  lemma {:induction false} TrimStartWhiteRemovesWhite(s: string)
    ensures var t := TrimStartWhite(s);
      t == s[|s| - |t|..] && forall i :: 0 <= i < |s| - |t| ==> IsParseWhite(s[i])
  {
    if s != [] && IsParseWhite(s[0]) {
      TrimStartWhiteRemovesWhite(s[1..]);
    }
  }

  /** Trimming at the end removes only white space: the result is a prefix of the input. */
  lemma {:induction false} TrimEndWhiteRemovesWhite(s: string)
    ensures var t := TrimEndWhite(s);
      t == s[..|t|] && forall i :: |t| <= i < |s| ==> IsParseWhite(s[i])
  {
    if s != [] && IsParseWhite(s[|s| - 1]) {
      TrimEndWhiteRemovesWhite(s[..|s| - 1]);
    }
  }

  const Int32Min: int := -0x8000_0000
  const Int32Max: int := 0x7FFF_FFFF

  /**
   * `int.Parse(s)` with the integer number style: optional white space, an
   * optional sign, one or more decimal digits, optional white space. Anything
   * else is a format error; a value outside 32 bits is an overflow.
   */
  function ParseInt32(s: string): (r: Result<int, Exception>)
    ensures r.Success? ==> Int32Min <= r.value <= Int32Max
    ensures r.Failure? && AllAsciiDigits(s) && 0 < |s| ==> r.error == OverflowException
  {
    ParseSignedDigits(TrimEndWhite(TrimStartWhite(s)))
  }

  /** An optional sign and then one or more decimal digits, within 32 bits. */
  function ParseSignedDigits(t: string): (r: Result<int, Exception>)
    ensures r.Success? ==> Int32Min <= r.value <= Int32Max
    ensures r.Failure? && AllAsciiDigits(t) && 0 < |t| ==> r.error == OverflowException
  {
    var negative := 0 < |t| && t[0] == '-';
    var digits := if 0 < |t| && (t[0] == '-' || t[0] == '+') then t[1..] else t;
    if digits == [] || !AllAsciiDigits(digits) then Failure(FormatException)
    else
      var value: int := DigitsValue(digits);
      var n := if negative then -value else value;
      if n < Int32Min || Int32Max < n then Failure(OverflowException) else Success(n)
  }

  /** Eight digits or fewer always parse, to their decimal value. */
  lemma ParseInt32OfDigits(s: string)
    ensures AllAsciiDigits(s) && 0 < |s| <= 8 ==> ParseInt32(s) == Success(DigitsValue(s))
  {
    if AllAsciiDigits(s) && 0 < |s| <= 8 {
      DigitsValueBelowTenPowEight(s);
      assert TrimEndWhite(TrimStartWhite(s)) == s;
    }
  }

  lemma {:induction false} PowMonotone(m: nat, n: nat)
    requires m <= n
    ensures Pow10(m) <= Pow10(n)
  {
    if m < n {
      PowMonotone(m, n - 1);
    }
  }

  /** C#'s integer `%`: the remainder takes the sign of the dividend. */
  function TruncatedRem(a: int, b: int): int
    requires b > 0
  {
    if a >= 0 then a % b else -((-a) % b)
  }

  /**
   * The DNI handler: a string not of length 9 is "invalid"; otherwise the
   * first eight characters are parsed as an integer and the ninth must equal
   * the letter at that number modulo 23, compared case-sensitively. A prefix
   * that does not parse throws, and so does a negative remainder, which
   * indexes the letter table out of range.
   */
  function ValidateSpanishDni(dni: string): (r: Reply<string>)
    ensures |dni| != 9 ==> r == Ok("invalid")
    ensures r.Ok? ==> r.body == "valid" || r.body == "invalid"
    ensures !r.NotFound?
    ensures |dni| == 9 && AllAsciiDigits(dni[..8]) ==>
      r.Ok? && (r.body == "valid" <==> dni[8] == DniLetters[DigitsValue(dni[..8]) % 23])
    ensures r.Fault? ==> |dni| == 9 && !AllAsciiDigits(dni[..8])
    ensures |dni| == 9 && ParseInt32(dni[..8]).Failure? ==> r == Fault(ParseInt32(dni[..8]).error)
  {
    if |dni| != 9 then Ok("invalid")
    else
      ParseInt32OfDigits(dni[..8]);
      var letter := dni[8];
      match ParseInt32(dni[..8])
      case Failure(e) => Fault(e)
      case Success(number) =>
        var index := TruncatedRem(number, 23);
        if index < 0 then Fault(IndexOutOfRangeException)
        else Ok(if letter == DniLetters[index] then "valid" else "invalid")
  }

  /** Each eight-digit number has exactly one check letter that makes the DNI valid. */
  lemma DniCheckLetterUnique(n: nat, letter: char)
    requires n < 100_000_000
    ensures ValidateSpanishDni(DecimalDigits(n, 8) + [letter]) == Ok("valid") <==> letter == DniLetters[n % 23]
  {
    var dni := DecimalDigits(n, 8) + [letter];
    assert dni[..8] == DecimalDigits(n, 8);
    DigitsValueOfDecimalDigits(n, 8);
  }

  /** The digit strings that the examples below use. */
  lemma ExampleDecimalDigits()
    ensures DecimalDigits(1, 7) == "0000001"
    ensures DecimalDigits(23, 7) == "0000023"
    ensures DecimalDigits(12345678, 8) == "12345678"
  {
    assert DecimalDigits(0, 1) == "0";
    assert DecimalDigits(0, 2) == "00";
    assert DecimalDigits(0, 3) == "000";
    assert DecimalDigits(0, 4) == "0000";
    assert DecimalDigits(0, 5) == "00000";
    assert DecimalDigits(0, 6) == "000000";
    assert DecimalDigits(2, 6) == "000002";
    assert DecimalDigits(1, 1) == "1";
    assert DecimalDigits(12, 2) == "12";
    assert DecimalDigits(123, 3) == "123";
    assert DecimalDigits(1234, 4) == "1234";
    assert DecimalDigits(12345, 5) == "12345";
    assert DecimalDigits(123456, 6) == "123456";
    assert DecimalDigits(1234567, 7) == "1234567";
  }

  /** A sign followed by up to seven digits parses to the signed value of the digits. */
  lemma ParseInt32OfSignedDigits(sign: char, digits: string)
    requires sign == '-' || sign == '+'
    requires AllAsciiDigits(digits) && 0 < |digits| <= 7
    ensures ParseInt32([sign] + digits) == Success(if sign == '-' then -(DigitsValue(digits) as int) else DigitsValue(digits))
  {
    var s := [sign] + digits;
    assert TrimStartWhite(s) == s;
    assert s[|s| - 1] == digits[|digits| - 1];
    assert TrimEndWhite(s) == s;
    SignedDigitsValue(sign, digits);
  }

  lemma SignedDigitsValue(sign: char, digits: string)
    requires sign == '-' || sign == '+'
    requires AllAsciiDigits(digits) && 0 < |digits| <= 7
    ensures ParseSignedDigits([sign] + digits) == Success(if sign == '-' then -(DigitsValue(digits) as int) else DigitsValue(digits))
  {
    DigitsValueBelowTenPowEight(digits);
    assert ([sign] + digits)[1..] == digits;
  }

  lemma DigitsValueBelowTenPowEight(digits: string)
    requires AllAsciiDigits(digits) && |digits| <= 8
    ensures DigitsValue(digits) < 100_000_000
  {
    DigitsValueBound(digits);
    PowMonotone(|digits|, 8);
    assert Pow10(8) == 100_000_000;
  }

  /** A space followed by up to seven digits parses to the value of the digits. */
  lemma ParseInt32OfSpacedDigits(digits: string)
    requires AllAsciiDigits(digits) && 0 < |digits| <= 7
    ensures ParseInt32([' '] + digits) == Success(DigitsValue(digits))
  {
    var s := [' '] + digits;
    assert TrimStartWhite(s) == digits by {
      assert s[1..] == digits;
      assert !IsParseWhite(digits[0]);
    }
    ParseInt32OfDigits(digits);
  }

  /** "12345678Z" is valid: 12345678 modulo 23 is 14, and the letter at 14 is 'Z'. */
  lemma DniExample()
    ensures ValidateSpanishDni("12345678Z") == Ok("valid")
  {
    ExampleDecimalDigits();
    assert DniLetters[12345678 % 23] == 'Z';
    DniCheckLetterUnique(12345678, 'Z');
    assert DecimalDigits(12345678, 8) + ['Z'] == "12345678Z";
  }

  /** A prefix that is not a number throws a format exception. */
  lemma DniNonNumericPrefixFaults()
    ensures ValidateSpanishDni("ABCDEFGHZ") == Fault(FormatException)
  {
    assert TrimStartWhite("ABCDEFGH") == "ABCDEFGH" by {
      assert !IsParseWhite("ABCDEFGH"[0]);
    }
    assert TrimEndWhite("ABCDEFGH") == "ABCDEFGH" by {
      assert !IsParseWhite("ABCDEFGH"[7]);
    }
  }

  /** Once the prefix of a 9-character DNI has parsed, the reply depends only on the number and the letter. */
  lemma ValidateSpanishDniOfNumber(dni: string, number: int)
    requires |dni| == 9 && ParseInt32(dni[..8]) == Success(number)
    ensures TruncatedRem(number, 23) < 0 ==> ValidateSpanishDni(dni) == Fault(IndexOutOfRangeException)
    ensures 0 <= TruncatedRem(number, 23) ==>
      ValidateSpanishDni(dni) == Ok(if dni[8] == DniLetters[TruncatedRem(number, 23)] then "valid" else "invalid")
  {
  }

  lemma ParseMinusOne()
    ensures ParseInt32("-0000001") == Success(-1)
  {
    assert DigitsValue("0000001") == 1 by {
      ExampleDecimalDigits();
      DigitsValueOfDecimalDigits(1, 7);
    }
    ParseInt32OfSignedDigits('-', "0000001");
    assert ['-'] + "0000001" == "-0000001";
  }

  lemma ParseMinusTwentyThree()
    ensures ParseInt32("-0000023") == Success(-23)
  {
    assert DigitsValue("0000023") == 23 by {
      ExampleDecimalDigits();
      DigitsValueOfDecimalDigits(23, 7);
    }
    ParseInt32OfSignedDigits('-', "0000023");
    assert ['-'] + "0000023" == "-0000023";
  }

  lemma ParseSpaceTwentyThree()
    ensures ParseInt32(" 0000023") == Success(23)
  {
    assert DigitsValue("0000023") == 23 by {
      ExampleDecimalDigits();
      DigitsValueOfDecimalDigits(23, 7);
    }
    ParseInt32OfSpacedDigits("0000023");
    assert [' '] + "0000023" == " 0000023";
  }

  /** A negative prefix whose remainder is not zero indexes the table out of range. */
  lemma DniNegativeRemainderFaults()
    ensures ValidateSpanishDni("-0000001T") == Fault(IndexOutOfRangeException)
  {
    ParseMinusOne();
    assert "-0000001T"[..8] == "-0000001";
    ValidateSpanishDniOfNumber("-0000001T", -1);
  }

  /**
   * A sign is accepted in place of a leading digit: -23 has remainder 0,
   * whose letter is 'T', so "-0000023T" is valid.
   */
  lemma DniSignedPrefixAccepted()
    ensures ValidateSpanishDni("-0000023T") == Ok("valid")
  {
    ParseMinusTwentyThree();
    assert "-0000023T"[..8] == "-0000023";
    ValidateSpanishDniOfNumber("-0000023T", -23);
  }

  /** White space is accepted in place of a leading digit: " 0000023T" is valid. */
  lemma DniSpacedPrefixAccepted()
    ensures ValidateSpanishDni(" 0000023T") == Ok("valid")
  {
    ParseSpaceTwentyThree();
    assert " 0000023T"[..8] == " 0000023";
    ValidateSpanishDniOfNumber(" 0000023T", 23);
  }

  /** The corrected check rejects both of those. */
  lemma DniCorrectedRejectsSignAndSpace()
    ensures ValidateSpanishDniCorrected("-0000023T") == "invalid"
    ensures ValidateSpanishDniCorrected(" 0000023T") == "invalid"
  {
    assert !IsAsciiDigit("-0000023T"[..8][0]);
    assert !IsAsciiDigit(" 0000023T"[..8][0]);
  }

  /** A canonical DNI: eight decimal digits followed by the check letter of their value. */
  predicate IsCanonicalDni(dni: string) {
    exists n: nat :: n < 100_000_000 && dni == DecimalDigits(n, 8) + [DniLetters[n % 23]]
  }

  /**
   * The DNI check as evidently intended: "valid" exactly for eight decimal
   * digits followed by their check letter, "invalid" for everything else,
   * and never an exception.
   */
  function ValidateSpanishDniCorrected(dni: string): (r: string)
    ensures r == "valid" || r == "invalid"
    ensures r == "valid" <==> IsCanonicalDni(dni)
    ensures |dni| == 9 && AllAsciiDigits(dni[..8]) ==> ValidateSpanishDni(dni) == Ok(r)
  {
    var ok := |dni| == 9 && AllAsciiDigits(dni[..8]) && dni[8] == DniLetters[DigitsValue(dni[..8]) % 23];
    CanonicalDniShape(dni);
    if ok then "valid" else "invalid"
  }

  lemma CanonicalDniShape(dni: string)
    ensures IsCanonicalDni(dni) <==>
      |dni| == 9 && AllAsciiDigits(dni[..8]) && dni[8] == DniLetters[DigitsValue(dni[..8]) % 23]
  {
    if IsCanonicalDni(dni) {
      var n: nat :| n < 100_000_000 && dni == DecimalDigits(n, 8) + [DniLetters[n % 23]];
      assert dni[..8] == DecimalDigits(n, 8);
      DigitsValueOfDecimalDigits(n, 8);
    }
    if |dni| == 9 && AllAsciiDigits(dni[..8]) && dni[8] == DniLetters[DigitsValue(dni[..8]) % 23] {
      var n := DigitsValue(dni[..8]);
      DigitsValueBound(dni[..8]);
      DecimalDigitsOfDigitsValue(dni[..8]);
      assert dni == DecimalDigits(n, 8) + [DniLetters[n % 23]];
    }
  }

  // ---------------------------------------------------------------------------
  // /returncolorcode
  // ---------------------------------------------------------------------------

  /** The codes of a colour; the handler reads only the HEX code. */
  datatype ColorCode = ColorCode(hex: string)

  /** One entry of the colour table. */
  datatype Color = Color(name: string, code: ColorCode)

  /** Upper-case mapping used by the ordinal case-insensitive comparison, on ASCII letters. */
  function ToUpperAscii(c: char): char {
    if 'a' <= c <= 'z' then (c as int - 32) as char else c
  }

  /** `a.Equals(b, StringComparison.OrdinalIgnoreCase)`. */
  predicate EqualsOrdinalIgnoreCase(a: string, b: string) {
    |a| == |b| && forall i :: 0 <= i < |a| ==> ToUpperAscii(a[i]) == ToUpperAscii(b[i])
  }

  /** `i` is the index of the earliest colour whose name equals `color` ignoring case. */
  ghost predicate IsFirstNamed(colors: seq<Color>, color: string, i: int) {
    && 0 <= i < |colors|
    && EqualsOrdinalIgnoreCase(colors[i].name, color)
    && forall j :: 0 <= j < i ==> !EqualsOrdinalIgnoreCase(colors[j].name, color)
  }

  /** `colors.FirstOrDefault(c => c.Name.Equals(color, OrdinalIgnoreCase))`. */
  function FirstNamed(colors: seq<Color>, color: string): (r: Option<Color>)
    ensures r.Some? ==> r.value in colors && EqualsOrdinalIgnoreCase(r.value.name, color)
    ensures r.None? <==> forall c :: c in colors ==> !EqualsOrdinalIgnoreCase(c.name, color)
    ensures forall i :: IsFirstNamed(colors, color, i) ==> r == Some(colors[i])
  {
    if colors == [] then None
    else if EqualsOrdinalIgnoreCase(colors[0].name, color) then Some(colors[0])
    else
      assert forall i :: IsFirstNamed(colors, color, i) ==> IsFirstNamed(colors[1..], color, i - 1);
      FirstNamed(colors[1..], color)
  }

  /**
   * The colour handler over the outcome of loading the table: an exception
   * from reading or deserialising `colors.json` escapes; a null table gives
   * "Colors data not found"; otherwise the HEX code of the first colour named
   * `color` ignoring case, or "Color not found".
   */
  function ReturnColorCode(loaded: Result<Option<seq<Color>>, Exception>, color: string): (r: Reply<string>)
    ensures r.Fault? <==> loaded.Failure?
    ensures loaded.Failure? ==> r == Fault(loaded.error)
    ensures r == NotFound("Colors data not found") <==> loaded == Success(None)
    ensures r == NotFound("Color not found") <==>
      loaded.Success? && loaded.value.Some? && forall c :: c in loaded.value.value ==> !EqualsOrdinalIgnoreCase(c.name, color)
    ensures r.Ok? ==> exists c :: c in loaded.value.value && EqualsOrdinalIgnoreCase(c.name, color) && r.body == c.code.hex
    ensures forall i :: loaded.Success? && loaded.value.Some? && IsFirstNamed(loaded.value.value, color, i) ==>
      r == Ok(loaded.value.value[i].code.hex)
  {
    match loaded
    case Failure(e) => Fault(e)
    case Success(None) => NotFound("Colors data not found")
    case Success(Some(table)) =>
      match FirstNamed(table, color)
      case Some(c) => Ok(c.code.hex)
      case None => NotFound("Color not found")
  }

  /** Two queries that differ only in the case of ASCII letters get the same reply. */
  lemma {:induction false} ReturnColorCodeIgnoresCase(colors: seq<Color>, color1: string, color2: string)
    requires EqualsOrdinalIgnoreCase(color1, color2)
    ensures ReturnColorCode(Success(Some(colors)), color1) == ReturnColorCode(Success(Some(colors)), color2)
  {
    if colors != [] {
      var name := colors[0].name;
      assert EqualsOrdinalIgnoreCase(name, color1) <==> EqualsOrdinalIgnoreCase(name, color2);
      ReturnColorCodeIgnoresCase(colors[1..], color1, color2);
    }
  }

  /** "red" finds the entry named "Red". */
  lemma ReturnColorCodeExample()
    ensures ReturnColorCode(Success(Some([Color("Black", ColorCode("#000000")), Color("Red", ColorCode("#FF0000"))])), "red")
      == Ok("#FF0000")
  {
    var table := [Color("Black", ColorCode("#000000")), Color("Red", ColorCode("#FF0000"))];
    assert !EqualsOrdinalIgnoreCase(table[0].name, "red") by {
      assert ToUpperAscii(table[0].name[0]) != ToUpperAscii("red"[0]);
    }
    assert EqualsOrdinalIgnoreCase(table[1].name, "red");
    assert IsFirstNamed(table, "red", 1);
  }
}
