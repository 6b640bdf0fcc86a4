/**
 * The per-field rules `full_clean` applies to the rows of student/models.py:
 * required character fields with a maximum length, the course-code pattern
 * (as written and as intended), the upper-casing `Course.clean` performs, and
 * the decimal score with its digit, place and range validators.
 */
module Fields {
  import opened Wrappers

  const NameMaxLength: nat := 100
  const CourseNameMaxLength: nat := 200
  const CodeMaxLength: nat := 20
  /** `EmailField` keeps Django's default `max_length` of 254. */
  const EmailMaxLength: nat := 254

  /** A `CharField` without `blank=True`: the empty string is refused, and so is anything too long. */
  predicate ValidText(s: string, maxLength: nat) {
    0 < |s| <= maxLength
  }

  /**
   * An `EmailField`: required, at most 254 characters and accepted by the
   * e-mail validator, whose grammar is the parameter `isEmail`.
   */
  predicate ValidEmail(s: string, isEmail: string -> bool) {
    ValidText(s, EmailMaxLength) && isEmail(s)
  }

  // ---------------------------------------------------------------- course code

  predicate IsCodeChar(c: char) {
    'A' <= c <= 'Z' || '0' <= c <= '9'
  }

  predicate AllCodeChars(s: string) {
    forall i :: 0 <= i < |s| ==> IsCodeChar(s[i])
  }

  /**
   * `re.search(r'^[A-Z0-9]+$', s)`: without MULTILINE, `^` anchors at the start
   * only, but `$` matches at the very end AND just before a final newline.
   */
  predicate CodePatternAsWritten(s: string) {
    (|s| > 0 && AllCodeChars(s))
    || (|s| > 1 && s[|s| - 1] == '\n' && AllCodeChars(s[..|s| - 1]))
  }

  /**
   * The course code `full_clean` lets through as the model is written: not
   * blank, at most 20 characters, matching the validator's pattern.  Field
   * validators run before `Course.clean`, so the pattern sees the submitted
   * text, not its upper-cased form.
   */
  predicate CodeAcceptedAsWritten(s: string) {
    ValidText(s, CodeMaxLength) && CodePatternAsWritten(s)
  }

  /** The intended rule: a non-empty code of at most 20 capital letters and digits. */
  predicate ValidCourseCode(s: string) {
    ValidText(s, CodeMaxLength) && AllCodeChars(s)
  }

  /** The pattern's trailing-newline allowance lets a code with a line break through. */
  lemma TrailingNewlineAccepted()
    ensures CodeAcceptedAsWritten("CS101\n") && !ValidCourseCode("CS101\n")
  {
    assert "CS101\n"[..5] == "CS101";
    assert !IsCodeChar("CS101\n"[5]);
  }

  /**
   * The as-written rule accepts exactly the intended codes plus each intended
   * code of at most 19 characters followed by one newline.
   */
  lemma AsWrittenCodes(s: string)
    ensures CodeAcceptedAsWritten(s) <==>
            ValidCourseCode(s)
            || (1 < |s| <= CodeMaxLength && s[|s| - 1] == '\n' && ValidCourseCode(s[..|s| - 1]))
  {
  }

  /** Without a trailing newline the two rules agree. */
  lemma AsWrittenAgrees(s: string)
    requires s == [] || s[|s| - 1] != '\n'
    ensures CodeAcceptedAsWritten(s) <==> ValidCourseCode(s)
  {
    AsWrittenCodes(s);
  }

  /**
   * Lower-case letters never pass the pattern.  `Course.clean` still upper-cases
   * the code in memory, but the pattern error is recorded already and the save
   * is refused.
   */
  lemma LowercaseCodeRejected()
    ensures !CodeAcceptedAsWritten("cs101") && !ValidCourseCode("cs101")
  {
    assert !IsCodeChar("cs101"[0]);
    assert "cs101"[..4] == "cs10";
    assert !IsCodeChar("cs101"[..4][0]);
  }

  /** `str.upper()` on the ASCII letters; every other character is kept. */
  function UpperChar(c: char): (u: char)
    ensures ('a' <= c <= 'z') == (u != c)
    ensures !('a' <= u <= 'z')
  {
    if 'a' <= c <= 'z' then (c as int - 32) as char else c
  }

  function Upper(s: string): (r: string)
    ensures |r| == |s|
    ensures forall i :: 0 <= i < |s| ==> r[i] == UpperChar(s[i])
  {
    seq(|s|, i requires 0 <= i < |s| => UpperChar(s[i]))
  }

  /** Upper-casing twice is upper-casing once. */
  lemma UpperIdempotent(s: string)
    ensures Upper(Upper(s)) == Upper(s)
  {
    var u := Upper(s);
    forall i | 0 <= i < |u| ensures Upper(u)[i] == u[i] {
      assert !('a' <= u[i] <= 'z');
    }
  }

  /** `Course.clean` leaves an accepted code as it is: its letters are capitals already. */
  lemma UpperKeepsValidCode(s: string)
    requires ValidCourseCode(s)
    ensures Upper(s) == s
  {
    forall i | 0 <= i < |s| ensures Upper(s)[i] == s[i] {
      assert IsCodeChar(s[i]);
    }
  }

  /**
   * `Course.clean` after the field validators, with the corrected pattern:
   * `None` is a validation error, `Some(code)` the code that is stored.
   */
  function CleanCode(s: string): (r: Option<string>)
    ensures r.Some? <==> ValidCourseCode(s)
    ensures r.Some? ==> r.value == s && ValidCourseCode(r.value)
  {
    if ValidCourseCode(s) then
      UpperKeepsValidCode(s);
      Some(Upper(s))
    else None
  }

  // ---------------------------------------------------------------- score

  /**
   * A parsed `Decimal` as `as_tuple()` shows it: the sign, the coefficient
   * (its digit tuple read as a number, so without leading zeros) and the
   * exponent.  Its value is `(-1)^negative * coefficient * 10^exponent`.
   */
  datatype Decimal = Decimal(negative: bool, coefficient: nat, exponent: int)

  /**
   * The submitted score: the empty string (turned into `None` by the handler),
   * text `Decimal()` cannot read as a finite number, or a number.
   */
  datatype ScoreInput = Blank | Unparsable | Number(d: Decimal)

  function Pow10(k: nat): (r: nat)
    ensures r >= 1
  {
    if k == 0 then 1 else 10 * Pow10(k - 1)
  }

  /** The length of the digit tuple of a coefficient; zero has the one digit `(0,)`. */
  function NumDigits(n: nat): (d: nat)
    ensures d >= 1
  {
    if n < 10 then 1 else 1 + NumDigits(n / 10)
  }

  lemma {:induction false} DigitsBound(n: nat, k: nat)
    requires k >= 1
    ensures NumDigits(n) <= k <==> n < Pow10(k)
  {
    if k > 1 {
      DigitsBound(n / 10, k - 1);
    }
  }

  /** The digit count of `DecimalValidator`. */
  function DigitCount(d: Decimal): nat {
    if d.exponent >= 0 then
      NumDigits(d.coefficient) + (if d.coefficient != 0 then d.exponent else 0)
    else if -d.exponent > NumDigits(d.coefficient) then -d.exponent
    else NumDigits(d.coefficient)
  }

  /** The decimal places `DecimalValidator` counts. */
  function DecimalPlaces(d: Decimal): nat {
    if d.exponent >= 0 then 0 else -d.exponent
  }

  /** `DecimalField(max_digits=5, decimal_places=2)`: 5 digits, 2 places, so 3 whole digits. */
  predicate DigitsWithin(d: Decimal) {
    DigitCount(d) <= 5 && DecimalPlaces(d) <= 2 && DigitCount(d) - DecimalPlaces(d) <= 3
  }

  /** `MinValueValidator(0)` refuses it; minus zero compares equal to zero. */
  predicate BelowZero(d: Decimal) {
    d.negative && d.coefficient > 0
  }

  /** `MaxValueValidator(100)` refuses it. */
  predicate AboveHundred(d: Decimal) {
    !d.negative &&
    if d.exponent >= 0 then d.coefficient * Pow10(d.exponent) > 100
    else d.coefficient > 100 * Pow10(-d.exponent)
  }

  predicate ScoreValid(d: Decimal) {
    DigitsWithin(d) && !BelowZero(d) && !AboveHundred(d)
  }

  /** The magnitude in hundredths, exact when there are at most two places. */
  function Hundredths(d: Decimal): nat
    requires d.exponent >= -2
  {
    d.coefficient * Pow10(d.exponent + 2)
  }

  lemma {:induction false} Pow10Add(a: nat, b: nat)
    ensures Pow10(a + b) == Pow10(a) * Pow10(b)
  {
    if a > 0 {
      Pow10Add(a - 1, b);
    }
  }

  lemma {:induction false} Pow10Large(e: nat)
    ensures e >= 3 ==> Pow10(e) >= 1000
  {
    if e > 3 {
      Pow10Large(e - 1);
    }
  }

  /** For a non-negative exponent the digit rule holds of every value in range. */
  lemma WholeInRange(c: nat, e: nat)
    requires 0 < c && c * Pow10(e) <= 100
    ensures e <= 2 && NumDigits(c) + e <= 3
  {
    assert c * Pow10(e) >= Pow10(e);
    Pow10Large(e);
    Pow10Add(e, 3 - e);
    assert Pow10(e) * c < Pow10(e) * Pow10(3 - e);
    DigitsBound(c, 3 - e);
  }

  /**
   * Under the three validators a score is accepted exactly when it has at most
   * two decimal places and lies in [0, 100]; the five-digit limit never refuses
   * a value in range.
   */
  lemma ScoreValidIff(d: Decimal)
    ensures ScoreValid(d) <==>
            d.exponent >= -2 && !BelowZero(d) && Hundredths(d) <= 10000
  {
    var c, e := d.coefficient, d.exponent;
    if e >= 0 {
      Pow10Add(e, 2);
      assert Hundredths(d) == c * Pow10(e) * 100;
      if c > 0 && c * Pow10(e) <= 100 {
        WholeInRange(c, e);
      }
    } else if e == -1 {
      assert Hundredths(d) == c * 10;
      DigitsBound(c, 4);
    } else if e == -2 {
      DigitsBound(c, 5);
    }
  }

  /** The outcome of cleaning a score: a validation error, or the stored (optional) value. */
  datatype Cleaned = Rejected | Accepted(score: Option<nat>)

  /**
   * `score if score else None` followed by the field's `clean`: a blank score
   * is stored as NULL, an unreadable or out-of-rule one is a validation error,
   * and an accepted one is kept in hundredths.
   */
  function CleanScore(input: ScoreInput): (r: Cleaned)
    ensures r.Accepted? <==> (input.Blank? || (input.Number? && ScoreValid(input.d)))
    ensures r == Accepted(None) <==> input.Blank?
    ensures r.Accepted? && r.score.Some? ==> r.score.value <= 10000
    ensures input.Number? && r.Accepted? ==> input.d.exponent >= -2 && r.score == Some(Hundredths(input.d))
  {
    match input
    case Blank => Accepted(None)
    case Unparsable => Rejected
    case Number(d) =>
      if ScoreValid(d) then
        ScoreValidIff(d);
        Accepted(Some(Hundredths(d)))
      else Rejected
  }

  /** A few scores the field accepts and refuses, written as `Decimal(...)` would read them. */
  lemma ScoreExamples()
    ensures CleanScore(Number(Decimal(false, 5025, -2))) == Accepted(Some(5025))   // "50.25"
    ensures CleanScore(Number(Decimal(false, 1, 2))) == Accepted(Some(10000))      // "1E+2"
    ensures CleanScore(Number(Decimal(true, 0, 0))) == Accepted(Some(0))           // "-0"
    ensures CleanScore(Number(Decimal(false, 10001, -2))) == Rejected              // "100.01"
    ensures CleanScore(Number(Decimal(true, 1, -2))) == Rejected                   // "-0.01"
    ensures CleanScore(Number(Decimal(false, 50999, -3))) == Rejected              // "50.999"
    ensures CleanScore(Number(Decimal(false, 0, -3))) == Rejected                  // "0.000"
  {
    assert NumDigits(5025) == 4 && NumDigits(1) == 1 && NumDigits(0) == 1;
  }
}
