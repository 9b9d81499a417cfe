/**
 * The bounded validations of ExcelExtensions — `AddValidationInteger`,
 * `AddValidationDecimal` and `AddValidationTextLength` — which turn an
 * optional minimum and maximum into one data-validation rule, or none.
 */
module ExcelValidations {
  import opened Wrappers

  /** Which library call creates the rule. */
  datatype ValidationKind = Integer | Decimal | TextLength

  /** The operators the three methods choose between. */
  datatype Operator = Between | GreaterThanOrEqual | LessThanOrEqual

  /**
   * The rule added to the cell: its operator, `Formula.Value`, `Formula2.Value`
   * (set only for `between`), `ShowErrorMessage` and `Error`.
   */
  datatype BoundRule<T> = BoundRule(kind: ValidationKind, op: Operator, formula: T, formula2: Option<T>,
                                    showErrorMessage: bool, error: string)

  /** The start shared by a kind's three default error messages. */
  function MessageStart(kind: ValidationKind): string {
    match kind
    case Integer => "The field must be whole number"
    case Decimal => "The field must be whole number or decimal"
    case TextLength => "The field text lenght must be"
  }

  /**
   * The bound dispatch shared by the three methods; `show` renders a bound as
   * the interpolated message does (`{min:D}` or `{min:F}`).
   */
  function AddBoundedValidation<T>(kind: ValidationKind, min: Option<T>, max: Option<T>,
                                   errorMessage: Option<string>, show: T -> string): (r: Option<BoundRule<T>>)
    ensures r.None? <==> min.None? && max.None?
    ensures r.Some? ==> r.value.kind == kind && r.value.showErrorMessage
    ensures min.Some? && max.Some? ==>
              r == Some(BoundRule(kind, Between, min.value, Some(max.value), true,
                                  errorMessage.GetOr(MessageStart(kind) + " between " + show(min.value) + " and " + show(max.value))))
    ensures min.Some? && max.None? ==>
              r == Some(BoundRule(kind, GreaterThanOrEqual, min.value, None, true,
                                  errorMessage.GetOr(MessageStart(kind) + " greater than " + show(min.value))))
    ensures min.None? && max.Some? ==>
              r == Some(BoundRule(kind, LessThanOrEqual, max.value, None, true,
                                  errorMessage.GetOr(MessageStart(kind) + " less than " + show(max.value))))
  {
    if min.None? && max.None? then None
    else if min.Some? && max.Some? then
      Some(BoundRule(kind, Between, min.value, Some(max.value), true,
                     errorMessage.GetOr(MessageStart(kind) + " between " + show(min.value) + " and " + show(max.value))))
    else if min.Some? then
      Some(BoundRule(kind, GreaterThanOrEqual, min.value, None, true,
                     errorMessage.GetOr(MessageStart(kind) + " greater than " + show(min.value))))
    else
      Some(BoundRule(kind, LessThanOrEqual, max.value, None, true,
                     errorMessage.GetOr(MessageStart(kind) + " less than " + show(max.value))))
  }

  /** What Excel lets through under a rule, for an order `le` on the values. */
  predicate Accepts<T>(rule: BoundRule<T>, x: T, le: (T, T) -> bool) {
    match rule.op
    case Between => rule.formula2.Some? && le(rule.formula, x) && le(x, rule.formula2.value)
    case GreaterThanOrEqual => le(rule.formula, x)
    case LessThanOrEqual => le(x, rule.formula)
  }

  /** Every value that respects each bound that is given. */
  predicate WithinBounds<T>(min: Option<T>, max: Option<T>, x: T, le: (T, T) -> bool) {
    (min.None? || le(min.value, x)) && (max.None? || le(x, max.value))
  }

  /** The rule chosen lets through exactly the values that respect the bounds given. */
  lemma BoundedValidationAcceptsBounds<T>(kind: ValidationKind, min: Option<T>, max: Option<T>,
                                          errorMessage: Option<string>, show: T -> string,
                                          le: (T, T) -> bool)
    requires min.Some? || max.Some?
    ensures AddBoundedValidation(kind, min, max, errorMessage, show).Some?
    ensures forall x :: Accepts(AddBoundedValidation(kind, min, max, errorMessage, show).value, x, le)
                        <==> WithinBounds(min, max, x, le)
  {
  }

  // ---------------------------------------------------------------------------
  // {n:D}: an int in decimal digits
  // ---------------------------------------------------------------------------

  predicate IsDigit(c: char) {
    '0' <= c <= '9'
  }

  predicate AllDigits(s: string) {
    forall i :: 0 <= i < |s| ==> IsDigit(s[i])
  }

  function DigitChar(d: int): (c: char)
    requires 0 <= d < 10
    ensures IsDigit(c) && c as int - '0' as int == d
  {
    ('0' as int + d) as char
  }

  /** The decimal digits of `n`, most significant first, without leading zeros. */
  function NatDigits(n: nat): (s: string)
    ensures |s| >= 1 && AllDigits(s)
    ensures s[0] == '0' ==> n == 0
    decreases n
  {
    if n < 10 then [DigitChar(n)] else NatDigits(n / 10) + [DigitChar(n % 10)]
  }

  /** `n.ToString("D")` with the invariant culture's minus sign. */
  function DecimalText(n: int): (s: string)
    ensures |s| >= 1
    ensures (s[0] == '-') <==> n < 0
    ensures AllDigits(if n < 0 then s[1..] else s)
  {
    if n < 0 then "-" + NatDigits(-n) else NatDigits(n)
  }

  /** The value of a string of decimal digits. */
  function DigitsValue(s: string): nat
    requires AllDigits(s)
  {
    if s == [] then 0 else DigitsValue(s[..|s| - 1]) * 10 + (s[|s| - 1] as int - '0' as int)
  }

  /** Reads a decimal text with an optional leading minus sign. */
  function ParseDecimal(s: string): int
    requires |s| >= 1 && AllDigits(if s[0] == '-' then s[1..] else s)
  {
    if s[0] == '-' then -(DigitsValue(s[1..]) as int) else DigitsValue(s)
  }

  lemma {:induction false} NatDigitsRoundTrip(n: nat)
    ensures DigitsValue(NatDigits(n)) == n
    decreases n
  {
    if n >= 10 {
      var s := NatDigits(n);
      assert s[..|s| - 1] == NatDigits(n / 10);
      NatDigitsRoundTrip(n / 10);
    }
  }

  /** The number a message shows is the bound itself: reading the text back gives `n`. */
  lemma DecimalTextRoundTrip(n: int)
    ensures ParseDecimal(DecimalText(n)) == n
  {
    if n < 0 {
      assert DecimalText(n)[1..] == NatDigits(-n);
      NatDigitsRoundTrip(-n);
    } else {
      NatDigitsRoundTrip(n);
    }
  }

  // ---------------------------------------------------------------------------
  // The three extension methods
  // ---------------------------------------------------------------------------

  function LeInt(a: int, b: int): bool {
    a <= b
  }

  /**
   * `AddValidationInteger(min, max, errorMessage)`: no rule without bounds;
   * otherwise a whole-number rule that admits exactly the integers within the
   * bounds given.
   */
  function AddValidationInteger(min: Option<int>, max: Option<int>, errorMessage: Option<string>)
    : (r: Option<BoundRule<int>>)
    ensures r.None? <==> min.None? && max.None?
    ensures r.Some? ==> r.value.kind == Integer && r.value.showErrorMessage
    ensures r.Some? ==> forall x :: Accepts(r.value, x, LeInt) <==> min.GetOr(x) <= x && x <= max.GetOr(x)
    ensures r.Some? && errorMessage.Some? ==> r.value.error == errorMessage.value
  {
    if min.Some? || max.Some? then
      BoundedValidationAcceptsBounds(Integer, min, max, errorMessage, DecimalText, LeInt);
      AddBoundedValidation(Integer, min, max, errorMessage, DecimalText)
    else
      None
  }

  /**
   * `AddValidationTextLength(min, max, errorMessage)`: no rule without bounds;
   * otherwise a text-length rule that admits exactly the lengths within the
   * bounds given.
   */
  function AddValidationTextLength(min: Option<int>, max: Option<int>, errorMessage: Option<string>)
    : (r: Option<BoundRule<int>>)
    ensures r.None? <==> min.None? && max.None?
    ensures r.Some? ==> r.value.kind == TextLength && r.value.showErrorMessage
    ensures r.Some? ==> forall n :: Accepts(r.value, n, LeInt) <==> min.GetOr(n) <= n && n <= max.GetOr(n)
    ensures r.Some? && errorMessage.Some? ==> r.value.error == errorMessage.value
  {
    if min.Some? || max.Some? then
      BoundedValidationAcceptsBounds(TextLength, min, max, errorMessage, DecimalText, LeInt);
      AddBoundedValidation(TextLength, min, max, errorMessage, DecimalText)
    else
      None
  }

  /**
   * `AddValidationDecimal(min, max, errorMessage)` over the source's `double`
   * bounds, with the order `le` and the `{x:F}` rendering `show` of those values
   * left as parameters: no rule without bounds; otherwise a decimal rule that
   * admits exactly the values within the bounds given.
   */
  function AddValidationDecimal<D(!new)>(min: Option<D>, max: Option<D>, errorMessage: Option<string>,
                                   show: D -> string, le: (D, D) -> bool): (r: Option<BoundRule<D>>)
    ensures r.None? <==> min.None? && max.None?
    ensures r.Some? ==> r.value.kind == Decimal && r.value.showErrorMessage
    ensures r.Some? ==> forall x :: Accepts(r.value, x, le) <==> WithinBounds(min, max, x, le)
    ensures r.Some? && errorMessage.Some? ==> r.value.error == errorMessage.value
  {
    if min.Some? || max.Some? then
      BoundedValidationAcceptsBounds(Decimal, min, max, errorMessage, show, le);
      AddBoundedValidation(Decimal, min, max, errorMessage, show)
    else
      None
  }

  /** The default integer message quotes both bounds in decimal. */
  lemma IntegerBetweenMessage()
    ensures AddValidationInteger(Some(1), Some(10), None).value.error
            == "The field must be whole number between 1 and 10"
  {
    OneAndTenTexts();
  }

  lemma OneAndTenTexts()
    ensures DecimalText(1) == "1" && DecimalText(10) == "10"
  {
    assert NatDigits(10) == NatDigits(1) + [DigitChar(0)];
  }

  /** A negative bound is quoted with its minus sign. */
  lemma IntegerLessThanMessage()
    ensures AddValidationInteger(None, Some(-5), None).value.error
            == "The field must be whole number less than -5"
  {
    assert DecimalText(-5) == "-5";
  }
}
