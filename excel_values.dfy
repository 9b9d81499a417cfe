/**
 * The "Values" region of ExcelExtensions: `TryParseBool` and the `bool` /
 * `bool?` branches of `GetValueEx<T>`, which give blank cells and yes/no text
 * a meaning before deferring to the spreadsheet library's own conversion.
 */
module ExcelValues {
  import opened Wrappers
  import opened DotNetStrings

  /** Text accepted as `true`, compared ignoring case. */
  predicate IsTrueWord(t: string) {
    EqualsIgnoreCase(t, "yes") || EqualsIgnoreCase(t, "true")
  }

  /** Text accepted as `false`, compared ignoring case. */
  predicate IsFalseWord(t: string) {
    EqualsIgnoreCase(t, "no") || EqualsIgnoreCase(t, "false")
  }

  /** The return value and the `out bool result` of `TryParseBool`. */
  datatype ParsedBool = ParsedBool(success: bool, result: bool)

  /**
   * `TryParseBool(value, out result)`: succeeds with `true` exactly on a
   * trimmed yes/true, with `false` exactly on a trimmed no/false; on any
   * other text it fails and leaves `result` false.
   */
  function TryParseBool(value: string): (p: ParsedBool)
    ensures p.success && p.result <==> IsTrueWord(Trim(value))
    ensures p.success && !p.result <==> IsFalseWord(Trim(value))
    ensures !p.success ==> !p.result
  {
    var t := Trim(value);
    if IsTrueWord(t) then ParsedBool(true, true)
    else if IsFalseWord(t) then ParsedBool(true, false)
    else ParsedBool(false, false)
  }

  /** White space before or after the text never changes what `TryParseBool` reports. */
  lemma TryParseBoolIgnoresPadding(w1: string, s: string, w2: string)
    requires AllWhiteSpace(w1) && AllWhiteSpace(w2)
    ensures TryParseBool(w1 + s + w2) == TryParseBool(s)
  {
    TrimIgnoresPadding(w1, s, w2);
  }

  /**
   * An independent reading of `TryParseBool`: it succeeds exactly on a
   * yes/true/no/false spelling surrounded by white space, and the result
   * is `true` exactly for yes/true.
   */
  lemma TryParseBoolAcceptsPaddedWords(value: string)
    ensures TryParseBool(value).success <==>
              exists w1, t, w2 :: value == w1 + t + w2 && AllWhiteSpace(w1) && AllWhiteSpace(w2)
                                  && (IsTrueWord(t) || IsFalseWord(t))
    ensures TryParseBool(value).result <==>
              exists w1, t, w2 :: value == w1 + t + w2 && AllWhiteSpace(w1) && AllWhiteSpace(w2)
                                  && IsTrueWord(t)
  {
    if TryParseBool(value).success {
      var lead, trail := TrimSplits(value);
      assert value == lead + Trim(value) + trail;
    }
    forall w1, t, w2 | value == w1 + t + w2 && AllWhiteSpace(w1) && AllWhiteSpace(w2)
                       && (IsTrueWord(t) || IsFalseWord(t))
      ensures TryParseBool(value).success && (TryParseBool(value).result <==> IsTrueWord(t))
    {
      TryParseBoolIgnoresPadding(w1, t, w2);
      WordsAreTrimmed(t);
    }
  }

  /** The accepted spellings have no white space to trim. */
  lemma WordsAreTrimmed(t: string)
    requires IsTrueWord(t) || IsFalseWord(t)
    ensures Trim(t) == t
  {
    assert !IsWhiteSpace(t[0]) && !IsWhiteSpace(t[|t| - 1]) by {
      assert 'A' <= ToUpperAscii(t[0]) <= 'Z';
      assert 'A' <= ToUpperAscii(t[|t| - 1]) <= 'Z';
    }
    TrimOfTrimmed(t);
  }

  /** A padded, mixed-case "yes" parses as `true`. */
  lemma TryParseBoolPaddedYes()
    ensures TryParseBool(" " + "Yes" + "\t") == ParsedBool(true, true)
  {
    TryParseBoolIgnoresPadding(" ", "Yes", "\t");
    TryParseBoolMixedCaseYes();
  }

  lemma TryParseBoolMixedCaseYes()
    ensures TryParseBool("Yes") == ParsedBool(true, true)
  {
    TrimOfTrimmed("Yes");
    assert EqualsIgnoreCase("Yes", "yes");
  }

  /** Upper-case "FALSE" parses as `false`. */
  lemma TryParseBoolUpperCaseFalse()
    ensures TryParseBool("FALSE") == ParsedBool(true, false)
  {
    TrimOfTrimmed("FALSE");
    assert EqualsIgnoreCase("FALSE", "false");
  }

  /** A bare "y" and the empty text are not accepted. */
  lemma TryParseBoolRejectsOthers()
    ensures TryParseBool("y") == ParsedBool(false, false)
    ensures TryParseBool("") == ParsedBool(false, false)
  {
    TrimOfTrimmed("y");
    TrimOfTrimmed("");
  }

  // ---------------------------------------------------------------------------
  // GetValueEx<bool> and GetValueEx<bool?>
  // ---------------------------------------------------------------------------

  /** A cell's `Value`: null, a string, or any other boxed object. */
  datatype CellValue = Null | Text(s: string) | Other

  /** A (non-null) cell: its `Value` and its display `Text`. */
  datatype Cell = Cell(value: CellValue, text: string)

  /** What the library's own `cell.GetValue<T>()` does: returns a value or throws. */
  datatype LibraryValue<T> = Returns(v: T) | Throws

  /** What `GetValueEx<T>` does: returns a value, or throws "Failed to parse …". */
  datatype Converted<T> = Value(v: T) | Failed(message: string)

  /** The exception `GetValueEx` wraps a library failure in: `Failed to parse {type name}: "{cell.Text}"`. */
  function FailureMessage(typeName: string, cell: Cell): (m: string)
    ensures StartsWith(m, "Failed to parse ")
  {
    "Failed to parse " + typeName + ": \"" + cell.text + "\""
  }

  /** The library fallback, with a thrown exception wrapped as `GetValueEx` wraps it. */
  function Fallback<T>(library: LibraryValue<T>, typeName: string, cell: Cell): (r: Converted<T>)
    ensures r.Value? <==> library.Returns?
    ensures r.Value? ==> r.v == library.v
    ensures r.Failed? ==> r.message == FailureMessage(typeName, cell)
  {
    match library
    case Returns(v) => Value(v)
    case Throws => Failed(FailureMessage(typeName, cell))
  }

  /**
   * A cell value that the `bool`/`bool?` branches settle without the library:
   * null, blank text, or text `TryParseBool` accepts.
   */
  predicate SettledLocally(value: CellValue) {
    value.Null? || (value.Text? && (AllWhiteSpace(value.s) || TryParseBool(value.s).success))
  }

  /**
   * `GetValueEx<bool>`: a null cell, a null value and blank text all read as
   * `false`, accepted yes/no text reads as its parsed value, and everything
   * else is the library's `GetValue<bool>`.
   */
  function GetValueBool(cell: Option<Cell>, library: LibraryValue<bool>): (r: Converted<bool>)
    ensures cell.None? ==> r == Value(false)
    ensures cell.Some? && cell.value.value.Null? ==> r == Value(false)
    ensures cell.Some? && cell.value.value.Text? && AllWhiteSpace(cell.value.value.s) ==> r == Value(false)
    ensures cell.Some? && cell.value.value.Text? && TryParseBool(cell.value.value.s).success ==>
              r == Value(TryParseBool(cell.value.value.s).result)
    ensures cell.Some? && !SettledLocally(cell.value.value) ==> r == Fallback(library, "Boolean", cell.value)
  {
    match cell
    case None => Value(false)
    case Some(c) =>
      match c.value
      case Null => Value(false)
      case Text(s) =>
        if AllWhiteSpace(s) then Value(false)
        else
          var p := TryParseBool(s);
          if p.success then Value(p.result) else Fallback(library, "Boolean", c)
      case Other => Fallback(library, "Boolean", c)
  }

  /**
   * `GetValueEx<bool?>`: a null cell, a null value and blank text all read as
   * null, accepted yes/no text reads as its parsed value, and everything else
   * is the library's `GetValue<bool?>`.
   */
  function GetValueNullableBool(cell: Option<Cell>, library: LibraryValue<Option<bool>>): (r: Converted<Option<bool>>)
    ensures cell.None? ==> r == Value(None)
    ensures cell.Some? && cell.value.value.Null? ==> r == Value(None)
    ensures cell.Some? && cell.value.value.Text? && AllWhiteSpace(cell.value.value.s) ==> r == Value(None)
    ensures cell.Some? && cell.value.value.Text? && TryParseBool(cell.value.value.s).success ==>
              r == Value(Some(TryParseBool(cell.value.value.s).result))
    ensures cell.Some? && !SettledLocally(cell.value.value) ==> r == Fallback(library, "Nullable`1", cell.value)
  {
    match cell
    case None => Value(None)
    case Some(c) =>
      match c.value
      case Null => Value(None)
      case Text(s) =>
        if AllWhiteSpace(s) then Value(None)
        else
          var p := TryParseBool(s);
          if p.success then Value(Some(p.result)) else Fallback(library, "Nullable`1", c)
      case Other => Fallback(library, "Nullable`1", c)
  }

  /** Blank text never reaches `TryParseBool`, which would reject it anyway. */
  lemma BlankTextIsNotABool(s: string)
    requires AllWhiteSpace(s)
    ensures !TryParseBool(s).success
  {
  }

  /** What a cell settled locally reads as never depends on the library. */
  lemma SettledCellsIgnoreLibrary(c: Cell, l1: LibraryValue<bool>, l2: LibraryValue<bool>,
                                  n1: LibraryValue<Option<bool>>, n2: LibraryValue<Option<bool>>)
    requires SettledLocally(c.value)
    ensures GetValueBool(Some(c), l1) == GetValueBool(Some(c), l2)
    ensures GetValueNullableBool(Some(c), n1) == GetValueNullableBool(Some(c), n2)
  {
  }

  /**
   * On a locally settled cell, `GetValueEx<bool>` is `GetValueEx<bool?>` with
   * null read as `false`.
   */
  lemma BoolIsNullableBoolOrFalse(cell: Option<Cell>, l: LibraryValue<bool>, n: LibraryValue<Option<bool>>)
    requires cell.None? || SettledLocally(cell.value.value)
    ensures GetValueNullableBool(cell, n).Value?
    ensures GetValueBool(cell, l) == Value(GetValueNullableBool(cell, n).v.GetOr(false))
  {
  }

  /** Text the library must convert: anything non-blank that is not a yes/no spelling. */
  lemma UnsettledTextUsesLibrary(c: Cell)
    requires c.value == Text("1")
    ensures GetValueBool(Some(c), Returns(true)) == Value(true)
    ensures GetValueBool(Some(c), Throws) == Failed(FailureMessage("Boolean", c))
  {
    DigitOneIsUnsettled();
  }

  lemma DigitOneIsUnsettled()
    ensures !AllWhiteSpace("1") && !TryParseBool("1").success
  {
    TrimOfTrimmed("1");
    assert !IsWhiteSpace("1"[0]);
  }
}
