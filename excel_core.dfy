/**
 * The "Core" region of ExcelExtensions: worksheet naming in both `AddSheet`
 * overloads and the chart palette behind `SetColor(int)`.
 */
module ExcelCore {
  import opened Wrappers

  // ---------------------------------------------------------------------------
  // Worksheet names
  // ---------------------------------------------------------------------------

  /** Excel refuses worksheet names longer than this. */
  const MaxSheetNameLength := 31
  /** What replaces the tail of a name that is too long. */
  const Ellipsis := "..."

  /** The name `AddSheet` hands to the workbook for the requested `name`. */
  function SheetName(name: string): (r: string)
    ensures |r| <= MaxSheetNameLength
    ensures |name| <= MaxSheetNameLength ==> r == name
    ensures |name| > MaxSheetNameLength ==>
              |r| == MaxSheetNameLength
              && r[..MaxSheetNameLength - |Ellipsis|] == name[..MaxSheetNameLength - |Ellipsis|]
              && r[MaxSheetNameLength - |Ellipsis|..] == Ellipsis
  {
    if |name| > MaxSheetNameLength then name[..MaxSheetNameLength - |Ellipsis|] + Ellipsis else name
  }

  /** A name that fits is kept, and a shortened name is kept by a second pass. */
  lemma SheetNameIdempotent(name: string)
    ensures SheetName(SheetName(name)) == SheetName(name)
  {
  }

  /**
   * Shortening loses the tail: two long names that agree on their first 28
   * characters are given the same worksheet name, so the workbook sees a
   * duplicate.
   */
  lemma LongNamesSharingPrefixCollide(a: string, b: string)
    requires |a| > MaxSheetNameLength && |b| > MaxSheetNameLength
    requires a[..MaxSheetNameLength - |Ellipsis|] == b[..MaxSheetNameLength - |Ellipsis|]
    ensures SheetName(a) == SheetName(b)
  {
  }

  /** Two names receive the same worksheet name only if they are equal or both shortened alike. */
  lemma SheetNameCollisionsAreTruncations(a: string, b: string)
    requires a != b && SheetName(a) == SheetName(b)
    ensures |a| > MaxSheetNameLength || |b| > MaxSheetNameLength
    ensures a[..MaxSheetNameLength - |Ellipsis|] == b[..MaxSheetNameLength - |Ellipsis|]
  {
    if |a| <= MaxSheetNameLength && |b| <= MaxSheetNameLength {
      assert false;
    }
    var n := MaxSheetNameLength - |Ellipsis|;
    if |a| <= MaxSheetNameLength {
      assert a == SheetName(b);
      assert a[..n] == SheetName(b)[..n];
    } else if |b| <= MaxSheetNameLength {
      assert b == SheetName(a);
      assert b[..n] == SheetName(a)[..n];
    } else {
      assert SheetName(a)[..n] == SheetName(b)[..n];
    }
  }

  /** What the workbook is asked to add: a name, maybe a sheet to copy, maybe a default column width. */
  datatype NewWorksheet = NewWorksheet(name: string, copyOf: Option<string>, defaultColWidth: Option<int>)

  /** `AddSheet(name)`: a new sheet under the shortened name, with default column width 25. */
  function AddSheet(name: string): (w: NewWorksheet)
    ensures w.name == SheetName(name) && |w.name| <= MaxSheetNameLength
    ensures w.copyOf == None && w.defaultColWidth == Some(25)
  {
    NewWorksheet(SheetName(name), None, Some(25))
  }

  /** `AddSheet(name, copy)`: a copy of `copy` under the shortened name; the width is left as copied. */
  function AddSheetCopy(name: string, copy: string): (w: NewWorksheet)
    ensures w.name == SheetName(name) && |w.name| <= MaxSheetNameLength
    ensures w.copyOf == Some(copy) && w.defaultColWidth == None
  {
    NewWorksheet(SheetName(name), Some(copy), None)
  }

  // ---------------------------------------------------------------------------
  // Chart palette
  // ---------------------------------------------------------------------------

  datatype Rgb = Rgb(r: int, g: int, b: int)

  /** The fixed table of chart fill colours, in order. */
  const Colors: seq<Rgb> := [
    Rgb(94, 185, 243), Rgb(32, 162, 103), Rgb(32, 100, 183), Rgb(48, 15, 60),
    Rgb(208, 59, 99), Rgb(176, 139, 192), Rgb(47, 48, 152), Rgb(94, 247, 93),
    Rgb(169, 76, 173), Rgb(84, 143, 245), Rgb(188, 200, 118), Rgb(115, 29, 229),
    Rgb(209, 231, 25), Rgb(31, 92, 97), Rgb(218, 185, 181), Rgb(13, 149, 4),
    Rgb(92, 76, 169), Rgb(222, 71, 72), Rgb(213, 80, 250), Rgb(61, 31, 186),
    Rgb(143, 218, 110), Rgb(205, 72, 110), Rgb(27, 23, 91), Rgb(106, 94, 16),
    Rgb(49, 232, 104), Rgb(78, 170, 70), Rgb(155, 78, 215), Rgb(16, 220, 57),
    Rgb(3, 119, 11), Rgb(203, 129, 43), Rgb(60, 65, 236), Rgb(163, 120, 148),
    Rgb(43, 179, 31), Rgb(5, 42, 199), Rgb(187, 4, 126), Rgb(177, 51, 81),
    Rgb(240, 59, 71), Rgb(161, 115, 147), Rgb(154, 132, 41), Rgb(250, 207, 51),
    Rgb(21, 94, 207), Rgb(156, 147, 74), Rgb(175, 147, 126), Rgb(31, 119, 252),
    Rgb(149, 160, 82), Rgb(38, 4, 239), Rgb(46, 195, 71), Rgb(228, 184, 225),
    Rgb(235, 184, 199), Rgb(144, 137, 249), Rgb(211, 25, 30), Rgb(68, 223, 196),
    Rgb(17, 203, 147)
  ]

  const TwoTo31: int := 0x8000_0000
  const TwoTo32: int := 0x1_0000_0000

  predicate IsInt32(x: int) {
    -TwoTo31 <= x < TwoTo31
  }

  /** Unchecked C# `int` arithmetic: the mathematical value reduced into the 32-bit two's-complement range. */
  function Wrap32(x: int): (r: int)
    ensures IsInt32(r)
    ensures IsInt32(x) ==> r == x
    ensures (x - r) % TwoTo32 == 0
  {
    (x + TwoTo31) % TwoTo32 - TwoTo31
  }

  /** Wrapping an operand first does not change a wrapped difference. */
  lemma Wrap32Sub(a: int, b: int)
    ensures Wrap32(a - Wrap32(b)) == Wrap32(a - b)
  {
    var k := (b - Wrap32(b)) / TwoTo32;
    assert b - Wrap32(b) == k * TwoTo32;
    assert a - Wrap32(b) + TwoTo31 == (a - b + TwoTo31) + k * TwoTo32;
    ModShift(a - b + TwoTo31, k);
  }

  lemma ModShift(x: int, k: int)
    ensures (x + k * TwoTo32) % TwoTo32 == x % TwoTo32
  {
    var q, r := x / TwoTo32, x % TwoTo32;
    assert x + k * TwoTo32 == (q + k) * TwoTo32 + r;
  }

  /**
   * `(int)Math.Floor((decimal)a / n)`: the decimal quotient of two 32-bit
   * values is exact enough that its floor is the mathematical floor.
   */
  function FloorDiv(a: int, n: int): (q: int)
    requires n > 0
    ensures q * n <= a < q * n + n
  {
    a / n
  }

  /**
   * The palette slot that `SetColor(index)` reads:
   * `index - floor(index / N) * N` in unchecked 32-bit arithmetic, N = 53.
   * It is the floored remainder of `index` by N, for every 32-bit `index`,
   * negative ones and those where the product overflows included.
   */
  function PaletteIndex(index: int): (k: int)
    requires IsInt32(index)
    ensures 0 <= k < |Colors|
    ensures k == index % |Colors|
  {
    var n := |Colors|;
    var q := FloorDiv(index, n);
    var product := Wrap32(q * n);
    Wrap32Sub(index, q * n);
    assert IsInt32(index - q * n);
    assert index % n == index - q * n;
    Wrap32(index - product)
  }

  /**
   * The colour `SetColor(index)` puts on the fill: the palette entry at the
   * floored remainder of `index`, so every 32-bit index selects some entry.
   */
  function SetColor(index: int): (c: Rgb)
    requires IsInt32(index)
    ensures c == Colors[index % |Colors|]
    ensures 0 <= index < |Colors| ==> c == Colors[index]
  {
    assert 0 <= index < 53 ==> index % 53 == index;
    Colors[PaletteIndex(index)]
  }

  /** The palette repeats: `index` and `index + N` select the same colour. */
  lemma SetColorPeriodic(index: int)
    requires IsInt32(index) && IsInt32(index + |Colors|)
    ensures SetColor(index + |Colors|) == SetColor(index)
  {
    assert (index + |Colors|) % |Colors| == index % |Colors|;
  }

  /** Negative indices count back from the end of the table. */
  lemma SetColorNegative(index: int)
    requires -|Colors| <= index < 0
    ensures SetColor(index) == Colors[index + |Colors|]
  {
    assert index % |Colors| == index + |Colors|;
  }

  /**
   * At `int.MinValue` the intermediate `floor(index / N) * N` lies outside the
   * 32-bit range and wraps, yet the slot computed is still the floored remainder.
   */
  lemma PaletteIndexSurvivesOverflow()
    ensures !IsInt32(FloorDiv(-TwoTo31, |Colors|) * |Colors|)
    ensures PaletteIndex(-TwoTo31) == 32
  {
    assert FloorDiv(-TwoTo31, 53) == -40518560;
  }
}
