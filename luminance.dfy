/**
 * `isColorDark`: strip the first `#`, read three two-character hex fields with
 * `parseInt(…, 16)`, and compare the broadcast luma of ITU-R BT.601
 * (299·R + 587·G + 114·B, in thousandths) with 128.  A field that is `NaN`
 * makes the comparison false.
 */
module Luminance {
  import opened Optional
  import opened JsText

  /** Luma threshold 128, scaled by the 1000 that divides the weighted sum. */
  const DarkBelow: int := 128000

  function Luma(r: int, g: int, b: int): int {
    r * 299 + g * 587 + b * 114
  }

  /** The three colour fields as `parseInt` reads them. */
  function Channels(color: string): (Option<int>, Option<int>, Option<int>) {
    var hex := RemoveFirst(color, '#');
    (ParseIntHex(Substr(hex, 0, 2)), ParseIntHex(Substr(hex, 2, 2)), ParseIntHex(Substr(hex, 4, 2)))
  }

  /**
   * `(r*299 + g*587 + b*114) / 1000 < 128`.  For integer sums the real quotient
   * is below 128 exactly when the sum is below 128000; any `NaN` field gives false.
   */
  function IsColorDark(color: string): bool {
    match Channels(color)
    case (Some(r), Some(g), Some(b)) => Luma(r, g, b) < DarkBelow
    case _ => false
  }

  /** `#RRGGBB`: a `#` and six hexadecimal digits. */
  predicate WellFormedHex(color: string) {
    |color| == 7 && color[0] == '#' && forall i :: 1 <= i < 7 ==> HexDigit(color[i]).Some?
  }

  /** Two hex digits of `color` start at `i`. */
  predicate DigitPair(color: string, i: nat) {
    i + 2 <= |color| && HexDigit(color[i]).Some? && HexDigit(color[i + 1]).Some?
  }

  /** The value of the two hex digits of `color` starting at `i`. */
  function Field(color: string, i: nat): (v: nat)
    requires DigitPair(color, i)
    ensures v < 256
  {
    var d := color[i..i + 2];
    assert d[0] == color[i] && d[1] == color[i + 1];
    HexValue(d)
  }

  /** On a two-character field of hex digits, `parseInt` is the plain hexadecimal value. */
  lemma ParseTwoDigits(d: string)
    requires |d| == 2 && HexDigit(d[0]).Some? && HexDigit(d[1]).Some?
    ensures ParseIntHex(d) == Some(HexValue(d))
  {
    assert !IsWhiteSpace(d[0]) && d[0] != '-' && d[0] != '+';
    assert TrimStart(d) == d;
    assert d[1] != 'x' && d[1] != 'X';
    assert HexBody(d) == d;
    assert HexPrefix(d[1..][1..]) == [];
    assert HexPrefix(d) == d;
  }

  /** The field of a well-formed colour at `i` is what `parseInt(hex.substr(i - 1, 2), 16)` reads. */
  lemma FieldParsed(color: string, i: nat)
    requires 1 <= i && DigitPair(color, i)
    ensures ParseIntHex(Substr(color[1..], i - 1, 2)) == Some(Field(color, i))
  {
    var d := color[i..i + 2];
    assert Substr(color[1..], i - 1, 2) == d;
    assert d[0] == color[i] && d[1] == color[i + 1];
    ParseTwoDigits(d);
  }

  /** For a well-formed `#RRGGBB`, dark exactly when 299·R + 587·G + 114·B < 128000. */
  lemma DarkWellFormed(color: string)
    requires WellFormedHex(color)
    ensures IsColorDark(color) <==> Luma(Field(color, 1), Field(color, 3), Field(color, 5)) < DarkBelow
  {
    assert RemoveFirst(color, '#') == color[1..];
    FieldParsed(color, 1);
    FieldParsed(color, 3);
    FieldParsed(color, 5);
  }

  /** Two hex digits read as one byte, most significant first. */
  lemma HexValueTwo(d: string)
    requires |d| == 2 && HexDigit(d[0]).Some? && HexDigit(d[1]).Some?
    ensures HexValue(d) == 16 * HexDigit(d[0]).value + HexDigit(d[1]).value
  {
    assert d[..1][..0] == [];
  }

  /** A well-formed colour is dark exactly when its fields, read digit by digit, have luma below 128. */
  lemma DarkByDigits(color: string)
    requires WellFormedHex(color)
    ensures IsColorDark(color) <==>
      Luma(16 * HexDigit(color[1]).value + HexDigit(color[2]).value,
           16 * HexDigit(color[3]).value + HexDigit(color[4]).value,
           16 * HexDigit(color[5]).value + HexDigit(color[6]).value) < DarkBelow
  {
    DarkWellFormed(color);
    FieldDigits(color, 1);
    FieldDigits(color, 3);
    FieldDigits(color, 5);
    var r, g, b := Field(color, 1), Field(color, 3), Field(color, 5);
    assert Luma(r, g, b) == Luma(16 * HexDigit(color[1]).value + HexDigit(color[2]).value,
                                 16 * HexDigit(color[3]).value + HexDigit(color[4]).value,
                                 16 * HexDigit(color[5]).value + HexDigit(color[6]).value);
  }

  /** A field of a well-formed colour, digit by digit. */
  lemma FieldDigits(color: string, i: nat)
    requires DigitPair(color, i)
    ensures Field(color, i) == 16 * HexDigit(color[i]).value + HexDigit(color[i + 1]).value
  {
    var d := color[i..i + 2];
    assert d[0] == color[i] && d[1] == color[i + 1];
    HexValueTwo(d);
  }

  /** Black is dark. */
  lemma BlackIsDark()
    ensures IsColorDark("#000000")
  {
    var c := "#000000";
    assert WellFormedHex(c);
    DarkByDigits(c);
  }

  /** White is not dark. */
  lemma WhiteIsLight()
    ensures !IsColorDark("#ffffff")
  {
    var c := "#ffffff";
    assert WellFormedHex(c);
    DarkByDigits(c);
  }

  /** The fallback colour `#f2f2f2` has luma 242 and is not dark. */
  lemma FallbackIsLight()
    ensures !IsColorDark("#f2f2f2")
  {
    var c := "#f2f2f2";
    assert WellFormedHex(c);
    DarkByDigits(c);
  }

  /** A luma of exactly 128 is not dark: `#01bd93` sums to exactly 128000. */
  lemma BoundaryIsLight()
    ensures Luma(1, 189, 147) == DarkBelow
    ensures !IsColorDark("#01bd93")
  {
    var c := "#01bd93";
    assert WellFormedHex(c);
    DarkByDigits(c);
  }

  /** Just below the threshold: `#01bd92` sums to 127886 and is dark. */
  lemma BelowBoundaryIsDark()
    ensures IsColorDark("#01bd92")
  {
    var c := "#01bd92";
    assert WellFormedHex(c);
    DarkByDigits(c);
  }

  /**
   * Short colours such as `#fff`: with at most four characters left after the
   * `#`, the blue field is empty, `parseInt` gives `NaN`, and the colour is not dark.
   */
  lemma ShortColorIsLight(color: string)
    requires |RemoveFirst(color, '#')| <= 4
    ensures !IsColorDark(color)
  {
    var hex := RemoveFirst(color, '#');
    assert Substr(hex, 4, 2) == [];
    assert HexBody([]) == [];
  }

  /** A one-character field of a hex digit is read as that digit. */
  lemma ParseOneDigit(d: string)
    requires |d| == 1 && HexDigit(d[0]).Some?
    ensures ParseIntHex(d) == Some(HexDigit(d[0]).value)
  {
    assert !IsWhiteSpace(d[0]) && d[0] != '-' && d[0] != '+';
    assert TrimStart(d) == d;
    assert HexBody(d) == d;
    assert HexPrefix(d[1..]) == [];
    assert HexPrefix(d) == d;
    assert d[..0] == [];
  }

  /**
   * Five-digit colours such as `#00000`: red and green are read as usual, and
   * the blue field is the single last digit, a value below 16.
   */
  lemma FiveDigitColor(color: string)
    requires |color| == 6 && color[0] == '#' && forall i :: 1 <= i < 6 ==> HexDigit(color[i]).Some?
    ensures IsColorDark(color) <==> Luma(Field(color, 1), Field(color, 3), HexDigit(color[5]).value) < DarkBelow
  {
    assert DigitPair(color, 1) && DigitPair(color, 3);
    assert RemoveFirst(color, '#') == color[1..];
    FieldParsed(color, 1);
    FieldParsed(color, 3);
    BlueDigitParsed(color);
    var r, g, b := Field(color, 1), Field(color, 3), HexDigit(color[5]).value;
    assert Channels(color) == (Some(r as int), Some(g as int), Some(b as int));
  }

  /** The short blue field of a five-digit colour reads as its one digit. */
  lemma BlueDigitParsed(color: string)
    requires |color| == 6 && HexDigit(color[5]).Some?
    ensures ParseIntHex(Substr(color[1..], 4, 2)) == Some(HexDigit(color[5]).value)
  {
    var bd := color[5..6];
    assert Substr(color[1..], 4, 2) == bd && bd[0] == color[5];
    ParseOneDigit(bd);
  }
}
