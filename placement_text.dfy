/** Placement.String and ParsePlacement of board.go: a placement as text, a direction letter
    followed by the cell id in decimal ("A113", "D57"). */
module PlacementText {
  import opened Wrappers
  import opened Grid

  /** Why a placement string is refused. */
  datatype ParseError =
    | BadDirection   // the string starts with neither D nor A
    | BadCellIndex   // the rest is not a decimal integer within the 32-bit signed range

  const MinInt32: int := -0x8000_0000
  const MaxInt32: int := 0x7FFF_FFFF

  predicate IsDigit(c: char) {
    '0' <= c <= '9'
  }

  function DigitChar(d: nat): char
    requires d < 10
  {
    ('0' as int + d) as char
  }

  /** The decimal digits of n, without leading zeros. */
  function Decimal(n: nat): (s: string)
    ensures |s| > 0 && IsDigit(s[0])
    ensures forall i :: 0 <= i < |s| ==> IsDigit(s[i])
  {
    if n < 10 then [DigitChar(n)] else Decimal(n / 10) + [DigitChar(n % 10)]
  }

  /** %d of an integer: a minus sign for the negative ones. */
  function IntText(x: int): string {
    if x < 0 then "-" + Decimal(-x) else Decimal(x)
  }

  /** Placement.String. */
  function PlacementString(p: Placement): string {
    (if p.direction == Down then "D" else "A") + IntText(p.cellId)
  }

  function DigitValue(c: char): nat
    requires IsDigit(c)
  {
    c as int - '0' as int
  }

  /** The value of a string of decimal digits. */
  function DigitsValue(s: string): nat
    requires forall i :: 0 <= i < |s| ==> IsDigit(s[i])
  {
    if s == [] then 0 else DigitsValue(s[..|s| - 1]) * 10 + DigitValue(s[|s| - 1])
  }

  /** strconv.ParseInt(s, 10, 32): an optional sign, at least one decimal digit and nothing
      else, with a value in the 32-bit signed range. */
  function ParseInt32(s: string): Option<int> {
    var digits := Unsigned(s);
    if |digits| == 0 || exists i :: 0 <= i < |digits| && !IsDigit(digits[i]) then None
    else
      var v := if |s| > 0 && s[0] == '-' then -(DigitsValue(digits) as int) else DigitsValue(digits);
      if MinInt32 <= v <= MaxInt32 then Some(v) else None
  }

  /** The number's text after its sign, if it has one. */
  function Unsigned(s: string): string {
    if |s| > 0 && (s[0] == '+' || s[0] == '-') then s[1..] else s
  }

  /** ParsePlacement: the direction from the first letter, the cell id from the rest. */
  function ParsePlacement(s: string): Result<Placement, ParseError> {
    if |s| > 0 && s[0] == 'D' then
      match ParseInt32(s[1..])
      case None => Err(BadCellIndex)
      case Some(v) => Ok(Placement(v, Down))
    else if |s| > 0 && s[0] == 'A' then
      match ParseInt32(s[1..])
      case None => Err(BadCellIndex)
      case Some(v) => Ok(Placement(v, Across))
    else Err(BadDirection)
  }

  lemma {:induction false} DecimalValue(n: nat)
    ensures DigitsValue(Decimal(n)) == n
  {
    if n >= 10 {
      DecimalValue(n / 10);
      var s := Decimal(n);
      assert s[..|s| - 1] == Decimal(n / 10);
    }
  }

  /** Parsing the text of a placement gives it back, for every id in the 32-bit signed range. */
  lemma ParseString(p: Placement)
    requires MinInt32 <= p.cellId <= MaxInt32
    ensures ParsePlacement(PlacementString(p)) == Ok(p)
  {
    var x := p.cellId;
    var t := IntText(x);
    var s := PlacementString(p);
    assert s[1..] == t;
    if x < 0 {
      DecimalValue(-x);
      assert t[1..] == Decimal(-x);
    } else {
      DecimalValue(x);
    }
  }

  /** A string of decimal digits without its leading zeros, keeping the last digit. */
  function StripZeros(d: string): (r: string)
    requires |d| > 0
    ensures 0 < |r| <= |d| && r == d[|d| - |r|..]
    ensures |r| == 1 || r[0] != '0'
  {
    if |d| > 1 && d[0] == '0' then StripZeros(d[1..]) else d
  }

  /** A leading zero does not change the value. */
  lemma {:induction false} LeadingZero(d: string)
    requires |d| > 1 && d[0] == '0' && forall i :: 0 <= i < |d| ==> IsDigit(d[i])
    ensures DigitsValue(d) == DigitsValue(d[1..])
    decreases |d|
  {
    var e := d[..|d| - 1];
    assert e[1..] == d[1..][..|d| - 2];
    assert d[1..][|d| - 2] == d[|d| - 1];
    if |e| > 1 {
      LeadingZero(e);
    } else {
      assert DigitsValue(e) == 0 by {
        assert e[..0] == [];
      }
      assert d[1..][..0] == [];
    }
  }

  /** The value is at least the first digit's. */
  lemma {:induction false} FirstDigitBound(d: string)
    requires |d| > 0 && forall i :: 0 <= i < |d| ==> IsDigit(d[i])
    ensures DigitsValue(d) >= DigitValue(d[0])
    decreases |d|
  {
    if |d| > 1 {
      FirstDigitBound(d[..|d| - 1]);
    } else {
      assert d[..0] == [];
    }
  }

  /** Leading zeros do not change the value. */
  lemma {:induction false} StripZerosValue(d: string)
    requires |d| > 0 && forall i :: 0 <= i < |d| ==> IsDigit(d[i])
    ensures forall i :: 0 <= i < |StripZeros(d)| ==> IsDigit(StripZeros(d)[i])
    ensures DigitsValue(StripZeros(d)) == DigitsValue(d)
    decreases |d|
  {
    if |d| > 1 && d[0] == '0' {
      LeadingZero(d);
      StripZerosValue(d[1..]);
    }
  }

  /** Digits without a leading zero are the decimal text of their value. */
  lemma {:induction false} DecimalOfDigits(d: string)
    requires |d| > 0 && forall i :: 0 <= i < |d| ==> IsDigit(d[i])
    requires |d| == 1 || d[0] != '0'
    ensures Decimal(DigitsValue(d)) == d
    decreases |d|
  {
    if |d| > 1 {
      var e := d[..|d| - 1];
      DecimalOfDigits(e);
      FirstDigitBound(e);
      var n := DigitsValue(d);
      assert n == DigitsValue(e) * 10 + DigitValue(d[|d| - 1]);
      assert DigitsValue(e) >= 1;
      assert n / 10 == DigitsValue(e) && n % 10 == DigitValue(d[|d| - 1]);
      assert DigitChar(n % 10) == d[|d| - 1];
      assert d == e + [d[|d| - 1]];
    } else {
      assert DigitsValue(d) == DigitValue(d[0]) by {
        assert d[..0] == [];
      }
    }
  }

  /** The normal form of a number's text: a minus sign only when the number is negative (a
      plus sign, and a minus sign before zero, are dropped), then the digits without their
      leading zeros. */
  function NormalText(t: string): string
    requires |Unsigned(t)| > 0
  {
    var digits := StripZeros(Unsigned(t));
    (if t[0] == '-' && digits != "0" then "-" else "") + digits
  }

  /** What strconv accepted: digits after the sign, read with the sign. */
  lemma ParsedDigits(t: string)
    requires ParseInt32(t).Some?
    ensures |Unsigned(t)| > 0 && forall i :: 0 <= i < |Unsigned(t)| ==> IsDigit(Unsigned(t)[i])
    ensures ParseInt32(t).value == if t[0] == '-' then -(DigitsValue(Unsigned(t)) as int) else DigitsValue(Unsigned(t))
  {
  }

  /** Printing the number strconv accepted gives the normal form of its text. */
  lemma IntNormalForm(t: string)
    requires ParseInt32(t).Some?
    ensures |Unsigned(t)| > 0 && IntText(ParseInt32(t).value) == NormalText(t)
  {
    ParsedDigits(t);
    var raw := Unsigned(t);
    var digits := StripZeros(raw);
    StripZerosValue(raw);
    DecimalOfDigits(digits);
    var n := DigitsValue(raw);
    var v := ParseInt32(t).value;
    assert Decimal(n) == digits;
    if n == 0 {
      assert v == 0 && digits == "0";
    } else if t[0] == '-' {
      assert v == -(n as int) && digits != "0";
      assert IntText(v) == "-" + Decimal(n);
    } else {
      assert v == n;
    }
  }

  /** Printing what the parser accepted gives its normal form: the same direction letter and
      the normal form of the number. */
  lemma ParseNormalForm(s: string)
    requires ParsePlacement(s).Ok?
    ensures |Unsigned(s[1..])| > 0
    ensures PlacementString(ParsePlacement(s).value) == [s[0]] + NormalText(s[1..])
  {
    IntNormalForm(s[1..]);
  }

  /** "X5" has no direction and "A" no number. */
  lemma ParseRejects()
    ensures ParsePlacement("X5") == Err(BadDirection)
    ensures ParsePlacement("A") == Err(BadCellIndex)
  {
  }

  /** The text of a placement whose id lies outside the 32-bit signed range is refused. */
  lemma ParseStringOutOfRange(p: Placement)
    requires !(MinInt32 <= p.cellId <= MaxInt32)
    ensures ParsePlacement(PlacementString(p)) == Err(BadCellIndex)
  {
    var x := p.cellId;
    var t := IntText(x);
    var s := PlacementString(p);
    assert s[1..] == t;
    if x < 0 {
      DecimalValue(-x);
      assert t[1..] == Decimal(-x);
    } else {
      DecimalValue(x);
    }
  }

  /** "A113" is the centre across; "A-5" is accepted with a negative id. */
  lemma ParseSigned()
    ensures ParsePlacement("A113") == Ok(Placement(113, Across))
    ensures ParsePlacement("A-5") == Ok(Placement(-5, Across))
  {
    ParseString(Placement(113, Across));
    assert Decimal(113) == "113";
    ParseString(Placement(-5, Across));
    assert PlacementString(Placement(-5, Across)) == "A-5";
  }
}
