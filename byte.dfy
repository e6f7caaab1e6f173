/**
 * The Byte class of byte.py: a byte count read from "<digits>" or "<mantissa><unit>"
 * text using a fixed table of binary and decimal unit multipliers, added and
 * subtracted without clamping, and shown in B, KiB or MiB.
 */
module ByteUnits {
  import opened Results
  import opened Text

  /** Byte._unit_dict: the multiplier of every unit name */
  const UnitTable: map<string, nat> := map[
    "B" := 1,
    "K" := 1024,                                  // 2^10
    "M" := 1048576,                               // 2^20
    "KB" := 1024,                                 // 2^10
    "KiB" := 1024,                                // 2^10
    "MiB" := 1048576,                             // 2^20
    "GiB" := 1073741824,                          // 2^30
    "TiB" := 1099511627776,                       // 2^40
    "PiB" := 1125899906842624,                    // 2^50
    "EiB" := 1152921504606846976,                 // 2^60
    "ZiB" := 1180591620717411303424,              // 2^70
    "YiB" := 1208925819614629174706176,           // 2^80
    "kB" := 1000,                                 // 10^3
    "MB" := 1000000,                              // 10^6
    "GB" := 1000000000,                           // 10^9
    "TB" := 1000000000000,                        // 10^12
    "PB" := 1000000000000000,                     // 10^15
    "EB" := 1000000000000000000,                  // 10^18
    "ZB" := 1000000000000000000000,               // 10^21
    "YB" := 1000000000000000000000000             // 10^24
  ]

  /** The binary units of the table, smallest first */
  const BinaryUnits: seq<string> := ["KiB", "MiB", "GiB", "TiB", "PiB", "EiB", "ZiB", "YiB"]

  /** The decimal units of the table, smallest first */
  const DecimalUnits: seq<string> := ["kB", "MB", "GB", "TB", "PB", "EB", "ZB", "YB"]

  /** Why the setter raises instead of assigning */
  datatype ParseError =
    | NoUnit                        // no letter in a non-decimal text: `unit` is never bound
    | BadMantissa(mantissa: string) // float() of the text before the unit fails
    | UnknownUnit(unit: string)     // the unit is not a key of the table

  /** What the setter is given: a str, or a number that int() converts */
  datatype Number = FromText(text: string) | FromInt(n: int)

  /** Position of the first letter of `s`, or |s| when it has none */
  function FirstAlpha(s: string): (i: nat)
    ensures i <= |s|
    ensures i < |s| ==> IsAlpha(s[i])
    ensures forall k :: 0 <= k < i ==> !IsAlpha(s[k])
  {
    if s == [] || IsAlpha(s[0]) then 0 else 1 + FirstAlpha(s[1..])
  }

  /**
   * float() of the text in front of the unit, for integer mantissas: an optional sign and
   * decimal digits with whitespace around them.
   */
  function Mantissa(p: string): Option<int>
  {
    var t := Strip(p);
    if IsDigits(t) then Some(DecimalValue(t))
    else if |t| >= 2 && t[0] == '-' && IsDigits(t[1..]) then Some(-(DecimalValue(t[1..]) as int))
    else if |t| >= 2 && t[0] == '+' && IsDigits(t[1..]) then Some(DecimalValue(t[1..]))
    else None
  }

  /** The value the setter assigns for a str, or the exception it raises */
  function ParseText(s: string): Result<int, ParseError>
  {
    if IsDigits(s) then Ok(DecimalValue(s))
    else
      var i := FirstAlpha(s);
      if i == |s| then Err(NoUnit) else ParseScaled(s[..i], s[i..])
  }

  /** float() of the text before the first letter, times the multiplier of the stripped rest */
  function ParseScaled(mantissaText: string, unitText: string): Result<int, ParseError>
  {
    match Mantissa(mantissaText)
    case None => Err(BadMantissa(mantissaText))
    case Some(m) =>
      var unit := Strip(unitText);
      if unit in UnitTable then Ok(m * UnitTable[unit]) else Err(UnknownUnit(unit))
  }

  function ParseNumber(number: Number): Result<int, ParseError>
  {
    match number
    case FromText(s) => ParseText(s)
    case FromInt(n) => Ok(n)
  }

  /** The unit Byte.__str__ shows a value in */
  datatype DisplayUnit = B | KiB | MiB

  function Scale(u: DisplayUnit): nat
  {
    match u
    case B => 1
    case KiB => 1024
    case MiB => 1048576
  }

  function UnitName(u: DisplayUnit): string
  {
    match u
    case B => "B"
    case KiB => "KiB"
    case MiB => "MiB"
  }

  /** The unit __str__ chooses: the largest one whose size does not exceed the value (B when none does) */
  function UnitOf(v: int): (u: DisplayUnit)
    ensures u == B || Scale(u) <= v
    ensures forall w: DisplayUnit :: Scale(w) <= v ==> Scale(w) <= Scale(u)
  {
    if v >= 1048576 then MiB else if v >= 1024 then KiB else B
  }

  /**
   * The text __str__ gives: `fixed1(v, d)` stands for the one-decimal rendering of v / d
   * ('{:.1f}'), followed by a space and the unit name.
   */
  function ByteText(v: int, fixed1: (int, nat) -> string): string
  {
    var u := UnitOf(v);
    fixed1(v, Scale(u)) + " " + UnitName(u)
  }

  class Byte {
    var value: int

    /** Byte(number) for a number: the value is int(number) */
    constructor (n: int)
      ensures value == n
    {
      value := n;
    }

    /** The `value` setter; when it raises, the old value stays */
    method SetValue(number: Number) returns (error: Option<ParseError>)
      modifies this
      ensures error == None <==> ParseNumber(number).Ok?
      ensures ParseNumber(number).Ok? ==> value == ParseNumber(number).value
      ensures ParseNumber(number).Err? ==> value == old(value) && error == Some(ParseNumber(number).error)
    {
      match number {
        case FromInt(n) =>
          value := n;
          return None;
        case FromText(s) =>
          if IsDigits(s) {
            value := DecimalValue(s);
            return None;
          }
          // the enumerate loop: stop at the first letter
          var at := |s|;
          for i := 0 to |s|
            invariant forall k :: 0 <= k < i ==> !IsAlpha(s[k])
          {
            if IsAlpha(s[i]) {
              at := i;
              break;
            }
          }
          assert at == FirstAlpha(s);
          if at == |s| {
            // the loop never bound `unit`
            return Some(NoUnit);
          }
          var unit := Strip(s[at..]);
          var mantissa := Mantissa(s[..at]);
          if mantissa.None? {
            return Some(BadMantissa(s[..at]));
          }
          if unit !in UnitTable {
            return Some(UnknownUnit(unit));
          }
          value := mantissa.value * UnitTable[unit];
          return None;
      }
    }

    /** Byte.__add__ */
    method Add(other: Byte) returns (sum: Byte)
      ensures fresh(sum) && sum.value == value + other.value
    {
      sum := new Byte(value + other.value);
    }

    /** Byte.__sub__: no clamping, so the difference may be negative */
    method Sub(other: Byte) returns (difference: Byte)
      ensures fresh(difference) && difference.value == value - other.value
    {
      difference := new Byte(value - other.value);
    }

    /** Byte.__str__ (and __repr__) */
    function ToText(fixed1: (int, nat) -> string): (t: string)
      reads this
      ensures t == fixed1(value, Scale(UnitOf(value))) + " " + UnitName(UnitOf(value))
      ensures |t| > |UnitName(UnitOf(value))|
      ensures t[|t| - |UnitName(UnitOf(value))| - 1..] == " " + UnitName(UnitOf(value))
    {
      ByteText(value, fixed1)
    }
  }

  // ---------------------------------------------------------------------------
  // Properties of the unit table

  /** Every unit name is a non-empty run of letters. */
  lemma UnitNamesAreLetters(u: string)
    requires u in UnitTable
    ensures |u| > 0 && forall k :: 0 <= k < |u| ==> IsAlpha(u[k])
  {
  }

  /** K, KB and KiB all mean 2^10 while kB means 10^3, and M is binary like MiB. */
  lemma UnitAliases()
    ensures UnitTable["K"] == UnitTable["KB"] == UnitTable["KiB"] == 1024
    ensures UnitTable["kB"] == 1000 && UnitTable["B"] == 1
    ensures UnitTable["M"] == UnitTable["MiB"] && UnitTable["MB"] == 1000000
  {
  }

  /** Each binary unit "<letter>iB" is 2^10 times the one before it, starting from KiB = 2^10. */
  lemma BinaryUnitSteps()
    ensures forall i :: 0 <= i < |BinaryUnits| ==> BinaryUnits[i] in UnitTable && BinaryUnits[i][1..] == "iB"
    ensures UnitTable[BinaryUnits[0]] == 1024
    ensures forall i :: 0 < i < |BinaryUnits| ==> UnitTable[BinaryUnits[i]] == 1024 * UnitTable[BinaryUnits[i - 1]]
  {
  }

  /** Each decimal unit "<letter>B" is 10^3 times the one before it, starting from kB = 10^3. */
  lemma DecimalUnitSteps()
    ensures forall i :: 0 <= i < |DecimalUnits| ==> DecimalUnits[i] in UnitTable && DecimalUnits[i][1..] == "B"
    ensures UnitTable[DecimalUnits[0]] == 1000
    ensures forall i :: 0 < i < |DecimalUnits| ==> UnitTable[DecimalUnits[i]] == 1000 * UnitTable[DecimalUnits[i - 1]]
  {
  }

  /** The unit names __str__ prints are keys of the table with the multiplier __str__ divides by. */
  lemma DisplayUnitsInTable(u: DisplayUnit)
    ensures UnitName(u) in UnitTable && UnitTable[UnitName(u)] == Scale(u)
  {
  }

  // ---------------------------------------------------------------------------
  // Properties of parsing

  /** An all-digit string sets the value to its decimal integer. */
  lemma ParseDecimal(n: nat)
    ensures ParseText(DecimalText(n)) == Ok(n)
  {
    DecimalRoundTrip(n);
  }

  /**
   * "<digits><unit>", with optional whitespace around the digits and after the unit, splits
   * at the first letter and gives the digits' value times the unit's multiplier.
   */
  lemma ParseWithUnit(lead: string, digits: string, mid: string, unit: string, trail: string)
    requires AllSpace(lead) && AllSpace(mid) && AllSpace(trail)
    requires IsDigits(digits)
    requires unit in UnitTable
    ensures ParseText(lead + digits + mid + unit + trail) == Ok(DecimalValue(digits) * UnitTable[unit])
  {
    UnitNamesAreLetters(unit);
    SplitAtUnit(lead, digits, mid, unit, trail);
  }

  /** A letter run that is not a unit name makes the setter raise the lookup error. */
  lemma ParseUnknownUnit(lead: string, digits: string, mid: string, unit: string, trail: string)
    requires AllSpace(lead) && AllSpace(mid) && AllSpace(trail)
    requires IsDigits(digits)
    requires |unit| > 0 && forall k :: 0 <= k < |unit| ==> IsAlpha(unit[k])
    requires unit !in UnitTable
    ensures ParseText(lead + digits + mid + unit + trail) == Err(UnknownUnit(unit))
  {
    SplitAtUnit(lead, digits, mid, unit, trail);
  }

  /**
   * Text of the shape "<digits><unit>", with optional whitespace around the digits and after
   * the unit, splits at the unit's first letter.
   */
  lemma SplitAtUnit(lead: string, digits: string, mid: string, unit: string, trail: string)
    requires AllSpace(lead) && AllSpace(mid) && AllSpace(trail)
    requires IsDigits(digits)
    requires |unit| > 0 && forall k :: 0 <= k < |unit| ==> IsAlpha(unit[k])
    ensures var s := lead + digits + mid + unit + trail;
      ParseText(s) == if unit in UnitTable then Ok(DecimalValue(digits) * UnitTable[unit])
                      else Err(UnknownUnit(unit))
  {
    var front := lead + digits + mid;
    var back := unit + trail;
    assert lead + digits + mid + unit + trail == front + back;
    NoLetterInPaddedDigits(lead, digits, mid);
    MantissaPadded(lead, digits, mid);
    UnitPadded(unit, trail);
    ParseFrontBack(front, back, DecimalValue(digits), unit);
  }

  /** A letter-free front whose mantissa is `m`, followed by a back starting with a letter that strips to `unit` */
  lemma ParseFrontBack(front: string, back: string, m: int, unit: string)
    requires forall k :: 0 <= k < |front| ==> !IsAlpha(front[k])
    requires |back| > 0 && IsAlpha(back[0])
    requires Mantissa(front) == Some(m) && Strip(back) == unit
    ensures ParseText(front + back) == if unit in UnitTable then Ok(m * UnitTable[unit]) else Err(UnknownUnit(unit))
  {
    FirstLetterOfUnit(front, back);
    ParseAtLetter(front, back);
    ParseScaledKnown(front, back, m, unit);
  }

  lemma UnitPadded(unit: string, trail: string)
    requires AllSpace(trail)
    requires |unit| > 0 && forall k :: 0 <= k < |unit| ==> IsAlpha(unit[k])
    ensures Strip(unit + trail) == unit && IsAlpha((unit + trail)[0])
  {
    assert unit + trail == [] + unit + trail;
    StripPadded([], unit, trail);
  }

  /** Text that is not all digits and has its first letter at the end of `front` is read as `front` scaled by `back`. */
  lemma ParseAtLetter(front: string, back: string)
    requires var s := front + back;
      !IsDigits(s) && FirstAlpha(s) == |front| && |front| < |s| && s[..|front|] == front && s[|front|..] == back
    ensures ParseText(front + back) == ParseScaled(front, back)
  {
  }

  /** Digits padded with whitespace are an integer mantissa. */
  lemma MantissaPadded(lead: string, digits: string, mid: string)
    requires AllSpace(lead) && AllSpace(mid) && IsDigits(digits)
    ensures Mantissa(lead + digits + mid) == Some(DecimalValue(digits))
  {
    StripPadded(lead, digits, mid);
  }

  lemma ParseScaledKnown(mantissaText: string, unitText: string, m: int, unit: string)
    requires Mantissa(mantissaText) == Some(m) && Strip(unitText) == unit
    ensures ParseScaled(mantissaText, unitText)
      == if unit in UnitTable then Ok(m * UnitTable[unit]) else Err(UnknownUnit(unit))
  {
  }

  lemma NoLetterInPaddedDigits(lead: string, digits: string, mid: string)
    requires AllSpace(lead) && AllSpace(mid)
    requires IsDigits(digits)
    ensures forall k :: 0 <= k < |lead + digits + mid| ==> !IsAlpha((lead + digits + mid)[k])
  {
  }

  /** Text with no letter followed by text starting with a letter is split between the two. */
  lemma FirstLetterOfUnit(front: string, back: string)
    requires forall k :: 0 <= k < |front| ==> !IsAlpha(front[k])
    requires |back| > 0 && IsAlpha(back[0])
    ensures var s := front + back;
      !IsDigits(s) && FirstAlpha(s) == |front| && s[..|front|] == front && s[|front|..] == back
  {
    var s := front + back;
    assert s[|front|] == back[0];
    assert forall k :: 0 <= k < |front| ==> s[k] == front[k];
  }

  /**
   * A plain number with a space in front is not all digits and has no letter, so the
   * setter never binds `unit` and raises.
   */
  lemma SpacedNumberRaises()
    ensures ParseText(" 1024") == Err(NoUnit)
  {
    assert !IsDigit(" 1024"[0]);
    assert FirstAlpha(" 1024") == 5;
  }

  // ---------------------------------------------------------------------------
  // Properties of the display unit

  /**
   * MiB iff the value is at least 2^20, KiB iff it lies in [2^10, 2^20), B otherwise;
   * so the amount shown, v / Scale(unit), is at least 1 unless the unit is B and stays
   * below 1024 unless the unit is MiB.
   */
  lemma DisplayUnitRange(v: int)
    ensures UnitOf(v) == MiB <==> v >= 1048576
    ensures UnitOf(v) == KiB <==> 1024 <= v < 1048576
    ensures UnitOf(v) == B <==> v < 1024
    ensures UnitOf(v) != B ==> v / Scale(UnitOf(v)) >= 1
    ensures UnitOf(v) != MiB && v >= 0 ==> v / Scale(UnitOf(v)) < 1024
  {
    var u := UnitOf(v);
    assert Scale(MiB) <= v ==> Scale(MiB) <= Scale(u);
    assert Scale(KiB) <= v ==> Scale(KiB) <= Scale(u);
  }
}
