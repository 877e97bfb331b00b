/** `minutes_conversion` from compellent/utils.py: a time string such as
    `15`, `5d` or `3M` read as a whole number of minutes. */
module Minutes {
  import opened Results
  import opened Text

  /** The exceptions the conversion raises, one per message. */
  datatype TimeError =
    | EmptyTime                  // `time[-1]` on the empty string raises IndexError
    | NotAnInteger               // 'Cannot convert ... to integer'
    | BadFormat                  // 'Invalid time string format ...'
    | NegativeTime               // 'Expiration time value cannot be negative'
    | BadModifier(modifier: char) // 'Invalid time modifier: ...' (lower-cased)
    | UnassignedMultiplier       // 'Multiplier not assigned correctly'

  /** `str.lower()` on one ASCII character. */
  function LowerAscii(c: char): (l: char)
    ensures IsDigit(c) <==> IsDigit(l)
    ensures 'A' <= c <= 'Z' ==> 'a' <= l <= 'z'
    ensures !('A' <= c <= 'Z') ==> l == c
  {
    if 'A' <= c <= 'Z' then (c as int + 32) as char else c
  }

  const Modifiers: string := "hdwmy"

  /** Minutes in one unit of each modifier: hours, days (24 hours), weeks
      (7 days), months (30 days) and years (365 days). */
  function UnitMinutes(modifier: char): (r: Option<int>)
    ensures r.Some? <==> modifier in Modifiers
    ensures r.Some? ==> r.value > 0 && r.value % 60 == 0
  {
    if modifier == 'h' then Some(60)
    else if modifier == 'd' then Some(24 * 60)
    else if modifier == 'w' then Some(7 * 24 * 60)
    else if modifier == 'm' then Some(30 * 24 * 60)
    else if modifier == 'y' then Some(365 * 24 * 60)
    else None
  }

  /** A string ending in a digit is read whole as an integer; otherwise
      its last character is a unit modifier and the rest the count. */
  function MinutesConversion(time: string): (r: Result<int, TimeError>)
    ensures r.Success? ==> r.value >= 0
    ensures time == [] <==> r == Failure(EmptyTime)
    ensures r.Success? && !IsDigit(time[|time| - 1]) ==> r.value % 60 == 0
    ensures r != Failure(UnassignedMultiplier)
  {
    if time == [] then Failure(EmptyTime)
    else if IsDigit(time[|time| - 1]) then
      match ParseInt(time)
      case None => Failure(NotAnInteger)
      case Some(v) => if v < 0 then Failure(NegativeTime) else Success(v)
    else
      var modifier := LowerAscii(time[|time| - 1]);
      match ParseInt(time[..|time| - 1])
      case None => Failure(BadFormat)
      case Some(v) =>
        if v < 0 then Failure(NegativeTime)
        else if modifier !in Modifiers then Failure(BadModifier(modifier))
        else
          match UnitMinutes(modifier)
          case Some(k) => ScaledIsWholeHours(v, k); Success(v * k)
          case None => Failure(UnassignedMultiplier)
  }

  lemma ScaledIsWholeHours(v: int, k: int)
    requires v >= 0 && k > 0 && k % 60 == 0
    ensures v * k >= 0 && (v * k) % 60 == 0
  {
    var q := k / 60;
    assert v * k == 60 * (v * q);
  }

  /** A plain non-negative number, possibly indented or signed with `+`,
      is returned unchanged. */
  lemma PlainNumber(pre: string, sign: string, n: nat)
    requires All(pre, IsSpace) && (sign == "" || sign == "+")
    ensures MinutesConversion(pre + sign + ShowNat(n)) == Success(n)
  {
    var s := pre + sign + ShowNat(n);
    ParseIntOfNumeral(pre, sign, n, "");
    assert s + "" == s;
    assert s[|s| - 1] == ShowNat(n)[|ShowNat(n)| - 1];
  }

  /** A negative count is an error whether or not a modifier follows,
      and the sign is checked before the modifier is looked at. */
  lemma NegativeIsError(pre: string, n: nat, suffix: string)
    requires All(pre, IsSpace) && n > 0
    requires suffix == [] || (|suffix| == 1 && !IsDigit(suffix[0]))
    ensures MinutesConversion(pre + "-" + ShowNat(n) + suffix) == Failure(NegativeTime)
  {
    var s := pre + "-" + ShowNat(n) + suffix;
    ParseIntOfNumeral(pre, "-", n, "");
    assert pre + "-" + ShowNat(n) + "" == pre + "-" + ShowNat(n);
    if suffix == [] {
      assert s == pre + "-" + ShowNat(n);
      assert s[|s| - 1] == ShowNat(n)[|ShowNat(n)| - 1];
    } else {
      assert s[..|s| - 1] == pre + "-" + ShowNat(n);
    }
  }

  /** Each modifier, in either case, scales the count by its number of
      minutes. */
  lemma ModifierScales(pre: string, n: nat, c: char)
    requires All(pre, IsSpace)
    requires LowerAscii(c) in Modifiers
    ensures MinutesConversion(pre + ShowNat(n) + [c]) == Success(n * UnitMinutes(LowerAscii(c)).value)
    ensures LowerAscii(c) == 'h' ==> MinutesConversion(pre + ShowNat(n) + [c]) == Success(n * 60)
    ensures LowerAscii(c) == 'd' ==> MinutesConversion(pre + ShowNat(n) + [c]) == Success(n * 1440)
    ensures LowerAscii(c) == 'w' ==> MinutesConversion(pre + ShowNat(n) + [c]) == Success(n * 10080)
    ensures LowerAscii(c) == 'm' ==> MinutesConversion(pre + ShowNat(n) + [c]) == Success(n * 43200)
    ensures LowerAscii(c) == 'y' ==> MinutesConversion(pre + ShowNat(n) + [c]) == Success(n * 525600)
  {
    var s := pre + ShowNat(n) + [c];
    var count := pre + ShowNat(n);
    var l := LowerAscii(c);
    assert s[..|s| - 1] == count && s[|s| - 1] == c;
    assert !IsDigit(c);
    ParseIntOfNumeral(pre, "", n, "");
    JoinEmpty(pre, ShowNat(n));
    assert ParseInt(count) == Some(n as int);
    var k := UnitMinutes(l).value;
    assert MinutesConversion(s) == Success(n * k);
  }

  /** The modifier is case-insensitive: upper- and lower-case spellings
      give the same minutes or the same error. */
  lemma CaseInsensitive(value: string, c: char)
    requires !IsDigit(c)
    ensures MinutesConversion(value + [c]) == MinutesConversion(value + [LowerAscii(c)])
  {
    var s, t := value + [c], value + [LowerAscii(c)];
    assert s[..|s| - 1] == value == t[..|t| - 1];
    assert LowerAscii(LowerAscii(c)) == LowerAscii(c);
  }

  /** A character outside `hdwmy` (after lower-casing) in modifier
      position is rejected once the count has been read. */
  lemma UnknownModifier(pre: string, n: nat, c: char)
    requires All(pre, IsSpace) && !IsDigit(c) && LowerAscii(c) !in Modifiers
    ensures MinutesConversion(pre + ShowNat(n) + [c]) == Failure(BadModifier(LowerAscii(c)))
  {
    var s := pre + ShowNat(n) + [c];
    var count := pre + ShowNat(n);
    var l := LowerAscii(c);
    assert s[..|s| - 1] == count && s[|s| - 1] == c;
    assert !IsDigit(c);
    ParseIntOfNumeral(pre, "", n, "");
    JoinEmpty(pre, ShowNat(n));
    assert ParseInt(count) == Some(n as int);
    assert MinutesConversion(s) == Failure(BadModifier(l));
  }

  /** A count that is not an integer, such as the `x` of `xd` or the empty
      count of a bare `h`, is a format error whatever the modifier. */
  lemma NonIntegerCount(value: string, c: char)
    requires !IsDigit(c) && ParseInt(value).None?
    ensures MinutesConversion(value + [c]) == Failure(BadFormat)
  {
    var s := value + [c];
    assert s[..|s| - 1] == value;
  }

  /** A count written out and followed by a modifier, as in the examples. */
  lemma ScaledExample(n: nat, c: char, s: string)
    requires LowerAscii(c) in Modifiers && s == ShowNat(n) + [c]
    ensures MinutesConversion(s) == Success(n * UnitMinutes(LowerAscii(c)).value)
  {
    ModifierScales("", n, c);
    JoinNil(ShowNat(n));
  }

  /** The two examples of the docstring. */
  lemma DocExamples()
    ensures MinutesConversion("5d") == Success(7200)
    ensures MinutesConversion("3m") == Success(129600)
  {
    FiveDays();
    ThreeMonths();
  }

  lemma FiveDays()
    ensures MinutesConversion("5d") == Success(7200)
  {
    assert ShowNat(5) == "5";
    ScaledExample(5, 'd', "5d");
  }

  lemma ThreeMonths()
    ensures MinutesConversion("3m") == Success(129600)
  {
    assert ShowNat(3) == "3";
    ScaledExample(3, 'm', "3m");
  }

  /** A bare number, and an upper-case modifier. */
  lemma PlainAndUpperExamples()
    ensures MinutesConversion("15") == Success(15)
    ensures MinutesConversion("5D") == Success(7200)
  {
    Fifteen();
    FiveDaysUpper();
  }

  lemma Fifteen()
    ensures MinutesConversion("15") == Success(15)
  {
    PlainNumber("", "", 15);
    FifteenWritten();
  }

  lemma FifteenWritten()
    ensures "" + "" + ShowNat(15) == "15"
  {
    assert ShowNat(15) == ShowNat(1) + [DigitChar(5)];
  }

  lemma FiveDaysUpper()
    ensures MinutesConversion("5D") == Success(7200)
  {
    FiveDays();
    CaseInsensitive("5", 'D');
    assert LowerAscii('D') == 'd';
    assert "5" + ['D'] == "5D" && "5" + ['d'] == "5d";
  }

  /** A non-numeric count and a modifier with no count. */
  lemma FormatErrorExamples()
    ensures MinutesConversion("xd") == Failure(BadFormat)
    ensures MinutesConversion("h") == Failure(BadFormat)
  {
    NonNumericCount();
    BareModifier();
  }

  lemma NonNumericCount()
    ensures MinutesConversion("xd") == Failure(BadFormat)
  {
    XNotAnInteger();
    NonIntegerCount("x", 'd');
    assert "x" + ['d'] == "xd";
  }

  lemma XNotAnInteger()
    ensures ParseInt("x").None?
  {
    StripPadded("", "x", "");
    assert "" + "x" + "" == "x";
  }

  lemma BareModifier()
    ensures MinutesConversion("h") == Failure(BadFormat)
  {
    NonIntegerCount("", 'h');
    assert "" + ['h'] == "h";
  }

  /** A count ending in a digit fails as "not an integer" exactly when
      `int()` would not read it: a decimal such as `1.5`, or a modifier
      in the middle such as `5d5`. */
  lemma NotAnIntegerExactly(time: string)
    ensures MinutesConversion(time) == Failure(NotAnInteger) <==>
              && time != [] && IsDigit(time[|time| - 1])
              && !exists pre, sign, digits, post :: NumeralText(time, pre, sign, digits, post)
  {
    if time != [] {
      ParseIntAccepts(time);
    }
  }

  lemma DecimalNotAnInteger()
    ensures MinutesConversion("1.5") == Failure(NotAnInteger)
    ensures MinutesConversion("5d5") == Failure(NotAnInteger)
  {
    StripPadded("", "1.5", "");
    assert "" + "1.5" + "" == "1.5";
    StripPadded("", "5d5", "");
    assert "" + "5d5" + "" == "5d5";
  }
}
