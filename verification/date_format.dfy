/** The language `datetime.strptime(s, "%Y-%m-%d")` accepts, and the scanner
    that recognises it.

    CPython matches `%Y` with exactly four digits, `%m` with a month of one or
    two digits (1..12) and `%d` with a day of one or two digits (1..31); the
    whole string must be consumed ("unconverted data remains" otherwise), and
    the resulting year, month and day must form a real date. */
module DateFormat {
  import opened Wrappers
  import opened Digits
  import opened Calendar

  /** A month or day field may be written with one or two digits, provided the
      value fits in that many digits. */
  predicate FieldWidthOk(v: nat, w: nat) {
    1 <= w <= 2 && v < Pow10(w)
  }

  /** How `d` is written with a four-digit year, a month of `mw` digits and a day
      of `dw` digits, separated by dashes. */
  function Render(d: Date, mw: nat, dw: nat): (s: string)
    ensures |s| == 6 + mw + dw
    ensures s[4] == '-' && s[5 + mw] == '-'
  {
    Pad(d.year, 4) + "-" + Pad(d.month, mw) + "-" + Pad(d.day, dw)
  }

  /** The accepted language: the written form of some real date, its month and
      day each in one or two digits. Such a string has 8 to 10 characters, a
      dash after the year and a dash before the day's one or two digits. */
  ghost predicate IsValidDate(s: string)
    ensures IsValidDate(s) ==> 8 <= |s| <= 10 && s[4] == '-' && (s[|s| - 2] == '-' || s[|s| - 3] == '-')
  {
    exists d: Date, mw: nat, dw: nat ::
      IsRealDate(d) && FieldWidthOk(d.month, mw) && FieldWidthOk(d.day, dw) && s == Render(d, mw, dw)
  }

  /** Checks the shape: four digits, a dash, a run of one or two digits, a
      dash, a run of one or two digits, end of input. Yields the widths of the
      month and day fields. Together with the calendar check in `ParseDate` this
      accepts exactly the strings strptime accepts, although the shape alone
      admits strings such as `2019-13-45` that strptime's pattern does not. */
  function ScanShape(s: string): (r: Option<(nat, nat)>)
    ensures r.Some? ==>
      && 1 <= r.value.0 <= 2 && 1 <= r.value.1 <= 2
      && |s| == 6 + r.value.0 + r.value.1
      && s[4] == '-' && s[5 + r.value.0] == '-'
      && forall k :: 0 <= k < |s| && k != 4 && k != 5 + r.value.0 ==> IsAsciiDigit(s[k])
  {
    if DigitRunLength(s, 0) != 4 || 4 == |s| || s[4] != '-' then None
    else
      var mw := DigitRunLength(s, 5);
      if !(1 <= mw <= 2) || 5 + mw == |s| || s[5 + mw] != '-' then None
      else
        var dw := DigitRunLength(s, 6 + mw);
        if !(1 <= dw <= 2) || 6 + mw + dw != |s| then None
        else Some((mw, dw))
  }

  /** Accepts the strings strptime accepts: the shape first, then the
      calendar. */
  function ParseDate(s: string): (r: Option<Date>)
    ensures r.Some? ==> IsRealDate(r.value)
  {
    match ScanShape(s)
    case None => None
    case Some((mw, dw)) =>
      var d := Date(FieldValue(s, 0, 4), FieldValue(s, 5, 5 + mw), FieldValue(s, 6 + mw, |s|));
      if IsRealDate(d) then Some(d) else None
  }

  /** A string with dashes at positions 4 and `5 + mw` is the three fields
      around them joined by dashes. */
  lemma DashJoined(s: string, mw: nat)
    requires 6 + mw <= |s| && s[4] == '-' && s[5 + mw] == '-'
    ensures s == s[..4] + "-" + s[5..5 + mw] + "-" + s[6 + mw..]
  {
    var t := s[..4] + "-" + s[5..5 + mw] + "-" + s[6 + mw..];
    assert |t| == |s|;
    forall k | 0 <= k < |s|
      ensures t[k] == s[k]
    {
      if k < 4 {
      } else if k == 4 {
      } else if k < 5 + mw {
        assert t[k] == s[5..5 + mw][k - 5];
      } else if k == 5 + mw {
      } else {
        assert t[k] == s[6 + mw..][k - 6 - mw];
      }
    }
  }

  /** A string of the scanned shape is its three digit fields joined by dashes,
      and the scanner reads each field as the number its digits write. */
  lemma ShapeFields(s: string, mw: nat, dw: nat)
    requires |s| == 6 + mw + dw && s[4] == '-' && s[5 + mw] == '-'
    requires forall k :: 0 <= k < |s| && k != 4 && k != 5 + mw ==> IsAsciiDigit(s[k])
    ensures s == s[..4] + "-" + s[5..5 + mw] + "-" + s[6 + mw..]
    ensures AllDigits(s[..4]) && AllDigits(s[5..5 + mw]) && AllDigits(s[6 + mw..])
    ensures FieldValue(s, 0, 4) == DigitsValue(s[..4])
    ensures FieldValue(s, 5, 5 + mw) == DigitsValue(s[5..5 + mw])
    ensures FieldValue(s, 6 + mw, |s|) == DigitsValue(s[6 + mw..])
  {
    DashJoined(s, mw);
    FieldValueOfSlice(s, 0, 4);
    FieldValueOfSlice(s, 5, 5 + mw);
    FieldValueOfSlice(s, 6 + mw, |s|);
    assert s[0..4] == s[..4];
    assert s[6 + mw..|s|] == s[6 + mw..];
  }

  /** Three digit strings of admissible widths, read as numbers and written
      back with the same widths, give the three strings joined by dashes. */
  lemma DigitFieldsRender(y: string, m: string, dd: string)
    requires |y| == 4 && 1 <= |m| <= 2 && 1 <= |dd| <= 2
    requires AllDigits(y) && AllDigits(m) && AllDigits(dd)
    ensures FieldWidthOk(DigitsValue(m), |m|) && FieldWidthOk(DigitsValue(dd), |dd|)
    ensures Render(Date(DigitsValue(y), DigitsValue(m), DigitsValue(dd)), |m|, |dd|) == y + "-" + m + "-" + dd
  {
    ValuePad(y);
    ValuePad(m);
    ValuePad(dd);
  }

  /** Reading the fields of a string of the scanned shape and writing them back
      with the same widths gives the string again. */
  lemma ShapeRendersFields(s: string, mw: nat, dw: nat)
    requires 1 <= mw <= 2 && 1 <= dw <= 2
    requires |s| == 6 + mw + dw && s[4] == '-' && s[5 + mw] == '-'
    requires forall k :: 0 <= k < |s| && k != 4 && k != 5 + mw ==> IsAsciiDigit(s[k])
    ensures FieldWidthOk(FieldValue(s, 5, 5 + mw), mw) && FieldWidthOk(FieldValue(s, 6 + mw, |s|), dw)
    ensures s == Render(Date(FieldValue(s, 0, 4), FieldValue(s, 5, 5 + mw), FieldValue(s, 6 + mw, |s|)), mw, dw)
  {
    ShapeFields(s, mw, dw);
    DigitFieldsRender(s[..4], s[5..5 + mw], s[6 + mw..]);
  }

  /** Whatever the scanner accepts is the written form of the date it returns. */
  lemma ParseDateSound(s: string)
    requires ParseDate(s).Some?
    ensures var d := ParseDate(s).value;
      exists mw: nat, dw: nat :: FieldWidthOk(d.month, mw) && FieldWidthOk(d.day, dw) && s == Render(d, mw, dw)
  {
    var (mw, dw) := ScanShape(s).value;
    ShapeRendersFields(s, mw, dw);
  }

  /** The written form of any date, with admissible widths, has the shape the
      scanner looks for, and the scanner finds those widths. */
  lemma ScanShapeOfRender(d: Date, mw: nat, dw: nat)
    requires 1 <= mw <= 2 && 1 <= dw <= 2
    ensures ScanShape(Render(d, mw, dw)) == Some((mw, dw))
  {
    var s := Render(d, mw, dw);
    assert s[..4] == Pad(d.year, 4);
    assert s[5..5 + mw] == Pad(d.month, mw);
    assert s[6 + mw..] == Pad(d.day, dw);
    assert s[0..4] == s[..4];
    DigitRunLengthUnique(s, 0, 4);
    DigitRunLengthUnique(s, 5, mw);
    assert s[6 + mw..6 + mw + dw] == Pad(d.day, dw);
    DigitRunLengthUnique(s, 6 + mw, dw);
  }

  /** The scanner reads back, from the written form of a date, the year, month
      and day that were written, provided each fits its field. */
  lemma FieldsOfRender(d: Date, mw: nat, dw: nat)
    requires d.year < Pow10(4) && FieldWidthOk(d.month, mw) && FieldWidthOk(d.day, dw)
    ensures var s := Render(d, mw, dw);
      && FieldValue(s, 0, 4) == d.year
      && FieldValue(s, 5, 5 + mw) == d.month
      && FieldValue(s, 6 + mw, |s|) == d.day
  {
    var s := Render(d, mw, dw);
    ScanShapeOfRender(d, mw, dw);
    ShapeFields(s, mw, dw);
    assert s[..4] == Pad(d.year, 4);
    assert s[5..5 + mw] == Pad(d.month, mw);
    assert s[6 + mw..] == Pad(d.day, dw);
    PadValue(d.year, 4);
    PadValue(d.month, mw);
    PadValue(d.day, dw);
  }

  /** Every real date, written with any admissible field widths, is accepted and
      read back as that same date. */
  lemma ParseDateComplete(d: Date, mw: nat, dw: nat)
    requires IsRealDate(d)
    requires FieldWidthOk(d.month, mw) && FieldWidthOk(d.day, dw)
    ensures ParseDate(Render(d, mw, dw)) == Some(d)
  {
    assert Pow10(4) == 10000;
    ScanShapeOfRender(d, mw, dw);
    FieldsOfRender(d, mw, dw);
  }

  /** A written date determines the date and the field widths: no string is
      the rendering of two different dates. */
  lemma RenderInjective(d: Date, mw: nat, dw: nat, e: Date, mw': nat, dw': nat)
    requires d.year < Pow10(4) && FieldWidthOk(d.month, mw) && FieldWidthOk(d.day, dw)
    requires e.year < Pow10(4) && FieldWidthOk(e.month, mw') && FieldWidthOk(e.day, dw')
    requires Render(d, mw, dw) == Render(e, mw', dw')
    ensures d == e && mw == mw' && dw == dw'
  {
    ScanShapeOfRender(d, mw, dw);
    ScanShapeOfRender(e, mw', dw');
    FieldsOfRender(d, mw, dw);
    FieldsOfRender(e, mw', dw');
  }

  /** The validator-facing form of completeness: the written form of a real
      date is accepted. */
  lemma RenderedDateValid(d: Date, mw: nat, dw: nat)
    requires IsRealDate(d)
    requires FieldWidthOk(d.month, mw) && FieldWidthOk(d.day, dw)
    ensures IsValidDate(Render(d, mw, dw))
  {
  }

  /** The scanner recognises exactly the accepted language. */
  lemma ParseDateIffValid(s: string)
    ensures ParseDate(s).Some? <==> IsValidDate(s)
  {
    if ParseDate(s).Some? {
      ParseDateSound(s);
    }
    if IsValidDate(s) {
      var d: Date, mw: nat, dw: nat :|
        IsRealDate(d) && FieldWidthOk(d.month, mw) && FieldWidthOk(d.day, dw) && s == Render(d, mw, dw);
      ParseDateComplete(d, mw, dw);
    }
  }
}
