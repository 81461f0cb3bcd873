/** Concrete inputs taken from the service's request tests, and a few calendar
    edge cases, run through the validators. */
module ValidatorExamples {
  import opened Wrappers
  import Digits
  import opened Calendar
  import opened DateFormat
  import opened TextSplit
  import opened Validator
  import opened ValidatorProperties

  /** The fields a listing may be grouped by. */
  const GroupFields: set<string> := {"date", "channel", "country", "os"}

  /** The fields a listing may be sorted by, ascending or (with a leading minus)
      descending. */
  const SortFields: set<string> :=
    {"date", "channel", "country", "os", "impressions", "clicks", "installs", "spend", "revenue", "cpi",
     "-date", "-channel", "-country", "-os", "-impressions", "-clicks", "-installs", "-spend", "-revenue", "-cpi"}

  /** A name that is no field of the listing. */
  const UnknownField: string := "not existing field"

  /** A string with no comma is checked as a single element. */
  lemma SingleElement(allowed: Option<set<string>>, elem: string)
    requires Comma !in elem
    ensures Inner(allowed, elem) == if IsAccepted(allowed, elem) then Success(elem) else Failure(CheckElement(allowed, elem).value)
  {
    SplitAfterPiece(elem, [], Comma);
    assert Split(elem, Comma)[0] == elem;
  }

  /** The example the validator documents. */
  lemma DocumentedDateAccepted()
    ensures DateValidator(Some("2017-06-01")) == Success("2017-06-01")
  {
    assert Digits.Pad(2017, 4) == "2017";
    DateVerdictOfRendering("2017-06-01", Date(2017, 6, 1), 2, 2);
  }

  /** Strings of another shape, and a missing value, are rejected. */
  lemma MalformedDatesRejected()
    ensures DateValidator(Some("not valid date")) == Failure(InvalidDate(Some("not valid date")))
    ensures DateValidator(Some("2019-not valid")) == Failure(InvalidDate(Some("2019-not valid")))
    ensures DateValidator(None) == Failure(InvalidDate(None))
  {
    assert !Digits.IsAsciiDigit("not valid date"[0]);
    ParseDateIffValid("not valid date");
    assert Digits.DigitRunLength("2019-not valid", 5) == 0;
    ParseDateIffValid("2019-not valid");
  }

  /** strptime reads one-digit months and days too. */
  lemma UnpaddedDateAccepted()
    ensures DateValidator(Some("2017-6-1")) == Success("2017-6-1")
  {
    assert Digits.Pad(2017, 4) == "2017";
    DateVerdictOfRendering("2017-6-1", Date(2017, 6, 1), 1, 1);
  }

  /** The calendar cases the date validator turns on: the century rule for
      February 29, year zero, and a thirteenth month. */
  lemma CalendarEdgeCases()
    ensures IsLeapYear(2020) && IsLeapYear(2000) && !IsLeapYear(2019) && !IsLeapYear(1900)
    ensures !IsRealDate(Date(0, 1, 1)) && !IsRealDate(Date(2019, 13, 1))
  {
  }

  /** A three-digit day leaves data unconverted. */
  lemma TrailingDigitRejected()
    ensures DateValidator(Some("2019-01-011")).Failure?
  {
    Digits.DigitRunLengthUnique("2019-01-011", 8, 3);
    ParseDateIffValid("2019-01-011");
  }

  /** A trailing comma leaves an empty last element. */
  lemma TrailingCommaRejected()
    ensures Inner(None, "adcolony,").Failure?
    ensures Inner(None, "US,").Failure?
    ensures Inner(None, "ios,").Failure?
  {
    assert "adcolony,"[8] == Comma;
    EmptyElementRejected(None, "adcolony,");
    assert "US,"[2] == Comma;
    EmptyElementRejected(None, "US,");
    assert "ios,"[3] == Comma;
    EmptyElementRejected(None, "ios,");
  }

  /** Empty input and a list of nothing but commas are rejected on their first,
      empty, element. */
  lemma EmptyListsRejected()
    ensures Inner(None, "") == Failure(BadFormat(""))
    ensures Inner(None, ",,") == Failure(BadFormat(""))
  {
    EmptyElementRejected(None, "");
    EmptyElementRejected(None, ",,");
  }

  /** A numeric element is rejected with a format error naming it. */
  lemma NumericElementRejected()
    ensures Inner(None, "adcolony,12") == Failure(BadFormat("12"))
  {
    var elems := ["adcolony", "12"];
    assert Join(elems, Comma) == "adcolony,12";
    assert !Digits.IsAsciiDigit(elems[0][0]);
    assert IsFirstRejected(None, elems, 1);
    InnerOfJoinedFailsAt(None, elems, 1);
  }

  /** `raw` is `elems` joined by commas, and every element passes on its own. */
  predicate IsAcceptedList(allowed: Option<set<string>>, elems: seq<string>, raw: string) {
    && |elems| >= 1
    && raw == Join(elems, Comma)
    && forall i :: 0 <= i < |elems| ==> Comma !in elems[i] && IsAccepted(allowed, elems[i])
  }

  /** A list whose elements each pass is returned unchanged. */
  lemma AcceptedListPasses(allowed: Option<set<string>>, elems: seq<string>, raw: string)
    requires IsAcceptedList(allowed, elems, raw)
    ensures Inner(allowed, raw) == Success(raw)
  {
    InnerOfJoined(allowed, elems);
  }

  /** The literal facts behind the next example: the list, its elements, and
      that each element passes. */
  lemma NameListPieces()
    ensures IsAcceptedList(None, ["adcolony", "facebook"], "adcolony,facebook")
  {
    assert !Digits.IsAsciiDigit("adcolony"[0]);
    assert !Digits.IsAsciiDigit("facebook"[0]);
  }

  /** Several plain names pass when there is no allow-list. */
  lemma NameListAccepted()
    ensures Inner(None, "adcolony,facebook") == Success("adcolony,facebook")
  {
    NameListPieces();
    AcceptedListPasses(None, ["adcolony", "facebook"], "adcolony,facebook");
  }

  /** Letters and digits mixed in one element pass the format rule. */
  lemma MixedElementAccepted()
    ensures Inner(None, "ad12") == Success("ad12")
  {
    assert !Digits.IsAsciiDigit("ad12"[0]);
    SingleElement(None, "ad12");
  }

  /** A metric and an unknown name are not grouping fields. */
  lemma GroupByMetricNotAllowed()
    ensures Inner(Some(GroupFields), "clicks") == Failure(NotAllowed("clicks"))
  {
    assert !Digits.IsAsciiDigit("clicks"[0]);
    assert "clicks" !in GroupFields;
    SingleElement(Some(GroupFields), "clicks");
  }

  lemma GroupByUnknownNotAllowed()
    ensures Inner(Some(GroupFields), UnknownField) == Failure(NotAllowed(UnknownField))
  {
    assert !Digits.IsAsciiDigit(UnknownField[0]);
    assert UnknownField !in GroupFields;
    SingleElement(Some(GroupFields), UnknownField);
  }

  /** For one element that breaks both rules, the format error wins. */
  lemma FormatErrorTakesPrecedence()
    ensures Inner(Some(GroupFields), "12") == Failure(BadFormat("12"))
  {
    SingleElement(Some(GroupFields), "12");
  }

  /** The literal facts behind the next example: the list, its elements, and
      that each element passes. */
  lemma GroupByPieces()
    ensures IsAcceptedList(Some(GroupFields), ["date", "channel", "os"], "date,channel,os")
  {
    assert !Digits.IsAsciiDigit("date"[0]);
    assert !Digits.IsAsciiDigit("channel"[0]);
    assert !Digits.IsAsciiDigit("os"[0]);
  }

  /** Grouping by several allowed fields passes. */
  lemma GroupByAllowed()
    ensures Inner(Some(GroupFields), "date,channel,os") == Success("date,channel,os")
  {
    GroupByPieces();
    AcceptedListPasses(Some(GroupFields), ["date", "channel", "os"], "date,channel,os");
  }

  /** The literal facts behind the next example: the list, its elements, and
      that each element passes. */
  lemma SortByPieces()
    ensures IsAcceptedList(Some(SortFields), ["-date", "clicks"], "-date,clicks")
  {
    assert !Digits.IsAsciiDigit("-date"[0]);
    assert !Digits.IsAsciiDigit("clicks"[0]);
    assert "-date" in SortFields && "clicks" in SortFields;
  }

  /** A descending and an ascending sort field pass together. */
  lemma SortByAllowed()
    ensures Inner(Some(SortFields), "-date,clicks") == Success("-date,clicks")
  {
    SortByPieces();
    AcceptedListPasses(Some(SortFields), ["-date", "clicks"], "-date,clicks");
  }

  /** An unknown name is not a sort field. */
  lemma SortByUnknownNotAllowed()
    ensures Inner(Some(SortFields), UnknownField) == Failure(NotAllowed(UnknownField))
  {
    assert !Digits.IsAsciiDigit(UnknownField[0]);
    assert UnknownField !in SortFields;
    SingleElement(Some(SortFields), UnknownField);
  }
}
