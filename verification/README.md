# Query-parameter validators of the usage-info listing

The usage-info service lists advertising usage records (impressions, clicks,
installs, spend, revenue per date, channel, country and OS). Its request tests
(`usage_info/tests.py:82-330`) expect the date, channel, country, OS, grouping
and sorting query parameters to be checked, and a bad value to be answered
with status 400. No source file calls the validators: the listing view
returns all rows and reads no parameters. `usage_info/validator.py` holds two
validators:

- `date_validator(date)` accepts a date written as `%Y-%m-%d` (what
  `datetime.strptime` reads with that format) and returns it unchanged; anything
  else, including `None` or a non-string, raises `ValidationError`.
- `comma_separated_str(allowed)` builds `inner(raw_str)`, which splits
  `raw_str` on commas and, left to right, rejects the first element that is
  empty or all digits (a format error) or, when `allowed` is a non-empty set,
  not in it (a not-allowed error); if every element passes it returns
  `raw_str` unchanged.

The model is a set of pure Dafny functions over `string` returning a
`Result<string, ValidationError>`:

- `Wrappers`: `Option` and `Result`.
- `Digits`: ASCII digits, reading a digit string as a number (`DigitsValue`),
  writing a number zero-padded (`Pad`), and the maximal run of digits at a
  position (`DigitRunLength`), which fixes the width of each date field.
- `Calendar`: the proleptic Gregorian calendar of `datetime.date`, years 1 to
  9999.
- `DateFormat`: the accepted date language, stated twice. `IsValidDate(s)` says
  `s` is the written form `Render(d, mw, dw)` of some real date `d`, with a
  four-digit year and the month and day in one or two digits each.
  `ParseDate` is a scanner: four digits, a dash, the month's run of digits, a
  dash, the day's run of digits, end of input, then the calendar check.
  They are proved to agree on every string. The scanner accepts exactly the
  strings strptime accepts (apart from the cases under "Left out"), but it does
  not retrace strptime's regular expression: on `2019-01-32` CPython's `%d`
  alternation reads the day `3` and fails on the unconverted `2`, while the
  scanner reads `32` and fails the calendar check. The verdict is the same.
- `TextSplit`: Python's `str.split(',')` and its inverse `','.join`, proved to be
  inverse bijections between strings and non-empty lists of comma-free pieces,
  with the piece count and a characterisation of when an empty piece appears.
- `Validator`: `ValidationError`, `DateValidator`, the per-element check,
  `Inner` and the factory `CommaSeparatedStr`.
- `ValidatorProperties`: properties relating several calls: error precedence,
  empty and numeric elements, allow-list behaviour, idempotence.
- `ValidatorExamples`: the request tests' inputs and calendar edge cases.

`ValidationError` carries which check failed and the offending value:
`InvalidDate(date)`, `BadFormat(elem)` or `NotAllowed(elem)`. A `None` or
non-string argument to `date_validator` is modelled as `Option.None`.

Where the code and its descriptions differ the model follows the code:

- The docstring of `date_validator` (`usage_info/validator.py:12`) describes its
  argument as "in format %Y-%m-%d or None", but `None` makes strptime raise
  `TypeError`, which is turned into `ValidationError`; `DateValidator(None)`
  fails.
- `inner` does not trim whitespace, so `" adcolony"` is checked (and accepted)
  as written.
- The allow-lists for `group_by` and `sort_by` are not in the validator, and no
  source file passes any allow-list to it. The examples use
  assumed sets (`ValidatorExamples.GroupFields`, `ValidatorExamples.SortFields`)
  built from the listing's columns; they agree with every field the request
  tests use (`date`, `channel`, `os`, `-date`, `clicks`), but the other members
  appear in no source file.

## Model

| member | source | states |
|---|---|---|
| Validator.DateValidator | usage_info/validator.py:9-20 | Succeeds exactly when the argument is a string in the accepted date language; on success returns the argument unchanged; otherwise fails with `InvalidDate` carrying the argument, `None` included. |
| DateFormat.ParseDate | usage_info/validator.py:17 | Whatever the scanner returns, once `ScanShape` accepts and the calendar check passes, is a real date (year 1..9999, month 1..12, a day the month has). |
| DateFormat.IsValidDate | usage_info/validator.py:17 | The language `%Y-%m-%d` accepts, defined as the written forms of real dates; every such string has 8 to 10 characters, a dash after the year and a dash before the day's one or two digits. |
| DateFormat.ScanShape | usage_info/validator.py:17 | When `ScanShape` accepts, the string is four digits, a dash, one or two digits, a dash and one or two digits, and the widths returned are those of the month and day. |
| DateFormat.ParseDateSound | usage_info/validator.py:17 | Every string the scan accepts is the written form of the date it returns, with a four-digit year and one- or two-digit month and day. |
| DateFormat.ShapeRendersFields | usage_info/validator.py:17 | Reading the three fields of a string of the matched shape and writing them back at the same widths reproduces the string, and the month and day fit their widths. |
| DateFormat.ParseDateComplete | usage_info/validator.py:17 | Every real date, written with any admissible widths for month and day, is accepted and read back as the same date. |
| DateFormat.ScanShapeOfRender | usage_info/validator.py:17 | The written form of any date, month and day in one or two digits, is accepted by `ScanShape` with exactly those widths. |
| DateFormat.FieldsOfRender | usage_info/validator.py:17 | From the written form of a date whose fields fit their widths, the scan reads back the same year, month and day. |
| DateFormat.RenderInjective | usage_info/validator.py:17 | No string is the written form of two different dates, or of one date at two different widths. |
| DateFormat.RenderedDateValid | usage_info/validator.py:17 | Corollary of the definition of the accepted language: the written form of a real date is in it. |
| DateFormat.ParseDateIffValid | usage_info/validator.py:16-19 | The scan accepts a string if and only if it is in the accepted date language. |
| Calendar.DaysInMonth | usage_info/validator.py:17 | Months have 28 to 31 days; 31 for January, March, May, July, August, October, December; 30 for April, June, September, November; February has 29 exactly in leap years. |
| Calendar.LeapDayExistsIffLeapYear | usage_info/validator.py:17 | February 29 of a year in range is a real date if and only if the year is a Gregorian leap year. |
| ValidatorProperties.DateVerdictOfRendering | usage_info/validator.py:16-20 | A date written as `YYYY-M[M]-D[D]` passes the date validator, unchanged, exactly when it names a real date, and otherwise fails with `InvalidDate` carrying the string. |
| ValidatorProperties.LeapDayVerdict | usage_info/validator.py:16-19 | `YYYY-02-29` passes the date validator exactly when the year is a Gregorian leap year. |
| ValidatorProperties.OutOfRangeFieldRejected | usage_info/validator.py:16-19 | A written date with year 0, month 0 or above 12, or day 0 fails with `InvalidDate`, whatever the other fields hold. |
| Digits.DigitRunLength | usage_info/validator.py:17 | The length returned is a run of digits that is maximal: it ends at the end of the string or at a non-digit. |
| Digits.PadValue | usage_info/validator.py:17 | A number written with enough zero-padded digits reads back as the same number. |
| Digits.ValuePad | usage_info/validator.py:17 | A digit string read as a number and written back at its own width is the same string, leading zeros included. |
| Digits.FieldValueOfSlice | usage_info/validator.py:17 | Reading the digits between two positions of a string gives the same number as reading that slice on its own. |
| Digits.DigitRunLengthUnique | usage_info/validator.py:17 | A run of digits that ends at the end of the string or at a non-digit is the run the scan finds, so a field's width is determined by the string. |
| TextSplit.Split | usage_info/validator.py:36 | Splitting on a separator yields at least one piece and no piece contains the separator. |
| TextSplit.SplitCount | usage_info/validator.py:36 | A string with n separators splits into n + 1 pieces. |
| TextSplit.JoinSplit | usage_info/validator.py:36 | Joining the pieces with the separator gives back the original string. |
| TextSplit.SplitJoin | usage_info/validator.py:36 | Splitting a separator-joined list of separator-free pieces gives back exactly those pieces. |
| TextSplit.SplitAfterPiece | usage_info/validator.py:36 | A separator-free string is one piece, and a separator after such a prefix ends the first piece. |
| TextSplit.EmptyLaterPieceIff | usage_info/validator.py:36-37 | A piece after the first is empty exactly when some separator is followed by another separator or by the end of the string. |
| TextSplit.EmptyPieceIff | usage_info/validator.py:36-37 | Some piece is empty exactly when the string is empty, starts with the separator, ends with it, or has two separators side by side. |
| Validator.CheckElement | usage_info/validator.py:37-43 | One element passes exactly when it is non-empty, not all digits, and in the allow-list when that is non-empty; a malformed element gets the format error even if it is also not allowed. |
| Validator.IsMalformed | usage_info/validator.py:37 | The format rule rejects an element exactly when it has no character other than a digit, the empty element included. |
| Validator.Restricts | usage_info/validator.py:41 | The allow-list restricts elements exactly when it is a set with at least one member; `None` and the empty set do not restrict. |
| Validator.FirstRejected | usage_info/validator.py:36-43 | The index returned is where the loop stops: every earlier element passes, and the element there (if any) fails. |
| Validator.Inner | usage_info/validator.py:29-44 | Succeeds exactly when every comma-separated piece passes; on success returns the input unchanged; on failure the error names the first failing piece, with the format error taking precedence over the allow-list error. |
| Validator.CommaSeparatedStr | usage_info/validator.py:23-45 | The function the factory returns accepts a string exactly when all its comma-separated pieces pass the checks for the given allow-list, returns accepted strings unchanged, and otherwise fails with the error of the first failing piece, the format error taking precedence. |
| ValidatorProperties.InnerOfJoined | usage_info/validator.py:36-44 | A list written as comma-free elements joined by commas is accepted exactly when every element is; otherwise the error is that of the first failing element. |
| ValidatorProperties.InnerOfJoinedFailsAt | usage_info/validator.py:36-43 | When the first failing element of a joined list is known, the result is exactly that element's error. |
| ValidatorProperties.EmptyElementRejected | usage_info/validator.py:36-40 | Empty input, a leading comma, a trailing comma or two adjacent commas make the list invalid; with empty input or a leading comma the error is the format error for the empty element. |
| ValidatorProperties.DigitElementRejected | usage_info/validator.py:37-40 | An all-digit element anywhere in the list makes it invalid. |
| ValidatorProperties.AcceptedElementsAllowed | usage_info/validator.py:41-43 | With a non-empty allow-list, every piece of an accepted string is in the allow-list. |
| ValidatorProperties.UnrestrictedDependsOnFormatOnly | usage_info/validator.py:41 | With no allow-list a string is accepted exactly when no piece is empty or all digits, and `None` and the empty set give identical results on every input. |
| ValidatorProperties.AllowListMonotone | usage_info/validator.py:41-43 | A string accepted under a non-empty allow-list is also accepted under any larger allow-list and under none. |
| ValidatorProperties.InnerIdempotent | usage_info/validator.py:44 | Corollary of `Inner` returning its input on success: validating an accepted value again gives the same result. |
| ValidatorProperties.ErrorNamesAPiece | usage_info/validator.py:36-43 | A list error is a format or not-allowed error and names one of the pieces of the input. |
| ValidatorExamples.SingleElement | usage_info/validator.py:36-43 | A string without commas is accepted or rejected as one element, with that element's own error. |
| ValidatorExamples.AcceptedListPasses | usage_info/validator.py:36-44 | A list written as elements joined by commas, each of which passes on its own, is returned unchanged. |
| ValidatorExamples.DocumentedDateAccepted | usage_info/validator.py:12 | The documented example `2017-06-01` is returned unchanged. |
| ValidatorExamples.MalformedDatesRejected | usage_info/tests.py:82-105 | `not valid date`, `2019-not valid` and a missing value are rejected with `InvalidDate`. |
| ValidatorExamples.UnpaddedDateAccepted | usage_info/validator.py:17 | `2017-6-1`, with one-digit month and day, is accepted unchanged. |
| ValidatorExamples.CalendarEdgeCases | usage_info/validator.py:17 | 2020 and 2000 are leap years, 2019 and 1900 are not; year 0 and month 13 do not form real dates. |
| ValidatorExamples.TrailingDigitRejected | usage_info/validator.py:17 | `2019-01-011` is rejected: the day's run of digits is three long, where strptime reads the day `01` and leaves the last `1` unconverted. |
| ValidatorExamples.TrailingCommaRejected | usage_info/tests.py:145-150 | `adcolony,` (tests.py:145-150), `US,` (tests.py:184-189) and `ios,` (tests.py:223-228) are rejected. |
| ValidatorExamples.EmptyListsRejected | usage_info/validator.py:37-40 | The empty string and `,,` are rejected with the format error for the empty element. |
| ValidatorExamples.NumericElementRejected | usage_info/tests.py:152-157 | `adcolony,12` is rejected with the format error naming `12`. |
| ValidatorExamples.NameListAccepted | usage_info/tests.py:134-143 | `adcolony,facebook` is accepted unchanged without an allow-list. |
| ValidatorExamples.MixedElementAccepted | usage_info/validator.py:37 | `ad12`, letters and digits mixed, passes the format rule. |
| ValidatorExamples.GroupByMetricNotAllowed | usage_info/tests.py:275-280 | Grouping by `clicks` is rejected as not allowed. |
| ValidatorExamples.GroupByUnknownNotAllowed | usage_info/tests.py:282-287 | Grouping by `not existing field` is rejected as not allowed. |
| ValidatorExamples.FormatErrorTakesPrecedence | usage_info/validator.py:37-43 | `12` under the grouping allow-list gets the format error, not the not-allowed error. |
| ValidatorExamples.GroupByAllowed | usage_info/tests.py:257-273 | Grouping by `date,channel,os` is accepted unchanged. |
| ValidatorExamples.SortByAllowed | usage_info/tests.py:314-323 | Sorting by `-date,clicks` is accepted unchanged. |
| ValidatorExamples.SortByUnknownNotAllowed | usage_info/tests.py:325-330 | Sorting by `not existing field` is rejected as not allowed. |

## Left out

- `usage_info/views.py`, `usage_info/urls.py`, `usage_info/serializers.py`, `usage_info/models.py` and the migration: framework routing and declarative classes with no logic of their own; the listed view returns all rows unfiltered.
- `usage_info/samples/insert_csv_to_psql.py`: file, environment and database I/O.
- `usage_info/tests.py`: HTTP and database tests; only their inputs are used, as examples.
- Validator.DateValidator: rejects a day written as a space followed by one digit (`2019-01- 5`), which CPython's `%d` pattern accepts; the model keeps to the documented `YYYY-MM-DD` grammar.
- Validator.DateValidator: digits are ASCII only; CPython's `\d` and `int()` also accept other Unicode decimal digits.
- Validator.IsMalformed: models `str.isdigit` over ASCII `0`..`9`; Python also counts other Unicode digits (superscripts, other scripts) as digits.
- Validator.Inner: takes a string; `inner` called with a non-string (such as `None`) raises `AttributeError` rather than `ValidationError`, which is not modelled.
- Error messages: the text of each `ValidationError` (with `repr` quoting and the allow-list) is not modelled; the error carries only the check that failed and the offending value.
- The allow-list is a set of strings; other containers Python would accept for `allowed` are not modelled.
