/** The query-parameter validators of `usage_info/validator.py`: a date
    validator and the checker of comma-separated lists produced by the
    `comma_separated_str` factory. Each returns its input unchanged or raises a
    `ValidationError`; raising is modelled as a `Failure` result. */
module Validator {
  import opened Wrappers
  import opened Digits
  import opened DateFormat
  import opened TextSplit

  /** The one exception kind, `ValidationError`, told apart by the check that
      raised it and carrying the offending value. */
  datatype ValidationError =
    | InvalidDate(date: Option<string>)
    | BadFormat(elem: string)
    | NotAllowed(elem: string)

  /** `date_validator`. The argument is `None` when the caller passed `None` or a
      non-string, which makes strptime raise `TypeError`; a string strptime
      cannot read raises `ValueError`. Both become `InvalidDate`. */
  function DateValidator(date: Option<string>): (r: Result<string, ValidationError>)
    ensures r.Success? <==> date.Some? && IsValidDate(date.value)
    ensures r.Success? ==> r.value == date.value
    ensures r.Failure? ==> r.error == InvalidDate(date)
  {
    match date
    case None => Failure(InvalidDate(date))
    case Some(s) =>
      ParseDateIffValid(s);
      if ParseDate(s).Some? then Success(s) else Failure(InvalidDate(date))
  }

  /** The list separator. */
  const Comma: char := ','

  /** Python truthiness of the allow-list: `None` and the empty set both leave
      the elements unrestricted; a set with at least one member restricts. */
  predicate Restricts(allowed: Option<set<string>>)
    ensures allowed == None || allowed == Some({}) ==> !Restricts(allowed)
    ensures Restricts(allowed) <==> allowed.Some? && exists e :: e in allowed.value
  {
    allowed.Some? && allowed.value != {}
  }

  /** The format rule: an element may be neither empty nor all digits. Together
      the two cases say the element has no character other than a digit. */
  predicate IsMalformed(elem: string)
    ensures IsMalformed(elem) <==> AllDigits(elem)
  {
    elem == "" || IsDigitString(elem)
  }

  /** An element passes both rules. */
  predicate IsAccepted(allowed: Option<set<string>>, elem: string) {
    !IsMalformed(elem) && (Restricts(allowed) ==> elem in allowed.value)
  }

  /** The checks on one element, format first, then the allow-list. */
  function CheckElement(allowed: Option<set<string>>, elem: string): (r: Option<ValidationError>)
    ensures r.None? <==> IsAccepted(allowed, elem)
    ensures IsMalformed(elem) ==> r == Some(BadFormat(elem))
    ensures r.Some? && !IsMalformed(elem) ==> r == Some(NotAllowed(elem))
  {
    if IsMalformed(elem) then Some(BadFormat(elem))
    else if Restricts(allowed) && elem !in allowed.value then Some(NotAllowed(elem))
    else None
  }

  /** Index of the first rejected element, or `|elems|` when all are accepted:
      the point where the left-to-right loop stops. */
  function FirstRejected(allowed: Option<set<string>>, elems: seq<string>): (k: nat)
    ensures k <= |elems|
    ensures forall j :: 0 <= j < k ==> IsAccepted(allowed, elems[j])
    ensures k < |elems| ==> !IsAccepted(allowed, elems[k])
  {
    if |elems| == 0 then 0
    else if CheckElement(allowed, elems[0]).Some? then 0
    else 1 + FirstRejected(allowed, elems[1..])
  }

  /** `k` is the position of the first element that fails a check. */
  ghost predicate IsFirstRejected(allowed: Option<set<string>>, elems: seq<string>, k: int) {
    && 0 <= k < |elems|
    && !IsAccepted(allowed, elems[k])
    && forall j :: 0 <= j < k ==> IsAccepted(allowed, elems[j])
  }

  /** `inner(raw_str)`: split on commas, check each element left to right, and
      return `raw_str` unchanged when every element passes. */
  function Inner(allowed: Option<set<string>>, raw: string): (r: Result<string, ValidationError>)
    ensures r.Success? <==> forall p :: p in Split(raw, Comma) ==> IsAccepted(allowed, p)
    ensures r.Success? ==> r.value == raw
    ensures r.Failure? ==>
      exists k :: (IsFirstRejected(allowed, Split(raw, Comma), k) &&
        var e := Split(raw, Comma)[k];
        r.error == (if IsMalformed(e) then BadFormat(e) else NotAllowed(e)))
  {
    var elems := Split(raw, Comma);
    var k := FirstRejected(allowed, elems);
    if k == |elems| then Success(raw)
    else
      assert IsFirstRejected(allowed, elems, k);
      Failure(CheckElement(allowed, elems[k]).value)
  }

  /** `comma_separated_str(allowed)`: the factory returning `inner` bound to
      the given allow-list. */
  function CommaSeparatedStr(allowed: Option<set<string>>): (inner: string -> Result<string, ValidationError>)
    ensures forall raw :: inner(raw).Success? ==> inner(raw).value == raw
    ensures forall raw :: inner(raw).Success? <==> forall p :: p in Split(raw, Comma) ==> IsAccepted(allowed, p)
    ensures forall raw :: inner(raw).Failure? ==>
      exists k :: IsFirstRejected(allowed, Split(raw, Comma), k) &&
        inner(raw).error == CheckElement(allowed, Split(raw, Comma)[k]).value
  {
    raw => Inner(allowed, raw)
  }
}

/** Properties of the list validator that relate several calls or pin down
    particular inputs. */
module ValidatorProperties {
  import opened Wrappers
  import opened Digits
  import opened Calendar
  import opened DateFormat
  import opened TextSplit
  import opened Validator

  /** A year, month and day written as `YYYY-M[M]-D[D]` pass the date validator
      exactly when they name a real date, and then come back unchanged. */
  lemma DateVerdictOfRendering(s: string, d: Date, mw: nat, dw: nat)
    requires d.year < Pow10(4) && FieldWidthOk(d.month, mw) && FieldWidthOk(d.day, dw)
    requires s == Render(d, mw, dw)
    ensures DateValidator(Some(s)) == if IsRealDate(d) then Success(s) else Failure(InvalidDate(Some(s)))
  {
    if ParseDate(s).Some? {
      ParseDateSound(s);
      var e := ParseDate(s).value;
      var mw': nat, dw': nat :| FieldWidthOk(e.month, mw') && FieldWidthOk(e.day, dw') && s == Render(e, mw', dw');
      RenderInjective(d, mw, dw, e, mw', dw');
    }
    if IsRealDate(d) {
      RenderedDateValid(d, mw, dw);
    }
    ParseDateIffValid(s);
  }

  /** February 29, written `YYYY-02-29`, passes the date validator exactly in
      leap years of datetime's range. */
  lemma LeapDayVerdict(s: string, y: nat)
    requires MinYear <= y <= MaxYear
    requires s == Render(Date(y, 2, 29), 2, 2)
    ensures DateValidator(Some(s)).Success? <==> IsLeapYear(y)
  {
    assert Pow10(4) == 10000;
    DateVerdictOfRendering(s, Date(y, 2, 29), 2, 2);
    LeapDayExistsIffLeapYear(y);
  }

  /** A year, a month or a day outside its range makes the written date fail,
      whatever the other two fields hold. */
  lemma OutOfRangeFieldRejected(s: string, d: Date, mw: nat, dw: nat)
    requires d.year < Pow10(4) && FieldWidthOk(d.month, mw) && FieldWidthOk(d.day, dw)
    requires s == Render(d, mw, dw)
    requires d.year < MinYear || d.month < 1 || 12 < d.month || d.day < 1
    ensures DateValidator(Some(s)) == Failure(InvalidDate(Some(s)))
  {
    DateVerdictOfRendering(s, d, mw, dw);
  }

  /** Checking a list written as separate elements joined by commas: it is
      accepted exactly when every element is, and otherwise the error names the
      first element that fails, format errors taking precedence. */
  lemma InnerOfJoined(allowed: Option<set<string>>, elems: seq<string>)
    requires |elems| >= 1
    requires forall i :: 0 <= i < |elems| ==> Comma !in elems[i]
    ensures Inner(allowed, Join(elems, Comma)).Success? <==>
      forall i :: 0 <= i < |elems| ==> IsAccepted(allowed, elems[i])
    ensures Inner(allowed, Join(elems, Comma)).Failure? ==>
      exists k :: IsFirstRejected(allowed, elems, k) &&
        Inner(allowed, Join(elems, Comma)).error == CheckElement(allowed, elems[k]).value
  {
    SplitJoin(elems, Comma);
  }

  /** When the first rejected element of a comma-joined list is known, the
      error is exactly the one that element raises. */
  lemma InnerOfJoinedFailsAt(allowed: Option<set<string>>, elems: seq<string>, k: nat)
    requires forall i :: 0 <= i < |elems| ==> Comma !in elems[i]
    requires IsFirstRejected(allowed, elems, k)
    ensures Inner(allowed, Join(elems, Comma)) == Failure(CheckElement(allowed, elems[k]).value)
  {
    InnerOfJoined(allowed, elems);
    var r := Inner(allowed, Join(elems, Comma));
    var k' :| IsFirstRejected(allowed, elems, k') && r.error == CheckElement(allowed, elems[k']).value;
    assert k' == k;
  }

  /** An empty element anywhere makes the list invalid: the empty string, a
      leading comma, a trailing comma, or two adjacent commas. */
  lemma EmptyElementRejected(allowed: Option<set<string>>, raw: string)
    requires |raw| == 0 || raw[0] == Comma || HasGapAfterSep(raw, Comma)
    ensures Inner(allowed, raw).Failure?
    ensures |raw| == 0 || raw[0] == Comma ==> Inner(allowed, raw) == Failure(BadFormat(""))
  {
    EmptyPieceIff(raw, Comma);
    var elems := Split(raw, Comma);
    assert "" in elems;
    if |raw| == 0 || raw[0] == Comma {
      assert elems[0] == "" by {
        if |raw| > 0 {
          assert elems == [""] + Split(raw[1..], Comma);
        }
      }
      var r := Inner(allowed, raw);
      var k :| IsFirstRejected(allowed, elems, k) &&
        r.error == (if IsMalformed(elems[k]) then BadFormat(elems[k]) else NotAllowed(elems[k]));
      assert k == 0;
    }
  }

  /** An element made only of digits makes the list invalid, wherever it stands. */
  lemma DigitElementRejected(allowed: Option<set<string>>, elems: seq<string>, i: nat)
    requires i < |elems|
    requires forall j :: 0 <= j < |elems| ==> Comma !in elems[j]
    requires IsDigitString(elems[i])
    ensures Inner(allowed, Join(elems, Comma)).Failure?
  {
    InnerOfJoined(allowed, elems);
    assert !IsAccepted(allowed, elems[i]);
  }

  /** With a non-empty allow-list, every element of an accepted list is allowed. */
  lemma AcceptedElementsAllowed(allowed: Option<set<string>>, raw: string)
    requires Restricts(allowed)
    requires Inner(allowed, raw).Success?
    ensures forall p :: p in Split(raw, Comma) ==> p in allowed.value
  {
  }

  /** Without an allow-list (`None` or the empty set) acceptance depends only on
      the format rule, and the two spellings of "no allow-list" agree on every
      input, errors included. */
  lemma UnrestrictedDependsOnFormatOnly(raw: string)
    ensures Inner(None, raw).Success? <==> forall p :: p in Split(raw, Comma) ==> !IsMalformed(p)
    ensures Inner(None, raw) == Inner(Some({}), raw)
  {
    var elems := Split(raw, Comma);
    var k1 := FirstRejected(None, elems);
    var k2 := FirstRejected(Some({}), elems);
    assert forall e :: IsAccepted(None, e) == IsAccepted(Some({}), e);
    assert k1 == k2;
  }

  /** An allow-list only ever rejects more: whatever a list accepts under an
      allow-list it also accepts under any larger allow-list, and with none. */
  lemma AllowListMonotone(s: set<string>, t: set<string>, raw: string)
    requires s != {} && s <= t
    requires Inner(Some(s), raw).Success?
    ensures Inner(Some(t), raw).Success?
    ensures Inner(None, raw).Success?
  {
  }

  /** Validation never rewrites a value: running it again on its own output
      gives the same answer. */
  lemma InnerIdempotent(allowed: Option<set<string>>, raw: string)
    requires Inner(allowed, raw).Success?
    ensures Inner(allowed, Inner(allowed, raw).value) == Inner(allowed, raw)
  {
  }

  /** The error always names one of the pieces the string was split into. */
  lemma ErrorNamesAPiece(allowed: Option<set<string>>, raw: string)
    ensures Inner(allowed, raw).Failure? ==>
      !Inner(allowed, raw).error.InvalidDate? && Inner(allowed, raw).error.elem in Split(raw, Comma)
  {
  }
}
