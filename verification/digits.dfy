/** ASCII decimal digits: recognising them, reading a digit string as a
    number, and writing a number back with a fixed number of digits. */
module Digits {

  predicate IsAsciiDigit(c: char) {
    '0' <= c <= '9'
  }

  predicate AllDigits(s: string) {
    forall i :: 0 <= i < |s| ==> IsAsciiDigit(s[i])
  }

  /** Python's `str.isdigit` over ASCII: at least one character, and every
      character a decimal digit (so the empty string is not a digit string). */
  predicate IsDigitString(s: string) {
    |s| > 0 && AllDigits(s)
  }

  function DigitValue(c: char): (v: nat)
    requires IsAsciiDigit(c)
    ensures v < 10
  {
    c as int - '0' as int
  }

  function DigitChar(v: nat): (c: char)
    requires v < 10
    ensures IsAsciiDigit(c) && DigitValue(c) == v
  {
    ('0' as int + v) as char
  }

  function Pow10(w: nat): (p: nat)
    ensures p >= 1
  {
    if w == 0 then 1 else 10 * Pow10(w - 1)
  }

  /** The number a string of decimal digits denotes (most significant first). */
  function DigitsValue(s: string): (v: nat)
    requires AllDigits(s)
    ensures v < Pow10(|s|)
  {
    if |s| == 0 then 0
    else DigitsValue(s[..|s| - 1]) * 10 + DigitValue(s[|s| - 1])
  }

  /** The last `w` decimal digits of `n`, zero-padded on the left. */
  function Pad(n: nat, w: nat): (s: string)
    ensures |s| == w
    ensures AllDigits(s)
  {
    if w == 0 then [] else Pad(n / 10, w - 1) + [DigitChar(n % 10)]
  }

  /** Writing a number that fits in `w` digits and reading it back gives the number. */
  lemma {:induction false} PadValue(n: nat, w: nat)
    requires n < Pow10(w)
    ensures DigitsValue(Pad(n, w)) == n
  {
    if w > 0 {
      var s := Pad(n, w);
      var q, r := n / 10, n % 10;
      assert n == q * 10 + r;
      assert q < Pow10(w - 1) by {
        assert Pow10(w) == 10 * Pow10(w - 1);
      }
      assert s[..w - 1] == Pad(q, w - 1);
      PadValue(q, w - 1);
      assert DigitsValue(s) == DigitsValue(Pad(q, w - 1)) * 10 + r;
    }
  }

  /** Reading a digit string and writing it back at its own width gives the string:
      leading zeros included. */
  lemma {:induction false} ValuePad(s: string)
    requires AllDigits(s)
    ensures Pad(DigitsValue(s), |s|) == s
  {
    if |s| > 0 {
      var init := s[..|s| - 1];
      var v := DigitsValue(s);
      var d := DigitValue(s[|s| - 1]);
      assert v == DigitsValue(init) * 10 + d;
      assert v / 10 == DigitsValue(init) && v % 10 == d;
      ValuePad(init);
      assert DigitChar(d) == s[|s| - 1];
      assert s == init + [s[|s| - 1]];
    }
  }

  /** The number written by the digits at positions `i` up to `j` of `s`, read
      in place (without slicing). */
  function FieldValue(s: string, i: nat, j: nat): (v: nat)
    requires i <= j <= |s|
    requires forall k :: i <= k < j ==> IsAsciiDigit(s[k])
    decreases j - i
  {
    if i == j then 0 else FieldValue(s, i, j - 1) * 10 + DigitValue(s[j - 1])
  }

  /** Reading a field in place agrees with reading its slice. */
  lemma {:induction false} FieldValueOfSlice(s: string, i: nat, j: nat)
    requires i <= j <= |s|
    requires forall k :: i <= k < j ==> IsAsciiDigit(s[k])
    ensures AllDigits(s[i..j])
    ensures FieldValue(s, i, j) == DigitsValue(s[i..j])
    decreases j - i
  {
    assert forall k :: 0 <= k < j - i ==> s[i..j][k] == s[i + k];
    if i < j {
      FieldValueOfSlice(s, i, j - 1);
      assert s[i..j][..j - 1 - i] == s[i..j - 1];
    }
  }

  /** Length of the run of digits in `s` that starts at index `i`: the run is all
      digits and is maximal (it stops at the end of `s` or at a non-digit). */
  function DigitRunLength(s: string, i: nat): (k: nat)
    requires i <= |s|
    ensures i + k <= |s|
    ensures forall j :: i <= j < i + k ==> IsAsciiDigit(s[j])
    ensures i + k == |s| || !IsAsciiDigit(s[i + k])
    decreases |s| - i
  {
    if i < |s| && IsAsciiDigit(s[i]) then 1 + DigitRunLength(s, i + 1) else 0
  }

  /** A maximal run of digits has exactly one length. */
  lemma DigitRunLengthUnique(s: string, i: nat, w: nat)
    requires i + w <= |s|
    requires AllDigits(s[i..i + w])
    requires i + w == |s| || !IsAsciiDigit(s[i + w])
    ensures DigitRunLength(s, i) == w
  {
    forall j | i <= j < i + w
      ensures IsAsciiDigit(s[j])
    {
      assert s[i..i + w][j - i] == s[j];
    }
  }
}
