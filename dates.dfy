/** Calendar dates in the `YYYY-MM-DD` form that a date input yields and that
    `toISOString().split("T")[0]` produces. The board compares such dates as
    plain strings; this module shows that for two well-formed dates the
    string order is the chronological order. */
module Dates {
  import opened Text

  predicate IsDigit(c: char)
  {
    '0' <= c <= '9'
  }

  predicate AllDigits(s: string)
  {
    forall i :: 0 <= i < |s| ==> IsDigit(s[i])
  }

  function DigitValue(c: char): int
  {
    c as int - '0' as int
  }

  /** The decimal value of a string of digits, most significant first. */
  function Num(s: string): nat
    requires AllDigits(s)
  {
    if |s| == 0 then 0
    else 10 * Num(s[..|s| - 1]) + DigitValue(s[|s| - 1])
  }

  /** For digit strings of equal length, string order is numeric order, and
      equal values mean equal strings. */
  lemma {:induction false} DigitOrderIsNumericOrder(a: string, b: string)
    requires AllDigits(a) && AllDigits(b) && |a| == |b|
    ensures LexLess(a, b) <==> Num(a) < Num(b)
    ensures Num(a) == Num(b) <==> a == b
  {
    if |a| > 0 {
      var n := |a| - 1;
      var a', b' := a[..n], b[..n];
      DigitOrderIsNumericOrder(a', b');
      assert a == a' + [a[n]] && b == b' + [b[n]];
      LexLessConcat(a', b', [a[n]], [b[n]]);
      if a' != b' {
        LexLessTotal(a', b');
      }
    } else {
      LexLessIrreflexive(a);
    }
  }

  /** `YYYY-MM-DD`: four digits, a dash, two digits, a dash, two digits. No
      range check on the month or the day is made, as none is made by the
      board. */
  predicate IsIsoDate(s: string)
  {
    |s| == 10 && AllDigits(s[..4]) && s[4] == '-' &&
    AllDigits(s[5..7]) && s[7] == '-' && AllDigits(s[8..])
  }

  function Year(s: string): nat
    requires IsIsoDate(s)
  {
    Num(s[..4])
  }

  function Month(s: string): nat
    requires IsIsoDate(s)
  {
    Num(s[5..7])
  }

  function Day(s: string): nat
    requires IsIsoDate(s)
  {
    Num(s[8..])
  }

  /** Chronological order: by year, then month, then day. */
  predicate Earlier(a: string, b: string)
    requires IsIsoDate(a) && IsIsoDate(b)
  {
    Year(a) < Year(b) ||
    (Year(a) == Year(b) && (Month(a) < Month(b) || (Month(a) == Month(b) && Day(a) < Day(b))))
  }

  /** One field of two dates: comparing the rest of the strings after it. */
  lemma FieldThenRest(p: string, q: string, x: string, y: string)
    requires AllDigits(p) && AllDigits(q) && |p| == |q|
    ensures LexLess(p + x, q + y) <==>
            Num(p) < Num(q) || (Num(p) == Num(q) && LexLess(x, y))
  {
    LexLessConcat(p, q, x, y);
    DigitOrderIsNumericOrder(p, q);
  }

  /** A dash followed by the rest: the dash never decides. */
  lemma DashThenRest(x: string, y: string)
    ensures LexLess("-" + x, "-" + y) <==> LexLess(x, y)
  {
    LexLessConcat("-", "-", x, y);
    LexLessIrreflexive("-");
  }

  /** For two well-formed dates, the string comparison `a < b` holds exactly
      when `a` is the chronologically earlier date. */
  lemma {:induction false} IsoDateOrderIsChronological(a: string, b: string)
    requires IsIsoDate(a) && IsIsoDate(b)
    ensures LexLess(a, b) <==> Earlier(a, b)
  {
    assert a == a[..4] + ("-" + (a[5..7] + ("-" + a[8..])));
    assert b == b[..4] + ("-" + (b[5..7] + ("-" + b[8..])));
    FieldThenRest(a[..4], b[..4], "-" + (a[5..7] + ("-" + a[8..])), "-" + (b[5..7] + ("-" + b[8..])));
    DashThenRest(a[5..7] + ("-" + a[8..]), b[5..7] + ("-" + b[8..]));
    FieldThenRest(a[5..7], b[5..7], "-" + a[8..], "-" + b[8..]);
    DashThenRest(a[8..], b[8..]);
    assert a[8..] == a[8..] + "" && b[8..] == b[8..] + "";
    FieldThenRest(a[8..], b[8..], "", "");
    LexLessIrreflexive("");
  }
}
