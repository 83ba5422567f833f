/** The slice of JavaScript number semantics the frontend utilities rely on:
    `Number(text)`, the comparisons `<`, `<=`, `===` and subtraction, with NaN
    (and `undefined`, which behaves as NaN in all of them) kept explicit. */
module JsNumber {
  import opened Text

  /** A JavaScript number restricted to integers, plus NaN. */
  datatype Num = Finite(v: int) | NaN

  /** `Number(s)`: surrounding whitespace is ignored, the empty string is 0,
      a run of decimal digits is its value, anything else is NaN. */
  function ToNumber(s: string): (n: Num)
    ensures n.Finite? ==> n.v >= 0
    ensures n.Finite? <==> (Trim(s) == "" || AllDigits(Trim(s)))
  {
    var t := Trim(s);
    if t == "" then Finite(0)
    else if AllDigits(t) then Finite(DigitsValue(t))
    else NaN
  }

  /** `a < b`: false whenever either side is NaN. */
  predicate Less(a: Num, b: Num) {
    a.Finite? && b.Finite? && a.v < b.v
  }

  /** `a <= b`: false whenever either side is NaN. */
  predicate LessEq(a: Num, b: Num) {
    a.Finite? && b.Finite? && a.v <= b.v
  }

  /** `a === b`: NaN equals nothing, itself included. */
  predicate StrictEquals(a: Num, b: Num) {
    a.Finite? && b.Finite? && a.v == b.v
  }

  /** `a - b`: NaN when either side is NaN. */
  function Minus(a: Num, b: Num): (r: Num)
    ensures r.Finite? <==> a.Finite? && b.Finite?
    ensures r.Finite? ==> r.v + b.v == a.v
  {
    if a.Finite? && b.Finite? then Finite(a.v - b.v) else NaN
  }

  /** `-a`. */
  function Negate(a: Num): (r: Num)
    ensures r.Finite? <==> a.Finite?
    ensures r.Finite? ==> r.v + a.v == 0
  {
    if a.Finite? then Finite(-a.v) else NaN
  }

  /** `n > 0`, the test a sort comparator's result is read with. */
  predicate IsPositive(n: Num) {
    n.Finite? && n.v > 0
  }

  /** A zero-padded decimal rendering reads back as its value. */
  lemma ToNumberPadded(n: nat, width: nat)
    ensures ToNumber(PadNat(n, width)) == Finite(n)
  {
    var s := PadNat(n, width);
    if |s| > 0 {
      assert !IsJsSpace(s[0]) && !IsJsSpace(s[|s| - 1]) by {
        assert IsDigit(s[0]) && IsDigit(s[|s| - 1]);
      }
    }
    TrimUnchanged(s, IsJsSpace);
  }
}
