/** The floating-point text conversions face.go calls, strconv.FormatFloat(v, 'f', -1, 64),
    fmt's `%g` and strconv.ParseFloat(s, 64). They belong to Go's runtime, not to this model,
    so the model takes them as parameters; axis values are exact reals. */
module Floats {
  import opened Wrappers
  import Shlex

  datatype FloatText = FloatText(
    formatF: real -> string,                 // strconv.FormatFloat(v, 'f', -1, 64)
    formatG: real -> string,                 // fmt.Sprintf("%g", v)
    parseFloat: string -> Option<real>)      // strconv.ParseFloat(s, 64), None on error

  /** At the value x both formats write text that reads back as x (Go's shortest formatting,
      `%g` without a precision included, does so for every float64), and `%g` writes one bare
      shell word (digits, `.`, `e`, signs). */
  ghost predicate ExactAt(ft: FloatText, x: real) {
    && ft.parseFloat(ft.formatF(x)) == Some(x)
    && ft.parseFloat(ft.formatG(x)) == Some(x)
    && ft.formatG(x) != [] && Shlex.AllSafe(ft.formatG(x))
  }

  /** The formats read back exactly at every value of xs: the axis values a description
      holds, each of which ParseFloat produced. */
  ghost predicate ExactOn(ft: FloatText, xs: set<real>) {
    forall x :: x in xs ==> ExactAt(ft, x)
  }

  /** Exactness on the values of a map holds at each entry. */
  lemma ExactIn(ft: FloatText, m: map<string, real>, k: string)
    requires ExactOn(ft, m.Values) && k in m
    ensures ExactAt(ft, m[k])
  {
    assert m[k] in m.Values;
  }

  /** A formatter that writes `0.5` and `400` and reads them back, so exactness on a set of
      axis values can be met. */
  function HalfAndFourHundred(): FloatText {
    FloatText(
      x => if x == 0.5 then "0.5" else "400",
      x => if x == 0.5 then "0.5" else "400",
      s => if s == "0.5" then Some(0.5) else if s == "400" then Some(400.0) else None)
  }

  lemma ExactOnMeetable()
    ensures ExactOn(HalfAndFourHundred(), {0.5, 400.0})
    ensures !ExactOn(HalfAndFourHundred(), {1.0})
  {
    var ft := HalfAndFourHundred();
    assert Shlex.AllSafe("0.5") by {
      assert forall i :: 0 <= i < 3 ==> Shlex.IsSafe("0.5"[i]);
    }
    assert Shlex.AllSafe("400") by {
      assert forall i :: 0 <= i < 3 ==> Shlex.IsSafe("400"[i]);
    }
    assert ExactAt(ft, 0.5) && ExactAt(ft, 400.0);
    assert !ExactAt(ft, 1.0);
  }
}
