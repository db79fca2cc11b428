/** The arithmetic of a variable-font axis control: draw_axis lays out one clickable cell per
    column and highlights the cell of the current value; a click on cell i of a control whose
    last index is d asks for the value Minimum + (Maximum - Minimum) * i / d. Values are reals:
    IEEE rounding is not part of this model. */
module Axis {
  import opened Wrappers
  import Text
  import Decimal

  /** The part of a font's VariableAxis record the control reads. */
  datatype VariableAxis = VariableAxis(tag: string, strid: string, minimum: real, maximum: real, hidden: bool)

  /** The tags of the axes, in the order the font lists them. */
  function Tags(axes: seq<VariableAxis>): (r: seq<string>)
    ensures |r| == |axes| && forall j :: 0 <= j < |axes| ==> r[j] == axes[j].tag
  {
    if axes == [] then [] else [axes[0].tag] + Tags(axes[1..])
  }

  function Min(a: real, b: real): real {
    if a <= b then a else b
  }

  /** floor(q * (n - 1)) stays in [0, n - 1) for 0 <= q < 1. */
  lemma ScaledFloor(q: real, n: int)
    requires 0.0 <= q < 1.0 && n >= 1
    ensures 0 <= (q * (n - 1) as real).Floor < n
  {
    var m := (n - 1) as real;
    assert 0.0 <= q * m by {
      assert m >= 0.0;
    }
    assert q * m <= m by {
      assert (1.0 - q) * m >= 0.0;
    }
  }

  /** The fraction draw_axis computes, scaled to the cell indices, before flooring. */
  function Scaled(ax: VariableAxis, value: real, numCells: int): real
    requires ax.maximum != ax.minimum
  {
    (Min(value, ax.maximum) - ax.minimum) / (ax.maximum - ax.minimum) * (numCells - 1) as real
  }

  lemma ScaledBounds(ax: VariableAxis, value: real, numCells: int)
    requires ax.minimum < ax.maximum
    ensures ax.minimum <= value && numCells >= 1 ==> 0 <= Scaled(ax, value, numCells).Floor < numCells
    ensures value >= ax.maximum ==> Scaled(ax, value, numCells).Floor == numCells - 1
    ensures value < ax.minimum && numCells >= 2 ==> Scaled(ax, value, numCells).Floor < 0
  {
    var span := ax.maximum - ax.minimum;
    var frac := (Min(value, ax.maximum) - ax.minimum) / span;
    assert Scaled(ax, value, numCells) == frac * (numCells - 1) as real;
    if value >= ax.maximum {
      assert Min(value, ax.maximum) == ax.maximum;
      assert frac == span / span;
      assert span / span == 1.0;
    } else if ax.minimum <= value && numCells >= 1 {
      assert frac < 1.0 by {
        assert Min(value, ax.maximum) - ax.minimum < span;
      }
      ScaledFloor(frac, numCells);
    } else if value < ax.minimum && numCells >= 2 {
      assert frac < 0.0;
    }
  }

  /** The index draw_axis highlights, or None when Maximum equals Minimum. The fraction then
      divides by zero and is NaN or an infinity; Go leaves `int` of such a value to the
      platform. On amd64 it is the smallest int64, so no cell is the current one, and the
      model follows amd64 (on arm64, NaN converts to 0 and would highlight cell 0). */
  function CurrentCell(ax: VariableAxis, value: real, numCells: int): (r: Option<int>)
    ensures r.Some? <==> ax.maximum != ax.minimum
    ensures ax.minimum < ax.maximum && ax.minimum <= value && numCells >= 1 ==> 0 <= r.value < numCells
    ensures ax.minimum < ax.maximum && value >= ax.maximum ==> r.value == numCells - 1
    ensures ax.minimum < ax.maximum && value < ax.minimum && numCells >= 2 ==> r.value < 0
  {
    if ax.maximum == ax.minimum then None
    else if ax.minimum < ax.maximum then
      ScaledBounds(ax, value, numCells);
      Some(Scaled(ax, value, numCells).Floor)
    else Some(Scaled(ax, value, numCells).Floor)
  }

  /** The payload after `axis:` in the link of cell i of a control whose last index is d. */
  function AxisPayload(i: nat, d: nat, tag: string): string {
    Decimal.FormatNat(i) + "/" + Decimal.FormatNat(d) + ":" + tag
  }

  function AxisId(i: nat, d: nat, tag: string): string {
    "axis:" + AxisPayload(i, d, tag)
  }

  /** One cell of the control: the current value, or a link to a value. */
  datatype Cell = Current | Link(id: string)

  /** What draw_axis writes for cell i. */
  function CellAt(ax: VariableAxis, value: real, numCells: int, i: nat): Cell
    requires numCells >= 1
  {
    if CurrentCell(ax, value, numCells) == Some(i) then Current else Link(AxisId(i, numCells - 1, ax.tag))
  }

  /** draw_axis, without its label and styling: `numCells` is the width left after the label;
      fewer than five cells draw no control at all. */
  method DrawAxis(ax: VariableAxis, value: real, numCells: int) returns (cells: seq<Cell>)
    ensures numCells < 5 ==> cells == []
    ensures numCells >= 5 ==> |cells| == numCells
    ensures numCells >= 5 ==> forall i :: 0 <= i < numCells ==> cells[i] == CellAt(ax, value, numCells, i)
  {
    cells := [];
    if numCells < 5 {
      return;
    }
    var current := CurrentCell(ax, value, numCells);
    var i := 0;
    while i < numCells
      invariant 0 <= i <= numCells
      invariant |cells| == i
      invariant forall j :: 0 <= j < i ==> cells[j] == CellAt(ax, value, numCells, j)
    {
      var cell := if current == Some(i) then Current else Link(AxisId(i, numCells - 1, ax.tag));
      cells := cells + [cell];
      i := i + 1;
    }
  }

  /** A control over a proper range, for a value inside it, has exactly one current cell and
      every other cell links to its own index. */
  lemma OneCurrentCell(ax: VariableAxis, value: real, numCells: int)
    requires numCells >= 5 && ax.minimum < ax.maximum && ax.minimum <= value
    ensures exists i :: 0 <= i < numCells && CellAt(ax, value, numCells, i) == Current
    ensures forall i, j :: 0 <= i < j < numCells ==> !(CellAt(ax, value, numCells, i) == Current == CellAt(ax, value, numCells, j))
    ensures forall i :: 0 <= i < numCells && CellAt(ax, value, numCells, i) != Current ==> CellAt(ax, value, numCells, i) == Link(AxisId(i, numCells - 1, ax.tag))
  {
    var c := CurrentCell(ax, value, numCells).value;
    assert CellAt(ax, value, numCells, c) == Current;
  }

  /** The target of an `axis:` link, as on_click reads it: the index and the last index with
      strconv.Atoi (errors ignored), and the tag after the first colon. */
  datatype AxisTarget = AxisTarget(n: int, d: int, tag: string)

  function DecodeAxisPayload(val: string): AxisTarget {
    var p := Text.Cut(val, ':');
    var q := Text.Cut(p.before, '/');
    AxisTarget(Decimal.Atoi(q.before), Decimal.Atoi(q.after), p.after)
  }

  /** The link draw_axis writes decodes to the cell it was written for. */
  lemma DecodeAxisPayloadOf(i: nat, d: nat, tag: string)
    requires i <= Decimal.MaxInt64 && d <= Decimal.MaxInt64
    ensures DecodeAxisPayload(AxisPayload(i, d, tag)) == AxisTarget(i, d, tag)
  {
    var k := Decimal.FormatNat(i) + "/" + Decimal.FormatNat(d);
    assert AxisPayload(i, d, tag) == k + [':'] + tag;
    assert ':' !in k by {
      assert forall j :: 0 <= j < |k| ==> k[j] == (if j < |Decimal.FormatNat(i)| then Decimal.FormatNat(i)[j] else if j == |Decimal.FormatNat(i)| then '/' else Decimal.FormatNat(d)[j - |Decimal.FormatNat(i)| - 1]);
    }
    Text.CutAt(k, ':', tag);
    assert k == Decimal.FormatNat(i) + ['/'] + Decimal.FormatNat(d);
    Text.CutAt(Decimal.FormatNat(i), '/', Decimal.FormatNat(d));
  }

  /** The value on_click asks for: Minimum + (Maximum - Minimum) * n / d. */
  function ClickValue(ax: VariableAxis, n: int, d: int): real
    requires d != 0
  {
    ax.minimum + (ax.maximum - ax.minimum) * (n as real / d as real)
  }

  /** The first cell asks for Minimum and the last for Maximum. */
  lemma ClickEndpoints(ax: VariableAxis, d: int)
    requires d != 0
    ensures ClickValue(ax, 0, d) == ax.minimum
    ensures ClickValue(ax, d, d) == ax.maximum
  {
  }

  /** Every cell of a control asks for a value inside the axis range. */
  lemma ClickInRange(ax: VariableAxis, n: int, d: int)
    requires 0 <= n <= d && d > 0 && ax.minimum <= ax.maximum
    ensures ax.minimum <= ClickValue(ax, n, d) <= ax.maximum
  {
    var f := n as real / d as real;
    assert 0.0 <= f <= 1.0;
    var span := ax.maximum - ax.minimum;
    assert 0.0 <= span * f by {
      assert span >= 0.0;
    }
    assert span * f <= span by {
      assert span * (1.0 - f) >= 0.0;
    }
  }

  /** Clicking cell i of a control makes i the highlighted cell when the control is drawn
      again for the value asked for. */
  lemma ClickHighlights(ax: VariableAxis, i: int, numCells: int)
    requires numCells >= 2 && 0 <= i < numCells && ax.minimum < ax.maximum
    ensures CurrentCell(ax, ClickValue(ax, i, numCells - 1), numCells) == Some(i)
  {
    var d := numCells - 1;
    var f := i as real / d as real;
    var span := ax.maximum - ax.minimum;
    var v := ClickValue(ax, i, d);
    ClickInRange(ax, i, d);
    assert Min(v, ax.maximum) == v;
    assert (v - ax.minimum) / span == f by {
      assert v - ax.minimum == span * f;
    }
    assert f * d as real == i as real;
    assert Scaled(ax, v, numCells) == i as real;
  }
}
