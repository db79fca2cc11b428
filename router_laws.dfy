/** What the setting texts of the style and variable-font controls mean: NewFontSpec
    (corrected) reads each back as the selection the control made. */
module RouterLaws {
  import opened Wrappers
  import Text
  import Shlex
  import Floats
  import MapOrder
  import opened FontSpecCodec
  import opened FontSpecLaws
  import opened Router

  // ---------------------------------------------------------------- the style control

  /** A safe key followed by a double-quoted value is read as one word. */
  lemma LexQuotedWord(key: string, v: string, y: string, acc: seq<string>)
    requires key != [] && Shlex.AllSafe(key) && '"' !in v && '\\' !in v
    ensures Shlex.Lex(key + "\"" + v + "\"" + y, Shlex.Between, "", acc) == Shlex.Lex(y, Shlex.Bare, key + v, acc)
  {
    var u := "\"" + v + "\"" + y;
    var t := key + u;
    assert key + "\"" + v + "\"" + y == t;
    assert t[0] == key[0];
    assert Shlex.Lex(t, Shlex.Between, "", acc) == Shlex.Lex(t, Shlex.Bare, "", acc);
    Shlex.LexSafe(key, u, "", acc);
    assert "" + key == key;
    assert u[0] == '"' && u[1..] == v + "\"" + y;
    Shlex.LexDoubleQuoted(v, y, key, acc);
  }

  /** shlex.Split of the style control's text gives the two words `family=F` and `style=S`. */
  lemma StyleSpecWords(family: string, style: string)
    requires '"' !in family && '\\' !in family && '"' !in style && '\\' !in style
    ensures Shlex.Split(StyleSpec(family, style)) == Ok(["family=" + family, "style=" + style])
  {
    var w1 := "family=" + family;
    var w2 := "style=" + style;
    var rest := "style=" + "\"" + style + "\"" + "";
    assert StyleSpec(family, style) == "family=" + "\"" + family + "\"" + (" " + rest);
    assert Shlex.AllSafe("family=") && Shlex.AllSafe("style=");
    LexQuotedWord("family=", family, " " + rest, []);
    assert Shlex.Split(StyleSpec(family, style)) == Shlex.Lex(" " + rest, Shlex.Bare, w1, []);
    Shlex.LexBlank(rest, w1, []);
    assert [] + [w1] == [w1];
    LexQuotedWord("style=", style, "", [w1]);
    assert Shlex.Lex(rest, Shlex.Between, "", [w1]) == Shlex.Lex("", Shlex.Bare, w2, [w1]);
    assert Shlex.Lex("", Shlex.Bare, w2, [w1]) == Ok([w1] + [w2]);
    assert [w1] + [w2] == [w1, w2];
    assert Shlex.Lex(" " + rest, Shlex.Bare, w1, []) == Shlex.Lex(rest, Shlex.Between, "", [w1]);
  }

  function StyleSelection(family: string, style: string): FontSpec {
    EmptySpec.(family := SetTo(family), style := SetTo(style))
  }

  /** The two words are read as the family and the style. */
  lemma ParseStyleWords(rev: Revision, spec: string, family: string, style: string, ft: Floats.FloatText)
    ensures ParseItems(rev, EmptySpec, spec, ["family=" + family, "style=" + style], ft) == Ok(StyleSelection(family, style))
  {
    var a := FieldWord(Key(Family), SetTo(family));
    var b := FieldWord(Key(Style), SetTo(style));
    var ab := [Word(Key(Family), family), Word(Key(Style), style)];
    assert a + b == ab;
    assert Decoded(ab[0]) == "family=" + family && Decoded(ab[1]) == "style=" + style;
    assert DecodedAll(ab) == [Decoded(ab[0])] + DecodedAll(ab[1..]);
    assert DecodedAll(ab[1..]) == [Decoded(ab[1])] + DecodedAll([]);
    assert DecodedAll(a + b) == ["family=" + family, "style=" + style];
    var m1 := Copy(EmptySpec, Family, SetTo(family));
    ParseField(rev, EmptySpec, spec, Family, SetTo(family), ft);
    ParseField(rev, m1, spec, Style, SetTo(style), ft);
    assert Copy(m1, Style, SetTo(style)) == StyleSelection(family, style);
    ParseThen(rev, EmptySpec, m1, StyleSelection(family, style), spec, a, b, ft);
  }

  /** The style control selects the family and the style it names, provided neither name
      holds a double quote or a backslash (the text does not escape them). */
  lemma ParseStyleSpec(rev: Revision, family: string, style: string, ft: Floats.FloatText)
    requires '"' !in family && '\\' !in family && '"' !in style && '\\' !in style
    ensures Parse(rev, StyleSpec(family, style), ft) == Ok(StyleSelection(family, style))
  {
    var spec := StyleSpec(family, style);
    var w1 := "family=" + family;
    StyleSpecWords(family, style);
    assert |spec| >= 16;
    assert '=' in w1 by {
      assert w1[6] == '=';
    }
    ParseStyleWords(rev, spec, family, style, ft);
  }

  // ---------------------------------------------------------------- the variable-font controls

  /** The float text with `%g` in the place of FormatFloat: the axis words variable_spec
      writes are the words String writes with this format. */
  function GFormat(ft: Floats.FloatText): Floats.FloatText {
    ft.(formatF := ft.formatG)
  }

  lemma ExactG(ft: Floats.FloatText, xs: set<real>)
    requires Floats.ExactOn(ft, xs)
    ensures Floats.ExactOn(GFormat(ft), xs)
  {
  }

  /** The float formats read back exactly at the axis values variable_spec writes: the
      merged values, when there are overrides. */
  ghost predicate ValuesExact(overrides: Option<map<string, real>>, current: map<string, real>, ft: Floats.FloatText) {
    overrides.Some? ==> Floats.ExactOn(ft, MergedAxes(current, overrides.value).Values)
  }

  /** NewFontSpec reads float text only through ParseFloat. */
  lemma {:induction false} ParseItemsSameFloats(rev: Revision, ans: FontSpec, spec: string, items: seq<string>, ft1: Floats.FloatText, ft2: Floats.FloatText)
    requires ft1.parseFloat == ft2.parseFloat
    ensures ParseItems(rev, ans, spec, items, ft1) == ParseItems(rev, ans, spec, items, ft2)
    decreases |items|
  {
    if items != [] {
      assert ParseItem(rev, ans, spec, items[0], ft1) == ParseItem(rev, ans, spec, items[0], ft2);
      match ParseItem(rev, ans, spec, items[0], ft1)
      case Err(e) =>
      case Ok(next) => ParseItemsSameFloats(rev, next, spec, items[1..], ft1, ft2);
    }
  }

  /** ` tag=%g` is the quoted word, since `%g` writes a bare word. */
  lemma {:induction false} AxesTextEmit(axes: map<string, real>, order: seq<string>, ft: Floats.FloatText)
    requires Floats.ExactOn(ft, axes.Values) && forall i :: 0 <= i < |order| ==> order[i] in axes
    ensures AxesText(axes, order, ft) == Emit(AxisWords(axes, order, GFormat(ft)))
    decreases |order|
  {
    if order != [] {
      var k := order[0];
      var g := ft.formatG(axes[k]);
      var rest := AxisWords(axes, order[1..], GFormat(ft));
      Floats.ExactIn(ft, axes, k);
      assert Shlex.Quote(g) == g;
      var e := Encode(Word(k, g));
      assert e == k + "=" + g;
      assert AxesText(axes, order, ft) == " " + e + AxesText(axes, order[1..], ft);
      assert AxisWords(axes, order, GFormat(ft)) == [Word(k, g)] + rest;
      assert Emit([Word(k, g)] + rest) == " " + e + Emit(rest) by {
        assert ([Word(k, g)] + rest)[0] == Word(k, g);
        assert ([Word(k, g)] + rest)[1..] == rest;
      }
      AxesTextEmit(axes, order[1..], ft);
    }
  }

  predicate OverridesOk(overrides: Option<map<string, real>>, current: map<string, real>, order: seq<string>) {
    overrides.Some? ==> MapOrder.IsEnumeration(order, MergedAxes(current, overrides.value).Keys)
  }

  /** The words variable_spec writes: family, variable name, then the axes or the style. */
  function VariableTail(namedStyle: string, overrides: Option<map<string, real>>, current: map<string, real>,
                        order: seq<string>, ft: Floats.FloatText): seq<Word>
    requires OverridesOk(overrides, current, order)
  {
    if overrides.Some? then AxisWords(MergedAxes(current, overrides.value), order, GFormat(ft))
    else FieldWord(Key(Style), if namedStyle != "" then SetTo(namedStyle) else Unset)
  }

  function VariableWords(family: string, vname: string, namedStyle: string, overrides: Option<map<string, real>>,
                         current: map<string, real>, order: seq<string>, ft: Floats.FloatText): seq<Word>
    requires OverridesOk(overrides, current, order)
  {
    FieldWord(Key(Family), SetTo(family)) + FieldWord(Key(VariableName), SetTo(vname))
    + VariableTail(namedStyle, overrides, current, order, ft)
  }

  /** The text after the family and variable-name words is the tail's words. */
  lemma VariableTailEmit(namedStyle: string, overrides: Option<map<string, real>>,
                         current: map<string, real>, order: seq<string>, ft: Floats.FloatText)
    requires OverridesOk(overrides, current, order) && ValuesExact(overrides, current, ft)
    ensures Emit(VariableTail(namedStyle, overrides, current, order, ft)) == VariableRest(namedStyle, overrides, current, order, ft)
  {
    if overrides.Some? {
      AxesTextEmit(MergedAxes(current, overrides.value), order, ft);
    } else if namedStyle != "" {
      var w := Word(Key(Style), namedStyle);
      assert Emit([w]) == " " + Encode(w) + Emit([]);
    }
  }

  lemma VariableSpecBody(family: string, vname: string, namedStyle: string, overrides: Option<map<string, real>>,
                         current: map<string, real>, order: seq<string>, ft: Floats.FloatText)
    requires OverridesOk(overrides, current, order) && ValuesExact(overrides, current, ft)
    ensures |VariableWords(family, vname, namedStyle, overrides, current, order, ft)| >= 2
    ensures VariableSpecText(family, vname, namedStyle, overrides, current, order, ft)
         == Body(VariableWords(family, vname, namedStyle, overrides, current, order, ft))
  {
    var w1 := Word(Key(Family), family);
    var w2 := Word(Key(VariableName), vname);
    var tail := VariableTail(namedStyle, overrides, current, order, ft);
    var ws := VariableWords(family, vname, namedStyle, overrides, current, order, ft);
    var h := VariableHead(family, vname);
    var r := VariableRest(namedStyle, overrides, current, order, ft);
    assert ws == [w1] + ([w2] + tail);
    assert ws[0] == w1 && ws[1..] == [w2] + tail;
    assert Body(ws) == Encode(w1) + Emit([w2] + tail);
    EmitAppend([w2], tail);
    VariableTailEmit(namedStyle, overrides, current, order, ft);
    HeadWords(family, vname);
    Text.Assoc(Encode(w1), Emit([w2]), r);
  }

  lemma HeadWords(family: string, vname: string)
    ensures VariableHead(family, vname) == Encode(Word(Key(Family), family)) + Emit([Word(Key(VariableName), vname)])
  {
    var qf, qv := Shlex.Quote(family), Shlex.Quote(vname);
    var w2 := Word(Key(VariableName), vname);
    var e1 := Encode(Word(Key(Family), family));
    var e2 := Encode(w2);
    assert Emit([w2]) == " " + e2 + Emit([]);
    assert Emit([w2]) == " " + e2;
    assert e1 == "family=" + qf;
    assert e2 == "variable_name=" + qv;
    Text.Assoc(" ", "variable_name=", qv);
    assert " " + "variable_name=" == " variable_name=";
    Text.Assoc(e1, " variable_name=", qv);
  }

  predicate AxisKeysOk(overrides: Option<map<string, real>>, current: map<string, real>) {
    overrides.Some? ==> forall k :: k in MergedAxes(current, overrides.value) ==> AxisKeyOk(k)
  }

  lemma VariableWordsSafe(family: string, vname: string, namedStyle: string, overrides: Option<map<string, real>>,
                          current: map<string, real>, order: seq<string>, ft: Floats.FloatText)
    requires OverridesOk(overrides, current, order) && AxisKeysOk(overrides, current)
    ensures KeysSafe(VariableWords(family, vname, namedStyle, overrides, current, order, ft))
  {
    var a := FieldWord(Key(Family), SetTo(family));
    var b := FieldWord(Key(VariableName), SetTo(vname));
    var tail := VariableTail(namedStyle, overrides, current, order, ft);
    FieldWordSafe(Family, SetTo(family));
    FieldWordSafe(VariableName, SetTo(vname));
    if overrides.Some? {
      AxisWordsSafe(MergedAxes(current, overrides.value), order, GFormat(ft));
    } else {
      FieldWordSafe(Style, if namedStyle != "" then SetTo(namedStyle) else Unset);
    }
    KeysSafeAppend(a, b);
    KeysSafeAppend(a + b, tail);
  }

  /** The selection a variable-font control makes: the family and the variable font, then
      the merged axis values, or the named style when there are no overrides. */
  function VariableSelection(family: string, vname: string, namedStyle: string, overrides: Option<map<string, real>>,
                             current: map<string, real>): FontSpec {
    EmptySpec.(family := SetTo(family), variableName := SetTo(vname),
               style := if overrides.None? && namedStyle != "" then SetTo(namedStyle) else Unset,
               axes := if overrides.Some? then MergedAxes(current, overrides.value) else map[])
  }

  /** The tail of the words is read onto the family and the variable name. */
  lemma ParseVariableTail(m2: FontSpec, spec: string, namedStyle: string, overrides: Option<map<string, real>>,
                          current: map<string, real>, order: seq<string>, ft: Floats.FloatText)
    requires OverridesOk(overrides, current, order) && AxisKeysOk(overrides, current) && ValuesExact(overrides, current, ft)
    requires m2.axes == map[] && m2.style == Unset
    ensures ParseItems(Corrected, m2, spec, DecodedAll(VariableTail(namedStyle, overrides, current, order, ft)), ft)
         == Ok(m2.(style := if overrides.None? && namedStyle != "" then SetTo(namedStyle) else Unset,
                   axes := if overrides.Some? then MergedAxes(current, overrides.value) else map[]))
  {
    var tail := VariableTail(namedStyle, overrides, current, order, ft);
    if overrides.Some? {
      var merged := MergedAxes(current, overrides.value);
      ExactG(ft, merged.Values);
      ParseAxes(m2, spec, merged, order, GFormat(ft));
      ParseItemsSameFloats(Corrected, m2, spec, DecodedAll(tail), GFormat(ft), ft);
      InsertedAll(merged, order);
    } else {
      ParseField(Corrected, m2, spec, Style, if namedStyle != "" then SetTo(namedStyle) else Unset, ft);
    }
  }

  lemma ParseVariableWords(family: string, vname: string, namedStyle: string, overrides: Option<map<string, real>>,
                           current: map<string, real>, order: seq<string>, spec: string, ft: Floats.FloatText)
    requires OverridesOk(overrides, current, order) && AxisKeysOk(overrides, current) && ValuesExact(overrides, current, ft)
    ensures ParseItems(Corrected, EmptySpec, spec, DecodedAll(VariableWords(family, vname, namedStyle, overrides, current, order, ft)), ft)
         == Ok(VariableSelection(family, vname, namedStyle, overrides, current))
  {
    var a := FieldWord(Key(Family), SetTo(family));
    var b := FieldWord(Key(VariableName), SetTo(vname));
    var tail := VariableTail(namedStyle, overrides, current, order, ft);
    var m1 := Copy(EmptySpec, Family, SetTo(family));
    var m2 := Copy(m1, VariableName, SetTo(vname));
    ParseField(Corrected, EmptySpec, spec, Family, SetTo(family), ft);
    ParseField(Corrected, m1, spec, VariableName, SetTo(vname), ft);
    ParseThen(Corrected, EmptySpec, m1, m2, spec, a, b, ft);
    ParseVariableTail(m2, spec, namedStyle, overrides, current, order, ft);
    ParseThen(Corrected, EmptySpec, m2, VariableSelection(family, vname, namedStyle, overrides, current), spec, a + b, tail, ft);
  }

  /** NewFontSpec (corrected) reads variable_spec's text back as the selection it makes,
      whatever order the axis map is walked in, provided the axis tags are bare words that
      are not field names and `%g` reads back exactly at the axis values it writes. */
  lemma ParseVariableSpec(family: string, vname: string, namedStyle: string, overrides: Option<map<string, real>>,
                          current: map<string, real>, order: seq<string>, ft: Floats.FloatText)
    requires OverridesOk(overrides, current, order) && AxisKeysOk(overrides, current) && ValuesExact(overrides, current, ft)
    ensures Parse(Corrected, VariableSpecText(family, vname, namedStyle, overrides, current, order, ft), ft)
         == Ok(VariableSelection(family, vname, namedStyle, overrides, current))
  {
    var text := VariableSpecText(family, vname, namedStyle, overrides, current, order, ft);
    var ws := VariableWords(family, vname, namedStyle, overrides, current, order, ft);
    VariableSpecBody(family, vname, namedStyle, overrides, current, order, ft);
    VariableWordsSafe(family, vname, namedStyle, overrides, current, order, ft);
    LexWords(ws, []);
    assert [] + DecodedAll(ws) == DecodedAll(ws);
    BodyHasEquals(ws);
    DecodedHasEquals(ws[0]);
    assert DecodedAll(ws)[0] == Decoded(ws[0]);
    ParseVariableWords(family, vname, namedStyle, overrides, current, order, text, ft);
  }
}
