/** What a click on one of the face panel's controls does to the setting being edited
    (face_panel.on_click, handle_click_on_feature, update_feature_in_setting), as values:
    the panel class applies it to its state. */
module Clicks {
  import opened Wrappers
  import Text
  import Decimal
  import Floats
  import MapOrder
  import Axis
  import Samples
  import Search
  import Router
  import opened FontSpecCodec
  import FontSpecLaws
  import RouterLaws

  /** What a click can fail with: a control that reads the preview before one is shown (a
      nil pointer dereference in the source), or an error of NewFontSpec or
      NewParsedFontFeature. */
  datatype ClickError = NilPreview | SpecError(error: ParseError)

  // ---------------------------------------------------------------- update_feature_in_setting

  /** The order in which String walks the axes of the parsed setting, when it parses. */
  predicate UpdateOrderOk(setting: string, order: seq<string>, ft: Floats.FloatText) {
    Parse(Corrected, setting, ft).Ok? ==> MapOrder.IsEnumeration(order, Parse(Corrected, setting, ft).value.axes.Keys)
  }

  /** The description with the feature the token names updated in place or appended. */
  function WithFeature(s: FontSpec, pff: ParsedFontFeature): FontSpec {
    s.(features := Router.UpdateFeatures(Corrected, s.features, pff))
  }

  /** The setting update_feature_in_setting writes: the current setting parsed, the token's
      feature updated or appended, written back with String; or the first parse error. */
  function UpdatedSetting(setting: string, value: string, order: seq<string>, ft: Floats.FloatText): Result<string, ParseError>
    requires UpdateOrderOk(setting, order, ft)
  {
    match Parse(Corrected, setting, ft)
    case Err(e) => Err(e)
    case Ok(s) =>
      match ParseFeature(value)
      case Err(e) => Err(e)
      case Ok(pff) => Ok(Serialize(WithFeature(s, pff), order, ft))
  }

  /** A switched feature keeps the description writable. */
  lemma WithFeatureRepresentable(s: FontSpec, pff: ParsedFontFeature)
    requires FontSpecLaws.Representable(s) && FontSpecLaws.WellFormedFeature(pff) && pff.val <= 1
    ensures FontSpecLaws.Representable(WithFeature(s, pff))
  {
    var fs := Router.UpdateFeatures(Corrected, s.features, pff);
    assert FontSpecLaws.WellFormedFeatures(fs) by {
      match Router.FirstWithTag(s.features, pff.tag)
      case None =>
        assert fs == s.features + [pff];
      case Some(i) =>
        assert forall j :: 0 <= j < |fs| && j != i ==> fs[j] == s.features[j];
        assert FontSpecLaws.WellFormedFeature(s.features[i]);
    }
    assert |fs| >= |s.features|;
  }

  /** The setting an update writes reads back as the description it was made from, with the
      token's feature now carrying the token's value and nothing else changed. */
  lemma UpdatedSettingRoundTrip(setting: string, s: FontSpec, value: string, order: seq<string>, ft: Floats.FloatText)
    requires Parse(Corrected, setting, ft) == Ok(s) && FontSpecLaws.Representable(s)
    requires ParseFeature(value).Ok? && FontSpecLaws.WellFormedFeature(ParseFeature(value).value) && ParseFeature(value).value.val <= 1
    requires MapOrder.IsEnumeration(order, s.axes.Keys) && Floats.ExactOn(ft, s.axes.Values)
    ensures UpdateOrderOk(setting, order, ft)
    ensures UpdatedSetting(setting, value, order, ft).Ok?
    ensures Parse(Corrected, UpdatedSetting(setting, value, order, ft).value, ft) == Ok(WithFeature(s, ParseFeature(value).value))
  {
    var pff := ParseFeature(value).value;
    WithFeatureRepresentable(s, pff);
    FontSpecLaws.RoundTrip(WithFeature(s, pff), order, ft);
  }

  /** A setting that names a system font (`auto`, or a bare name such as `monospace`) drops
      a feature click: the feature joins the parsed description, but String writes back only
      the system name, so the setting text is unchanged unless the token fails to parse. */
  lemma SystemSettingIgnoresFeature(setting: string, n: string, value: string, ft: Floats.FloatText)
    requires Parse(Corrected, setting, ft) == Ok(SystemSpec(n))
    ensures UpdateOrderOk(setting, [], ft)
    ensures UpdatedSetting(setting, value, [], ft)
         == match ParseFeature(value) case Err(e) => Err(e) case Ok(_) => Ok(n)
  {
    FontSpecLaws.SystemTestAgrees(Corrected, setting, ft);
    assert SystemSpec(n).axes.Keys == {};
  }

  // ---------------------------------------------------------------- the axis control

  /** The first axis of the font with the tag, the one on_click's loop stops at. */
  function FirstAxis(axes: seq<Axis.VariableAxis>, tag: string): (r: Option<nat>)
    ensures r.None? <==> forall j :: 0 <= j < |axes| ==> axes[j].tag != tag
    ensures r.Some? ==> r.value < |axes| && axes[r.value].tag == tag && forall j :: 0 <= j < r.value ==> axes[j].tag != tag
  {
    Search.FirstIndex(Axis.Tags(axes), tag)
  }

  lemma FirstAxisAt(axes: seq<Axis.VariableAxis>, tag: string, i: nat)
    requires i < |axes| && axes[i].tag == tag && forall j :: 0 <= j < i ==> axes[j].tag != tag
    ensures FirstAxis(axes, tag) == Some(i)
  {
    Search.FirstIndexAt(Axis.Tags(axes), tag, i);
  }

  /** The axis value an `axis:` click asks for: the value of cell n of d on the first axis
      with the tag. None when no axis has the tag, or when d is 0 (the source then divides by
      zero, which real arithmetic cannot express). */
  function AxisOverride(p: Samples.Sample, t: Axis.AxisTarget): (r: Option<map<string, real>>)
    ensures r.Some? <==> t.d != 0 && FirstAxis(p.variableData.axes, t.tag).Some?
    ensures r.Some? ==> r.value.Keys == {t.tag}
  {
    if t.d == 0 then None
    else
      match FirstAxis(p.variableData.axes, t.tag)
      case None => None
      case Some(i) => Some(map[t.tag := Axis.ClickValue(p.variableData.axes[i], t.n, t.d)])
  }

  // ---------------------------------------------------------------- on_click

  /** The walk orders the click's text depends on: the axes of the parsed setting for a
      feature click, the merged axis values for an axis click. */
  predicate ClickOrderOk(setting: string, preview: Option<Samples.Sample>, click: Router.Click, order: seq<string>, ft: Floats.FloatText) {
    match click
    case FeatureClick(tag) =>
      preview.Some? && Router.FeatureRequest(preview.value, tag).Some? ==> UpdateOrderOk(setting, order, ft)
    case AxisClick(t) =>
      preview.Some? && AxisOverride(preview.value, t).Some? ==>
        RouterLaws.OverridesOk(AxisOverride(preview.value, t), preview.value.currentAxisValues, order)
    case _ => true
  }

  function VariableName(p: Samples.Sample): string {
    p.variableData.variationsPostscriptNamePrefix
  }

  /** The setting on_click writes for a decoded click, None when it writes none, or the error
      it fails with. */
  function ClickSetting(family: string, setting: string, preview: Option<Samples.Sample>, click: Router.Click,
                        order: seq<string>, ft: Floats.FloatText): (r: Result<Option<string>, ClickError>)
    requires ClickOrderOk(setting, preview, click, order, ft)
    ensures click.StyleClick? ==> r == Ok(Some(Router.StyleSpec(family, click.name)))
    ensures !click.StyleClick? && !click.OtherClick? && preview.None? ==> r == Err(NilPreview)
    ensures click.OtherClick? ==> r == Ok(None)
    ensures click.FeatureClick? && preview.Some? && Samples.FeatureAt(preview.value, click.tag).isIndex ==> r == Ok(None)
    ensures click.AxisClick? && preview.Some? && FirstAxis(preview.value.variableData.axes, click.target.tag).None? ==> r == Ok(None)
    ensures r.Err? && r.error.SpecError? ==> click.FeatureClick?
  {
    match click
    case StyleClick(name) => Ok(Some(Router.StyleSpec(family, name)))
    case VariableStyleClick(name) =>
      if preview.None? then Err(NilPreview)
      else
        var p := preview.value;
        Ok(Some(Router.VariableSpecText(family, VariableName(p), name, None, p.currentAxisValues, order, ft)))
    case FeatureClick(tag) =>
      if preview.None? then Err(NilPreview)
      else
        match Router.FeatureRequest(preview.value, tag) {
          case None => Ok(None)
          case Some(v) =>
            match UpdatedSetting(setting, v, order, ft) {
              case Err(e) => Err(SpecError(e))
              case Ok(x) => Ok(Some(x))
            }
        }
    case AxisClick(t) =>
      if preview.None? then Err(NilPreview)
      else
        var p := preview.value;
        match AxisOverride(p, t) {
          case None => Ok(None)
          case Some(o) => Ok(Some(Router.VariableSpecText(family, VariableName(p), "", Some(o), p.currentAxisValues, order, ft)))
        }
    case OtherClick => Ok(None)
  }

  /** A `style:` click writes a setting that reads back as the family with that style. */
  lemma StyleClickSelects(rev: Revision, family: string, setting: string, preview: Option<Samples.Sample>, name: string,
                          order: seq<string>, ft: Floats.FloatText)
    requires '"' !in family && '\\' !in family && '"' !in name && '\\' !in name
    ensures ClickSetting(family, setting, preview, Router.StyleClick(name), order, ft).Ok?
    ensures var r := ClickSetting(family, setting, preview, Router.StyleClick(name), order, ft).value;
      r.Some? && Parse(rev, r.value, ft) == Ok(RouterLaws.StyleSelection(family, name))
  {
    RouterLaws.ParseStyleSpec(rev, family, name, ft);
  }

  /** A `variable_style:` click writes a setting that reads back as the variable font of
      the preview with that named style. */
  lemma VariableStyleClickSelects(family: string, setting: string, p: Samples.Sample, name: string,
                                  order: seq<string>, ft: Floats.FloatText)
    ensures ClickSetting(family, setting, Some(p), Router.VariableStyleClick(name), order, ft).Ok?
    ensures var r := ClickSetting(family, setting, Some(p), Router.VariableStyleClick(name), order, ft).value;
      r.Some? && Parse(Corrected, r.value, ft) == Ok(RouterLaws.VariableSelection(family, VariableName(p), name, None, p.currentAxisValues))
  {
    RouterLaws.ParseVariableSpec(family, VariableName(p), name, None, p.currentAxisValues, order, ft);
  }

  /** A `feature:` click on a feature that is not an index feature writes a setting that
      reads back as the current description with that feature switched: off when it is
      applied on, on otherwise; a feature the description did not list is appended. */
  lemma FeatureClickToggles(family: string, setting: string, s: FontSpec, p: Samples.Sample, tag: string,
                            order: seq<string>, ft: Floats.FloatText)
    requires Parse(Corrected, setting, ft) == Ok(s) && FontSpecLaws.Representable(s)
    requires !Samples.FeatureAt(p, tag).isIndex && Text.NoSpace(tag)
    requires MapOrder.IsEnumeration(order, s.axes.Keys) && Floats.ExactOn(ft, s.axes.Values)
    ensures ClickOrderOk(setting, Some(p), Router.FeatureClick(tag), order, ft)
    ensures ClickSetting(family, setting, Some(p), Router.FeatureClick(tag), order, ft).Ok?
    ensures var r := ClickSetting(family, setting, Some(p), Router.FeatureClick(tag), order, ft).value;
      var v: Decimal.uint64 := if Router.AppliedOn(p, tag) then 0 else 1;
      && r.Some?
      && Parse(Corrected, r.value, ft) == Ok(WithFeature(s, ParsedFontFeature(tag, v, true)))
      && Router.FirstWithTag(WithFeature(s, ParsedFontFeature(tag, v, true)).features, tag).Some?
      && var t := WithFeature(s, ParsedFontFeature(tag, v, true));
         t.features[Router.FirstWithTag(t.features, tag).value].val == v
  {
    var x := Router.FeatureRequest(p, tag).value;
    var v: Decimal.uint64 := if Router.AppliedOn(p, tag) then 0 else 1;
    var pff := ParsedFontFeature(tag, v, true);
    Router.RequestParses(p, tag);
    assert ParseFeature(x) == Ok(pff);
    UpdatedSettingRoundTrip(setting, s, x, order, ft);
    Router.UpdatedFeatureValue(s.features, pff);
  }

  /** The click the link of cell i of an axis control with numCells cells decodes to. */
  function AxisLinkClick(ax: Axis.VariableAxis, i: nat, numCells: nat): Router.Click
    requires numCells >= 1
  {
    Router.AxisClick(Axis.AxisTarget(i, numCells - 1, ax.tag))
  }

  /** The axis value the link of cell i asks for. */
  function CellOverride(ax: Axis.VariableAxis, i: nat, numCells: nat): map<string, real>
    requires numCells >= 2
  {
    map[ax.tag := Axis.ClickValue(ax, i, numCells - 1)]
  }

  /** The text such a click writes: variable_spec with the axis overridden by the cell's value. */
  lemma AxisClickText(family: string, setting: string, p: Samples.Sample, k: nat, i: nat, numCells: nat,
                      order: seq<string>, ft: Floats.FloatText)
    requires k < |p.variableData.axes| && FirstAxis(p.variableData.axes, p.variableData.axes[k].tag) == Some(k)
    requires numCells >= 2
    requires var ax := p.variableData.axes[k];
      RouterLaws.OverridesOk(Some(CellOverride(ax, i, numCells)), p.currentAxisValues, order)
    ensures var ax := p.variableData.axes[k];
      && ClickOrderOk(setting, Some(p), AxisLinkClick(ax, i, numCells), order, ft)
      && ClickSetting(family, setting, Some(p), AxisLinkClick(ax, i, numCells), order, ft)
         == Ok(Some(Router.VariableSpecText(family, VariableName(p), "", Some(CellOverride(ax, i, numCells)),
                                            p.currentAxisValues, order, ft)))
  {
    var ax := p.variableData.axes[k];
    assert AxisOverride(p, Axis.AxisTarget(i, numCells - 1, ax.tag)) == Some(map[ax.tag := Axis.ClickValue(ax, i, numCells - 1)]);
  }

  /** Clicking the link of cell i in an axis control writes a setting that reads back as the
      variable font with that axis overridden by the click's value. */
  lemma AxisClickSelects(family: string, setting: string, p: Samples.Sample, k: nat, i: nat, numCells: nat,
                         order: seq<string>, ft: Floats.FloatText)
    requires k < |p.variableData.axes| && FirstAxis(p.variableData.axes, p.variableData.axes[k].tag) == Some(k)
    requires 2 <= numCells <= Decimal.MaxInt64 && i < numCells
    requires var ax := p.variableData.axes[k];
      var o := CellOverride(ax, i, numCells);
      && RouterLaws.OverridesOk(Some(o), p.currentAxisValues, order) && RouterLaws.AxisKeysOk(Some(o), p.currentAxisValues)
      && RouterLaws.ValuesExact(Some(o), p.currentAxisValues, ft)
    ensures var ax := p.variableData.axes[k];
      Router.DecodeClick(Axis.AxisId(i, numCells - 1, ax.tag)) == AxisLinkClick(ax, i, numCells)
    ensures var ax := p.variableData.axes[k];
      && ClickOrderOk(setting, Some(p), AxisLinkClick(ax, i, numCells), order, ft)
      && var r := ClickSetting(family, setting, Some(p), AxisLinkClick(ax, i, numCells), order, ft);
         && r.Ok? && r.value.Some?
         && Parse(Corrected, r.value.value, ft)
            == Ok(RouterLaws.VariableSelection(family, VariableName(p), "", Some(CellOverride(ax, i, numCells)), p.currentAxisValues))
  {
    var ax := p.variableData.axes[k];
    var o := CellOverride(ax, i, numCells);
    Router.DecodeAxisLink(i, numCells - 1, ax.tag);
    assert AxisLinkClick(ax, i, numCells) == Router.AxisClick(Axis.AxisTarget(i, numCells - 1, ax.tag));
    AxisClickText(family, setting, p, k, i, numCells, order, ft);
    RouterLaws.ParseVariableSpec(family, VariableName(p), "", Some(o), p.currentAxisValues, order, ft);
  }

  /** The selection such a click makes holds the cell's value for the axis, and drawing the
      control again for that value highlights the clicked cell. */
  lemma AxisSelectionHighlights(family: string, vname: string, current: map<string, real>, ax: Axis.VariableAxis, i: nat, numCells: nat)
    requires 2 <= numCells && i < numCells && ax.minimum < ax.maximum
    ensures var sel := RouterLaws.VariableSelection(family, vname, "", Some(CellOverride(ax, i, numCells)), current);
      && ax.tag in sel.axes && sel.axes[ax.tag] == Axis.ClickValue(ax, i, numCells - 1)
      && Axis.CurrentCell(ax, sel.axes[ax.tag], numCells) == Some(i)
  {
    Axis.ClickHighlights(ax, i, numCells);
  }
}
