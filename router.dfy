/** The pure decisions behind face_panel.on_click: which control an id names, the setting
    text each control writes, which feature toggle a click requests, and how the requested
    feature is merged into the face's feature list. */
module Router {
  import opened Wrappers
  import Text
  import Shlex
  import Floats
  import MapOrder
  import Decimal
  import Axis
  import Samples
  import Search
  import opened FontSpecCodec

  // ---------------------------------------------------------------- ids

  /** A clicked id, `scheme:payload`, by scheme; any other scheme names no control. */
  datatype Click =
    | StyleClick(name: string)
    | VariableStyleClick(name: string)
    | FeatureClick(tag: string)
    | AxisClick(target: Axis.AxisTarget)
    | OtherClick

  function DecodeClick(id: string): Click {
    var c := Text.Cut(id, ':');
    if c.before == "style" then StyleClick(c.after)
    else if c.before == "variable_style" then VariableStyleClick(c.after)
    else if c.before == "feature" then FeatureClick(c.after)
    else if c.before == "axis" then AxisClick(Axis.DecodeAxisPayload(c.after))
    else OtherClick
  }

  /** Every kind of link the panel draws decodes to the control it was drawn for. */
  lemma DecodeStyleLink(v: string)
    ensures DecodeClick("style:" + v) == StyleClick(v)
  {
    assert "style:" + v == "style" + [':'] + v;
    Text.CutAt("style", ':', v);
  }

  lemma DecodeVariableStyleLink(v: string)
    ensures DecodeClick("variable_style:" + v) == VariableStyleClick(v)
  {
    assert "variable_style:" + v == "variable_style" + [':'] + v;
    Text.CutAt("variable_style", ':', v);
  }

  lemma DecodeFeatureLink(v: string)
    ensures DecodeClick("feature:" + v) == FeatureClick(v)
  {
    assert "feature:" + v == "feature" + [':'] + v;
    Text.CutAt("feature", ':', v);
  }

  lemma DecodeAxisScheme(p: string)
    ensures DecodeClick("axis:" + p) == AxisClick(Axis.DecodeAxisPayload(p))
  {
    assert "axis:" + p == "axis" + [':'] + p;
    Text.CutAt("axis", ':', p);
  }

  lemma DecodeAxisLink(i: nat, d: nat, tag: string)
    requires i <= Decimal.MaxInt64 && d <= Decimal.MaxInt64
    ensures DecodeClick(Axis.AxisId(i, d, tag)) == AxisClick(Axis.AxisTarget(i, d, tag))
  {
    DecodeAxisScheme(Axis.AxisPayload(i, d, tag));
    Axis.DecodeAxisPayloadOf(i, d, tag);
  }

  // ---------------------------------------------------------------- setting texts

  /** The `style:` control writes `family="F" style="S"`, with the raw names between double
      quotes (no escaping). */
  function StyleSpec(family: string, style: string): string {
    "family=\"" + family + "\" style=\"" + style + "\""
  }

  /** The axis part of variable_spec: ` tag=%g` for every axis, in the map's walk order. */
  function AxesText(axes: map<string, real>, order: seq<string>, ft: Floats.FloatText): string
    requires forall i :: 0 <= i < |order| ==> order[i] in axes
  {
    if order == [] then ""
    else " " + order[0] + "=" + ft.formatG(axes[order[0]]) + AxesText(axes, order[1..], ft)
  }

  /** The axis values variable_spec writes: the preview's current values with the overrides
      copied over them (maps.Copy). */
  function MergedAxes(current: map<string, real>, overrides: map<string, real>): (r: map<string, real>)
    ensures r.Keys == current.Keys + overrides.Keys
    ensures forall k :: k in overrides ==> r[k] == overrides[k]
    ensures forall k :: k in current && k !in overrides ==> r[k] == current[k]
  {
    current + overrides
  }

  /** The start of variable_spec's text: the family and the variable font's name prefix, quoted. */
  function VariableHead(family: string, vname: string): string {
    "family=" + Shlex.Quote(family) + " variable_name=" + Shlex.Quote(vname)
  }

  /** The rest of variable_spec's text: the axis values when overrides are given (even none),
      otherwise the named style when it is not empty. */
  function VariableRest(namedStyle: string, overrides: Option<map<string, real>>,
                        current: map<string, real>, order: seq<string>, ft: Floats.FloatText): string
    requires overrides.Some? ==> forall i :: 0 <= i < |order| ==> order[i] in MergedAxes(current, overrides.value)
  {
    if overrides.Some? then AxesText(MergedAxes(current, overrides.value), order, ft)
    else if namedStyle != "" then " style=" + Shlex.Quote(namedStyle)
    else ""
  }

  /** variable_spec. */
  function VariableSpecText(family: string, vname: string, namedStyle: string, overrides: Option<map<string, real>>,
                            current: map<string, real>, order: seq<string>, ft: Floats.FloatText): string
    requires overrides.Some? ==> forall i :: 0 <= i < |order| ==> order[i] in MergedAxes(current, overrides.value)
  {
    VariableHead(family, vname) + VariableRest(namedStyle, overrides, current, order, ft)
  }

  // ---------------------------------------------------------------- feature toggles

  /** An applied state that reads as switched on: `+tag` or `tag=1`. */
  predicate AppliedOn(s: Samples.Sample, tag: string) {
    tag in s.appliedFeatures && s.appliedFeatures[tag] != ""
    && (s.appliedFeatures[tag][0] == '+' || Text.HasSuffix(s.appliedFeatures[tag], "=1"))
  }

  /** handle_click_on_feature's decision: None for an index feature (the click does nothing),
      otherwise the token to apply, `-tag` for a feature applied on and `+tag` for any other. */
  function FeatureRequest(s: Samples.Sample, tag: string): (r: Option<string>)
    ensures r.None? <==> Samples.FeatureAt(s, tag).isIndex
    ensures r.Some? && AppliedOn(s, tag) ==> r.value == "-" + tag
    ensures r.Some? && !AppliedOn(s, tag) ==> r.value == "+" + tag
    ensures tag !in s.features ==> r.Some?
  {
    if Samples.FeatureAt(s, tag).isIndex then None
    else if tag in s.appliedFeatures then
      var v := s.appliedFeatures[tag];
      if v != "" && (v[0] == '+' || Text.HasSuffix(v, "=1")) then Some("-" + tag) else Some("+" + tag)
    else Some("+" + tag)
  }

  /** The token a click requests parses (corrected) into the switched feature: off for a
      feature applied on, on otherwise. */
  lemma RequestParses(s: Samples.Sample, tag: string)
    requires FeatureRequest(s, tag).Some?
    ensures ParseFeature(FeatureRequest(s, tag).value) == Ok(ParsedFontFeature(tag, if AppliedOn(s, tag) then 0 else 1, true))
  {
    var x := FeatureRequest(s, tag).value;
    assert x[1..] == tag;
  }

  /** The index of the first feature with the tag, the element update_feature_in_setting's
      loop stops at. */
  function FirstWithTag(fs: seq<ParsedFontFeature>, tag: string): (r: Option<nat>)
    ensures r.None? <==> forall j :: 0 <= j < |fs| ==> fs[j].tag != tag
    ensures r.Some? ==> r.value < |fs| && fs[r.value].tag == tag && forall j :: 0 <= j < r.value ==> fs[j].tag != tag
  {
    Search.FirstIndex(Tags(fs), tag)
  }

  /** The tags of the features, in order. */
  function Tags(fs: seq<ParsedFontFeature>): (r: seq<string>)
    ensures |r| == |fs| && forall j :: 0 <= j < |fs| ==> r[j] == fs[j].tag
  {
    seq(|fs|, j requires 0 <= j < |fs| => fs[j].tag)
  }

  /** The feature list update_feature_in_setting writes. As written the loop assigns to its
      copy of the element, so a feature already present keeps its old value; corrected, the
      first feature with the tag takes the new value. A new tag is appended either way. */
  function UpdateFeatures(rev: Revision, fs: seq<ParsedFontFeature>, pff: ParsedFontFeature): (r: seq<ParsedFontFeature>)
    ensures FirstWithTag(fs, pff.tag).None? ==> r == fs + [pff]
    ensures FirstWithTag(fs, pff.tag).Some? && rev.AsWritten? ==> r == fs
    ensures FirstWithTag(fs, pff.tag).Some? && rev.Corrected? ==>
      var i := FirstWithTag(fs, pff.tag).value;
      |r| == |fs| && r[i] == fs[i].(val := pff.val) && forall j :: 0 <= j < |fs| && j != i ==> r[j] == fs[j]
  {
    match FirstWithTag(fs, pff.tag)
    case None => fs + [pff]
    case Some(i) => if rev.AsWritten? then fs else fs[i := fs[i].(val := pff.val)]
  }

  /** Corrected, the feature the update names afterwards carries the requested value, at the
      place it had or, when new, at the end. */
  lemma UpdatedFeatureValue(fs: seq<ParsedFontFeature>, pff: ParsedFontFeature)
    ensures FirstWithTag(UpdateFeatures(Corrected, fs, pff), pff.tag).Some?
    ensures var r := UpdateFeatures(Corrected, fs, pff);
      r[FirstWithTag(r, pff.tag).value].val == pff.val
    ensures FirstWithTag(fs, pff.tag).Some? ==> FirstWithTag(UpdateFeatures(Corrected, fs, pff), pff.tag) == FirstWithTag(fs, pff.tag)
    ensures FirstWithTag(fs, pff.tag).None? ==> FirstWithTag(UpdateFeatures(Corrected, fs, pff), pff.tag) == Some(|fs|)
  {
    var r := UpdateFeatures(Corrected, fs, pff);
    match FirstWithTag(fs, pff.tag)
    case None =>
      assert r[|fs|].tag == pff.tag;
      FirstWithTagAt(r, pff.tag, |fs|);
    case Some(i) =>
      assert r[i].tag == pff.tag;
      FirstWithTagAt(r, pff.tag, i);
  }

  lemma FirstWithTagAt(fs: seq<ParsedFontFeature>, tag: string, i: nat)
    requires i < |fs| && fs[i].tag == tag && forall j :: 0 <= j < i ==> fs[j].tag != tag
    ensures FirstWithTag(fs, tag) == Some(i)
  {
    Search.FirstIndexAt(Tags(fs), tag, i);
  }

  /** As written, asking for a new value of a feature the spec already holds changes nothing,
      where the corrected loop changes the list. */
  lemma FeatureUpdateLostAsWritten(fs: seq<ParsedFontFeature>, pff: ParsedFontFeature)
    requires FirstWithTag(fs, pff.tag).Some? && fs[FirstWithTag(fs, pff.tag).value].val != pff.val
    ensures UpdateFeatures(AsWritten, fs, pff) == fs
    ensures UpdateFeatures(Corrected, fs, pff) != fs
  {
    var i := FirstWithTag(fs, pff.tag).value;
    assert UpdateFeatures(Corrected, fs, pff)[i].val != fs[i].val;
  }
}
