/** The face panel (face_panel in face.go): the face being edited, its settings, the preview
    shown, and the preview cache with its render protocol. Rendering is done by the font
    backend; the model takes its answer as a parameter. The background render that
    draw_screen starts is recorded in `dispatched` and completed by a later RenderPreview
    call, so the goroutine and the mutex become two separate steps on one object. */
module Panel {
  import opened Wrappers
  import Shlex
  import Floats
  import MapOrder
  import Faces
  import Axis
  import Samples
  import Router
  import Clicks
  import opened FontSpecCodec

  /** faces_preview_key: the settings and the canvas size a preview was rendered for. */
  datatype PreviewKey = PreviewKey(settings: Faces.FacesSettings, width: int, height: int)

  /** The part of the terminal's screen size draw_screen reads. */
  datatype ScreenSize = ScreenSize(widthCells: int, heightCells: int, cellWidth: int, cellHeight: int)

  /** handler.current_pane: the faces list, or this panel. */
  datatype Pane = FacesPane | FacePanelPane

  /** The keys on_key_event tells apart. */
  datatype KeyEvent = Esc | Enter | OtherKey

  function Max(a: int, b: int): int {
    if a >= b then a else b
  }

  /** The key draw_screen looks the previews up under, when the text above the previews
      ends on line y: the full width, and the lines left for each face below it. */
  function PreviewKeyFor(settings: Faces.FacesSettings, sz: ScreenSize, y: int): PreviewKey {
    PreviewKey(settings, sz.widthCells * sz.cellWidth, sz.cellHeight * Max(1, (sz.heightCells - y - 1) - 2))
  }

  /** Screens whose canvas width or per-face height differ look up different cache
      entries; the settings are part of the key too. */
  lemma KeysBySize(s1: Faces.FacesSettings, s2: Faces.FacesSettings, sz1: ScreenSize, sz2: ScreenSize, y1: int, y2: int)
    ensures PreviewKeyFor(s1, sz1, y1) == PreviewKeyFor(s2, sz2, y2) <==>
      && s1 == s2
      && sz1.widthCells * sz1.cellWidth == sz2.widthCells * sz2.cellWidth
      && sz1.cellHeight * Max(1, (sz1.heightCells - y1 - 1) - 2) == sz2.cellHeight * Max(1, (sz2.heightCells - y2 - 1) - 2)
  {
  }

  /** A cache entry is ready once the render has answered for all four faces; the empty
      placeholder stored while a render is pending is not. */
  predicate Ready(previews: map<string, Samples.Sample>) {
    |previews| >= 4
  }

  /** `preview_cache[key]`: the empty (nil) map when the key is missing. */
  function CachedAt(cache: map<PreviewKey, map<string, Samples.Sample>>, key: PreviewKey): (r: map<string, Samples.Sample>)
    ensures key in cache ==> r == cache[key]
    ensures key !in cache ==> !Ready(r)
  {
    if key in cache then cache[key] else map[]
  }

  /** The state a click leaves: the error it returns, and the setting `which` names
      replaced by the text the click writes, when it writes one. */
  ghost predicate ClickApplied(before: Faces.FacesSettings, after: Faces.FacesSettings, which: string,
                               r: Result<Option<string>, Clicks.ClickError>, err: Option<Clicks.ClickError>) {
    && err == (if r.Err? then Some(r.error) else None)
    && after == (if r.Ok? && r.value.Some? then Faces.Set(before, which, r.value.value) else before)
  }

  /** The loop of variable_spec: ` tag=%g` for each axis, in the walk order. */
  method WriteAxisValues(head: string, axisValues: map<string, real>, keys: seq<string>, ft: Floats.FloatText) returns (ans: string)
    requires forall i :: 0 <= i < |keys| ==> keys[i] in axisValues
    ensures ans == head + Router.AxesText(axisValues, keys, ft)
  {
    ans := head;
    var i := 0;
    while i < |keys|
      invariant 0 <= i <= |keys|
      invariant ans + Router.AxesText(axisValues, keys[i..], ft) == head + Router.AxesText(axisValues, keys, ft)
    {
      assert keys[i..][0] == keys[i] && keys[i..][1..] == keys[i + 1..];
      var w := " " + keys[i] + "=" + ft.formatG(axisValues[keys[i]]);
      assert ans + Router.AxesText(axisValues, keys[i..], ft) == (ans + w) + Router.AxesText(axisValues, keys[i + 1..], ft);
      ans := ans + w;
      i := i + 1;
    }
    assert keys[i..] == [];
  }

  class FacePanel {
    var family: string
    var which: string
    var settings: Faces.FacesSettings
    var currentPreview: Option<Samples.Sample>
    var currentPreviewKey: PreviewKey
    var previewCache: map<PreviewKey, map<string, Samples.Sample>>
    /** Every render draw_screen has started, in order. */
    var dispatched: seq<PreviewKey>
    /** The two fields of the handler the panel writes: the pane shown and the settings of
        the faces list. */
    var pane: Pane
    var facesSettings: Faces.FacesSettings

    /** A started render has its placeholder (or its answer) in the cache, and no key is
        rendered in the background twice. */
    ghost predicate Valid()
      reads this
    {
      && (forall i :: 0 <= i < |dispatched| ==> dispatched[i] in previewCache)
      && MapOrder.NoDuplicates(dispatched)
    }

    /** The zero panel after initialize: an empty preview cache. */
    constructor ()
      ensures Valid()
      ensures previewCache == map[] && dispatched == [] && currentPreview == None
      ensures family == "" && which == "" && settings == Faces.FacesSettings("", "", "", "")
      ensures pane == FacesPane
    {
      family := "";
      which := "";
      settings := Faces.FacesSettings("", "", "", "");
      currentPreview := None;
      currentPreviewKey := PreviewKey(Faces.FacesSettings("", "", "", ""), 0, 0);
      previewCache := map[];
      dispatched := [];
      pane := FacesPane;
      facesSettings := Faces.FacesSettings("", "", "", "");
    }

    /** set: the setting `which` names takes the text. */
    method Set(setting: string)
      modifies this
      ensures settings == Faces.Set(old(settings), which, setting)
      ensures family == old(family) && which == old(which) && currentPreview == old(currentPreview)
      ensures currentPreviewKey == old(currentPreviewKey) && previewCache == old(previewCache) && dispatched == old(dispatched)
      ensures pane == old(pane) && facesSettings == old(facesSettings)
    {
      settings := Faces.Set(settings, which, setting);
    }

    /** render_preview: the backend's answer replaces the entry for that key alone. */
    method RenderPreview(key: PreviewKey, rendered: map<string, Samples.Sample>)
      requires Valid()
      modifies this
      ensures Valid()
      ensures previewCache == old(previewCache)[key := rendered]
      ensures forall k :: k in old(previewCache) && k != key ==> k in previewCache && previewCache[k] == old(previewCache)[k]
      ensures family == old(family) && which == old(which) && settings == old(settings) && currentPreview == old(currentPreview)
      ensures currentPreviewKey == old(currentPreviewKey) && dispatched == old(dispatched)
      ensures pane == old(pane) && facesSettings == old(facesSettings)
    {
      previewCache := previewCache[key := rendered];
    }

    /** The cache protocol of draw_screen: the first lookup of a key stores an empty
        placeholder and starts one render; a pending entry waits; a ready entry becomes the
        current preview, the face `which` names (the zero preview when the render has none
        for it). The drawing itself is not part of this model. */
    method DrawScreen(sz: ScreenSize, y: int) returns (shown: Option<Samples.Sample>)
      requires Valid() && Faces.IsFace(which)
      modifies this
      ensures Valid()
      ensures currentPreviewKey == PreviewKeyFor(settings, sz, y)
      ensures var key := currentPreviewKey;
        && (key !in old(previewCache) ==>
              previewCache == old(previewCache)[key := map[]] && dispatched == old(dispatched) + [key] && shown.None?)
        && (key in old(previewCache) ==> previewCache == old(previewCache) && dispatched == old(dispatched))
        && (key in old(previewCache) && !Ready(old(previewCache)[key]) ==> shown.None?)
        && (key in old(previewCache) && Ready(old(previewCache)[key]) ==> shown == Some(Samples.PreviewAt(old(previewCache)[key], which)))
      ensures shown.Some? ==> currentPreview == shown
      ensures shown.None? ==> currentPreview == old(currentPreview)
      ensures family == old(family) && which == old(which) && settings == old(settings)
      ensures pane == old(pane) && facesSettings == old(facesSettings)
    {
      var key := PreviewKeyFor(settings, sz, y);
      currentPreviewKey := key;
      if key !in previewCache {
        previewCache := previewCache[key := map[]];
        dispatched := dispatched + [key];
        return None;
      }
      var previews := previewCache[key];
      if |previews| < 4 {
        return None;
      }
      var preview := Samples.PreviewAt(previews, which);
      currentPreview := Some(preview);
      return Some(preview);
    }

    /** variable_spec: the family and the preview's variable font, then the preview's axis
        values with the overrides copied over them, in the runtime's walk order, or the named
        style. The preview must be shown. */
    method VariableSpec(namedStyle: string, overrides: Option<map<string, real>>, ft: Floats.FloatText)
      returns (r: Result<string, Clicks.ClickError>, ghost order: seq<string>)
      ensures currentPreview.None? ==> r == Err(Clicks.NilPreview)
      ensures currentPreview.Some? ==>
        var p := currentPreview.value;
        && (overrides.Some? ==> MapOrder.IsEnumeration(order, Router.MergedAxes(p.currentAxisValues, overrides.value).Keys))
        && r == Ok(Router.VariableSpecText(family, Clicks.VariableName(p), namedStyle, overrides, p.currentAxisValues, order, ft))
    {
      order := [];
      if currentPreview.None? {
        return Err(Clicks.NilPreview), order;
      }
      var p := currentPreview.value;
      var head := Router.VariableHead(family, p.variableData.variationsPostscriptNamePrefix);
      var ans := head;
      if overrides.Some? {
        var axisValues := Router.MergedAxes(p.currentAxisValues, overrides.value);
        var keys := MapOrder.Enumerate(axisValues.Keys);
        order := keys;
        ans := WriteAxisValues(head, axisValues, keys, ft);
        assert Router.VariableRest(namedStyle, overrides, p.currentAxisValues, order, ft) == Router.AxesText(axisValues, keys, ft);
      } else if namedStyle != "" {
        assert ans + (" style=" + Shlex.Quote(namedStyle)) == ans + " style=" + Shlex.Quote(namedStyle);
        ans := ans + " style=" + Shlex.Quote(namedStyle);
        assert Router.VariableRest(namedStyle, overrides, p.currentAxisValues, order, ft) == " style=" + Shlex.Quote(namedStyle);
      } else {
        assert Router.VariableRest(namedStyle, overrides, p.currentAxisValues, order, ft) == "";
        assert ans == head + "";
      }
      return Ok(ans), order;
    }

    /** update_feature_in_setting, with the loop assigning to the feature itself: the
        current setting parsed, the token's feature updated in place or appended, and the
        description written back. A parse error changes nothing. */
    method UpdateFeatureInSetting(value: string, ft: Floats.FloatText) returns (err: Option<Clicks.ClickError>, ghost order: seq<string>)
      requires Faces.IsFace(which)
      modifies this
      ensures family == old(family) && which == old(which) && currentPreview == old(currentPreview)
      ensures Clicks.UpdateOrderOk(Faces.Get(old(settings), which), order, ft)
      ensures var u := Clicks.UpdatedSetting(Faces.Get(old(settings), which), value, order, ft);
        && (u.Err? ==> err == Some(Clicks.SpecError(u.error)) && settings == old(settings))
        && (u.Ok? ==> err.None? && settings == Faces.Set(old(settings), which, u.value))
      ensures currentPreviewKey == old(currentPreviewKey) && previewCache == old(previewCache) && dispatched == old(dispatched)
      ensures pane == old(pane) && facesSettings == old(facesSettings)
    {
      order := [];
      var fs := NewFontSpec(Faces.Get(settings, which), ft);
      if fs.Err? {
        return Some(Clicks.SpecError(fs.error)), order;
      }
      var spec := fs.value;
      var pff := ParseFeature(value);
      if pff.Err? {
        order := MapOrder.AnyEnumeration(spec.axes.Keys);
        return Some(Clicks.SpecError(pff.error)), order;
      }
      var feature := pff.value;
      ghost var expected := Router.UpdateFeatures(Corrected, spec.features, feature);
      var features := spec.features;
      var found := false;
      var i := 0;
      while i < |features|
        invariant 0 <= i <= |features|
        invariant features == spec.features && !found
        invariant forall j :: 0 <= j < i ==> features[j].tag != feature.tag
      {
        if features[i].tag == feature.tag {
          Router.FirstWithTagAt(features, feature.tag, i);
          features := features[i := features[i].(val := feature.val)];
          found := true;
          assert features == expected;
          break;
        }
        i := i + 1;
      }
      if !found {
        features := features + [feature];
      }
      assert features == expected;
      var text;
      text, order := FormatFontSpec(spec.(features := features), ft);
      settings := Faces.Set(settings, which, text);
      return None, order;
    }

    /** handle_click_on_feature: an index feature is left alone; any other is switched off
        when applied on and on otherwise. The preview must be shown. */
    method HandleClickOnFeature(tag: string, ft: Floats.FloatText) returns (err: Option<Clicks.ClickError>, ghost order: seq<string>)
      requires Faces.IsFace(which)
      modifies this
      ensures family == old(family) && which == old(which) && currentPreview == old(currentPreview)
      ensures Clicks.ClickOrderOk(Faces.Get(old(settings), which), old(currentPreview), Router.FeatureClick(tag), order, ft)
      ensures ClickApplied(old(settings), settings, which,
        Clicks.ClickSetting(family, Faces.Get(old(settings), which), old(currentPreview), Router.FeatureClick(tag), order, ft), err)
      ensures currentPreviewKey == old(currentPreviewKey) && previewCache == old(previewCache) && dispatched == old(dispatched)
      ensures pane == old(pane) && facesSettings == old(facesSettings)
    {
      order := [];
      if currentPreview.None? {
        return Some(Clicks.NilPreview), order;
      }
      var p := currentPreview.value;
      if Samples.FeatureAt(p, tag).isIndex {
        return None, order;
      }
      var request := Router.FeatureRequest(p, tag);
      err, order := UpdateFeatureInSetting(request.value, ft);
    }

    /** The `axis:` case of on_click: the first axis of the preview with the tag takes the
        value of the clicked cell through variable_spec; an unknown tag changes nothing. */
    method ClickAxis(t: Axis.AxisTarget, ft: Floats.FloatText) returns (err: Option<Clicks.ClickError>, ghost order: seq<string>)
      requires Faces.IsFace(which)
      modifies this
      ensures family == old(family) && which == old(which) && currentPreview == old(currentPreview)
      ensures Clicks.ClickOrderOk(Faces.Get(old(settings), which), old(currentPreview), Router.AxisClick(t), order, ft)
      ensures ClickApplied(old(settings), settings, which,
        Clicks.ClickSetting(family, Faces.Get(old(settings), which), old(currentPreview), Router.AxisClick(t), order, ft), err)
      ensures currentPreviewKey == old(currentPreviewKey) && previewCache == old(previewCache) && dispatched == old(dispatched)
      ensures pane == old(pane) && facesSettings == old(facesSettings)
    {
      order := [];
      if currentPreview.None? {
        return Some(Clicks.NilPreview), order;
      }
      var p := currentPreview.value;
      if t.d == 0 {
        return None, order;
      }
      var axes := p.variableData.axes;
      var k := 0;
      while k < |axes|
        invariant 0 <= k <= |axes|
        invariant forall j :: 0 <= j < k ==> axes[j].tag != t.tag
      {
        if axes[k].tag == t.tag {
          Clicks.FirstAxisAt(axes, t.tag, k);
          var axval := Axis.ClickValue(axes[k], t.n, t.d);
          var r;
          r, order := VariableSpec("", Some(map[t.tag := axval]), ft);
          Set(r.value);
          return None, order;
        }
        k := k + 1;
      }
      return None, order;
    }

    /** The cases of on_click, by the decoded id. */
    method ApplyClick(click: Router.Click, ft: Floats.FloatText) returns (err: Option<Clicks.ClickError>, ghost order: seq<string>)
      requires Faces.IsFace(which)
      modifies this
      ensures family == old(family) && which == old(which) && currentPreview == old(currentPreview)
      ensures Clicks.ClickOrderOk(Faces.Get(old(settings), which), old(currentPreview), click, order, ft)
      ensures ClickApplied(old(settings), settings, which,
        Clicks.ClickSetting(family, Faces.Get(old(settings), which), old(currentPreview), click, order, ft), err)
      ensures currentPreviewKey == old(currentPreviewKey) && previewCache == old(previewCache) && dispatched == old(dispatched)
      ensures pane == old(pane) && facesSettings == old(facesSettings)
    {
      order := [];
      match click {
        case StyleClick(name) =>
          Set(Router.StyleSpec(family, name));
          err := None;
        case VariableStyleClick(name) =>
          var r;
          r, order := VariableSpec(name, None, ft);
          if r.Err? {
            return Some(r.error), order;
          }
          Set(r.value);
          err := None;
        case FeatureClick(tag) =>
          err, order := HandleClickOnFeature(tag, ft);
        case AxisClick(t) =>
          err, order := ClickAxis(t, ft);
        case OtherClick =>
          err := None;
      }
    }

    /** on_click: the click's change to the setting, then, unless it failed, a synchronous
        render for the new settings when the cache holds no ready entry for them. The redraw
        that follows is the caller's DrawScreen. The test does not look at `dispatched`: when
        the entry is draw_screen's placeholder, its background render may still be running,
        so the source can render that key twice at once. */
    method OnClick(id: string, rendered: map<string, Samples.Sample>, ft: Floats.FloatText)
      returns (err: Option<Clicks.ClickError>, ghost order: seq<string>)
      requires Valid() && Faces.IsFace(which)
      modifies this
      ensures family == old(family) && which == old(which) && currentPreview == old(currentPreview)
      ensures Valid()
      ensures Clicks.ClickOrderOk(Faces.Get(old(settings), which), old(currentPreview), Router.DecodeClick(id), order, ft)
      ensures ClickApplied(old(settings), settings, which,
        Clicks.ClickSetting(family, Faces.Get(old(settings), which), old(currentPreview), Router.DecodeClick(id), order, ft), err)
      ensures var key := old(currentPreviewKey).(settings := settings);
        && (err.None? && !Ready(CachedAt(old(previewCache), key)) ==> previewCache == old(previewCache)[key := rendered])
        && (err.Some? || Ready(CachedAt(old(previewCache), key)) ==> previewCache == old(previewCache))
      ensures currentPreviewKey == old(currentPreviewKey) && dispatched == old(dispatched)
      ensures pane == old(pane) && facesSettings == old(facesSettings)
    {
      var click := Router.DecodeClick(id);
      err, order := ApplyClick(click, ft);
      if err.Some? {
        return;
      }
      var key := currentPreviewKey.(settings := settings);
      var previews := CachedAt(previewCache, key);
      if |previews| < 4 {
        RenderPreview(key, rendered);
      }
    }

    /** on_key_event: Esc goes back to the faces list and drops the edits; Enter goes back
        and hands the edited settings to the list; any other key is not handled. */
    method OnKeyEvent(ev: KeyEvent) returns (handled: bool)
      modifies this
      ensures handled <==> ev != OtherKey
      ensures ev != OtherKey ==> pane == FacesPane
      ensures ev == Enter ==> facesSettings == settings
      ensures ev != Enter ==> facesSettings == old(facesSettings)
      ensures ev == OtherKey ==> pane == old(pane)
      ensures family == old(family) && which == old(which) && settings == old(settings) && currentPreview == old(currentPreview)
      ensures currentPreviewKey == old(currentPreviewKey) && previewCache == old(previewCache) && dispatched == old(dispatched)
    {
      match ev {
        case Esc =>
          pane := FacesPane;
          handled := true;
        case Enter =>
          pane := FacesPane;
          facesSettings := settings;
          handled := true;
        case OtherKey =>
          handled := false;
      }
    }

    /** on_enter: the panel takes the face to edit and becomes the current pane. */
    method OnEnter(family: string, which: string, settings: Faces.FacesSettings)
      modifies this
      ensures this.family == family && this.which == which && this.settings == settings
      ensures pane == FacePanelPane
      ensures currentPreview == old(currentPreview) && currentPreviewKey == old(currentPreviewKey)
      ensures previewCache == old(previewCache) && dispatched == old(dispatched) && facesSettings == old(facesSettings)
    {
      this.family := family;
      this.settings := settings;
      this.which := which;
      pane := FacePanelPane;
    }
  }
}
