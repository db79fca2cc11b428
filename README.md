# The face panel of kitty's font chooser, in Dafny

This project models the face panel of kitty's `choose_fonts` kitten. The panel is the
screen where one face of a font family is tuned: regular, bold, italic or bold-italic. The
model also covers the small table of preview images the kitten keeps in the terminal.

The model covers these parts:

- **Font descriptions.** `FontSpec` is written as `key=value` words: family, style,
  postscript name, full name, variable name, one word per variable axis, and one `features`
  word. `NewFontSpec` reads such a text, and `FontSpec.String` writes it back.
  `NewParsedFontFeature` and `ParsedFontFeature.String` read and write one OpenType feature
  token (`+tag`, `-tag` or `tag=N`). These live in `FontSpecCodec`, with their laws in
  `FontSpecLaws`. The main law is that String followed by NewFontSpec gives the description
  back, whatever order the axes map is walked in.
- **The four face settings.** `get` and `set` pick one of the settings by the panel's `which`
  selector (`Faces`).
- **Clicks.** `on_click` decodes a `scheme:payload` link id (`Router.DecodeClick`). `Clicks`
  gives, for each kind of click, the new setting text, or the error the click fails with:
  - a style click writes the family and style;
  - a named-style click on a variable font writes `variable_spec`;
  - a feature click switches a feature off if it is applied on, and on otherwise;
  - an axis click writes the value of the clicked cell.

  `RouterLaws` and `Clicks` prove that each setting a click writes reads back as the
  selection that control makes.
- **Axis controls.** `draw_axis` maps an axis value to one highlighted cell among links
  `axis:i/d:tag`. `on_click` maps the link of cell i back to `Minimum + (Maximum - Minimum) * i / d`
  (`Axis`).
- **The panel object.** `Panel.FacePanel` is a class with the panel's fields: the face being
  edited, its settings, the current preview and its key, and the preview cache. Its methods
  are `set`, `render_preview`, the cache protocol of `draw_screen`, `variable_spec`,
  `update_feature_in_setting`, `handle_click_on_feature`, `on_click`, `on_key_event` and
  `on_enter`.
- **Preview images.** `Graphics.GraphicsManager` holds the five image slots. `initialize`
  gives them consecutive image numbers. `on_response` stores the id the terminal assigns.
  `finalize` deletes the images by number.

Collaborators outside the two files are modelled in these ways:

- **Shell quoting.** `shlex.Quote` and `shlex.Split` are modelled concretely in `Shlex`: a
  quoting function and a word lexer.
- **Strings.** The `strings` functions in use are in `Text`. `Text.IsSpace` is the set of
  white-space characters `unicode.IsSpace` accepts, which `strings.TrimSpace` trims. The
  separator scanner that splits the `features` value is in `Text.ScanSplit`.
- **Numbers.** `strconv`'s integer functions are in `Decimal`.
- **Floats.** Float formatting and parsing (`strconv.FormatFloat`, `%g`, `strconv.ParseFloat`)
  belong to Go's runtime. They are a parameter of type `Floats.FloatText`. A lemma that needs a value to read back
  exactly requires `Floats.ExactOn` of the axis values the description holds: the formats
  write each of those values as text that parses back to it. Go's shortest formatting does
  this for every float64. Axis values are `real`.
- **Map order.** Go's map iteration order is a parameter `order`. `MapOrder.IsEnumeration`
  requires it to list every key exactly once. Methods hand their order back as a ghost
  out-parameter.
- **Panics.** A panic in the parser is an error value, `Panic(...)`. A nil dereference of the
  current preview is the error `Clicks.NilPreview`.

The parser has two defects. The feature-update loop has a third (see Findings). Where a
defect matters, a `Revision` parameter selects the code as written (`AsWritten`) or corrected
(`Corrected`). The panel uses the corrected code.

## Model

| member | source | states |
|---|---|---|
| Faces.Get | kittens/choose_fonts/face.go:256-268 | the value returned is one of the four settings; an unknown `which` is excluded, because the source panics on it |
| Faces.Set | kittens/choose_fonts/face.go:270-281 | afterwards `get` returns the new value; the other three settings are unchanged; an unknown `which` changes nothing |
| Faces.SetGet | kittens/choose_fonts/face.go:256-281 | writing back what `get` returns changes nothing |
| Faces.SetSet | kittens/choose_fonts/face.go:270-281 | of two writes to the same setting, the later one wins |
| FontSpecCodec.FeatureString | kittens/choose_fonts/face.go:289-294 | a feature is never written as the empty token |
| FontSpecLaws.FeatureRoundTrip | kittens/choose_fonts/face.go:336-354 | NewParsedFontFeature (corrected) reads back every well-formed feature that ParsedFontFeature.String writes (`+tag`, `-tag`, `tag=N`) |
| FontSpecLaws.FeatureStringNoSpace | kittens/choose_fonts/face.go:289-294 | a well-formed feature is written as a single token with no blank, so the features word splits back into its features |
| FontSpecLaws.FeatureParsersAgree | kittens/choose_fonts/face.go:336-354 | NewParsedFontFeature as written and corrected agree on the empty token, on `+tag`, and on every token whose first two characters are not `-` |
| FontSpecCodec.NewFontSpec | kittens/choose_fonts/face.go:356-402 | the method returns exactly the corrected parse: `auto`, a system name, a shell error, the missing-`=` error, a feature or axis error, or the description read word by word |
| FontSpecCodec.ReadItem | kittens/choose_fonts/face.go:370-399 | one word of the loop: a field key sets that field; `features` parses every token; any other key is an axis whose value must parse as a float |
| FontSpecCodec.ReadFeatures | kittens/choose_fonts/face.go:386-392 | the tokens are parsed in order and appended; the first bad token is the error |
| FontSpecLaws.SystemCases | kittens/choose_fonts/face.go:357-368 | the empty text and `auto` give the system font `auto`; a text whose first word has no `=` is kept whole as the system name; in both, every other field is unset |
| FontSpecLaws.ParseRejectsSpec | kittens/choose_fonts/face.go:365-373 | when the first word has `=` and a later word does not, NewFontSpec fails |
| FontSpecLaws.ParseRejectsWordWithoutEquals | kittens/choose_fonts/face.go:369-373 | any word without `=` fails the loop; a failing first word fails with the missing-`=` error naming the spec and that word |
| FontSpecLaws.SystemTestAgrees | kittens/choose_fonts/face.go:356-368 | on every description NewFontSpec returns, the system name is set exactly when it is non-empty, so String's test on the value agrees with a test on `is_set` |
| FontSpecLaws.SystemRoundTrip | kittens/choose_fonts/face.go:365-367 | a shell-valid name whose words hold no `=` parses to that system font, and String writes the name back unchanged |
| FontSpecCodec.FormatFontSpec | kittens/choose_fonts/face.go:307-334 | String's text is the system name when it is non-empty; otherwise it is the set fields in the order family, style, postscript_name, full_name, variable_name, then one word per axis in the map's walk order, then one `features` word, with the outer blanks trimmed |
| FontSpecCodec.WriteFeatures | kittens/choose_fonts/face.go:326-330 | the buffer holds each feature's String followed by a blank, in list order |
| FontSpecLaws.SerializedWords | kittens/choose_fonts/face.go:307-334 | shlex.Split of what String writes gives back its `key=value` words, unquoted |
| FontSpecLaws.RoundTrip | kittens/choose_fonts/face.go:307-402 | for every description String writes as words, in any walk order of the axes, NewFontSpec (corrected) gives the same description back, provided each of its axis values is formatted as text that parses back to it |
| FontSpecFindings.DisableTokenMisparsed | kittens/choose_fonts/face.go:338-339 | as written, `-tag` is read as a valued feature whose tag is `-tag`; corrected, it is the feature `tag`, switched off |
| FontSpecFindings.DisabledFeatureLostAsWritten | kittens/choose_fonts/face.go:336-339 | as written, a switched-off feature does not survive String and NewParsedFontFeature; corrected, it does |
| FontSpecFindings.OneCharTokenPanics | kittens/choose_fonts/face.go:338 | as written, a one-character token other than `+` indexes past its end exactly when that character is ASCII (one UTF-8 byte); a longer character reads as a tag; corrected, every such token but `=` parses |
| FontSpecFindings.FeaturesWordAsWritten | kittens/choose_fonts/face.go:385-392 | a `features=-tag` word stores the wrong feature as written and the switched-off `tag` when corrected |
| FontSpecFindings.AxisRoundTripPanicsAsWritten | kittens/choose_fonts/face.go:398 | as written, NewFontSpec panics on every description String writes for a font with an axis (nil map write); corrected, it reads the description back when its axis values are formatted as text that parses back to them |
| Router.DecodeAxisLink | kittens/choose_fonts/face.go:457-461 | the `axis:i/d:tag` link that draw_axis writes decodes to the cell, the last index and the tag it was written for |
| Router.DecodeStyleLink | kittens/choose_fonts/face.go:447-450 | a `style:` id decodes to a style click on the text after the colon |
| Router.DecodeFeatureLink | kittens/choose_fonts/face.go:447-453 | a `feature:` id decodes to a feature click on the text after the colon |
| Router.MergedAxes | kittens/choose_fonts/face.go:35-36 | the overrides win; the current values stay for every other axis; the key set is the union of the two |
| Router.FeatureRequest | kittens/choose_fonts/face.go:428-444 | an index feature requests nothing; a feature whose applied text starts with `+` or ends in `=1` requests `-tag`; any other feature, or one not applied at all, requests `+tag` |
| Router.RequestParses | kittens/choose_fonts/face.go:434-441 | the token a click requests parses into the switched feature: value 0 for a feature applied on, 1 otherwise |
| Router.UpdateFeatures | kittens/choose_fonts/face.go:413-423 | a tag not in the list is appended at the end; as written, a tag already present leaves the list unchanged; corrected, only its first occurrence takes the new value |
| Router.UpdatedFeatureValue | kittens/choose_fonts/face.go:413-423 | corrected, the requested tag afterwards carries the requested value, at its old index or at the end |
| Router.FeatureUpdateLostAsWritten | kittens/choose_fonts/face.go:414-417 | as written, a new value for a feature already listed is lost; corrected, the list changes |
| RouterLaws.ParseStyleSpec | kittens/choose_fonts/face.go:450 | the style control's text parses to the family and the style it names, when neither name holds `"` or `\` |
| RouterLaws.ParseVariableSpec | kittens/choose_fonts/face.go:31-44 | variable_spec's text parses to the family and the variable name, plus either the merged axis values or the named style, in any walk order, when `%g` writes each merged value as a bare word that parses back to it |
| Axis.CurrentCell | kittens/choose_fonts/face.go:64-65 | over a proper range, a value at or above Maximum highlights the last cell; one inside the range highlights a cell in range; one below Minimum highlights none; for an empty range the model follows amd64, where `int` of NaN or an infinity highlights none |
| Axis.DrawAxis | kittens/choose_fonts/face.go:56-69 | fewer than five cells draw nothing; otherwise cell i is the current marker or the link `axis:i/(N-1):tag` |
| Axis.OneCurrentCell | kittens/choose_fonts/face.go:64-69 | for a value in a proper range, exactly one cell is the current marker and every other cell links to its own index |
| Axis.ClickEndpoints | kittens/choose_fonts/face.go:462-465 | the first cell asks for Minimum and the last for Maximum |
| Axis.ClickInRange | kittens/choose_fonts/face.go:462-465 | every cell asks for a value in [Minimum, Maximum] |
| Axis.ClickHighlights | kittens/choose_fonts/face.go:462-465 | after clicking cell i, the control drawn for the value asked for highlights cell i |
| Axis.DecodeAxisPayloadOf | kittens/choose_fonts/face.go:458-461 | the payload of cell i of d decodes to i, d and the tag |
| Clicks.FirstAxis | kittens/choose_fonts/face.go:463-468 | the index of the first axis with the tag, or none when no axis has it |
| Router.FirstWithTag | kittens/choose_fonts/face.go:414-419 | the index of the first feature with the tag, or none when no feature has it |
| Clicks.AxisOverride | kittens/choose_fonts/face.go:458-468 | an axis click overrides exactly the tag it names, and only when some axis has that tag |
| Clicks.ClickSetting | kittens/choose_fonts/face.go:446-470 | a style click writes the style text; any other control fails with no preview shown; an unknown scheme, an index feature or an unknown axis tag writes nothing; only a feature click can fail with a parse error |
| Clicks.UpdatedSettingRoundTrip | kittens/choose_fonts/face.go:404-425 | the setting update_feature_in_setting writes reads back as the description it started from, with the token's feature updated or appended |
| Clicks.SystemSettingIgnoresFeature | kittens/choose_fonts/face.go:404-425 | on a setting that names a system font, a feature click writes back the system name unchanged: the feature joins the parsed description, but String writes only the name; a bad token is still the error |
| Clicks.WithFeatureRepresentable | kittens/choose_fonts/face.go:413-423 | switching a feature keeps the description writable as words |
| Clicks.StyleClickSelects | kittens/choose_fonts/face.go:449-450 | a style click writes a setting that parses to the family and that style |
| Clicks.VariableStyleClickSelects | kittens/choose_fonts/face.go:451-452 | a named-style click writes a setting that parses to the preview's variable font with that named style |
| Clicks.FeatureClickToggles | kittens/choose_fonts/face.go:428-444 | a click on a non-index feature writes a setting that parses to the current description with that feature switched: off when applied on, on otherwise |
| Clicks.AxisClickSelects | kittens/choose_fonts/face.go:457-469 | the link of cell i decodes to an axis click that writes a setting; the setting parses to the variable font with that axis set to the cell's value, when the merged axis values are formatted as text that parses back to them |
| Clicks.AxisSelectionHighlights | kittens/choose_fonts/face.go:465-466 | the selection an axis click makes holds the cell's value, and drawing the control for it highlights the clicked cell |
| Panel.CachedAt | kittens/choose_fonts/face.go:475 | a missing key reads as an empty entry that is not ready |
| Panel.KeysBySize | kittens/choose_fonts/face.go:202-204 | two screens share a cache entry exactly when the settings, the canvas width and the per-face height agree |
| Panel.WriteAxisValues | kittens/choose_fonts/face.go:37-39 | the loop appends ` tag=%g` for each axis, in the walk order |
| Panel.FacePanel.constructor | kittens/choose_fonts/face.go:246-250 | a new panel has an empty preview cache, no render started and no preview shown |
| Panel.FacePanel.Set | kittens/choose_fonts/face.go:270-281 | only the setting `which` names changes |
| Panel.FacePanel.RenderPreview | kittens/choose_fonts/face.go:166-177 | the backend's answer replaces the entry for that key alone; every other entry is kept |
| Panel.FacePanel.DrawScreen | kittens/choose_fonts/face.go:202-221 | the key is built from the settings and screen size. A first lookup stores an empty placeholder and starts exactly one background render, and no key is started in the background twice. A pending entry shows nothing and starts nothing. A ready entry, holding four previews or more, shows the preview of the face `which` names |
| Panel.FacePanel.VariableSpec | kittens/choose_fonts/face.go:31-44 | without a preview it fails; otherwise it writes the family and the variable name, then the merged axis values in the walk order, or else the named style when it is not empty |
| Panel.FacePanel.UpdateFeatureInSetting | kittens/choose_fonts/face.go:404-426 | a parse error of the setting or the token is returned and changes nothing; otherwise the setting becomes the corrected update of its description |
| Panel.FacePanel.HandleClickOnFeature | kittens/choose_fonts/face.go:428-444 | the settings change exactly as a feature click implies |
| Panel.FacePanel.ClickAxis | kittens/choose_fonts/face.go:457-469 | the settings change exactly as an axis click implies; an unknown tag changes nothing |
| Panel.FacePanel.ApplyClick | kittens/choose_fonts/face.go:447-470 | the setting `which` names takes the text the decoded click writes, if any; the error is the click's |
| Panel.FacePanel.OnClick | kittens/choose_fonts/face.go:446-481 | the click is applied. When it succeeds and the cache has no ready entry for the new settings, that entry is rendered synchronously; otherwise the cache is unchanged |
| Panel.FacePanel.OnKeyEvent | kittens/choose_fonts/face.go:483-495 | Esc and Enter are handled and return to the faces list; only Enter hands the edited settings to the list; any other key is not handled and changes nothing |
| Panel.FacePanel.OnEnter | kittens/choose_fonts/face.go:501-507 | the panel takes the family, face and settings to edit and becomes the current pane |
| Search.FirstIndex | kittens/choose_fonts/graphics.go:48-53 | the index of the first element equal to the value (for on_response, the first slot with the number), or none when no element is |
| Search.FirstIndexAt | kittens/choose_fonts/graphics.go:48-53 | a match with no match before it is exactly the index the search finds |
| Graphics.GraphicsManager.Initialize | kittens/choose_fonts/graphics.go:23-42 | the array aliases the five named slots in order; they get the numbers 7891231 to 7891235 in the order main, bold, italic, bi, extra, all distinct; the numbers sent are those; the ids and files are unchanged |
| Graphics.GraphicsManager.OnResponse | kittens/choose_fonts/graphics.go:44-55 | an answer other than OK is the error `Failed to load image with error: <message>` and changes no id. On OK, only the first slot with the answer's number takes its id, with no error. No number or file changes |
| Graphics.GraphicsManager.Finalize | kittens/choose_fonts/graphics.go:57-71 | one delete per slot, by image number, in the order main, bold, italic, bi, extra |

## Left out

- Terminal drawing is left out because it only produces styled text: the label and styling of
  `draw_axis`, `render_lines`, `draw_variable_fine_tune`, `draw_family_style_select`,
  `draw_font_features`, `draw_preview_header`, the screen title and `display_image`.
  `Axis.DrawAxis` takes the number of cells left after the label as its input.
- The goroutine, the mutex and `WakeupMainThread` of `draw_screen` and `render_preview` are
  left out. The background render is two steps on one object: `DrawScreen` records the start
  in `dispatched`, and a later `RenderPreview` completes it.
- The font backend query `render_family_samples` and `set_worker_error` are left out. The
  backend's answer is an input, and its errors are not part of this model.
- The redraw at the end of `on_click`, `on_key_event`, `on_enter` and `on_wakeup` goes
  through the handler, and is left out. Drawing is the caller's next `DrawScreen`.
- `initialize` of the face panel only stores the handler; the constructor models the empty
  cache. `on_text` does nothing.
- The graphics command bytes and the `lp` writes are left out. The graphics methods return the
  image numbers they send commands for.
- IEEE floats are left out. `strconv.FormatFloat`, `%g` and `strconv.ParseFloat` are
  parameters, and axis values are exact reals.
- `current_axis_values` of the preview is not part of this model. Its result is a field of
  `Samples.Sample`.
- Go's map iteration order is never fixed. It is a parameter, or a ghost out-parameter, that
  lists every key once.
- `shlex` is not part of this model's source. `Shlex` is a POSIX-style stand-in with Python's
  quoting rules.
- Screen sizes are unbounded integers. The `uint` products in `draw_screen` do not wrap
  around.
- Panel.FacePanel.ClickAxis: a link with last index 0 writes no setting in the model. The
  source divides by zero there and writes an infinite or NaN axis value, which reals cannot
  express.
- Panel.FacePanel.VariableSpec: a missing preview is the error `NilPreview`. The source
  dereferences a nil pointer and panics. The same holds for HandleClickOnFeature, ClickAxis,
  ApplyClick and OnClick.
- Faces.Get: an unknown `which` is a precondition, where the source panics. DrawScreen,
  UpdateFeatureInSetting, HandleClickOnFeature, ClickAxis, ApplyClick and OnClick require the
  same, since they call it.
- Clicks.StyleClickSelects: the style control does not escape its names, so the round trip is
  stated only for names without `"` or `\`.
- FontSpecLaws.RoundTrip: stated for descriptions String writes as words. A set field never
  has an empty key, axis names are bare words that are not field names, and features are
  well formed. A system name is covered by SystemRoundTrip.
- `utils.NewSeparatorScanner` is not part of this model's source. `Text.ScanSplit` assumes
  it yields the fields between blanks while text remains, so `features=` gives no feature
  and a trailing blank adds none; `strings.Split` would add an empty-tag feature there.
- Strings are sequences of Unicode code points, while Go indexes a string's UTF-8 bytes.
  The one index this matters for is `x[1]` in NewParsedFontFeature; `ParseFeatureAsWritten`
  reads it as a byte: after an ASCII first character it is the second character, after any
  other it is a continuation byte, never `-`.
- Panel.FacePanel.OnClick: renders run one after another in the model. In the source, the
  synchronous render of on_click also runs when the entry is draw_screen's empty
  placeholder, while that key's background render may still be running, so one key can be
  rendered twice at once. `Valid()` states only that no key is started in the background
  twice.
- Clicks.FeatureClickToggles and Clicks.UpdatedSettingRoundTrip: stated for descriptions
  String writes as words. A setting that names a system font is covered by
  SystemSettingIgnoresFeature: there the click changes nothing.
- FontSpecCodec.NewFontSpec and Panel.FacePanel.UpdateFeatureInSetting: these model the
  corrected code. The code as written is modelled by `Parse(AsWritten, …)`,
  `ParseFeatureAsWritten` and `UpdateFeatures(AsWritten, …)` (see Findings).

## Findings

| source | as written | input that shows it | evidently intended | confidence | as-written member | corrected member |
|---|---|---|---|---|---|---|
| kittens/choose_fonts/face.go:338 | the sign test reads `x[1] == '-'` | `-liga` is read as the valued feature with tag `-liga`, so String's `-liga` does not read back; a one-character ASCII token such as `a` indexes `x[1]` past its end | `x[0] == '-'` | not executed | FontSpecFindings.DisableTokenMisparsed, FontSpecFindings.OneCharTokenPanics | FontSpecLaws.FeatureRoundTrip |
| kittens/choose_fonts/face.go:398 | `ans.axes[k] = f` on a map never allocated | `family=X wght=400` panics with a write to a nil map, so no description with an axis reads back | allocate `ans.axes` before the loop | not executed | FontSpecFindings.AxisRoundTripPanicsAsWritten | FontSpecLaws.RoundTrip |
| kittens/choose_fonts/face.go:414-417 | the loop assigns to its copy `f` of the element | with features `[liga=0]`, the update `+liga` leaves the list unchanged | update `fs.features[i]` in place | not executed | Router.FeatureUpdateLostAsWritten | Router.UpdatedFeatureValue |
