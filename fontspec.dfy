/** The `key=value` font description of the face panel: FontSpec, its features, how a
    description is parsed (NewFontSpec, NewParsedFontFeature) and written back (String). */
module FontSpecCodec {
  import opened Wrappers
  import Text
  import Decimal
  import Shlex
  import Floats
  import MapOrder

  /** A string field that remembers whether it was given. */
  datatype SettableString = SettableString(val: string, isSet: bool)

  const Unset: SettableString := SettableString("", false)

  function SetTo(v: string): SettableString {
    SettableString(v, true)
  }

  /** `+tag` / `-tag` (isBool, val 1 or 0) or `tag=N`. */
  datatype ParsedFontFeature = ParsedFontFeature(tag: string, val: Decimal.uint64, isBool: bool)

  datatype FontSpec = FontSpec(
    family: SettableString,
    style: SettableString,
    postscriptName: SettableString,
    fullName: SettableString,
    system: SettableString,
    variableName: SettableString,
    axes: map<string, real>,
    features: seq<ParsedFontFeature>)

  /** The zero FontSpec (with an allocated, empty axes map). */
  const EmptySpec: FontSpec := FontSpec(Unset, Unset, Unset, Unset, Unset, Unset, map[], [])

  function SystemSpec(name: string): FontSpec {
    EmptySpec.(system := SetTo(name))
  }

  /** The string fields a description names by key. */
  datatype Field = Family | Style | PostscriptName | FullName | VariableName

  function Key(f: Field): string {
    match f
    case Family => "family"
    case Style => "style"
    case PostscriptName => "postscript_name"
    case FullName => "full_name"
    case VariableName => "variable_name"
  }

  /** The cases of the key switch in NewFontSpec that set a string field. */
  function FieldOf(k: string): Option<Field> {
    if k == "family" then Some(Family)
    else if k == "style" then Some(Style)
    else if k == "full_name" then Some(FullName)
    else if k == "postscript_name" then Some(PostscriptName)
    else if k == "variable_name" then Some(VariableName)
    else None
  }

  const FeaturesKey: string := "features"

  function Get(s: FontSpec, f: Field): SettableString {
    match f
    case Family => s.family
    case Style => s.style
    case PostscriptName => s.postscriptName
    case FullName => s.fullName
    case VariableName => s.variableName
  }

  function With(s: FontSpec, f: Field, v: SettableString): FontSpec {
    match f
    case Family => s.(family := v)
    case Style => s.(style := v)
    case PostscriptName => s.(postscriptName := v)
    case FullName => s.(fullName := v)
    case VariableName => s.(variableName := v)
  }

  /** The parsing code of face.go as it stands, or with its defects corrected. */
  datatype Revision = AsWritten | Corrected

  datatype PanicReason = IndexOutOfRange | NilMapWrite

  datatype ParseError =
    | MissingEquals(spec: string, item: string)
    | InvalidFeatureValue(text: string)
    | InvalidAxisValue(key: string, text: string)
    | ShellSyntax(cause: Shlex.SplitError)
    | Panic(reason: PanicReason)

  // ---------------------------------------------------------------- features

  /** ParsedFontFeature.String. */
  function FeatureString(f: ParsedFontFeature): (r: string)
    ensures r != []
  {
    if f.isBool then (if f.val == 0 then "-" else "+") + f.tag
    else f.tag + "=" + Decimal.FormatNat(f.val)
  }

  /** The unsigned branch of NewParsedFontFeature: `tag` or `tag=N`. */
  function ValuedFeature(x: string): Result<ParsedFontFeature, ParseError> {
    var c := Text.Cut(x, '=');
    if !c.found then Ok(ParsedFontFeature(c.before, 0, false))
    else
      match Decimal.ParseUint(c.after)
      case None => Err(InvalidFeatureValue(c.after))
      case Some(v) => Ok(ParsedFontFeature(c.before, v, false))
  }

  /** A character UTF-8 writes as one byte. */
  predicate IsAscii(c: char) {
    c as int < 0x80
  }

  /** NewParsedFontFeature as written: the sign test reads `x[1] == '-'`, so `-tag` takes the
      unsigned branch and a token of one ASCII character other than `+` indexes past its end.
      Go indexes the UTF-8 bytes: after an ASCII first character byte 1 starts the second
      character; after any other it is a continuation byte, never `-`, and it exists. */
  function ParseFeatureAsWritten(x: string): Result<ParsedFontFeature, ParseError> {
    if x == "" then Ok(ParsedFontFeature("", 0, false))
    else if x[0] == '+' then Ok(ParsedFontFeature(x[1..], 1, true))
    else if !IsAscii(x[0]) then ValuedFeature(x)
    else if |x| < 2 then Err(Panic(IndexOutOfRange))
    else if x[1] == '-' then Ok(ParsedFontFeature(x[1..], 0, true))
    else ValuedFeature(x)
  }

  /** NewParsedFontFeature with the sign test on `x[0]`. */
  function ParseFeature(x: string): Result<ParsedFontFeature, ParseError> {
    if x == "" then Ok(ParsedFontFeature("", 0, false))
    else if x[0] == '+' || x[0] == '-' then Ok(ParsedFontFeature(x[1..], if x[0] == '+' then 1 else 0, true))
    else ValuedFeature(x)
  }

  function ParseFeatureBy(rev: Revision, x: string): Result<ParsedFontFeature, ParseError> {
    if rev.AsWritten? then ParseFeatureAsWritten(x) else ParseFeature(x)
  }

  // ---------------------------------------------------------------- parsing

  /** A key the switch in NewFontSpec does not treat as an axis name. */
  predicate IsReserved(k: string) {
    FieldOf(k).Some? || k == FeaturesKey
  }

  /** The features value: every space-separated token parsed and appended, in order. */
  function ParseFeatures(rev: Revision, ans: FontSpec, tokens: seq<string>): Result<FontSpec, ParseError>
    decreases |tokens|
  {
    if tokens == [] then Ok(ans)
    else
      match ParseFeatureBy(rev, tokens[0])
      case Err(e) => Err(e)
      case Ok(f) => ParseFeatures(rev, ans.(features := ans.features + [f]), tokens[1..])
  }

  /** An axis value: parsed as a float and stored under its name. */
  function ParseAxis(rev: Revision, ans: FontSpec, k: string, v: string, ft: Floats.FloatText)
    : Result<FontSpec, ParseError>
  {
    match ft.parseFloat(v)
    case None => Err(InvalidAxisValue(k, v))
    case Some(x) =>
      // as written, `ans.axes` is a nil map and the assignment panics
      if rev.AsWritten? then Err(Panic(NilMapWrite)) else Ok(ans.(axes := ans.axes[k := x]))
  }

  /** One `key=value` word of the loop in NewFontSpec. */
  function ParseItem(rev: Revision, ans: FontSpec, spec: string, item: string, ft: Floats.FloatText)
    : Result<FontSpec, ParseError>
  {
    var c := Text.Cut(item, '=');
    if !c.found then Err(MissingEquals(spec, item))
    else
      match FieldOf(c.before)
      case Some(f) => Ok(With(ans, f, SetTo(c.after)))
      case None =>
        if c.before == FeaturesKey then ParseFeatures(rev, ans, Text.ScanSplit(c.after, ' '))
        else ParseAxis(rev, ans, c.before, c.after, ft)
  }

  function ParseItems(rev: Revision, ans: FontSpec, spec: string, items: seq<string>, ft: Floats.FloatText)
    : Result<FontSpec, ParseError>
    decreases |items|
  {
    if items == [] then Ok(ans)
    else
      match ParseItem(rev, ans, spec, items[0], ft)
      case Err(e) => Err(e)
      case Ok(next) => ParseItems(rev, next, spec, items[1..], ft)
  }

  /** NewFontSpec. */
  function Parse(rev: Revision, spec: string, ft: Floats.FloatText): Result<FontSpec, ParseError> {
    if spec == "" || spec == "auto" then Ok(SystemSpec("auto"))
    else
      match Shlex.Split(spec)
      case Err(e) => Err(ShellSyntax(e))
      case Ok(parts) =>
        if |parts| == 0 then Err(Panic(IndexOutOfRange))
        else if '=' !in parts[0] then Ok(SystemSpec(spec))
        else ParseItems(rev, EmptySpec, spec, parts, ft)
  }

  // ---------------------------------------------------------------- serialising

  /** One ` key=value` the builder writes; the value is shell-quoted, the key is not. */
  datatype Word = Word(key: string, value: string)

  function Encode(w: Word): string {
    w.key + "=" + Shlex.Quote(w.value)
  }

  /** `key=value` as the shell splitter hands it back. */
  function Decoded(w: Word): string {
    w.key + "=" + w.value
  }

  function DecodedAll(ws: seq<Word>): (r: seq<string>)
    ensures |r| == |ws|
  {
    if ws == [] then [] else [Decoded(ws[0])] + DecodedAll(ws[1..])
  }

  /** What the strings.Builder holds after writing the words. */
  function Emit(ws: seq<Word>): string {
    if ws == [] then "" else " " + Encode(ws[0]) + Emit(ws[1..])
  }

  /** The word for a field, present only when the field is set. */
  function FieldWord(k: string, v: SettableString): seq<Word> {
    if v.isSet then [Word(k, v.val)] else []
  }

  /** The string fields, in the order String writes them. */
  function FieldWords(s: FontSpec): seq<Word> {
    FieldWord(Key(Family), s.family) + FieldWord(Key(Style), s.style)
    + FieldWord(Key(PostscriptName), s.postscriptName) + FieldWord(Key(FullName), s.fullName)
    + FieldWord(Key(VariableName), s.variableName)
  }

  /** One word per axis, in the given iteration order. */
  function AxisWords(axes: map<string, real>, order: seq<string>, ft: Floats.FloatText): (r: seq<Word>)
    requires forall i :: 0 <= i < |order| ==> order[i] in axes
    ensures |r| == |order|
  {
    if order == [] then []
    else [Word(order[0], ft.formatF(axes[order[0]]))] + AxisWords(axes, order[1..], ft)
  }

  /** The features buffer: each feature's String followed by a space. */
  function FeaturesText(fs: seq<ParsedFontFeature>): string {
    if fs == [] then "" else FeatureString(fs[0]) + " " + FeaturesText(fs[1..])
  }

  function FeatureWords(fs: seq<ParsedFontFeature>): seq<Word> {
    if |fs| > 0 then [Word(FeaturesKey, Text.TrimSpace(FeaturesText(fs)))] else []
  }

  function SpecWords(s: FontSpec, order: seq<string>, ft: Floats.FloatText): seq<Word>
    requires MapOrder.IsEnumeration(order, s.axes.Keys)
  {
    FieldWords(s) + AxisWords(s.axes, order, ft) + FeatureWords(s.features)
  }

  /** FontSpec.String, for one iteration order of the axes map. Note that the system test is
      on the value being non-empty, not on it being set. */
  function Serialize(s: FontSpec, order: seq<string>, ft: Floats.FloatText): string
    requires MapOrder.IsEnumeration(order, s.axes.Keys)
  {
    if s.system.val != "" then s.system.val
    else Text.TrimSpace(Emit(SpecWords(s, order, ft)))
  }

  // ---------------------------------------------------------------- builder lemmas

  lemma {:induction false} EmitAppend(a: seq<Word>, b: seq<Word>)
    ensures Emit(a + b) == Emit(a) + Emit(b)
    decreases |a|
  {
    if a == [] {
      assert a + b == b;
    } else {
      assert (a + b)[0] == a[0] && (a + b)[1..] == a[1..] + b;
      EmitAppend(a[1..], b);
    }
  }

  // ---------------------------------------------------------------- imperative code

  /** NewFontSpec (defects corrected), with its loops. */
  method NewFontSpec(spec: string, ft: Floats.FloatText) returns (r: Result<FontSpec, ParseError>)
    ensures r == Parse(Corrected, spec, ft)
  {
    if spec == "" || spec == "auto" {
      return Ok(SystemSpec("auto"));
    }
    var split := Shlex.Split(spec);
    if split.Err? {
      return Err(ShellSyntax(split.error));
    }
    var parts := split.value;
    if |parts| == 0 {
      return Err(Panic(IndexOutOfRange));
    }
    if '=' !in parts[0] {
      return Ok(SystemSpec(spec));
    }
    var ans := EmptySpec;
    var i := 0;
    while i < |parts|
      invariant 0 <= i <= |parts|
      invariant ParseItems(Corrected, EmptySpec, spec, parts, ft) == ParseItems(Corrected, ans, spec, parts[i..], ft)
    {
      assert parts[i..][0] == parts[i] && parts[i..][1..] == parts[i + 1..];
      var next := ReadItem(ans, spec, parts[i], ft);
      if next.Err? {
        return next;
      }
      ans := next.value;
      i := i + 1;
    }
    return Ok(ans);
  }

  /** The body of NewFontSpec's loop over the words, run on one word: the word's key picks a
      field, the features list or an axis. ParseItem is the same step as a function, the one
      the laws are stated on; this method is the step NewFontSpec runs. */
  method ReadItem(ans: FontSpec, spec: string, item: string, ft: Floats.FloatText) returns (r: Result<FontSpec, ParseError>)
    ensures r == ParseItem(Corrected, ans, spec, item, ft)
  {
    var c := Text.Cut(item, '=');
    if !c.found {
      return Err(MissingEquals(spec, item));
    }
    var k, v := c.before, c.after;
    var field := FieldOf(k);
    if field.Some? {
      return Ok(With(ans, field.value, SetTo(v)));
    } else if k == FeaturesKey {
      r := ReadFeatures(ans, Text.ScanSplit(v, ' '));
    } else {
      var f := ft.parseFloat(v);
      if f.None? {
        return Err(InvalidAxisValue(k, v));
      }
      return Ok(ans.(axes := ans.axes[k := f.value]));
    }
  }

  /** The inner loop of NewFontSpec: each token of the features value parsed and appended. */
  method ReadFeatures(start: FontSpec, tokens: seq<string>) returns (r: Result<FontSpec, ParseError>)
    ensures r == ParseFeatures(Corrected, start, tokens)
  {
    var ans := start;
    var j := 0;
    while j < |tokens|
      invariant 0 <= j <= |tokens|
      invariant ParseFeatures(Corrected, start, tokens) == ParseFeatures(Corrected, ans, tokens[j..])
    {
      assert tokens[j..][0] == tokens[j] && tokens[j..][1..] == tokens[j + 1..];
      var pff := ParseFeature(tokens[j]);
      if pff.Err? {
        return Err(pff.error);
      }
      ans := ans.(features := ans.features + [pff.value]);
      j := j + 1;
    }
    return Ok(ans);
  }

  /** The closure `a` of String: ` key=<quoted value>` when the field is set. */
  method WriteField(ans: string, k: string, v: SettableString) returns (r: string)
    ensures r == ans + Emit(FieldWord(k, v))
  {
    r := ans;
    if v.isSet {
      r := r + " " + Encode(Word(k, v.val));
      assert FieldWord(k, v)[1..] == [];
    }
  }

  lemma FieldWordsEmit(s: FontSpec)
    ensures Emit(FieldWords(s)) == Emit(FieldWord(Key(Family), s.family)) + Emit(FieldWord(Key(Style), s.style))
      + Emit(FieldWord(Key(PostscriptName), s.postscriptName)) + Emit(FieldWord(Key(FullName), s.fullName))
      + Emit(FieldWord(Key(VariableName), s.variableName))
  {
    var a, b, c, d, e := FieldWord(Key(Family), s.family), FieldWord(Key(Style), s.style),
      FieldWord(Key(PostscriptName), s.postscriptName), FieldWord(Key(FullName), s.fullName),
      FieldWord(Key(VariableName), s.variableName);
    EmitAppend(a, b);
    EmitAppend(a + b, c);
    EmitAppend(a + b + c, d);
    EmitAppend(a + b + c + d, e);
  }

  /** The string fields of String, in its order. */
  method WriteFields(s: FontSpec) returns (ans: string)
    ensures ans == Emit(FieldWords(s))
  {
    ans := WriteField("", Key(Family), s.family);
    assert ans == Emit(FieldWord(Key(Family), s.family));
    ans := WriteField(ans, Key(Style), s.style);
    ans := WriteField(ans, Key(PostscriptName), s.postscriptName);
    ans := WriteField(ans, Key(FullName), s.fullName);
    ans := WriteField(ans, Key(VariableName), s.variableName);
    FieldWordsEmit(s);
  }

  /** The axes of String, in the given iteration order of the map. */
  method WriteAxes(ans: string, axes: map<string, real>, keys: seq<string>, ft: Floats.FloatText) returns (r: string)
    requires forall i :: 0 <= i < |keys| ==> keys[i] in axes
    ensures r == ans + Emit(AxisWords(axes, keys, ft))
  {
    r := ans;
    var i := 0;
    while i < |keys|
      invariant 0 <= i <= |keys|
      invariant ans + Emit(AxisWords(axes, keys, ft)) == r + Emit(AxisWords(axes, keys[i..], ft))
    {
      assert keys[i..][0] == keys[i] && keys[i..][1..] == keys[i + 1..];
      r := r + " " + Encode(Word(keys[i], ft.formatF(axes[keys[i]])));
      i := i + 1;
    }
  }

  /** The features buffer of String, written one feature at a time. */
  method WriteFeatures(fs: seq<ParsedFontFeature>) returns (buf: string)
    ensures buf == FeaturesText(fs)
  {
    buf := "";
    var j := 0;
    while j < |fs|
      invariant 0 <= j <= |fs|
      invariant buf + FeaturesText(fs[j..]) == FeaturesText(fs)
    {
      assert fs[j..][0] == fs[j] && fs[j..][1..] == fs[j + 1..];
      buf := buf + FeatureString(fs[j]) + " ";
      j := j + 1;
    }
  }

  /** The features word of String, written when there are features. */
  method WriteFeatureWord(ans: string, fs: seq<ParsedFontFeature>) returns (r: string)
    ensures r == ans + Emit(FeatureWords(fs))
  {
    r := ans;
    if |fs| > 0 {
      var buf := WriteFeatures(fs);
      var w := Word(FeaturesKey, Text.TrimSpace(buf));
      assert FeatureWords(fs) == [w] && [w][1..] == [];
      r := r + " " + Encode(w);
    }
  }

  /** FontSpec.String: the builder, with the runtime's order for the axes map. */
  method FormatFontSpec(s: FontSpec, ft: Floats.FloatText) returns (r: string, order: seq<string>)
    ensures MapOrder.IsEnumeration(order, s.axes.Keys)
    ensures r == Serialize(s, order, ft)
  {
    if s.system.val != "" {
      order := MapOrder.Enumerate(s.axes.Keys);
      return s.system.val, order;
    }
    var ans := WriteFields(s);
    var keys := MapOrder.Enumerate(s.axes.Keys);
    order := keys;
    ans := WriteAxes(ans, s.axes, keys, ft);
    ans := WriteFeatureWord(ans, s.features);
    EmitAppend(FieldWords(s), AxisWords(s.axes, keys, ft));
    EmitAppend(FieldWords(s) + AxisWords(s.axes, keys, ft), FeatureWords(s.features));
    r := Text.TrimSpace(ans);
  }
}
