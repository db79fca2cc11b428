/** Two defects of the font-spec parser in face.go, each shown on the code as written and
    set beside the corrected reading that the rest of the model uses. */
module FontSpecFindings {
  import opened Wrappers
  import Text
  import Shlex
  import Floats
  import MapOrder
  import opened FontSpecCodec
  import opened FontSpecLaws

  // ---------------------------------------------------------------- the sign test on x[1]

  /** As written, `-tag` is not a disabled feature: it takes the unsigned branch and keeps the
      dash in its tag. Corrected, it is the boolean feature `tag` switched off. */
  lemma DisableTokenMisparsed(tag: string)
    requires tag != [] && tag[0] != '-' && '=' !in tag
    ensures ParseFeatureAsWritten("-" + tag) == Ok(ParsedFontFeature("-" + tag, 0, false))
    ensures ParseFeature("-" + tag) == Ok(ParsedFontFeature(tag, 0, true))
  {
    var x := "-" + tag;
    assert x[1..] == tag && x[1] == tag[0];
    assert '=' !in x;
  }

  /** So a switched-off feature does not survive String and the parser as written:
      `ParsedFontFeature{"liga", 0, true}` is written `-liga` and read back as `-liga=0`. */
  lemma DisabledFeatureLostAsWritten(f: ParsedFontFeature)
    requires f.isBool && f.val == 0 && f.tag != [] && f.tag[0] != '-' && '=' !in f.tag
    ensures ParseFeatureAsWritten(FeatureString(f)) != Ok(f)
    ensures ParseFeature(FeatureString(f)) == Ok(f)
  {
    assert FeatureString(f) == "-" + f.tag;
    DisableTokenMisparsed(f.tag);
  }

  /** As written, a token of one ASCII character other than `+` reads `x[1]` past its end,
      while a non-ASCII character is at least two bytes long and reads as a tag; corrected,
      `-` is a disabled feature with an empty tag and any other character but `=` a tag. */
  lemma OneCharTokenPanics(c: char)
    requires c != '+'
    ensures ParseFeatureAsWritten([c]) == Err(Panic(IndexOutOfRange)) <==> IsAscii(c)
    ensures !IsAscii(c) ==> ParseFeatureAsWritten([c]) == Ok(ParsedFontFeature([c], 0, false))
    ensures c != '=' ==> ParseFeature([c]).Ok?
  {
    if c != '-' && c != '=' {
      assert '=' !in [c];
    }
  }

  /** A `features` word: its value split on blanks and each token parsed. */
  lemma FeaturesItem(rev: Revision, ans: FontSpec, spec: string, v: string, ft: Floats.FloatText)
    ensures ParseItem(rev, ans, spec, FeaturesKey + "=" + v, ft) == ParseFeatures(rev, ans, Text.ScanSplit(v, ' '))
  {
    Text.CutAt(FeaturesKey, '=', v);
    FeaturesKeyFacts();
  }

  /** A features value with no blank is one token. */
  lemma OneToken(rev: Revision, ans: FontSpec, v: string)
    requires v != [] && ' ' !in v
    ensures ParseFeatures(rev, ans, Text.ScanSplit(v, ' '))
         == match ParseFeatureBy(rev, v) case Err(e) => Err(e) case Ok(f) => Ok(ans.(features := ans.features + [f]))
  {
    Text.ScanSplitJoin([v], ' ');
    assert Text.ScanSplit(v, ' ') == [v];
  }

  /** As written, a features word holding `-tag` stores the wrong feature; corrected, the
      feature read back is the disabled `tag`. */
  lemma FeaturesWordAsWritten(ans: FontSpec, spec: string, tag: string, ft: Floats.FloatText)
    requires tag != [] && tag[0] != '-' && '=' !in tag && ' ' !in tag
    ensures ParseItem(AsWritten, ans, spec, FeaturesKey + "=-" + tag, ft)
         == Ok(ans.(features := ans.features + [ParsedFontFeature("-" + tag, 0, false)]))
    ensures ParseItem(Corrected, ans, spec, FeaturesKey + "=-" + tag, ft)
         == Ok(ans.(features := ans.features + [ParsedFontFeature(tag, 0, true)]))
  {
    var v := "-" + tag;
    assert FeaturesKey + "=-" + tag == FeaturesKey + "=" + v;
    assert ' ' !in v;
    FeaturesItem(AsWritten, ans, spec, v, ft);
    FeaturesItem(Corrected, ans, spec, v, ft);
    OneToken(AsWritten, ans, v);
    OneToken(Corrected, ans, v);
    DisableTokenMisparsed(tag);
  }

  // ---------------------------------------------------------------- the nil axes map

  /** As written, the first axis word of a well-formed description panics on the nil map. */
  lemma AxisWordPanics(ans: FontSpec, spec: string, k: string, x: real, ft: Floats.FloatText)
    requires Floats.ExactAt(ft, x) && AxisKeyOk(k)
    ensures ParseItem(AsWritten, ans, spec, Decoded(Word(k, ft.formatF(x))), ft) == Err(Panic(NilMapWrite))
  {
    var text := ft.formatF(x);
    assert Decoded(Word(k, text)) == k + ['='] + text;
    Text.CutAt(k, '=', text);
  }

  lemma AxisWordsPanic(ans: FontSpec, spec: string, axes: map<string, real>, order: seq<string>, rest: seq<string>, ft: Floats.FloatText)
    requires Floats.ExactOn(ft, axes.Values) && |order| > 0
    requires forall i :: 0 <= i < |order| ==> order[i] in axes && AxisKeyOk(order[i])
    ensures ParseItems(AsWritten, ans, spec, DecodedAll(AxisWords(axes, order, ft)) + rest, ft) == Err(Panic(NilMapWrite))
  {
    var ws := AxisWords(axes, order, ft);
    var items := DecodedAll(ws) + rest;
    assert ws[0] == Word(order[0], ft.formatF(axes[order[0]]));
    assert items[0] == Decoded(ws[0]);
    Floats.ExactIn(ft, axes, order[0]);
    AxisWordPanics(ans, spec, order[0], axes[order[0]], ft);
  }

  /** As written, the words String writes for a font with a variable axis panic at the
      first axis word, after the fields are read. */
  lemma ParseWordsPanics(s: FontSpec, order: seq<string>, spec: string, ft: Floats.FloatText)
    requires Representable(s) && MapOrder.IsEnumeration(order, s.axes.Keys) && Floats.ExactOn(ft, s.axes.Values)
    requires |s.axes| > 0
    ensures ParseItems(AsWritten, EmptySpec, spec, DecodedAll(SpecWords(s, order, ft)), ft) == Err(Panic(NilMapWrite))
  {
    var f := FieldWords(s);
    var a := AxisWords(s.axes, order, ft);
    var fw := FeatureWords(s.features);
    assert |order| > 0 by {
      var k :| k in s.axes;
    }
    SpecWordsSplit(f, a, fw);
    ParseFields(AsWritten, spec, s, ft);
    AxisWordsPanic(FieldsOf(s), spec, s.axes, order, DecodedAll(fw), ft);
    ParseItemsAppend(AsWritten, EmptySpec, spec, DecodedAll(f), DecodedAll(a) + DecodedAll(fw), ft);
  }

  lemma SpecWordsSplit(f: seq<Word>, a: seq<Word>, fw: seq<Word>)
    ensures DecodedAll(f + a + fw) == DecodedAll(f) + (DecodedAll(a) + DecodedAll(fw))
  {
    DecodedAllAppend(f, a);
    DecodedAllAppend(f + a, fw);
  }

  /** As written, NewFontSpec cannot read back any description String writes for a font
      with a variable axis: it panics. Corrected, RoundTrip gives the description back. */
  lemma AxisRoundTripPanicsAsWritten(s: FontSpec, order: seq<string>, ft: Floats.FloatText)
    requires Representable(s) && MapOrder.IsEnumeration(order, s.axes.Keys) && Floats.ExactOn(ft, s.axes.Values)
    requires |s.axes| > 0
    ensures Parse(AsWritten, Serialize(s, order, ft), ft) == Err(Panic(NilMapWrite))
    ensures Parse(Corrected, Serialize(s, order, ft), ft) == Ok(s)
  {
    var text := Serialize(s, order, ft);
    SerializedWords(s, order, ft);
    SerializedShape(s, order, ft);
    ParseWordsPanics(s, order, text, ft);
    RoundTrip(s, order, ft);
  }
}
