/** What the font description codec promises: a FontSpec written by String is read back
    by NewFontSpec, and where the code as written departs from that. */
module FontSpecLaws {
  import opened Wrappers
  import Text
  import Decimal
  import Shlex
  import Floats
  import MapOrder
  import opened FontSpecCodec

  // ---------------------------------------------------------------- what String can express

  /** A field that is either given or left at its zero value. */
  predicate FieldOk(v: SettableString) {
    v.isSet || v == Unset
  }

  /** A feature whose String is a single token that reads back as itself. */
  predicate WellFormedFeature(f: ParsedFontFeature) {
    Text.NoSpace(f.tag)
    && (f.isBool ==> f.val <= 1)
    && (!f.isBool ==> '=' !in f.tag && (f.tag == [] || (f.tag[0] != '+' && f.tag[0] != '-')))
  }

  predicate WellFormedFeatures(fs: seq<ParsedFontFeature>) {
    forall i :: 0 <= i < |fs| ==> WellFormedFeature(fs[i])
  }

  /** An axis name that String can write unquoted and NewFontSpec reads as an axis. */
  predicate AxisKeyOk(k: string) {
    Shlex.AllSafe(k) && '=' !in k && !IsReserved(k)
  }

  predicate FieldsOk(s: FontSpec) {
    FieldOk(s.family) && FieldOk(s.style) && FieldOk(s.postscriptName)
    && FieldOk(s.fullName) && FieldOk(s.variableName)
  }

  predicate AnyFieldSet(s: FontSpec) {
    s.family.isSet || s.style.isSet || s.postscriptName.isSet || s.fullName.isSet || s.variableName.isSet
  }

  /** The descriptions String writes as `key=value` words. */
  predicate Representable(s: FontSpec) {
    s.system == Unset
    && FieldsOk(s)
    && (forall k :: k in s.axes ==> AxisKeyOk(k))
    && WellFormedFeatures(s.features)
    && (AnyFieldSet(s) || |s.axes| > 0 || |s.features| > 0)
  }

  // ---------------------------------------------------------------- the field keys

  /** Each field key is recognised by the key switch, is a bare shell word and holds no `=`. */
  lemma KeyFacts(f: Field)
    ensures FieldOf(Key(f)) == Some(f)
    ensures Shlex.AllSafe(Key(f)) && '=' !in Key(f) && Key(f) != []
  {
  }

  lemma FeaturesKeyFacts()
    ensures FieldOf(FeaturesKey) == None
    ensures Shlex.AllSafe(FeaturesKey) && '=' !in FeaturesKey
  {
  }

  // ---------------------------------------------------------------- features

  /** NewParsedFontFeature (corrected) reads back what ParsedFontFeature.String writes. */
  lemma FeatureRoundTrip(f: ParsedFontFeature)
    requires WellFormedFeature(f)
    ensures ParseFeature(FeatureString(f)) == Ok(f)
  {
    var x := FeatureString(f);
    if f.isBool {
      assert x[1..] == f.tag;
    } else {
      var digits := Decimal.FormatNat(f.val);
      assert x == f.tag + ['='] + digits;
      Text.CutAt(f.tag, '=', digits);
      assert f.tag == [] ==> x[0] == '=';
      assert f.tag != [] ==> x[0] == f.tag[0];
    }
  }

  lemma FeatureStringNoSpace(f: ParsedFontFeature)
    requires WellFormedFeature(f)
    ensures Text.NoSpace(FeatureString(f))
  {
    var x := FeatureString(f);
    if f.isBool {
      assert x == [if f.val == 0 then '-' else '+'] + f.tag;
    } else {
      var digits := Decimal.FormatNat(f.val);
      assert x == f.tag + ['='] + digits;
      assert forall i :: 0 <= i < |digits| ==> Decimal.IsDigit(digits[i]);
    }
  }

  /** The tokens the features buffer is made of. */
  function Tokens(fs: seq<ParsedFontFeature>): (r: seq<string>)
    ensures |r| == |fs|
  {
    if fs == [] then [] else [FeatureString(fs[0])] + Tokens(fs[1..])
  }

  /** Every token is a non-empty run of non-space characters. */
  lemma {:induction false} TokensClean(fs: seq<ParsedFontFeature>)
    requires WellFormedFeatures(fs)
    ensures forall i :: 0 <= i < |fs| ==> Tokens(fs)[i] != [] && Text.NoSpace(Tokens(fs)[i])
    decreases |fs|
  {
    if fs != [] {
      TokensClean(fs[1..]);
      FeatureStringNoSpace(fs[0]);
      var ts := Tokens(fs);
      assert ts[0] == FeatureString(fs[0]);
      assert forall i :: 1 <= i < |fs| ==> ts[i] == Tokens(fs[1..])[i - 1];
    }
  }

  lemma {:induction false} FeaturesTextJoin(fs: seq<ParsedFontFeature>)
    requires |fs| > 0
    ensures FeaturesText(fs) == Text.Join(" ", Tokens(fs)) + " "
    decreases |fs|
  {
    if |fs| > 1 {
      FeaturesTextJoin(fs[1..]);
      assert Tokens(fs)[1..] == Tokens(fs[1..]);
    } else {
      assert fs[1..] == [];
    }
  }

  /** A join of non-empty space-free tokens starts and ends with a non-space. */
  lemma {:induction false} JoinTrimmed(parts: seq<string>)
    requires |parts| > 0
    requires forall i :: 0 <= i < |parts| ==> parts[i] != [] && Text.NoSpace(parts[i])
    ensures Text.Join(" ", parts) != []
    ensures Text.Join(" ", parts)[0] == parts[0][0]
    ensures Text.Trimmed(Text.Join(" ", parts))
    decreases |parts|
  {
    var j := Text.Join(" ", parts);
    if |parts| > 1 {
      JoinTrimmed(parts[1..]);
      var rest := Text.Join(" ", parts[1..]);
      assert j == parts[0] + " " + rest;
      assert j[|j| - 1] == rest[|rest| - 1];
      assert j[0] == parts[0][0];
    } else {
      assert j == parts[0];
      assert !Text.IsSpace(parts[0][|parts[0]| - 1]);
    }
  }

  /** The value String writes for the features key is the tokens joined by single spaces. */
  lemma FeatureValueTrim(fs: seq<ParsedFontFeature>)
    requires |fs| > 0 && WellFormedFeatures(fs)
    ensures Text.TrimSpace(FeaturesText(fs)) == Text.Join(" ", Tokens(fs))
  {
    TokensClean(fs);
    FeaturesTextJoin(fs);
    JoinTrimmed(Tokens(fs));
    assert Text.AllSpace(" ");
    Text.TrimSpaceOfTrimmedPadRight(Text.Join(" ", Tokens(fs)), " ");
  }

  /** Splitting that value on spaces gives the tokens back. */
  lemma FeatureValueSplit(fs: seq<ParsedFontFeature>)
    requires |fs| > 0 && WellFormedFeatures(fs)
    ensures Text.ScanSplit(Text.Join(" ", Tokens(fs)), ' ') == Tokens(fs)
  {
    var ts := Tokens(fs);
    TokensClean(fs);
    forall i | 0 <= i < |ts|
      ensures ' ' !in ts[i]
    {
      assert Text.IsSpace(' ');
    }
    assert [' '] == " ";
    Text.ScanSplitJoin(ts, ' ');
  }

  lemma {:induction false} ParseFeatureTokens(ans: FontSpec, fs: seq<ParsedFontFeature>)
    requires WellFormedFeatures(fs)
    ensures ParseFeatures(Corrected, ans, Tokens(fs)) == Ok(ans.(features := ans.features + fs))
    decreases |fs|
  {
    if fs == [] {
      assert ans.features + fs == ans.features;
    } else {
      var next := ans.(features := ans.features + [fs[0]]);
      assert ParseFeatures(Corrected, ans, Tokens(fs)) == ParseFeatures(Corrected, next, Tokens(fs[1..])) by {
        FeatureRoundTrip(fs[0]);
        assert Tokens(fs)[0] == FeatureString(fs[0]) && Tokens(fs)[1..] == Tokens(fs[1..]);
      }
      ParseFeatureTokens(next, fs[1..]);
      assert next.features + fs[1..] == ans.features + fs;
    }
  }

  // ---------------------------------------------------------------- splitting the written words

  predicate KeysSafe(ws: seq<Word>) {
    forall i :: 0 <= i < |ws| ==> Shlex.AllSafe(ws[i].key)
  }

  lemma EncodeEnds(w: Word)
    requires Shlex.AllSafe(w.key)
    ensures Encode(w) != []
    ensures Shlex.IsSafe(Encode(w)[0]) && !Shlex.IsBlank(Encode(w)[0]) && !Text.IsSpace(Encode(w)[0])
    ensures !Text.IsSpace(Encode(w)[|Encode(w)| - 1])
  {
    var e := Encode(w);
    var q := Shlex.Quote(w.value);
    assert e == w.key + "=" + q;
    if w.key != [] {
      assert e[0] == w.key[0];
    } else {
      assert e[0] == '=';
    }
    assert e[|e| - 1] == q[|q| - 1];
  }

  lemma {:induction false} EmitLast(ws: seq<Word>)
    requires |ws| > 0 && KeysSafe(ws)
    ensures Emit(ws) != [] && !Text.IsSpace(Emit(ws)[|Emit(ws)| - 1])
    decreases |ws|
  {
    var e := Emit(ws);
    EncodeEnds(ws[0]);
    var head := " " + Encode(ws[0]);
    assert e == head + Emit(ws[1..]);
    if |ws| > 1 {
      EmitLast(ws[1..]);
      assert e[|e| - 1] == Emit(ws[1..])[|Emit(ws[1..])| - 1];
    } else {
      assert Emit(ws[1..]) == [];
      assert e == head;
    }
  }

  /** The written words, minus the leading blank that TrimSpace removes. */
  function Body(ws: seq<Word>): string
    requires |ws| > 0
  {
    Encode(ws[0]) + Emit(ws[1..])
  }

  lemma BodyEnds(ws: seq<Word>)
    requires |ws| > 0 && KeysSafe(ws)
    ensures Body(ws) != [] && Shlex.IsSafe(Body(ws)[0]) && !Shlex.IsBlank(Body(ws)[0])
    ensures Text.Trimmed(Body(ws))
  {
    EncodeEnds(ws[0]);
    EmitLast(ws);
    var b := Body(ws);
    EmitBody(ws);
    assert b[0] == Encode(ws[0])[0];
    assert b[|b| - 1] == Emit(ws)[|Emit(ws)| - 1];
  }

  lemma BodyTrimmed(ws: seq<Word>)
    requires |ws| > 0 && KeysSafe(ws)
    ensures Text.TrimSpace(Emit(ws)) == Body(ws)
  {
    BodyEnds(ws);
    EmitBody(ws);
    assert Text.AllSpace(" ");
    Text.TrimSpaceOfTrimmed(" ", Body(ws));
  }

  /** One written word, up to what follows it, is read back as its decoded form. */
  lemma LexWord(w: Word, t: string, acc: seq<string>)
    requires Shlex.AllSafe(w.key)
    ensures Shlex.Lex(Encode(w) + t, Shlex.Between, "", acc) == Shlex.Lex(t, Shlex.Bare, Decoded(w), acc)
  {
    var head := w.key + "=";
    var q := Shlex.Quote(w.value);
    var b := Encode(w) + t;
    assert b == head + (q + t);
    assert Shlex.Lex(b, Shlex.Between, "", acc) == Shlex.Lex(b, Shlex.Bare, "", acc) by {
      EncodeEnds(w);
      assert b[0] == Encode(w)[0];
    }
    assert Shlex.Lex(b, Shlex.Bare, "", acc) == Shlex.Lex(q + t, Shlex.Bare, head, acc) by {
      assert Shlex.AllSafe(head);
      Shlex.LexSafe(head, q + t, "", acc);
      assert "" + head == head;
    }
    Shlex.LexQuoted(w.value, t, head, acc);
    assert head + w.value == Decoded(w);
  }

  /** The first word is read and the blank after it ends the word. */
  lemma LexWordsStep(ws: seq<Word>, acc: seq<string>)
    requires |ws| > 1 && Shlex.AllSafe(ws[0].key)
    ensures Shlex.Lex(Body(ws), Shlex.Between, "", acc)
         == Shlex.Lex(Body(ws[1..]), Shlex.Between, "", acc + [Decoded(ws[0])])
  {
    var rest := ws[1..];
    var t := Emit(rest);
    assert Body(ws) == Encode(ws[0]) + t;
    LexWord(ws[0], t, acc);
    EmitBody(rest);
    Shlex.LexBlank(Body(rest), Decoded(ws[0]), acc);
  }

  /** Text written for at least one word starts with the blank before the first. */
  lemma EmitBody(ws: seq<Word>)
    requires |ws| > 0
    ensures Emit(ws) == " " + Body(ws)
  {
    var e, r := Encode(ws[0]), Emit(ws[1..]);
    assert Emit(ws) == " " + e + r;
    Text.Assoc(" ", e, r);
  }

  /** The last word is read up to the end of the text. */
  lemma LexWordsLast(ws: seq<Word>, acc: seq<string>)
    requires |ws| == 1 && Shlex.AllSafe(ws[0].key)
    ensures Shlex.Lex(Body(ws), Shlex.Between, "", acc) == Ok(acc + DecodedAll(ws))
  {
    var t := Emit(ws[1..]);
    assert t == [];
    assert Body(ws) == Encode(ws[0]) + t;
    LexWord(ws[0], t, acc);
    assert DecodedAll(ws) == [Decoded(ws[0])];
  }

  /** shlex.Split hands back every word String wrote, unquoted. */
  lemma {:induction false} LexWords(ws: seq<Word>, acc: seq<string>)
    requires |ws| > 0 && KeysSafe(ws)
    ensures Shlex.Lex(Body(ws), Shlex.Between, "", acc) == Ok(acc + DecodedAll(ws))
    decreases |ws|
  {
    if |ws| == 1 {
      LexWordsLast(ws, acc);
    } else {
      LexWordsStep(ws, acc);
      assert KeysSafe(ws[1..]);
      LexWords(ws[1..], acc + [Decoded(ws[0])]);
      assert DecodedAll(ws) == [Decoded(ws[0])] + DecodedAll(ws[1..]);
      assert acc + [Decoded(ws[0])] + DecodedAll(ws[1..]) == acc + DecodedAll(ws);
    }
  }

  // ---------------------------------------------------------------- reading the words back

  lemma {:induction false} ParseItemsAppend(rev: Revision, ans: FontSpec, spec: string, a: seq<string>, b: seq<string>, ft: Floats.FloatText)
    ensures ParseItems(rev, ans, spec, a + b, ft)
      == match ParseItems(rev, ans, spec, a, ft) case Err(e) => Err(e) case Ok(m) => ParseItems(rev, m, spec, b, ft)
    decreases |a|
  {
    if a == [] {
      assert a + b == b;
    } else {
      assert (a + b)[0] == a[0] && (a + b)[1..] == a[1..] + b;
      match ParseItem(rev, ans, spec, a[0], ft)
      case Err(e) =>
      case Ok(next) => ParseItemsAppend(rev, next, spec, a[1..], b, ft);
    }
  }

  lemma {:induction false} DecodedAllAppend(a: seq<Word>, b: seq<Word>)
    ensures DecodedAll(a + b) == DecodedAll(a) + DecodedAll(b)
    decreases |a|
  {
    if a == [] {
      assert a + b == b;
    } else {
      assert (a + b)[0] == a[0] && (a + b)[1..] == a[1..] + b;
      DecodedAllAppend(a[1..], b);
    }
  }

  /** A field given a value, or left as it is when the word is absent. */
  function Copy(m: FontSpec, f: Field, v: SettableString): FontSpec {
    if v.isSet then With(m, f, v) else m
  }

  /** Reading a field's word (present when the field is set) stores that field. */
  lemma ParseField(rev: Revision, ans: FontSpec, spec: string, f: Field, v: SettableString, ft: Floats.FloatText)
    ensures ParseItems(rev, ans, spec, DecodedAll(FieldWord(Key(f), v)), ft) == Ok(Copy(ans, f, v))
  {
    if v.isSet {
      assert DecodedAll(FieldWord(Key(f), v)) == [Key(f) + ['='] + v.val];
      KeyFacts(f);
      Text.CutAt(Key(f), '=', v.val);
    } else {
      assert DecodedAll(FieldWord(Key(f), v)) == [];
    }
  }

  /** Reading the words of two field groups in a row. */
  lemma ParseThen(rev: Revision, m0: FontSpec, m1: FontSpec, m2: FontSpec, spec: string, a: seq<Word>, b: seq<Word>, ft: Floats.FloatText)
    requires ParseItems(rev, m0, spec, DecodedAll(a), ft) == Ok(m1)
    requires ParseItems(rev, m1, spec, DecodedAll(b), ft) == Ok(m2)
    ensures ParseItems(rev, m0, spec, DecodedAll(a + b), ft) == Ok(m2)
  {
    DecodedAllAppend(a, b);
    ParseItemsAppend(rev, m0, spec, DecodedAll(a), DecodedAll(b), ft);
  }

  /** The string fields of s, over an otherwise empty FontSpec. */
  function FieldsOf(s: FontSpec): FontSpec {
    EmptySpec.(family := s.family, style := s.style, postscriptName := s.postscriptName,
               fullName := s.fullName, variableName := s.variableName)
  }

  /** Copying the five fields, in String's order, onto an empty FontSpec. */
  function CopyFields(s: FontSpec): FontSpec {
    Copy(Copy(Copy(Copy(Copy(EmptySpec, Family, s.family), Style, s.style), PostscriptName, s.postscriptName),
      FullName, s.fullName), VariableName, s.variableName)
  }

  lemma CopyFieldsOf(s: FontSpec)
    requires FieldsOk(s)
    ensures CopyFields(s) == FieldsOf(s)
  {
  }

  lemma ParseFieldsCopy(rev: Revision, spec: string, s: FontSpec, ft: Floats.FloatText)
    ensures ParseItems(rev, EmptySpec, spec, DecodedAll(FieldWords(s)), ft) == Ok(CopyFields(s))
  {
    var a, b, c, d, e := FieldWord(Key(Family), s.family), FieldWord(Key(Style), s.style),
      FieldWord(Key(PostscriptName), s.postscriptName), FieldWord(Key(FullName), s.fullName),
      FieldWord(Key(VariableName), s.variableName);
    var m0 := EmptySpec;
    var m1 := Copy(m0, Family, s.family);
    var m2 := Copy(m1, Style, s.style);
    var m3 := Copy(m2, PostscriptName, s.postscriptName);
    var m4 := Copy(m3, FullName, s.fullName);
    ParseField(rev, m0, spec, Family, s.family, ft);
    ParseField(rev, m1, spec, Style, s.style, ft);
    ParseThen(rev, m0, m1, m2, spec, a, b, ft);
    ParseField(rev, m2, spec, PostscriptName, s.postscriptName, ft);
    ParseThen(rev, m0, m2, m3, spec, a + b, c, ft);
    ParseField(rev, m3, spec, FullName, s.fullName, ft);
    ParseThen(rev, m0, m3, m4, spec, a + b + c, d, ft);
    ParseField(rev, m4, spec, VariableName, s.variableName, ft);
    ParseThen(rev, m0, m4, CopyFields(s), spec, a + b + c + d, e, ft);
  }

  lemma ParseFields(rev: Revision, spec: string, s: FontSpec, ft: Floats.FloatText)
    requires FieldsOk(s)
    ensures ParseItems(rev, EmptySpec, spec, DecodedAll(FieldWords(s)), ft) == Ok(FieldsOf(s))
  {
    ParseFieldsCopy(rev, spec, s, ft);
    CopyFieldsOf(s);
  }

  /** The axes map after storing `order`'s values one at a time. */
  ghost function Inserted(m: map<string, real>, axes: map<string, real>, order: seq<string>): map<string, real>
    requires forall i :: 0 <= i < |order| ==> order[i] in axes
    decreases |order|
  {
    if order == [] then m else Inserted(m[order[0] := axes[order[0]]], axes, order[1..])
  }

  lemma {:induction false} InsertedAt(m: map<string, real>, axes: map<string, real>, order: seq<string>, k: string)
    requires forall i :: 0 <= i < |order| ==> order[i] in axes
    ensures k in Inserted(m, axes, order) <==> k in m || k in order
    ensures k in order ==> Inserted(m, axes, order)[k] == axes[k]
    ensures k !in order && k in m ==> Inserted(m, axes, order)[k] == m[k]
    decreases |order|
  {
    if order != [] {
      InsertedAt(m[order[0] := axes[order[0]]], axes, order[1..], k);
      assert order == [order[0]] + order[1..];
    }
  }

  lemma InsertedAll(axes: map<string, real>, order: seq<string>)
    requires MapOrder.IsEnumeration(order, axes.Keys)
    ensures Inserted(map[], axes, order) == axes
  {
    forall k ensures k in Inserted(map[], axes, order) <==> k in axes {
      InsertedAt(map[], axes, order, k);
    }
    forall k | k in axes ensures Inserted(map[], axes, order)[k] == axes[k] {
      InsertedAt(map[], axes, order, k);
    }
  }

  /** One axis word, read by the corrected code, stores the exact value. */
  lemma ParseAxisWord(ans: FontSpec, spec: string, k: string, x: real, ft: Floats.FloatText)
    requires Floats.ExactAt(ft, x) && AxisKeyOk(k)
    ensures ParseItem(Corrected, ans, spec, Decoded(Word(k, ft.formatF(x))), ft) == Ok(ans.(axes := ans.axes[k := x]))
  {
    var text := ft.formatF(x);
    assert Decoded(Word(k, text)) == k + ['='] + text;
    Text.CutAt(k, '=', text);
  }

  /** Reading the axis words (corrected) stores every axis value, exactly. */
  lemma {:induction false} ParseAxes(ans: FontSpec, spec: string, axes: map<string, real>, order: seq<string>, ft: Floats.FloatText)
    requires Floats.ExactOn(ft, axes.Values)
    requires forall i :: 0 <= i < |order| ==> order[i] in axes && AxisKeyOk(order[i])
    ensures ParseItems(Corrected, ans, spec, DecodedAll(AxisWords(axes, order, ft)), ft)
      == Ok(ans.(axes := Inserted(ans.axes, axes, order)))
    decreases |order|
  {
    var ws := AxisWords(axes, order, ft);
    if order == [] {
      assert DecodedAll(ws) == [];
    } else {
      var k := order[0];
      var next := ans.(axes := ans.axes[k := axes[k]]);
      assert ParseItems(Corrected, ans, spec, DecodedAll(ws), ft)
          == ParseItems(Corrected, next, spec, DecodedAll(AxisWords(axes, order[1..], ft)), ft) by {
        assert ws == [Word(k, ft.formatF(axes[k]))] + AxisWords(axes, order[1..], ft);
        assert DecodedAll(ws) == [Decoded(ws[0])] + DecodedAll(AxisWords(axes, order[1..], ft));
        Floats.ExactIn(ft, axes, k);
        ParseAxisWord(ans, spec, k, axes[k], ft);
      }
      ParseAxes(next, spec, axes, order[1..], ft);
    }
  }

  /** Reading the features word (corrected) appends every feature. */
  lemma ParseFeatureWord(ans: FontSpec, spec: string, fs: seq<ParsedFontFeature>, ft: Floats.FloatText)
    requires WellFormedFeatures(fs)
    ensures ParseItems(Corrected, ans, spec, DecodedAll(FeatureWords(fs)), ft) == Ok(ans.(features := ans.features + fs))
  {
    if |fs| > 0 {
      var v := Text.TrimSpace(FeaturesText(fs));
      assert DecodedAll(FeatureWords(fs)) == [FeaturesKey + ['='] + v];
      FeaturesKeyFacts();
      Text.CutAt(FeaturesKey, '=', v);
      assert ParseItem(Corrected, ans, spec, FeaturesKey + ['='] + v, ft)
          == ParseFeatures(Corrected, ans, Text.ScanSplit(v, ' '));
      FeatureValueTrim(fs);
      FeatureValueSplit(fs);
      ParseFeatureTokens(ans, fs);
    } else {
      assert DecodedAll(FeatureWords(fs)) == [];
      assert ans.features + fs == ans.features;
    }
  }

  // ---------------------------------------------------------------- the round trip

  lemma {:induction false} KeysSafeAppend(a: seq<Word>, b: seq<Word>)
    requires KeysSafe(a) && KeysSafe(b)
    ensures KeysSafe(a + b)
  {
    forall i | 0 <= i < |a + b| ensures Shlex.AllSafe((a + b)[i].key) {
      if i < |a| {
        assert (a + b)[i] == a[i];
      } else {
        assert (a + b)[i] == b[i - |a|];
      }
    }
  }

  lemma FieldWordSafe(f: Field, v: SettableString)
    ensures KeysSafe(FieldWord(Key(f), v))
  {
    KeyFacts(f);
  }

  lemma FieldWordsSafe(s: FontSpec)
    ensures KeysSafe(FieldWords(s))
  {
    var a, b, c, d, e := FieldWord(Key(Family), s.family), FieldWord(Key(Style), s.style),
      FieldWord(Key(PostscriptName), s.postscriptName), FieldWord(Key(FullName), s.fullName),
      FieldWord(Key(VariableName), s.variableName);
    FieldWordSafe(Family, s.family);
    FieldWordSafe(Style, s.style);
    FieldWordSafe(PostscriptName, s.postscriptName);
    FieldWordSafe(FullName, s.fullName);
    FieldWordSafe(VariableName, s.variableName);
    KeysSafeAppend(a, b);
    KeysSafeAppend(a + b, c);
    KeysSafeAppend(a + b + c, d);
    KeysSafeAppend(a + b + c + d, e);
  }

  lemma FieldWordsPresent(s: FontSpec)
    requires AnyFieldSet(s)
    ensures |FieldWords(s)| > 0
  {
  }

  lemma {:induction false} AxisWordsSafe(axes: map<string, real>, order: seq<string>, ft: Floats.FloatText)
    requires forall i :: 0 <= i < |order| ==> order[i] in axes && AxisKeyOk(order[i])
    ensures KeysSafe(AxisWords(axes, order, ft))
    decreases |order|
  {
    if order != [] {
      AxisWordsSafe(axes, order[1..], ft);
      KeysSafeAppend([Word(order[0], ft.formatF(axes[order[0]]))], AxisWords(axes, order[1..], ft));
    }
  }

  lemma SpecWordsSafe(s: FontSpec, order: seq<string>, ft: Floats.FloatText)
    requires Representable(s) && MapOrder.IsEnumeration(order, s.axes.Keys)
    ensures KeysSafe(SpecWords(s, order, ft))
    ensures |SpecWords(s, order, ft)| > 0
  {
    var f := FieldWords(s);
    var a := AxisWords(s.axes, order, ft);
    var fw := FeatureWords(s.features);
    FieldWordsSafe(s);
    AxisWordsSafe(s.axes, order, ft);
    FeaturesKeyFacts();
    assert KeysSafe(fw);
    KeysSafeAppend(f, a);
    KeysSafeAppend(f + a, fw);
    if AnyFieldSet(s) {
      FieldWordsPresent(s);
    } else if |s.axes| > 0 {
      assert |order| > 0 by {
        var k :| k in s.axes;
      }
    }
  }

  /** What String writes is the words, each quoted and separated by one blank. */
  lemma SerializedText(s: FontSpec, order: seq<string>, ft: Floats.FloatText)
    requires Representable(s) && MapOrder.IsEnumeration(order, s.axes.Keys)
    ensures |SpecWords(s, order, ft)| > 0 && KeysSafe(SpecWords(s, order, ft))
    ensures Serialize(s, order, ft) == Body(SpecWords(s, order, ft))
  {
    SpecWordsSafe(s, order, ft);
    BodyTrimmed(SpecWords(s, order, ft));
  }

  /** shlex.Split of what String writes gives back its words, unquoted. */
  lemma SerializedWords(s: FontSpec, order: seq<string>, ft: Floats.FloatText)
    requires Representable(s) && MapOrder.IsEnumeration(order, s.axes.Keys)
    ensures Shlex.Split(Serialize(s, order, ft)) == Ok(DecodedAll(SpecWords(s, order, ft)))
  {
    var ws := SpecWords(s, order, ft);
    SerializedText(s, order, ft);
    LexWords(ws, []);
    assert [] + DecodedAll(ws) == DecodedAll(ws);
  }

  /** The text String writes is neither empty nor `auto`, and its first word holds an `=`. */
  lemma SerializedShape(s: FontSpec, order: seq<string>, ft: Floats.FloatText)
    requires Representable(s) && MapOrder.IsEnumeration(order, s.axes.Keys)
    ensures Serialize(s, order, ft) != "" && Serialize(s, order, ft) != "auto"
    ensures '=' in DecodedAll(SpecWords(s, order, ft))[0]
  {
    var ws := SpecWords(s, order, ft);
    SerializedText(s, order, ft);
    BodyHasEquals(ws);
    DecodedHasEquals(ws[0]);
    assert DecodedAll(ws)[0] == Decoded(ws[0]);
  }

  lemma BodyHasEquals(ws: seq<Word>)
    requires |ws| > 0
    ensures '=' in Body(ws) && Body(ws) != "auto"
  {
    var w := ws[0];
    var text := Body(ws);
    assert text == w.key + "=" + (Shlex.Quote(w.value) + Emit(ws[1..]));
    assert text[|w.key|] == '=';
  }

  lemma DecodedHasEquals(w: Word)
    ensures '=' in Decoded(w)
  {
    assert Decoded(w)[|w.key|] == '=';
  }

  /** The fields and then the axes are read back. */
  lemma ParseFieldsAndAxes(s: FontSpec, order: seq<string>, spec: string, ft: Floats.FloatText)
    requires Representable(s) && MapOrder.IsEnumeration(order, s.axes.Keys) && Floats.ExactOn(ft, s.axes.Values)
    ensures ParseItems(Corrected, EmptySpec, spec, DecodedAll(FieldWords(s) + AxisWords(s.axes, order, ft)), ft)
         == Ok(FieldsOf(s).(axes := s.axes))
  {
    var m1 := FieldsOf(s);
    ParseFields(Corrected, spec, s, ft);
    ParseAxes(m1, spec, s.axes, order, ft);
    InsertedAll(s.axes, order);
    ParseThen(Corrected, EmptySpec, m1, m1.(axes := s.axes), spec, FieldWords(s), AxisWords(s.axes, order, ft), ft);
  }

  /** NewFontSpec (corrected) over the words String writes gives back the description. */
  lemma ParseSpecWords(s: FontSpec, order: seq<string>, spec: string, ft: Floats.FloatText)
    requires Representable(s) && MapOrder.IsEnumeration(order, s.axes.Keys) && Floats.ExactOn(ft, s.axes.Values)
    ensures ParseItems(Corrected, EmptySpec, spec, DecodedAll(SpecWords(s, order, ft)), ft) == Ok(s)
  {
    var m2 := FieldsOf(s).(axes := s.axes);
    ParseFieldsAndAxes(s, order, spec, ft);
    ParseFeaturesLast(s, spec, ft);
    ParseThen(Corrected, EmptySpec, m2, s, spec, FieldWords(s) + AxisWords(s.axes, order, ft), FeatureWords(s.features), ft);
  }

  /** The features word, read last, completes the description. */
  lemma ParseFeaturesLast(s: FontSpec, spec: string, ft: Floats.FloatText)
    requires s.system == Unset && WellFormedFeatures(s.features)
    ensures ParseItems(Corrected, FieldsOf(s).(axes := s.axes), spec, DecodedAll(FeatureWords(s.features)), ft) == Ok(s)
  {
    FieldsAxesFeatures(s);
    ParseFeatureWord(FieldsOf(s).(axes := s.axes), spec, s.features, ft);
  }

  /** The five fields, then the axes, then the features rebuild a description without a
      system setting. */
  lemma FieldsAxesFeatures(s: FontSpec)
    requires s.system == Unset
    ensures var m2 := FieldsOf(s).(axes := s.axes); m2.(features := m2.features + s.features) == s
  {
    var m2 := FieldsOf(s).(axes := s.axes);
    assert m2.features + s.features == s.features;
  }

  /** String followed by NewFontSpec (corrected) gives back the description, whatever order
      the axes map is walked in, provided the float formatting reads back exactly at the
      description's axis values. */
  lemma RoundTrip(s: FontSpec, order: seq<string>, ft: Floats.FloatText)
    requires Representable(s) && MapOrder.IsEnumeration(order, s.axes.Keys) && Floats.ExactOn(ft, s.axes.Values)
    ensures Parse(Corrected, Serialize(s, order, ft), ft) == Ok(s)
  {
    var text := Serialize(s, order, ft);
    SerializedWords(s, order, ft);
    SerializedShape(s, order, ft);
    ParseSpecWords(s, order, text, ft);
  }

  // ---------------------------------------------------------------- system names and errors

  /** The lexer never invents a character: one absent from the input, the current word and
      the finished words is absent from every word it returns. */
  lemma {:induction false} LexAvoids(s: string, mode: Shlex.Mode, cur: string, acc: seq<string>, c: char)
    requires c !in s && c !in cur && forall i :: 0 <= i < |acc| ==> c !in acc[i]
    ensures Shlex.Lex(s, mode, cur, acc).Ok? ==> forall i :: 0 <= i < |Shlex.Lex(s, mode, cur, acc).value| ==> c !in Shlex.Lex(s, mode, cur, acc).value[i]
    decreases |s|, if mode.Between? then 2 else 1
  {
    if s == [] {
      if mode.Bare? {
        assert forall i :: 0 <= i < |acc + [cur]| ==> (acc + [cur])[i] == if i < |acc| then acc[i] else cur;
      }
    } else {
      var x := s[0];
      assert x != c && c !in s[1..];
      match mode
      case Between =>
        if Shlex.IsBlank(x) {
          LexAvoids(s[1..], Shlex.Between, cur, acc, c);
        } else {
          LexAvoids(s, Shlex.Bare, "", acc, c);
        }
      case Bare => LexAvoidsBare(s, cur, acc, c);
      case Single =>
        LexAvoids(s[1..], Shlex.Bare, cur, acc, c);
        LexAvoids(s[1..], Shlex.Single, cur + [x], acc, c);
      case Double =>
        LexAvoids(s[1..], Shlex.Bare, cur, acc, c);
        LexAvoids(s[1..], Shlex.Double, cur + [x], acc, c);
        if |s| >= 2 {
          assert c !in s[2..] && s[1] != c;
          LexAvoids(s[2..], Shlex.Double, cur + [s[1]], acc, c);
        }
    }
  }

  lemma {:induction false} LexAvoidsBare(s: string, cur: string, acc: seq<string>, c: char)
    requires s != []
    requires c !in s && c !in cur && forall i :: 0 <= i < |acc| ==> c !in acc[i]
    ensures Shlex.Lex(s, Shlex.Bare, cur, acc).Ok? ==> forall i :: 0 <= i < |Shlex.Lex(s, Shlex.Bare, cur, acc).value| ==> c !in Shlex.Lex(s, Shlex.Bare, cur, acc).value[i]
    decreases |s|, 0
  {
    var x := s[0];
    assert x != c && c !in s[1..];
    if Shlex.IsBlank(x) {
      assert forall i :: 0 <= i < |acc + [cur]| ==> (acc + [cur])[i] == if i < |acc| then acc[i] else cur;
      LexAvoids(s[1..], Shlex.Between, "", acc + [cur], c);
    } else if x == '\'' {
      LexAvoids(s[1..], Shlex.Single, cur, acc, c);
    } else if x == '"' {
      LexAvoids(s[1..], Shlex.Double, cur, acc, c);
    } else if x == '\\' {
      if |s| >= 2 {
        assert c !in s[2..] && s[1] != c;
        LexAvoids(s[2..], Shlex.Bare, cur + [s[1]], acc, c);
      }
    } else {
      LexAvoids(s[1..], Shlex.Bare, cur + [x], acc, c);
    }
  }

  /** A description whose words hold no `=` names a system font: NewFontSpec keeps the whole
      text as that name (`auto` included), and String writes the name back unchanged. */
  lemma SystemRoundTrip(rev: Revision, name: string, ft: Floats.FloatText)
    requires name != [] && '=' !in name
    requires Shlex.Split(name).Ok? && |Shlex.Split(name).value| > 0
    ensures Parse(rev, name, ft) == Ok(SystemSpec(name))
    ensures Serialize(SystemSpec(name), [], ft) == name
  {
    LexAvoids(name, Shlex.Between, "", [], '=');
  }

  /** The empty description and `auto` name the automatic system font, and a description
      whose first word holds no `=` is kept whole as a system font name; every other field
      is left unset. */
  lemma SystemCases(rev: Revision, spec: string, ft: Floats.FloatText)
    ensures spec == "" || spec == "auto" ==> Parse(rev, spec, ft) == Ok(SystemSpec("auto"))
    ensures && spec != "" && spec != "auto" && Shlex.Split(spec).Ok? && |Shlex.Split(spec).value| > 0
            && '=' !in Shlex.Split(spec).value[0]
            ==> Parse(rev, spec, ft) == Ok(SystemSpec(spec))
    ensures SystemSpec(spec).(system := Unset) == EmptySpec
  {
  }

  /** Reading features leaves the system name alone. */
  lemma {:induction false} ParseFeaturesKeepSystem(rev: Revision, ans: FontSpec, tokens: seq<string>)
    ensures ParseFeatures(rev, ans, tokens).Ok? ==> ParseFeatures(rev, ans, tokens).value.system == ans.system
    decreases |tokens|
  {
    if tokens != [] {
      match ParseFeatureBy(rev, tokens[0])
      case Err(_) =>
      case Ok(f) => ParseFeaturesKeepSystem(rev, ans.(features := ans.features + [f]), tokens[1..]);
    }
  }

  /** No `key=value` word sets the system name. */
  lemma {:induction false} ParseItemsKeepSystem(rev: Revision, ans: FontSpec, spec: string, items: seq<string>, ft: Floats.FloatText)
    ensures ParseItems(rev, ans, spec, items, ft).Ok? ==> ParseItems(rev, ans, spec, items, ft).value.system == ans.system
    decreases |items|
  {
    if items != [] {
      match ParseItem(rev, ans, spec, items[0], ft)
      case Err(_) =>
      case Ok(next) =>
        ParseItemKeepsSystem(rev, ans, spec, items[0], ft);
        ParseItemsKeepSystem(rev, next, spec, items[1..], ft);
    }
  }

  lemma ParseItemKeepsSystem(rev: Revision, ans: FontSpec, spec: string, item: string, ft: Floats.FloatText)
    ensures ParseItem(rev, ans, spec, item, ft).Ok? ==> ParseItem(rev, ans, spec, item, ft).value.system == ans.system
  {
    var c := Text.Cut(item, '=');
    if c.found && FieldOf(c.before).None? && c.before == FeaturesKey {
      ParseFeaturesKeepSystem(rev, ans, Text.ScanSplit(c.after, ' '));
    }
  }

  /** On every description NewFontSpec returns, the system name is set exactly when it is
      not empty, so String's test on the value agrees with a test on `is_set`. */
  lemma SystemTestAgrees(rev: Revision, spec: string, ft: Floats.FloatText)
    ensures Parse(rev, spec, ft).Ok? ==> (Parse(rev, spec, ft).value.system.isSet <==> Parse(rev, spec, ft).value.system.val != "")
  {
    if spec != "" && spec != "auto" && Shlex.Split(spec).Ok? {
      ParseItemsKeepSystem(rev, EmptySpec, spec, Shlex.Split(spec).value, ft);
    }
  }

  /** Any later word without `=` makes NewFontSpec fail with the missing-`=` error. */
  lemma {:induction false} ParseRejectsWordWithoutEquals(rev: Revision, ans: FontSpec, spec: string, items: seq<string>, i: nat, ft: Floats.FloatText)
    requires i < |items| && '=' !in items[i]
    ensures ParseItems(rev, ans, spec, items, ft).Err?
    ensures i == 0 ==> ParseItems(rev, ans, spec, items, ft) == Err(MissingEquals(spec, items[0]))
    decreases i
  {
    if i == 0 {
      assert !Text.Cut(items[0], '=').found;
    } else {
      match ParseItem(rev, ans, spec, items[0], ft)
      case Err(e) =>
      case Ok(next) =>
        assert items[1..][i - 1] == items[i];
        ParseRejectsWordWithoutEquals(rev, next, spec, items[1..], i - 1, ft);
    }
  }

  /** Where NewParsedFontFeature as written and corrected agree: the empty token, `+tag`, a
      token starting with a non-ASCII character, and every token of two or more characters
      whose first two are not `-`. */
  lemma FeatureParsersAgree(x: string)
    requires x == "" || x[0] == '+' || !IsAscii(x[0]) || (|x| >= 2 && x[0] != '-' && x[1] != '-')
    ensures ParseFeatureAsWritten(x) == ParseFeature(x)
  {
  }

  /** NewFontSpec on a description whose first word holds `=` but a later one does not fails. */
  lemma ParseRejectsSpec(rev: Revision, spec: string, i: nat, ft: Floats.FloatText)
    requires spec != "" && spec != "auto"
    requires Shlex.Split(spec).Ok? && 0 < i < |Shlex.Split(spec).value|
    requires '=' in Shlex.Split(spec).value[0] && '=' !in Shlex.Split(spec).value[i]
    ensures Parse(rev, spec, ft).Err?
  {
    ParseRejectsWordWithoutEquals(rev, EmptySpec, spec, Shlex.Split(spec).value, i, ft);
  }
}
