/** The pieces of Go's `strings` package that face.go relies on. */
module Text {

  /** unicode.IsSpace: the Latin-1 blanks, and above Latin-1 the White_Space property of
      Unicode (U+1680, U+2000 to U+200A, U+2028, U+2029, U+202F, U+205F, U+3000). */
  predicate IsSpace(c: char) {
    || c == ' ' || c == '\t' || c == '\n' || c == '\r' || c == '\U{B}' || c == '\U{C}'
    || c == '\U{85}' || c == '\U{A0}'
    || c == '\U{1680}' || ('\U{2000}' <= c <= '\U{200A}') || c == '\U{2028}' || c == '\U{2029}'
    || c == '\U{202F}' || c == '\U{205F}' || c == '\U{3000}'
  }

  predicate NoSpace(s: string) {
    forall i :: 0 <= i < |s| ==> !IsSpace(s[i])
  }

  predicate AllSpace(s: string) {
    forall i :: 0 <= i < |s| ==> IsSpace(s[i])
  }

  /** strings.TrimLeft with unicode.IsSpace: the longest suffix not starting with a space. */
  function TrimLeft(s: string): (r: string)
    ensures |r| <= |s| && r == s[|s| - |r|..]
    ensures AllSpace(s[..|s| - |r|])
    ensures r == [] || !IsSpace(r[0])
  {
    if s != [] && IsSpace(s[0]) then TrimLeft(s[1..]) else s
  }

  /** strings.TrimRight with unicode.IsSpace: the longest prefix not ending with a space. */
  function TrimRight(s: string): (r: string)
    ensures |r| <= |s| && r == s[..|r|]
    ensures AllSpace(s[|r|..])
    ensures r == [] || !IsSpace(r[|r| - 1])
  {
    if s != [] && IsSpace(s[|s| - 1]) then TrimRight(s[..|s| - 1]) else s
  }

  /** strings.TrimSpace. */
  function TrimSpace(s: string): string {
    TrimRight(TrimLeft(s))
  }

  /** A string that TrimSpace leaves alone. */
  predicate Trimmed(s: string) {
    s == [] || (!IsSpace(s[0]) && !IsSpace(s[|s| - 1]))
  }

  lemma TrimSpaceOfTrimmed(pad: string, s: string)
    requires AllSpace(pad) && Trimmed(s)
    ensures TrimSpace(pad + s) == s
  {
    if pad != [] {
      assert (pad + s)[1..] == pad[1..] + s;
      TrimSpaceOfTrimmed(pad[1..], s);
    } else {
      assert pad + s == s;
    }
  }

  lemma TrimSpaceOfTrimmedPadRight(s: string, pad: string)
    requires AllSpace(pad) && Trimmed(s)
    ensures TrimSpace(s + pad) == s
  {
    if s == [] {
      assert s + pad == pad;
      assert TrimLeft(pad) == [];
    } else {
      assert TrimLeft(s + pad) == s + pad;
      TrimRightPad(s, pad);
    }
  }

  lemma {:induction false} TrimRightPad(s: string, pad: string)
    requires AllSpace(pad) && Trimmed(s)
    ensures TrimRight(s + pad) == s
    decreases |pad|
  {
    if pad == [] {
      assert s + pad == s;
    } else {
      var shorter := pad[..|pad| - 1];
      TrimRightPad(s, shorter);
      TrimRightStep(s + shorter, pad[|pad| - 1]);
      assert s + pad == (s + shorter) + [pad[|pad| - 1]];
    }
  }

  /** A trailing space is trimmed. */
  lemma TrimRightStep(t: string, c: char)
    requires IsSpace(c)
    ensures TrimRight(t + [c]) == TrimRight(t)
  {
    assert (t + [c])[..|t|] == t;
  }

  /** The outcome of strings.Cut. */
  datatype CutResult = CutResult(before: string, after: string, found: bool)

  /** strings.Cut with a one-character separator: splits around the FIRST occurrence of sep. */
  function Cut(s: string, sep: char): (r: CutResult)
    ensures r.found <==> sep in s
    ensures r.found ==> r.before + [sep] + r.after == s && sep !in r.before
    ensures !r.found ==> r.before == s && r.after == ""
  {
    if s == [] then CutResult(s, "", false)
    else if s[0] == sep then CutResult("", s[1..], true)
    else
      var rest := Cut(s[1..], sep);
      assert s == [s[0]] + s[1..];
      CutResult([s[0]] + rest.before, rest.after, rest.found)
  }

  /** Cutting `k + sep + v` where `k` does not hold the separator gives back `k` and `v`. */
  lemma CutAt(k: string, sep: char, v: string)
    requires sep !in k
    ensures Cut(k + [sep] + v, sep) == CutResult(k, v, true)
  {
    var s := k + [sep] + v;
    assert s[|k|] == sep;
    var r := Cut(s, sep);
    assert forall i :: 0 <= i < |k| ==> s[i] == k[i] != sep;
    assert s[|r.before|] == sep;
    assert forall i :: 0 <= i < |r.before| ==> s[i] == r.before[i] != sep;
    assert |r.before| == |k|;
    assert r.before == s[..|k|] == k;
    assert r.after == s[|k| + 1..] == v;
  }

  /** strings.Join. */
  function Join(sep: string, parts: seq<string>): string {
    if |parts| == 0 then ""
    else if |parts| == 1 then parts[0]
    else parts[0] + sep + Join(sep, parts[1..])
  }

  /** utils.NewSeparatorScanner(s, sep).Split(s) with a one-character separator: the fields
      between separators, taken one at a time while text remains, so the empty text has no
      field and a trailing separator adds none. */
  function ScanSplit(s: string, sep: char): (r: seq<string>)
    ensures forall i :: 0 <= i < |r| ==> sep !in r[i]
    ensures r == [] <==> s == []
    ensures r != [] ==> Join([sep], r) == s || Join([sep], r) + [sep] == s
    decreases |s|
  {
    if s == [] then []
    else
      var c := Cut(s, sep);
      if !c.found then [s]
      else
        var rest := ScanSplit(c.after, sep);
        if rest == [] then [c.before]
        else
          assert Join([sep], [c.before] + rest) == c.before + [sep] + Join([sep], rest);
          [c.before] + rest
  }

  /** Joining fields that hold no separator, the last of them not empty, and scanning the
      result gives the fields back. */
  lemma {:induction false} ScanSplitJoin(parts: seq<string>, sep: char)
    requires forall i :: 0 <= i < |parts| ==> sep !in parts[i]
    requires parts != [] ==> parts[|parts| - 1] != []
    ensures ScanSplit(Join([sep], parts), sep) == parts
  {
    if |parts| > 1 {
      var tail := Join([sep], parts[1..]);
      assert Join([sep], parts) == parts[0] + [sep] + tail;
      CutAt(parts[0], sep, tail);
      ScanSplitJoin(parts[1..], sep);
      assert parts == [parts[0]] + parts[1..];
    } else if |parts| == 1 {
      assert Join([sep], parts) == parts[0];
      assert sep !in parts[0];
    }
  }

  predicate HasPrefix(s: string, p: string) {
    |p| <= |s| && s[..|p|] == p
  }

  predicate HasSuffix(s: string, p: string) {
    |p| <= |s| && s[|s| - |p|..] == p
  }

  lemma Assoc(a: string, b: string, c: string)
    ensures a + (b + c) == (a + b) + c
  {
  }
}
