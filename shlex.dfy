/** The shell-word quoting and splitting that face.go delegates to its shlex package.
    Quote follows Python's shlex.quote; Split is a POSIX-style word lexer (blanks separate
    words, single quotes are literal, double quotes honour backslash before `"` and `\`,
    a backslash outside quotes escapes the next character). */
module Shlex {
  import opened Wrappers

  /** The characters Quote leaves unquoted: ASCII [A-Za-z0-9_@%+=:,./-]. */
  predicate IsSafe(c: char) {
    ('a' <= c <= 'z') || ('A' <= c <= 'Z') || ('0' <= c <= '9')
    || c == '_' || c == '@' || c == '%' || c == '+' || c == '=' || c == ':' || c == ','
    || c == '.' || c == '/' || c == '-'
  }

  predicate AllSafe(s: string) {
    forall i :: 0 <= i < |s| ==> IsSafe(s[i])
  }

  /** Characters that separate words. */
  predicate IsBlank(c: char) {
    c == ' ' || c == '\t' || c == '\n' || c == '\r'
  }

  /** Replaces every single quote by '"'"' (close, double-quoted quote, reopen). */
  function Escape(s: string): string {
    if s == [] then [] else (if s[0] == '\'' then "'\"'\"'" else [s[0]]) + Escape(s[1..])
  }

  function Quote(s: string): (r: string)
    ensures r != []
    ensures r[0] == '\'' || IsSafe(r[0])
    ensures r[|r| - 1] == '\'' || IsSafe(r[|r| - 1])
  {
    if s == [] then "''" else if AllSafe(s) then s else "'" + Escape(s) + "'"
  }

  datatype Mode = Between | Bare | Single | Double

  datatype SplitError = UnclosedQuote | TrailingEscape

  /** The lexer: `mode` says where the scan is, `cur` is the word being built, `acc` the words done. */
  function Lex(s: string, mode: Mode, cur: string, acc: seq<string>): Result<seq<string>, SplitError>
    decreases |s|, if mode.Between? then 1 else 0
  {
    if s == [] then
      (match mode
       case Between => Ok(acc)
       case Bare => Ok(acc + [cur])
       case _ => Err(UnclosedQuote))
    else
      var c := s[0];
      match mode
      case Between =>
        if IsBlank(c) then Lex(s[1..], Between, cur, acc) else Lex(s, Bare, "", acc)
      case Bare =>
        if IsBlank(c) then Lex(s[1..], Between, "", acc + [cur])
        else if c == '\'' then Lex(s[1..], Single, cur, acc)
        else if c == '"' then Lex(s[1..], Double, cur, acc)
        else if c == '\\' then (if |s| < 2 then Err(TrailingEscape) else Lex(s[2..], Bare, cur + [s[1]], acc))
        else Lex(s[1..], Bare, cur + [c], acc)
      case Single =>
        if c == '\'' then Lex(s[1..], Bare, cur, acc) else Lex(s[1..], Single, cur + [c], acc)
      case Double =>
        if c == '"' then Lex(s[1..], Bare, cur, acc)
        else if c == '\\' && |s| >= 2 && (s[1] == '"' || s[1] == '\\') then Lex(s[2..], Double, cur + [s[1]], acc)
        else Lex(s[1..], Double, cur + [c], acc)
  }

  /** shlex.Split. */
  function Split(s: string): Result<seq<string>, SplitError> {
    Lex(s, Between, "", [])
  }

  /** Unquoted safe characters are copied into the current word. */
  lemma {:induction false} LexSafe(x: string, y: string, cur: string, acc: seq<string>)
    requires AllSafe(x)
    ensures Lex(x + y, Bare, cur, acc) == Lex(y, Bare, cur + x, acc)
  {
    if x == [] {
      assert x + y == y && cur + x == cur;
    } else {
      assert (x + y)[0] == x[0];
      assert (x + y)[1..] == x[1..] + y;
      LexSafe(x[1..], y, cur + [x[0]], acc);
      assert cur + [x[0]] + x[1..] == cur + x;
    }
  }

  /** The escape of one quote (close, `"'"`, reopen) contributes that quote. */
  lemma LexEscapedQuote(rest: string, cur: string, acc: seq<string>)
    ensures Lex("'\"'\"'" + rest, Single, cur, acc) == Lex(rest, Single, cur + "'", acc)
  {
    var t := "'\"'\"'" + rest;
    assert t[0] == '\'' && t[1..] == "\"'\"'" + rest;
    var t1 := "\"'\"'" + rest;
    assert t1[0] == '"' && t1[1..] == "'\"'" + rest;
    var t2 := "'\"'" + rest;
    assert t2[0] == '\'' && t2[1..] == "\"'" + rest;
    var t3 := "\"'" + rest;
    assert t3[0] == '"' && t3[1..] == "'" + rest;
    var t4 := "'" + rest;
    assert t4[0] == '\'' && t4[1..] == rest;
    assert Lex(t, Single, cur, acc) == Lex(t1, Bare, cur, acc) == Lex(t2, Double, cur, acc);
    assert Lex(t2, Double, cur, acc) == Lex(t3, Double, cur + "'", acc);
    assert Lex(t3, Double, cur + "'", acc) == Lex(t4, Bare, cur + "'", acc) == Lex(rest, Single, cur + "'", acc);
  }

  /** One character of an escaped value, inside single quotes, contributes that character. */
  lemma LexEscapedStep(v: string, y: string, cur: string, acc: seq<string>)
    requires v != []
    ensures Lex(Escape(v) + "'" + y, Single, cur, acc) == Lex(Escape(v[1..]) + "'" + y, Single, cur + [v[0]], acc)
  {
    var rest := Escape(v[1..]) + "'" + y;
    if v[0] == '\'' {
      assert Escape(v) + "'" + y == "'\"'\"'" + rest;
      LexEscapedQuote(rest, cur, acc);
    } else {
      var t := [v[0]] + rest;
      assert Escape(v) + "'" + y == t;
      assert t[0] == v[0] && t[1..] == rest;
    }
  }

  /** Inside single quotes, the escaped text and the closing quote give back the original text. */
  lemma {:induction false} LexEscaped(v: string, y: string, cur: string, acc: seq<string>)
    ensures Lex(Escape(v) + "'" + y, Single, cur, acc) == Lex(y, Bare, cur + v, acc)
    decreases |v|
  {
    if v == [] {
      assert Escape(v) + "'" + y == ['\''] + y;
      assert (['\''] + y)[1..] == y;
      assert cur + v == cur;
    } else {
      LexEscapedStep(v, y, cur, acc);
      LexEscaped(v[1..], y, cur + [v[0]], acc);
      assert cur + [v[0]] + v[1..] == cur + v;
    }
  }

  /** A quoted value, in the middle of an unquoted word, contributes exactly the value. */
  lemma LexQuoted(v: string, y: string, cur: string, acc: seq<string>)
    ensures Lex(Quote(v) + y, Bare, cur, acc) == Lex(y, Bare, cur + v, acc)
  {
    if v == [] {
      LexEmptyQuotes(y, cur, acc);
      assert cur + v == cur;
    } else if AllSafe(v) {
      LexSafe(v, y, cur, acc);
    } else {
      assert Quote(v) + y == "'" + Escape(v) + "'" + y;
      LexSingleQuoted(v, y, cur, acc);
    }
  }

  lemma LexEmptyQuotes(y: string, cur: string, acc: seq<string>)
    ensures Lex("''" + y, Bare, cur, acc) == Lex(y, Bare, cur, acc)
  {
    var t := "''" + y;
    assert t[0] == '\'' && t[1..] == "'" + y;
    assert ("'" + y)[0] == '\'' && ("'" + y)[1..] == y;
  }

  lemma LexSingleQuoted(v: string, y: string, cur: string, acc: seq<string>)
    ensures Lex("'" + Escape(v) + "'" + y, Bare, cur, acc) == Lex(y, Bare, cur + v, acc)
  {
    var t := "'" + Escape(v) + "'" + y;
    assert t[0] == '\'' && t[1..] == Escape(v) + "'" + y;
    LexEscaped(v, y, cur, acc);
  }

  /** Text between double quotes that holds neither `"` nor a backslash is copied as it is. */
  lemma {:induction false} LexDoubleQuoted(x: string, y: string, cur: string, acc: seq<string>)
    requires '"' !in x && '\\' !in x
    ensures Lex(x + "\"" + y, Double, cur, acc) == Lex(y, Bare, cur + x, acc)
  {
    if x == [] {
      assert x + "\"" + y == ['"'] + y;
      assert (['"'] + y)[1..] == y;
      assert cur + x == cur;
    } else {
      var t := x + "\"" + y;
      assert t[0] == x[0] && t[1..] == x[1..] + "\"" + y;
      LexDoubleQuoted(x[1..], y, cur + [x[0]], acc);
      assert cur + [x[0]] + x[1..] == cur + x;
    }
  }

  /** A blank ends the current word. */
  lemma LexBlank(y: string, cur: string, acc: seq<string>)
    ensures Lex(" " + y, Bare, cur, acc) == Lex(y, Between, "", acc + [cur])
  {
    assert (" " + y)[0] == ' ' && (" " + y)[1..] == y;
  }
}
