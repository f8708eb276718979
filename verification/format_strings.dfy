/**
  Rust format strings without arguments, as in `write!(f, "text")`: the
  literal is read as a format string, so `{{` prints one `{`, `}}` prints
  one `}`, and any other brace opens or closes a placeholder that has no
  argument, which does not compile.
 */
module FormatStrings {
  import opened Optional

  predicate IsBrace(c: char) {
    c == '{' || c == '}'
  }

  predicate NoBraces(s: string) {
    '{' !in s && '}' !in s
  }

  /** The format string that prints `t`: every brace doubled. */
  function EscapeBraces(t: string): (s: string)
    ensures |s| >= |t|
    ensures NoBraces(t) ==> s == t
  {
    if |t| == 0 then []
    else if IsBrace(t[0]) then [t[0], t[0]] + EscapeBraces(t[1..])
    else [t[0]] + EscapeBraces(t[1..])
  }

  /**
    What an argument-free format string prints: `None` when it does not
    compile, i.e. when a brace is not part of a `{{` or `}}` pair.
   */
  function FormatLiteral(s: string): (r: Option<string>)
    ensures NoBraces(s) ==> r == Some(s)
    ensures r.Some? ==> |r.value| <= |s|
    decreases |s|
  {
    if |s| == 0 then Some([])
    else if IsBrace(s[0]) then
      if |s| >= 2 && s[1] == s[0] then
        match FormatLiteral(s[2..])
        case Some(t) => Some([s[0]] + t)
        case None => None
      else None
    else
      assert s == [s[0]] + s[1..];
      assert NoBraces(s) ==> NoBraces(s[1..]);
      match FormatLiteral(s[1..])
      case Some(t) => Some([s[0]] + t)
      case None => None
  }

  /**
    A format string prints `t` exactly when it is `t` with its braces
    doubled: every text has one format string, and no other compiles to it.
   */
  lemma {:induction false} FormatLiteralEscape(s: string, t: string)
    ensures FormatLiteral(s) == Some(t) <==> s == EscapeBraces(t)
    decreases |s| + |t|
  {
    if s == EscapeBraces(t) && |t| > 0 {
      var k := if IsBrace(t[0]) then 2 else 1;
      assert s[k..] == EscapeBraces(t[1..]);
      FormatLiteralEscape(s[k..], t[1..]);
      assert t == [t[0]] + t[1..];
    }
    if FormatLiteral(s) == Some(t) && |s| > 0 {
      var k := if IsBrace(s[0]) then 2 else 1;
      var rest := FormatLiteral(s[k..]);
      assert rest.Some? && t == [s[0]] + rest.value;
      FormatLiteralEscape(s[k..], rest.value);
      assert t[1..] == rest.value;
      assert s == s[..k] + s[k..];
    }
  }

  /** `a{{b` prints `a{b`; `x{}` has a placeholder without an argument. */
  lemma BraceExamples()
    ensures FormatLiteral("a{{b") == Some("a{b")
    ensures FormatLiteral("x{}") == None
  {
    var s := "a{{b";
    assert s[1..] == "{{b" && s[1..][2..] == "b";
    assert FormatLiteral("b") == Some("b");
    assert ['{'] + "b" == "{b" && ['a'] + "{b" == "a{b";
    var u := "x{}";
    assert u[1..] == "{}" && u[1..][1] != u[1..][0];
  }
}
