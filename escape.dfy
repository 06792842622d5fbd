/** The two string escapers: `escapeHtml` replaces the five HTML-special characters
    by entities, `escapeRegExp` puts a backslash before every regular-expression
    metacharacter. Each has an inverse, and the escaped strings are exactly the
    ones the inverse reads back. */
module Escape {

  // ---- escapeHtml ----

  /** The entity `escapeHtml` writes for a character: the five HTML-special
      characters get their named or numeric entity, any other character stays. */
  function EntityOf(c: char): (e: string)
    ensures |e| >= 1 && (e[0] == '&' <==> c == '&' || IsHtmlSpecial(c))
    ensures !IsHtmlSpecial(c) ==> e == [c]
  {
    match c
    case '&' => "&amp;"
    case '<' => "&lt;"
    case '>' => "&gt;"
    case '"' => "&quot;"
    case '\'' => "&#39;"
    case _ => [c]
  }

  predicate IsHtmlSpecial(c: char) {
    c == '&' || c == '<' || c == '>' || c == '"' || c == '\''
  }

  /** `escapeHtml(s)` on a string; the empty string escapes to itself, which is what
      the `!s` guard returns. */
  function EscapeHtml(s: string): string {
    if s == [] then [] else EntityOf(s[0]) + EscapeHtml(s[1..])
  }

  /** The entity opening some markup, as the character it stands for and its
      length; the length is 0 when none of the five entities opens it. */
  function HeadEntity(t: string): (r: (char, nat))
    ensures r.1 <= |t|
    ensures r.1 > 0 ==> t[0] == '&'
  {
    if 5 <= |t| && t[..5] == "&amp;" then ('&', 5)
    else if 4 <= |t| && t[..4] == "&lt;" then ('<', 4)
    else if 4 <= |t| && t[..4] == "&gt;" then ('>', 4)
    else if 6 <= |t| && t[..6] == "&quot;" then ('"', 6)
    else if 5 <= |t| && t[..5] == "&#39;" then ('\'', 5)
    else ('&', 0)
  }

  /** What a browser reads back from escaped markup: the five entities become their
      characters again. */
  function UnescapeHtml(t: string): string
    decreases |t|
  {
    if t == [] then []
    else
      var (c, n) := HeadEntity(t);
      if n > 0 then [c] + UnescapeHtml(t[n..]) else [t[0]] + UnescapeHtml(t[1..])
  }

  /** Markup with no raw `<`, `>`, quote or apostrophe, where every `&` opens one of
      the five entities. */
  predicate HtmlEscaped(t: string)
    decreases |t|
  {
    if t == [] then true
    else if t[0] == '&' then
      exists c :: IsHtmlSpecial(c) && EntityOf(c) <= t && HtmlEscaped(t[|EntityOf(c)|..])
    else !IsHtmlSpecial(t[0]) && HtmlEscaped(t[1..])
  }

  /** Reading back the escape of a character, followed by more markup, gives the
      character followed by what the rest reads back as. */
  lemma UnescapeEntity(c: char, rest: string)
    ensures UnescapeHtml(EntityOf(c) + rest) == [c] + UnescapeHtml(rest)
  {
    var e := EntityOf(c);
    var t := e + rest;
    assert t[|e|..] == rest;
    if IsHtmlSpecial(c) {
      EntityRead(c, rest);
    } else {
      assert t[0] == c;
    }
  }

  /** Each of the five entities is recognised as its own character: they differ
      from their second character on. */
  lemma EntityRead(c: char, rest: string)
    requires IsHtmlSpecial(c)
    ensures HeadEntity(EntityOf(c) + rest) == (c, |EntityOf(c)|)
  {
    var e := EntityOf(c);
    var t := e + rest;
    assert t[..|e|] == e;
    assert t[1] == e[1];
  }

  /** Reading escaped text back gives the original string. */
  lemma {:induction false} HtmlRoundTrip(s: string)
    ensures UnescapeHtml(EscapeHtml(s)) == s
  {
    if s != [] {
      UnescapeEntity(s[0], EscapeHtml(s[1..]));
      HtmlRoundTrip(s[1..]);
      assert [s[0]] + s[1..] == s;
    }
  }

  lemma EntityEscaped(c: char, rest: string)
    requires HtmlEscaped(rest)
    ensures HtmlEscaped(EntityOf(c) + rest)
  {
    var e := EntityOf(c);
    var t := e + rest;
    assert t[..|e|] == e;
    assert t[|e|..] == rest;
  }

  /** Everything escapeHtml produces is escaped markup. */
  lemma {:induction false} EscapeHtmlEscaped(s: string)
    ensures HtmlEscaped(EscapeHtml(s))
  {
    if s != [] {
      EscapeHtmlEscaped(s[1..]);
      EntityEscaped(s[0], EscapeHtml(s[1..]));
    }
  }

  lemma EscapeCons(c: char, x: string)
    ensures EscapeHtml([c] + x) == EntityOf(c) + EscapeHtml(x)
  {
    assert ([c] + x)[1..] == x;
  }

  /** Escaped markup opens with the escape of one character. */
  lemma EscapedHead(t: string) returns (c: char)
    requires t != [] && HtmlEscaped(t)
    ensures EntityOf(c) <= t && HtmlEscaped(t[|EntityOf(c)|..])
  {
    if t[0] == '&' {
      c :| IsHtmlSpecial(c) && EntityOf(c) <= t && HtmlEscaped(t[|EntityOf(c)|..]);
    } else {
      c := t[0];
      assert EntityOf(c) == t[..1];
    }
  }

  /** The escape of a character, followed by markup that escapes back to itself,
      escapes back to itself. */
  lemma HeadRoundTrip(t: string, c: char)
    requires EntityOf(c) <= t
    requires EscapeHtml(UnescapeHtml(t[|EntityOf(c)|..])) == t[|EntityOf(c)|..]
    ensures EscapeHtml(UnescapeHtml(t)) == t
  {
    var rest := t[|EntityOf(c)|..];
    assert t == EntityOf(c) + rest;
    UnescapeEntity(c, rest);
    EscapeCons(c, UnescapeHtml(rest));
  }

  /** Escaped markup is the escape of what it reads back as, so the escaped strings
      are exactly the image of escapeHtml. */
  lemma {:induction false} HtmlEscapedRoundTrip(t: string)
    requires HtmlEscaped(t)
    ensures EscapeHtml(UnescapeHtml(t)) == t
    decreases |t|
  {
    if t != [] {
      var c := EscapedHead(t);
      HtmlEscapedRoundTrip(t[|EntityOf(c)|..]);
      HeadRoundTrip(t, c);
    }
  }

  /** Escaped text carries none of `<`, `>`, `"` or `'`. */
  lemma {:induction false} EscapeHtmlSafe(s: string)
    ensures forall k :: 0 <= k < |EscapeHtml(s)| ==>
              var c := EscapeHtml(s)[k]; c != '<' && c != '>' && c != '"' && c != '\''
  {
    if s != [] {
      EscapeHtmlSafe(s[1..]);
      var e, rest := EntityOf(s[0]), EscapeHtml(s[1..]);
      forall k | 0 <= k < |e + rest|
        ensures var c := (e + rest)[k]; c != '<' && c != '>' && c != '"' && c != '\''
      {
        if k >= |e| {
          assert (e + rest)[k] == rest[k - |e|];
        }
      }
    }
  }

  /** Text without special characters is left as it is. */
  lemma {:induction false} EscapeHtmlPlain(s: string)
    requires forall k :: 0 <= k < |s| ==> !IsHtmlSpecial(s[k])
    ensures EscapeHtml(s) == s
  {
    if s != [] {
      EscapeHtmlPlain(s[1..]);
      assert [s[0]] + s[1..] == s;
    }
  }

  // ---- escapeRegExp ----

  /** The class `[.*+?^${}()|[\]\\]`. */
  predicate IsRegExpSpecial(c: char) {
    c in ".*+?^${}()|[]\\"
  }

  /** `escapeRegExp` (script.js:524): a backslash before every metacharacter. */
  function EscapeRegExp(s: string): string {
    if s == [] then []
    else (if IsRegExpSpecial(s[0]) then ['\\', s[0]] else [s[0]]) + EscapeRegExp(s[1..])
  }

  /** Drops the backslash before each quoted character. */
  function UnescapeRegExp(t: string): string
    decreases |t|
  {
    if t == [] then []
    else if t[0] == '\\' && 2 <= |t| then [t[1]] + UnescapeRegExp(t[2..])
    else [t[0]] + UnescapeRegExp(t[1..])
  }

  /** A pattern that only matches itself literally: every metacharacter is quoted
      and every backslash quotes a metacharacter. */
  predicate RegExpLiteral(t: string)
    decreases |t|
  {
    if t == [] then true
    else if t[0] == '\\' then 2 <= |t| && IsRegExpSpecial(t[1]) && RegExpLiteral(t[2..])
    else !IsRegExpSpecial(t[0]) && RegExpLiteral(t[1..])
  }

  lemma {:induction false} RegExpRoundTrip(s: string)
    ensures UnescapeRegExp(EscapeRegExp(s)) == s
  {
    if s != [] {
      RegExpRoundTrip(s[1..]);
      var rest := EscapeRegExp(s[1..]);
      if IsRegExpSpecial(s[0]) {
        assert (['\\', s[0]] + rest)[2..] == rest;
      } else {
        assert s[0] != '\\';
        assert ([s[0]] + rest)[1..] == rest;
      }
      assert [s[0]] + s[1..] == s;
    }
  }

  /** Everything escapeRegExp produces is a literal pattern. */
  lemma {:induction false} EscapeRegExpLiteral(s: string)
    ensures RegExpLiteral(EscapeRegExp(s))
  {
    if s != [] {
      EscapeRegExpLiteral(s[1..]);
      var rest := EscapeRegExp(s[1..]);
      if IsRegExpSpecial(s[0]) {
        assert (['\\', s[0]] + rest)[2..] == rest;
      } else {
        assert s[0] != '\\';
        assert ([s[0]] + rest)[1..] == rest;
      }
    }
  }

  /** A literal pattern is the escape of the string it matches. */
  lemma {:induction false} RegExpLiteralRoundTrip(t: string)
    requires RegExpLiteral(t)
    ensures EscapeRegExp(UnescapeRegExp(t)) == t
    decreases |t|
  {
    if t != [] {
      if t[0] == '\\' {
        RegExpLiteralRoundTrip(t[2..]);
        assert t == ['\\', t[1]] + t[2..];
      } else {
        RegExpLiteralRoundTrip(t[1..]);
        assert t == [t[0]] + t[1..];
      }
    }
  }
}
