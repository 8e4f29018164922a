/** The search term of the university listing: trimmed, then every regular
    expression metacharacter escaped with a backslash, so the pattern the
    store matches (case-insensitively) stands for the literal text. */
module Search {
  import opened Common
  import opened Text

  /** The characters the escaping regex `[.*+?^${}()|[\]\\]` matches. */
  predicate Special(c: char) {
    c in ".*+?^${}()|[]\\"
  }

  /** `replace(/[.*+?^${}()|[\]\\]/g, '\\$&')`: a backslash before every
      metacharacter, every other character copied. */
  function EscapeChars(s: string): (r: string)
    ensures |r| >= |s|
  {
    if s == [] then []
    else if Special(s[0]) then ['\\', s[0]] + EscapeChars(s[1..])
    else [s[0]] + EscapeChars(s[1..])
  }

  /** Reads a pattern back as literal text: a backslash must be followed by a
      metacharacter, and a metacharacter may not appear unescaped. `None` for
      any other pattern. */
  function Unescape(r: string): (s: Option<string>)
    decreases |r|
  {
    if r == [] then Some([])
    else if r[0] == '\\' then
      if |r| >= 2 && Special(r[1]) then
        match Unescape(r[2..])
        case Some(rest) => Some([r[1]] + rest)
        case None => None
      else None
    else if Special(r[0]) then None
    else
      match Unescape(r[1..])
      case Some(rest) => Some([r[0]] + rest)
      case None => None
  }

  /** Escaping leaves no metacharacter unescaped, and reading the pattern
      back gives the original text. */
  lemma {:induction false} UnescapeEscape(s: string)
    ensures Unescape(EscapeChars(s)) == Some(s)
  {
    if s != [] {
      UnescapeEscape(s[1..]);
      var r := EscapeChars(s);
      if Special(s[0]) {
        assert r[2..] == EscapeChars(s[1..]);
      } else {
        assert r[1..] == EscapeChars(s[1..]);
      }
      assert s == [s[0]] + s[1..];
    }
  }

  /** Every literal-text pattern is the escaping of what it reads as: the
      escaped form of a text is the only one. */
  lemma {:induction false} EscapeUnescape(r: string)
    requires Unescape(r).Some?
    ensures EscapeChars(Unescape(r).value) == r
    decreases |r|
  {
    if r != [] {
      var s := Unescape(r).value;
      if r[0] == '\\' {
        EscapeUnescape(r[2..]);
        assert s[1..] == Unescape(r[2..]).value;
        assert r == ['\\', r[1]] + r[2..];
      } else {
        EscapeUnescape(r[1..]);
        assert s[1..] == Unescape(r[1..]).value;
        assert r == [r[0]] + r[1..];
      }
    }
  }

  /** Different texts give different patterns. */
  lemma EscapeInjective(a: string, b: string)
    requires EscapeChars(a) == EscapeChars(b)
    ensures a == b
  {
    UnescapeEscape(a);
    UnescapeEscape(b);
  }

  /** A text without metacharacters is its own pattern. */
  lemma {:induction false} PlainTextUnchanged(s: string)
    requires forall i :: 0 <= i < |s| ==> !Special(s[i])
    ensures EscapeChars(s) == s
  {
    if s != [] {
      PlainTextUnchanged(s[1..]);
      assert s == [s[0]] + s[1..];
    }
  }

  /** The pattern for a search term; `None` when the term is empty (no text filter). */
  function SearchPattern(search: string): (r: Option<string>)
    ensures r.None? <==> search == ""
    ensures r.Some? ==> Unescape(r.value) == Some(Trim(search))
  {
    if search == "" then None
    else
      UnescapeEscape(Trim(search));
      Some(EscapeChars(Trim(search)))
  }
}
